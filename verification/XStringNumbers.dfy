/** Integer/radix conversion of src/xstring.cpp: xstrfromd, xstrnfromd and
    xstrtod. The digit count, which the source takes from floating-point
    logarithms, is a parameter: any count whose power of the radix exceeds the
    magnitude. */
module XStringNumbers {
  import opened X9PProtocol

  const INT_MAX := 0x7FFF_FFFF

  function Pow(b: nat, e: nat): nat {
    if e == 0 then 1 else b * Pow(b, e - 1)
  }

  /** Division and remainder of unsigned numbers, by counting subtractions. */
  function Quot(n: nat, r: nat): (q: nat)
    requires r > 0
    ensures q <= n
  {
    if n < r then 0 else 1 + Quot(n - r, r)
  }

  function Rem(n: nat, r: nat): (m: nat)
    requires r > 0
    ensures m < r && m <= n
  {
    if n < r then n else Rem(n - r, r)
  }

  function Abs(d: int): nat { if d < 0 then -d else d }

  /** Entry v of the digit palette "0123456789ABC...Z". */
  function DigitChar(v: nat): byte
    requires v < 36
  {
    if v < 10 then 48 + v else 55 + v
  }

  /** The low k digits of n, most significant first. */
  function Digits(n: nat, radix: nat, k: nat): (s: seq<byte>)
    requires 1 <= radix <= 36
    ensures |s| == k
  {
    if k == 0 then [] else Digits(Quot(n, radix), radix, k - 1) + [DigitChar(Rem(n, radix))]
  }

  function Sign(d: int): seq<byte> { if d < 0 then [45] else [] }

  /** Subtraction of unsigned chars. */
  function Minus(c: byte, d: byte): byte { if c >= d then c - d else c - d + 256 }

  /** Value of one character, with the source's 8-bit unsigned subtraction and
      signed comparison. */
  function DigitValue(c: byte, radix: nat): Option<nat> {
    var v := Minus(c, 48);
    if radix <= 10 then
      if v >= radix then None else Some(v)
    else if v < 10 then Some(v)
    else
      var w := if 97 <= c < 128 then c - 97 else Minus(c, 65);
      if w >= radix - 10 then None else Some(w + 10)
  }

  /** Horner value of a digit string, None at the first invalid character. */
  function DigitsValue(s: seq<byte>, radix: nat): Option<nat> {
    if s == [] then Some(0) else
    match DigitsValue(s[..|s| - 1], radix)
    case None => None
    case Some(p) =>
      match DigitValue(s[|s| - 1], radix)
      case None => None
      case Some(v) => Some(p * radix + v)
  }

  /** What xstrtod stores on success; None when it reports failure. */
  function ParseInt(s: seq<byte>, radix: int): Option<int> {
    if s == [] || s == [45] || radix < 1 || radix > 36 then None
    else if radix == 1 then Some(|s|)
    else
      var n := DigitsValue(DigitPart(s), radix);
      if n.None? then None else Some(if s[0] == 45 then -(n.value as int) else n.value)
  }

  /** No prefix of the digits overflows a 32-bit int. */
  ghost predicate FitsInt(digits: seq<byte>, radix: nat) {
    forall k | 0 <= k <= |digits| ::
      DigitsValue(digits[..k], radix).Some? ==> DigitsValue(digits[..k], radix).value <= INT_MAX
  }

  function DigitPart(s: seq<byte>): seq<byte> {
    if s != [] && s[0] == 45 then s[1..] else s
  }

  /** The parse loop of xstrtod. */
  method XstrToD(s: seq<byte>, radix: int) returns (ok: bool, out: int)
    requires 2 <= radix <= 36 ==> FitsInt(DigitPart(s), radix)
    ensures ok <==> ParseInt(s, radix).Some?
    ensures ok ==> out == ParseInt(s, radix).value
  {
    ok, out := false, 0;
    if |s| == 0 { return; }
    var negative := if s[0] == 45 then 1 else 0;
    if negative == 1 && |s| == 1 { return; }
    if radix < 1 || radix > 36 { return; }
    if radix == 1 {
      return true, |s|;
    }
    var d: int := 0;
    ghost var digits := DigitPart(s);
    for i := negative to |s|
      invariant DigitsValue(digits[..i - negative], radix) == Some(d)
      invariant 0 <= d <= INT_MAX
    {
      ghost var k := i - negative;
      var valid, v := CharValue(s[i], radix);
      NextDigit(digits, k, radix);
      if !valid {
        PrefixFails(digits, k + 1, radix);
        return;
      }
      d := d * radix + v;
    }
    assert digits[..|s| - negative] == digits;
    if negative == 1 { d := d * -1; }
    return true, d;
  }

  /** One character: digits only up to radix 10, digits and letters of either
      case above it. */
  method CharValue(c: byte, radix: nat) returns (valid: bool, v: nat)
    requires 2 <= radix <= 36
    ensures valid <==> DigitValue(c, radix).Some?
    ensures valid ==> v == DigitValue(c, radix).value
  {
    valid, v := false, Minus(c, 48);
    if radix <= 10 {
      if v >= radix { return; }
    } else if v >= 10 {
      if 97 <= c < 128 { v := c - 97; } else { v := Minus(c, 65); }
      if v >= radix - 10 { return; }
      v := v + 10;
    }
    valid := true;
  }

  lemma NextDigit(digits: seq<byte>, k: nat, radix: nat)
    requires k < |digits|
    ensures
      DigitsValue(digits[..k + 1], radix) ==
      match DigitsValue(digits[..k], radix)
      case None => None
      case Some(p) =>
        match DigitValue(digits[k], radix)
        case None => None
        case Some(v) => Some(p * radix + v)
  {
    assert digits[..k + 1][..k] == digits[..k];
    assert digits[..k + 1][k] == digits[k];
  }

  lemma {:induction false} PrefixFails(s: seq<byte>, k: nat, radix: nat)
    requires k <= |s| && DigitsValue(s[..k], radix) == None
    ensures DigitsValue(s, radix) == None
    decreases |s|
  {
    if k == |s| {
      assert s[..k] == s;
    } else {
      assert s[..|s| - 1][..k] == s[..k];
      PrefixFails(s[..|s| - 1], k, radix);
    }
  }

  /** Writes the low digits of d backwards so that they end just before
      position end of a. */
  method CopyInto(d: nat, radix: nat, decimals: nat, a: array<byte>, end: nat)
    requires 1 <= radix <= 36
    requires decimals <= end <= a.Length
    modifies a
    ensures a[..] == old(a[..end - decimals]) + Digits(d, radix, decimals) + old(a[end..])
  {
    var f: nat := d;
    ghost var was, tail: seq<byte> := a[..], [];
    for i := 0 to decimals
      invariant a[..end - i] == was[..end - i]
      invariant a[end - i..] == tail + was[end..]
      invariant Digits(d, radix, decimals) == Digits(f, radix, decimals - i) + tail
    {
      var c;
      c, f := NextLowDigit(f, radix, decimals - i, tail);
      PutBefore(a, end - i, c, tail, was[end..]);
      tail := [c] + tail;
    }
    assert a[..] == a[..end - decimals] + a[end - decimals..];
  }

  method NextLowDigit(f: nat, radix: nat, ghost k: nat, ghost tail: seq<byte>) returns (c: byte, rest: nat)
    requires 1 <= radix <= 36 && k > 0
    ensures Digits(f, radix, k) + tail == Digits(rest, radix, k - 1) + ([c] + tail)
  {
    DivisionIsQuot(f, radix);
    c, rest := DigitChar(f % radix), f / radix;
    Assoc(Digits(rest, radix, k - 1), [c], tail);
  }

  method PutBefore(a: array<byte>, p: nat, c: byte, ghost tail: seq<byte>, ghost rest: seq<byte>)
    requires 0 < p <= a.Length && a[p..] == tail + rest
    modifies a
    ensures a[..p - 1] == old(a[..p - 1])
    ensures a[p - 1..] == ([c] + tail) + rest
  {
    a[p - 1] := c;
    assert a[p - 1..] == [c] + old(a[p..]);
    Assoc([c], tail, rest);
  }

  /** xstrfromd: a freshly allocated xstr, length field included. */
  method XstrFromD(d: int, radix: nat, decimals: nat) returns (s: array<byte>)
    requires 1 <= radix <= 36 && Abs(d) <= INT_MAX
    requires decimals + |Sign(d)| <= XSTRLEN_MAX
    ensures fresh(s)
    ensures s[..] == EncodeStr(Sign(d) + Digits(Abs(d), radix, decimals))
  {
    var negative := d < 0;
    var m := if negative then d * -1 else d;
    var chars := decimals + (if negative then 1 else 0);
    s := new byte[2 + chars];
    PutText(m, negative, radix, decimals, s, chars);
  }

  /** xstrnfromd: out may be null; otherwise its first avail bytes may be
      written. The result is the size an ample buffer would take. */
  method XstrNFromD(d: int, radix: nat, decimals: nat, out: array?<byte>, avail: nat) returns (size: nat)
    requires 1 <= radix <= 36 && Abs(d) <= INT_MAX
    requires decimals + |Sign(d)| <= XSTRLEN_MAX
    requires out != null ==> avail <= out.Length
    modifies if out == null then {} else {out}
    ensures size == StrSize(Sign(d) + Digits(Abs(d), radix, decimals))
    ensures out != null ==> out[..] == Written(d, radix, decimals, avail, old(out[..]))
  {
    var negative := d < 0;
    var m := if negative then d * -1 else d;
    var sign := if negative then 1 else 0;
    var k := decimals;
    var chars := decimals + sign;
    if out != null {
      if avail > 2 {
        var room := avail - 2;
        var len := chars;
        if chars > room {
          len := room;
          k := room - sign;
        }
        ghost var text := Sign(d) + Digits(Abs(d), radix, k);
        ghost var was := out[..];
        PutText(m, negative, radix, k, out, len);
        assert EncodeStr(text) + was[StrSize(text)..] == out[..];
      } else if avail == 2 {
        ghost var was := out[..];
        out[0], out[1] := LengthBytes(0).0, LengthBytes(0).1;
        assert out[..] == EncodeStr([]) + was[2..];
      }
    }
    size := 2 + chars;
  }

  /** Length field, sign and k digits at the start of out. */
  method PutText(m: nat, negative: bool, radix: nat, k: nat, out: array<byte>, len: nat)
    requires 1 <= radix <= 36
    requires len == k + (if negative then 1 else 0) <= XSTRLEN_MAX && 2 + len <= out.Length
    modifies out
    ensures out[..] == EncodeStr((if negative then [45] else []) + Digits(m, radix, k)) + old(out[2 + len..])
  {
    out[0], out[1] := LengthBytes(len).0, LengthBytes(len).1;
    if negative { out[2] := 45; }
    ghost var before := out[..2 + len - k];
    assert before == [LengthBytes(len).0, LengthBytes(len).1] + (if negative then [45] else []);
    assert out[2 + len..] == old(out[2 + len..]);
    CopyInto(m, radix, k, out, 2 + len);
  }

  /** Digits that fit beside the sign in a buffer of avail bytes. */
  function Fitting(d: int, decimals: nat, avail: nat): nat
    requires avail > 2
  {
    if decimals + |Sign(d)| > avail - 2 then avail - 2 - |Sign(d)| else decimals
  }

  /** Buffer contents after xstrnfromd: nothing below two bytes, an empty
      string at exactly two, otherwise the sign and the digits that fit; bytes
      past the string keep their value. */
  function Written(d: int, radix: nat, decimals: nat, avail: nat, was: seq<byte>): seq<byte>
    requires 1 <= radix <= 36
    requires avail <= |was| && decimals + |Sign(d)| <= XSTRLEN_MAX
  {
    if avail < 2 then was
    else if avail == 2 then EncodeStr([]) + was[2..]
    else
      var text := Sign(d) + Digits(Abs(d), radix, Fitting(d, decimals, avail));
      EncodeStr(text) + was[StrSize(text)..]
  }

  lemma DigitCharValue(v: nat, radix: nat)
    requires v < radix <= 36
    ensures DigitValue(DigitChar(v), radix) == Some(v)
  {
  }

  /** Appending one digit to a string that parses. */
  lemma AppendDigit(s: seq<byte>, p: nat, v: nat, radix: nat)
    requires v < radix <= 36
    requires DigitsValue(s, radix) == Some(p)
    ensures DigitsValue(s + [DigitChar(v)], radix) == Some(p * radix + v)
  {
    DigitCharValue(v, radix);
    var t := s + [DigitChar(v)];
    assert t[..|t| - 1] == s;
  }

  lemma {:induction false} DigitsStep(n: nat, radix: nat, k: nat, hi: seq<byte>, p: nat)
    requires 2 <= radix <= 36
    requires hi == Digits(Quot(n, radix), radix, k) && DigitsValue(hi, radix) == Some(p)
    ensures DigitsValue(Digits(n, radix, k + 1), radix) == Some(p * radix + Rem(n, radix))
  {
    AppendDigit(hi, p, Rem(n, radix), radix);
  }

  /** The digits of n in any radix from 2 parse to n modulo the power of the
      radix that fits. */
  lemma {:induction false} DigitsParse(n: nat, radix: nat, k: nat)
    requires 2 <= radix <= 36
    ensures Pow(radix, k) > 0
    ensures DigitsValue(Digits(n, radix, k), radix) == Some(Rem(n, Pow(radix, k)))
    decreases k
  {
    PowPositive(radix, k);
    if k > 0 {
      var h, p := Quot(n, radix), Pow(radix, k - 1);
      DigitsParse(h, radix, k - 1);
      DigitsStep(n, radix, k - 1, Digits(h, radix, k - 1), Rem(h, p));
      SplitDigit(n, radix, p);
    } else {
      RemUnique(n, 1, n, 0);
    }
  }

  lemma {:induction false} PowPositive(b: nat, e: nat)
    requires b > 0
    ensures Pow(b, e) > 0
  {
    if e > 0 { PowPositive(b, e - 1); }
  }

  lemma Combine(n: nat, h: nat, r: nat, d: nat, q: nat, p: nat, m: nat)
    requires d < r && m < p && n == h * r + d && h == q * p + m
    ensures 0 <= m * r + d < r * p
    ensures n == q * (r * p) + (m * r + d)
  {
    Distribute(q * p, m, r);
    Distribute(m + 1, p - m - 1, r);
    assert (p - m - 1) * r >= 0 && (m + 1) * r == m * r + r;
    assert q * p * r == q * (r * p);
  }

  lemma Distribute(a: int, b: int, r: int)
    ensures (a + b) * r == a * r + b * r
  {
  }

  lemma SplitDigit(n: nat, r: nat, p: nat)
    requires r > 0 && p > 0
    ensures r * p > 0
    ensures Rem(n, r * p) == Rem(Quot(n, r), p) * r + Rem(n, r)
  {
    var h, d := Quot(n, r), Rem(n, r);
    var q, m := Quot(h, p), Rem(h, p);
    QuotRem(n, r);
    QuotRem(h, p);
    Combine(n, h, r, d, q, p, m);
    RemUnique(n, r * p, q, m * r + d);
  }

  lemma {:induction false} QuotRem(n: nat, r: nat)
    requires r > 0
    ensures n == Quot(n, r) * r + Rem(n, r)
  {
    if n >= r { QuotRem(n - r, r); }
  }

  lemma {:induction false} RemUnique(n: nat, m: nat, q: nat, low: nat)
    requires m > 0 && low < m && n == q * m + low
    ensures Rem(n, m) == low && Quot(n, m) == q
  {
    if q == 0 {
    } else {
      assert q * m == (q - 1) * m + m;
      assert (q - 1) * m >= 0;
      RemUnique(n - m, m, q - 1, low);
    }
  }

  /** The machine's operators on unsigned numbers. */
  lemma DivisionIsQuot(n: nat, r: nat)
    requires r > 0
    ensures n / r == Quot(n, r) && n % r == Rem(n, r)
  {
    var q := n / r;
    assert q >= 0 && n == q * r + n % r;
    RemUnique(n, r, q, n % r);
  }

  /** Prefixes of a digit string are digit strings of the shifted number. */
  lemma {:induction false} DigitsPrefix(n: nat, radix: nat, k: nat, j: nat) returns (m: nat)
    requires 1 <= radix <= 36 && j <= k
    ensures Digits(n, radix, k)[..j] == Digits(m, radix, j) && m <= n
  {
    if j == k {
      m := n;
    } else {
      m := DigitsPrefix(Quot(n, radix), radix, k - 1, j);
      assert Digits(n, radix, k)[..j] == Digits(Quot(n, radix), radix, k - 1)[..j];
    }
  }

  lemma DigitsFit(n: nat, radix: nat, k: nat)
    requires 2 <= radix <= 36 && n <= INT_MAX
    ensures FitsInt(Digits(n, radix, k), radix)
  {
    forall j | 0 <= j <= k
      ensures DigitsValue(Digits(n, radix, k)[..j], radix).Some? ==>
                DigitsValue(Digits(n, radix, k)[..j], radix).value <= INT_MAX
    {
      var m := DigitsPrefix(n, radix, k, j);
      DigitsParse(m, radix, j);
    }
  }

  lemma {:induction false} DigitsAreNotMinus(n: nat, radix: nat, k: nat)
    requires 1 <= radix <= 36
    ensures forall i | 0 <= i < k :: Digits(n, radix, k)[i] != 45
  {
    if k > 0 { DigitsAreNotMinus(Quot(n, radix), radix, k - 1); }
  }

  /** Printing then parsing is the identity, for every radix from 2 to 36,
      every int but the most negative, and every sufficient digit count. */
  lemma {:induction false} RoundTrip(d: int, radix: nat, k: nat)
    requires 2 <= radix <= 36 && Abs(d) <= INT_MAX
    requires k >= 1 && Pow(radix, k) > Abs(d)
    ensures ParseInt(Sign(d) + Digits(Abs(d), radix, k), radix) == Some(d)
  {
    var n := Abs(d);
    DigitsParse(n, radix, k);
    RemUnique(n, Pow(radix, k), 0, n);
    DigitsAreNotMinus(n, radix, k);
    SignedParse(d, Digits(n, radix, k), radix);
  }

  /** The parse of a printed int, of however many digits, stays inside 32 bits
      all along. */
  lemma {:induction false} PrintedFits(d: int, radix: nat, k: nat)
    requires 2 <= radix <= 36 && Abs(d) <= INT_MAX && k >= 1
    ensures FitsInt(DigitPart(Sign(d) + Digits(Abs(d), radix, k)), radix)
  {
    var digits := Digits(Abs(d), radix, k);
    DigitsAreNotMinus(Abs(d), radix, k);
    DigitsFit(Abs(d), radix, k);
    DigitsParse(Abs(d), radix, k);
    SignedParse(d, digits, radix);
  }

  /** A string cut short by xstrnfromd keeps the low-order digits: it parses to
      the magnitude modulo the power of the radix that fits, sign kept. */
  lemma TruncatedValue(d: int, radix: nat, decimals: nat, avail: nat)
    requires 2 <= radix <= 36 && Abs(d) <= INT_MAX
    requires avail > 2 && Fitting(d, decimals, avail) >= 1
    ensures
      var k := Fitting(d, decimals, avail);
      Pow(radix, k) > 0 &&
      var low: int := Rem(Abs(d), Pow(radix, k));
      ParseInt(Sign(d) + Digits(Abs(d), radix, k), radix) == Some(if d < 0 then -low else low)
  {
    var k := Fitting(d, decimals, avail);
    DigitsParse(Abs(d), radix, k);
    DigitsAreNotMinus(Abs(d), radix, k);
    SignedParse(d, Digits(Abs(d), radix, k), radix);
  }

  /** A sign followed by digits parses to the signed value of the digits. */
  lemma SignedParse(d: int, digits: seq<byte>, radix: nat)
    requires 2 <= radix <= 36 && digits != [] && digits[0] != 45
    requires DigitsValue(digits, radix).Some?
    ensures
      var v: int := DigitsValue(digits, radix).value;
      && DigitPart(Sign(d) + digits) == digits
      && ParseInt(Sign(d) + digits, radix) == Some(if d < 0 then -v else v)
  {
    var s := Sign(d) + digits;
    if d < 0 {
      assert s[1..] == digits;
    } else {
      assert s == digits;
    }
  }

  /** Radix 1 tallies: the digit count is the magnitude (one for zero), and
      the round trip holds exactly for the positive numbers. */
  lemma TallyRoundTrip(d: int)
    ensures
      var k := if d == 0 then 1 else Abs(d);
      ParseInt(Sign(d) + Digits(Abs(d), 1, k), 1) == Some(d) <==> d > 0
  {
    var k := if d == 0 then 1 else Abs(d);
    DigitsAreNotMinus(Abs(d), 1, k);
    var s := Sign(d) + Digits(Abs(d), 1, k);
    assert |s| == k + |Sign(d)|;
    assert d >= 0 ==> s[0] == Digits(Abs(d), 1, k)[0];
  }

  function LowerChar(c: byte): byte { if 65 <= c <= 90 then c + 32 else c }

  function Lower(s: seq<byte>): (r: seq<byte>)
    ensures |r| == |s|
  {
    if s == [] then [] else Lower(s[..|s| - 1]) + [LowerChar(s[|s| - 1])]
  }

  lemma LowerCharValue(c: byte, radix: nat)
    requires 1 <= radix <= 36
    ensures DigitValue(LowerChar(c), radix) == DigitValue(c, radix)
  {
  }

  lemma {:induction false} LowerDigits(s: seq<byte>, radix: nat)
    requires 1 <= radix <= 36
    ensures DigitsValue(Lower(s), radix) == DigitsValue(s, radix)
  {
    if s != [] {
      var i := |s| - 1;
      LowerDigits(s[..i], radix);
      LowerCharValue(s[i], radix);
      assert Lower(s)[..i] == Lower(s[..i]);
    }
  }

  lemma {:induction false} LowerTail(s: seq<byte>)
    requires s != []
    ensures Lower(s)[0] == LowerChar(s[0]) && Lower(s)[1..] == Lower(s[1..])
  {
    var i := |s| - 1;
    if i > 0 {
      LowerTail(s[..i]);
      assert s[..i][1..] == s[1..][..i - 1];
      assert s[1..][i - 1] == s[i];
      assert Lower(s)[1..] == Lower(s[..i])[1..] + [LowerChar(s[i])];
    }
  }

  lemma LowerParts(s: seq<byte>)
    requires s != []
    ensures Lower(s)[0] == 45 <==> s[0] == 45
    ensures Lower(s) == [45] <==> s == [45]
    ensures DigitPart(Lower(s)) == Lower(DigitPart(s))
  {
    LowerTail(s);
    assert s[0] == 45 && |s| == 1 ==> s == [45];
    assert Lower(s)[0] == 45 && |s| == 1 ==> Lower(s) == [45];
  }

  lemma LowerSigned(s: seq<byte>, radix: nat)
    requires 2 <= radix <= 36 && s != [] && s != [45] && Lower(s) != [] && Lower(s) != [45]
    requires Lower(s)[0] == 45 <==> s[0] == 45
    requires DigitsValue(DigitPart(Lower(s)), radix) == DigitsValue(DigitPart(s), radix)
    ensures ParseInt(Lower(s), radix) == ParseInt(s, radix)
  {
  }

  /** Lower-casing any string leaves what it parses to unchanged. */
  lemma {:induction false} ParseIgnoresCase(s: seq<byte>, radix: int)
    ensures ParseInt(Lower(s), radix) == ParseInt(s, radix)
  {
    if s != [] {
      LowerParts(s);
      if s != [45] && 2 <= radix <= 36 {
        LowerDigits(DigitPart(s), radix);
        LowerSigned(s, radix);
      }
    }
  }

  // ------------------------------------------------------- which characters count

  /** c is the digit of value v: '0' to '9', then letters of either case. */
  predicate IsDigit(c: byte, v: nat) {
    (48 <= c <= 57 && v == c - 48) || (65 <= c <= 90 && v == c - 55) || (97 <= c <= 122 && v == c - 87)
  }

  /** What a buffer with room for avail bytes holds afterwards: its length as it
      was; nothing new in less than two bytes; otherwise a length that is the
      text's or what there is room for, the sign, and as many of the low digits as
      fit behind it, all else as it was. */
  lemma WhatIsWritten(d: int, radix: nat, decimals: nat, avail: nat, was: seq<byte>)
    requires 1 <= radix <= 36
    requires avail <= |was| && decimals + (if d < 0 then 1 else 0) <= XSTRLEN_MAX
    ensures
      var now, sign := Written(d, radix, decimals, avail, was), if d < 0 then 1 else 0;
      && |now| == |was|
      && (avail < 2 ==> now == was)
      && (avail >= 2 ==>
            var len := if sign + decimals <= avail - 2 then sign + decimals else avail - 2;
            && Short(now[0], now[1]) == len
            && now[2 + len..] == was[2 + len..]
            && (avail > 2 && d < 0 ==> now[2] == 45)
            && (avail > 2 ==> now[2 + sign..2 + len] == Digits(if d < 0 then -d else d, radix, len - sign)))
  {
    if avail > 2 {
      var k := Fitting(d, decimals, avail);
      var digits := Digits(Abs(d), radix, k);
      InBuffer(Sign(d), digits, was);
    } else if avail == 2 {
      InBuffer([], [], was);
      assert [] + [] == EncodeStr([])[2..2] == [];
    }
  }

  lemma InBuffer(sign: seq<byte>, digits: seq<byte>, was: seq<byte>)
    requires |sign| + |digits| <= XSTRLEN_MAX && 2 + |sign| + |digits| <= |was|
    ensures
      var text := sign + digits;
      var now := EncodeStr(text) + was[StrSize(text)..];
      && |now| == |was| && Short(now[0], now[1]) == |text| && now[2 + |text|..] == was[2 + |text|..]
      && now[2..2 + |sign|] == sign && now[2 + |sign|..2 + |text|] == digits
  {
    hide LengthBytes;
    var text := sign + digits;
    var now := EncodeStr(text) + was[StrSize(text)..];
    assert now[..2 + |text|] == EncodeStr(text);
    assert EncodeStr(text)[2..] == text;
  }

  /** A character has the value of the digit it is, in radixes above that value,
      and none otherwise. */
  lemma DigitsAreThese(c: byte, radix: nat)
    requires 2 <= radix <= 36
    ensures forall v: nat :: DigitValue(c, radix) == Some(v) <==> IsDigit(c, v) && v < radix
  {
  }

  /** Each digit printed is the one of its value, letters in upper case. */
  lemma PaletteIsDigits(v: nat)
    requires v < 36
    ensures IsDigit(DigitChar(v), v) && !(97 <= DigitChar(v) <= 122)
  {
  }

  /** c is a digit of the radix. */
  predicate DigitOf(c: byte, radix: nat) {
    (48 <= c <= 57 && c - 48 < radix) || (65 <= c <= 90 && c - 55 < radix) || (97 <= c <= 122 && c - 87 < radix)
  }

  lemma {:induction false} DigitsValueIff(s: seq<byte>, radix: nat)
    requires 2 <= radix <= 36
    ensures DigitsValue(s, radix).Some? <==> forall i | 0 <= i < |s| :: DigitOf(s[i], radix)
  {
    hide DigitOf, DigitValue;
    if s != [] {
      var n := |s| - 1;
      DigitsValueIff(s[..n], radix);
      DigitOrNone(s[n], radix);
      forall i | 0 <= i < n ensures s[..n][i] == s[i] {}
    }
  }

  lemma DigitOrNone(c: byte, radix: nat)
    requires 2 <= radix <= 36
    ensures DigitValue(c, radix).Some? <==> DigitOf(c, radix)
  {
  }

  /** A string is accepted if and only if, behind a "-" it may begin with, there
      are only digits of the radix, and it is neither empty nor "-" alone; in
      radix 1 every character counts. */
  lemma {:induction false} AcceptedIff(s: seq<byte>, radix: int)
    ensures ParseInt(s, radix).Some? <==>
            && 1 <= radix <= 36 && s != [] && s != [45]
            && (radix == 1 || forall i | (if s[0] == 45 then 1 else 0) <= i < |s| :: DigitOf(s[i], radix))
  {
    hide DigitOf, DigitsValue;
    if 2 <= radix <= 36 && s != [] && s != [45] {
      DigitsValueIff(DigitPart(s), radix);
      if s[0] == 45 { Behind(s, radix); }
    }
  }

  lemma Behind(s: seq<byte>, radix: nat)
    requires s != []
    ensures (forall i | 0 <= i < |s[1..]| :: DigitOf(s[1..][i], radix)) <==> forall i | 1 <= i < |s| :: DigitOf(s[i], radix)
  {
    hide DigitOf;
    if forall i | 0 <= i < |s[1..]| :: DigitOf(s[1..][i], radix) {
      forall i | 1 <= i < |s| ensures DigitOf(s[i], radix) { assert s[1..][i - 1] == s[i]; }
    }
  }
}
