/** FNV-1a hashing of src/xstring.cpp on a 64-bit platform. Characters are
    signed 8-bit values there, so a byte above 127 is sign-extended when it
    meets the 64-bit hash. */
module XStringHash {
  import opened X9PProtocol

  const BASIS := 0xcbf29ce484222325
  const PRIME := 0x100000001b3
  const WORD := 0x1_0000_0000_0000_0000

  /** Bitwise exclusive or of the low n bits. */
  function Xor(a: nat, b: nat, n: nat): nat {
    if n == 0 then 0 else (a + b) % 2 + 2 * Xor(a / 2, b / 2, n - 1)
  }

  function SignExtend(c: byte): nat {
    if c < 128 then c else WORD - 256 + c
  }

  function Mix(hash: nat, c: byte): nat {
    Xor(hash, SignExtend(c), 64) * PRIME % WORD
  }

  function HashFrom(h: nat, s: seq<byte>): nat
    decreases |s|
  {
    if s == [] then h else HashFrom(Mix(h, s[0]), s[1..])
  }

  function Hash(s: seq<byte>): nat { HashFrom(BASIS, s) }

  function ToUpper(c: byte): byte {
    if 97 <= c <= 122 then c - 32 else c
  }

  function Upper(s: seq<byte>): (r: seq<byte>)
    ensures |r| == |s| && forall i | 0 <= i < |s| :: r[i] == ToUpper(s[i])
  {
    seq(|s|, i requires 0 <= i < |s| => ToUpper(s[i]))
  }

  /** Same length, and each pair of characters equal or two cases of one
      ASCII letter. */
  ghost predicate EqualUpToCase(s: seq<byte>, t: seq<byte>) {
    |s| == |t| &&
    forall i | 0 <= i < |s| ::
      s[i] == t[i] ||
      (65 <= s[i] <= 90 && t[i] == s[i] + 32) ||
      (65 <= t[i] <= 90 && s[i] == t[i] + 32)
  }

  /** The loop shared by xstrhash, xstrihash, xstrnhash and xstrnihash. */
  method XstrHash(s: seq<byte>, caseInvariant: bool, useLen: bool, limit: nat) returns (hash: nat)
    ensures
      var prefix := if useLen && limit < |s| then s[..limit] else s;
      hash == Hash(if caseInvariant then Upper(prefix) else prefix)
  {
    var len := |s|;
    if useLen {
      len := limit;
      if len > |s| { len := |s|; }
    }
    ghost var text := if caseInvariant then Upper(s[..len]) else s[..len];
    assert s[..|s|] == s;
    hash := BASIS;
    assert text[0..] == text;
    for i := 0 to len
      invariant HashFrom(hash, text[i..]) == Hash(text)
    {
      var c := if caseInvariant then ToUpper(s[i]) else s[i];
      assert text[i] == c && text[i..][1..] == text[i + 1..];
      hash := Xor(hash, SignExtend(c), 64) * PRIME % WORD;
    }
    assert text[len..] == [];
  }

  ghost function Pow2(n: nat): nat {
    if n == 0 then 1 else 2 * Pow2(n - 1)
  }

  lemma {:induction false} XorInjective(a: nat, a': nat, b: nat, b': nat, n: nat)
    requires a == a' || b == b'
    requires a < Pow2(n) && a' < Pow2(n) && b < Pow2(n) && b' < Pow2(n)
    requires Xor(a, b, n) == Xor(a', b', n)
    ensures a == a' && b == b'
  {
    if n > 0 {
      var x, x' := Xor(a / 2, b / 2, n - 1), Xor(a' / 2, b' / 2, n - 1);
      LowBit((a + b) % 2, x, (a' + b') % 2, x');
      XorInjective(a / 2, a' / 2, b / 2, b' / 2, n - 1);
      SameParity(a, a', b, b');
    }
  }

  lemma LowBit(p: nat, x: nat, p': nat, x': nat)
    requires p < 2 && p' < 2 && p + 2 * x == p' + 2 * x'
    ensures p == p' && x == x'
  {
  }

  lemma SameParity(a: nat, a': nat, b: nat, b': nat)
    requires a == a' || b == b'
    requires (a + b) % 2 == (a' + b') % 2
    requires a / 2 == a' / 2 && b / 2 == b' / 2
    ensures a == a' && b == b'
  {
  }

  lemma {:induction false} XorBound(a: nat, b: nat, n: nat)
    ensures Xor(a, b, n) < Pow2(n)
  {
    if n > 0 { XorBound(a / 2, b / 2, n - 1); }
  }

  lemma {:induction false} Pow2Sum(m: nat, n: nat)
    ensures Pow2(m + n) == Pow2(m) * Pow2(n)
  {
    if m > 0 { Pow2Sum(m - 1, n); }
  }

  lemma WordIsPow2()
    ensures Pow2(64) == WORD
  {
    assert Pow2(2) == 4;
    Pow2Sum(2, 2);
    Pow2Sum(4, 4);
    Pow2Sum(8, 8);
    Pow2Sum(16, 16);
    Pow2Sum(32, 32);
  }

  /** Multiplying by the odd prime is undone by its inverse modulo the word. */
  lemma TimesPrimeInvertible(h: nat)
    requires h < WORD
    ensures h * PRIME % WORD * 0xce965057aff6957b % WORD == h
  {
    var q, r := h * PRIME / WORD, h * PRIME % WORD;
    assert h * 0x100000001b3 == q * 0x1_0000_0000_0000_0000 + r;
    var t := h * 887285111055 - 0xce965057aff6957b * q;
    assert r * 0xce965057aff6957b == h + 0x1_0000_0000_0000_0000 * t;
  }

  /** One step of the hash loses nothing: different hashes stay different
      under one character, and one hash is split by different characters. */
  lemma MixInjective(h: nat, k: nat, c: byte, d: byte)
    requires h < WORD && k < WORD
    requires h == k || c == d
    requires Mix(h, c) == Mix(k, d)
    ensures h == k && c == d
  {
    WordIsPow2();
    XorBound(h, SignExtend(c), 64);
    XorBound(k, SignExtend(d), 64);
    TimesPrimeInvertible(Xor(h, SignExtend(c), 64));
    TimesPrimeInvertible(Xor(k, SignExtend(d), 64));
    XorInjective(h, k, SignExtend(c), SignExtend(d), 64);
  }

  lemma {:induction false} HashFromInjective(h: nat, k: nat, s: seq<byte>)
    requires h < WORD && k < WORD && h != k
    ensures HashFrom(h, s) != HashFrom(k, s)
    decreases |s|
  {
    if s != [] {
      if Mix(h, s[0]) == Mix(k, s[0]) { MixInjective(h, k, s[0], s[0]); }
      HashFromInjective(Mix(h, s[0]), Mix(k, s[0]), s[1..]);
    }
  }

  /** Changing exactly one character always changes the hash. */
  lemma {:induction false} OneCharacterApart(h: nat, s: seq<byte>, p: nat, c: byte)
    requires h < WORD && p < |s| && s[p] != c
    ensures HashFrom(h, s) != HashFrom(h, s[p := c])
    decreases |s|
  {
    var t := s[p := c];
    if p == 0 {
      assert t[1..] == s[1..];
      if Mix(h, s[0]) == Mix(h, c) { MixInjective(h, h, s[0], c); }
      HashFromInjective(Mix(h, s[0]), Mix(h, c), s[1..]);
    } else {
      assert t[1..] == s[1..][p - 1 := c];
      OneCharacterApart(Mix(h, s[0]), s[1..], p - 1, c);
    }
  }

  /** Strings equal up to case have the same case-insensitive hash. */
  lemma CaseInvariant(s: seq<byte>, t: seq<byte>)
    requires EqualUpToCase(s, t)
    ensures Hash(Upper(s)) == Hash(Upper(t))
  {
    assert Upper(s) == Upper(t);
  }

  lemma {:induction false} XorZero(a: nat, n: nat)
    requires a < Pow2(n)
    ensures Xor(a, 0, n) == a
  {
    if n > 0 { XorZero(a / 2, n - 1); }
  }

  lemma XorUnfolds(a: nat, b: nat, n: nat, r: nat)
    requires n > 0 && Xor(a / 2, b / 2, n - 1) == r / 2 && r % 2 == (a + b) % 2
    ensures Xor(a, b, n) == r
  {
  }

  /** The low eight bits of the basis meet the character. */
  lemma BasisMeetsA()
    ensures Xor(BASIS, 97, 64) == 0xcbf29ce484222344
  {
    hide Xor, Pow2;
    Pow2Of56();
    XorZero(0xcbf29ce4842223, 56);
    XorUnfolds(0x197e539c9084446, 0, 57, 0x197e539c9084446);
    XorUnfolds(0x32fca739210888c, 1, 58, 0x32fca739210888d);
    XorUnfolds(0x65f94e724211119, 3, 59, 0x65f94e72421111a);
    XorUnfolds(0xcbf29ce48422232, 6, 60, 0xcbf29ce48422234);
    XorUnfolds(0x197e539c90844464, 12, 61, 0x197e539c90844468);
    XorUnfolds(0x32fca739210888c9, 24, 62, 0x32fca739210888d1);
    XorUnfolds(0x65f94e7242111192, 48, 63, 0x65f94e72421111a2);
    XorUnfolds(0xcbf29ce484222325, 97, 64, 0xcbf29ce484222344);
  }

  /** Hashes as FNV-1a with 64 bits has them. */
  lemma KnownHashes()
    ensures Hash([]) == 0xcbf29ce484222325
    ensures Hash([97]) == 0xaf63dc4c8601ec8c
  {
    hide Xor;
    BasisMeetsA();
    assert Mix(BASIS, 97) == 0xaf63dc4c8601ec8c;
    HashOfOne(97);
  }

  lemma HashOfOne(c: byte)
    ensures Hash([c]) == Mix(BASIS, c)
  {
    hide Mix;
    assert [c][1..] == [];
    assert HashFrom(BASIS, [c]) == HashFrom(Mix(BASIS, c), []);
  }

  lemma Pow2Of56()
    ensures Pow2(56) == 0x100_0000_0000_0000
  {
    assert Pow2(2) == 4;
    Pow2Sum(2, 2);
    Pow2Sum(4, 4);
    Pow2Sum(8, 8);
    Pow2Sum(16, 16);
    Pow2Sum(32, 16);
    Pow2Sum(48, 8);
  }

  // -------------------------------------------------------- signed characters

  lemma {:induction false} XorParts(lo: nat, hi: nat, lo': nat, hi': nat, k: nat, n: nat)
    requires lo < Pow2(k) && lo' < Pow2(k)
    ensures Xor(lo + Pow2(k) * hi, lo' + Pow2(k) * hi', k + n) == Xor(lo, lo', k) + Pow2(k) * Xor(hi, hi', n)
  {
    hide Xor, Pow2;
    if k == 0 {
      XorNone(lo, lo', hi, hi', n);
    } else {
      var p, x := Pow2(k - 1), Xor(hi, hi', n);
      PowStep(k);
      XorParts(lo / 2, hi, lo' / 2, hi', k - 1, n);
      Twice(p, hi);
      Twice(p, hi');
      Twice(p, x);
      XorStep(lo, lo', k);
      XorAbove(lo, p * hi, lo', p * hi', k + n);
    }
  }

  lemma XorNone(lo: nat, lo': nat, hi: nat, hi': nat, n: nat)
    requires lo < Pow2(0) && lo' < Pow2(0)
    ensures Xor(lo + Pow2(0) * hi, lo' + Pow2(0) * hi', 0 + n) == Xor(lo, lo', 0) + Pow2(0) * Xor(hi, hi', n)
  {
  }

  lemma PowStep(k: nat)
    requires k > 0
    ensures Pow2(k) == 2 * Pow2(k - 1)
  {
  }

  lemma XorStep(a: nat, b: nat, n: nat)
    requires n > 0
    ensures Xor(a, b, n) == (a + b) % 2 + 2 * Xor(a / 2, b / 2, n - 1)
  {
  }

  lemma Twice(p: nat, x: nat)
    ensures (2 * p) * x == 2 * (p * x)
  {
  }

  lemma XorAbove(lo: nat, x: nat, lo': nat, y: nat, n: nat)
    requires n > 0
    ensures Xor(lo + 2 * x, lo' + 2 * y, n) == (lo + lo') % 2 + 2 * Xor(lo / 2 + x, lo' / 2 + y, n - 1)
  {
    hide Xor;
    Halved(lo, x);
    Halved(lo', y);
    Parity(lo, lo', x, y);
    XorStep(lo + 2 * x, lo' + 2 * y, n);
  }

  lemma Halved(lo: nat, x: nat)
    ensures (lo + 2 * x) / 2 == lo / 2 + x
  {
  }

  lemma Parity(lo: nat, lo': nat, x: nat, y: nat)
    ensures (lo + 2 * x + (lo' + 2 * y)) % 2 == (lo + lo') % 2
  {
  }

  lemma {:induction false} XorOnes(a: nat, n: nat)
    requires a < Pow2(n)
    ensures Xor(a, Pow2(n) - 1, n) == Pow2(n) - 1 - a
  {
    if n == 0 {
      assert Pow2(0) == 1;
    } else {
      hide Xor, Pow2;
      PowStep(n);
      XorOnes(a / 2, n - 1);
      XorStep(a, Pow2(n) - 1, n);
      OnesStep(a, Pow2(n - 1));
    }
  }

  lemma OnesStep(a: nat, q: nat)
    requires q > 0
    ensures (2 * q - 1) / 2 == q - 1
    ensures (a + (2 * q - 1)) % 2 + 2 * (q - 1 - a / 2) == 2 * q - 1 - a
  {
    assert 2 * q - 1 == 1 + 2 * (q - 1);
    Halved(1, q - 1);
    var h := a / 2;
    if a % 2 == 0 {
      OddOrEven(1, h + q - 1);
      assert a + (2 * q - 1) == 1 + 2 * (h + q - 1);
    } else {
      OddOrEven(0, h + q);
      assert a + (2 * q - 1) == 0 + 2 * (h + q);
    }
  }

  lemma OddOrEven(p: nat, x: nat)
    requires p < 2
    ensures (p + 2 * x) % 2 == p
  {
  }

  /** One step of the hash with the character as the signed number it is: the low
      eight bits meet it, and those above stay if it is not negative and are
      flipped if it is. */
  lemma SignedCharacter(h: nat, c: byte)
    requires h < WORD
    ensures
      var high := if c < 128 then h / 256 else 0xFF_FFFF_FFFF_FFFF - h / 256;
      Mix(h, c) == (Xor(h % 256, c, 8) + 256 * high) * PRIME % WORD
  {
    hide Xor, Pow2;
    Pow2Of56();
    Pow2Of8();
    var ext: nat := if c < 128 then 0 else 0xFF_FFFF_FFFF_FFFF;
    XorParts(h % 256, h / 256, c, ext, 8, 56);
    if c < 128 { XorZero(h / 256, 56); } else { XorOnes(h / 256, 56); }
    assert h == h % 256 + 256 * (h / 256) && SignExtend(c) == c + 256 * ext;
  }

  lemma Pow2Of8()
    ensures Pow2(8) == 256
  {
  }

  /** Case folding leaves no lower-case letter and changes nothing but case. */
  lemma FoldsToCapitals(s: seq<byte>)
    ensures EqualUpToCase(s, Upper(s)) && forall c <- Upper(s) :: !(97 <= c <= 122)
  {
    forall i | 0 <= i < |s| ensures !(97 <= Upper(s)[i] <= 122) {}
  }
}
