/** The serialised stat of src/XApiFileSystem.cpp (fsapistat), and what the
    reader of a directory makes of a stream of them. */
module FileStat {
  import opened X9PProtocol
  import opened XStringWalk
  import opened WalkMessage
  import opened DirectoryRead

  /** What fsapistat asks a node for; kind is the type byte of its qid. */
  datatype Stat = Stat(kind: byte, version: nat, path: nat, atime: nat, mtime: nat, length: nat,
                       name: Name, uid: Name, gid: Name, muid: Name)

  // ------------------------------------------------------------- specification

  function Names(st: Stat): seq<Name> { [st.name, st.uid, st.gid, st.muid] }

  /** Everything is within the width of its field. */
  ghost predicate Storable(st: Stat) {
    && st.version < Pow256(4) && st.path < Pow256(8) && st.length < Pow256(8)
    && st.atime < Pow256(4) && st.mtime < Pow256(4)
    && forall n <- Names(st) :: |n| <= XSTRLEN_MAX
  }

  /** Read, write and execute permission for all; the type in the high byte. */
  function Mode(kind: byte): nat { 0x1FF + 0x100_0000 * kind }

  function StatSize(st: Stat): nat { SIZEOF_STAT + StrsSize(Names(st)) }

  /** The size field: all of the record, its low 16 bits. */
  function SizeField(st: Stat): (s: seq<byte>)
    ensures |s| == 2
  {
    var bytes := LengthBytes(Low16(StatSize(st)));
    [bytes.0, bytes.1]
  }

  /** type and dev, left as they are in a cleared buffer */
  const UNUSED: seq<byte> := [0, 0, 0, 0, 0, 0]

  /** qid[13] mode[4] atime[4] mtime[4] length[8] */
  function Attributes(st: Stat): (s: seq<byte>)
    ensures |s| == SIZEOF_STAT - 8
  {
    ([st.kind] + LittleEndian(st.version, 4) + LittleEndian(st.path, 8))
    + LittleEndian(Mode(st.kind), 4) + LittleEndian(st.atime, 4) + LittleEndian(st.mtime, 4) + LittleEndian(st.length, 8)
  }

  /** size[2] unused[6] and the attributes */
  function Fixed(st: Stat): (s: seq<byte>)
    ensures |s| == SIZEOF_STAT
  {
    SizeField(st) + UNUSED + Attributes(st)
  }

  function EncodeStat(st: Stat): (r: Record)
    requires forall n <- Names(st) :: |n| <= XSTRLEN_MAX
    ensures |r| == StatSize(st)
  {
    Fixed(st) + EncodeStrs(Names(st))
  }

  /** A record read back through the accessors of stat_t. */
  function ParseStat(b: seq<byte>): Option<Stat> {
    if |b| < SIZEOF_STAT then None
    else
      var strs := StrsAt(b, SIZEOF_STAT, 4);
      if strs.PastTheEnd? || |strs.names| != 4 || strs.end != |b| then None
      else
        Some(Stat(b[8], FromLittleEndian(b[9..13]), FromLittleEndian(b[13..21]),
                  FromLittleEndian(b[25..29]), FromLittleEndian(b[29..33]), FromLittleEndian(b[33..41]),
                  strs.names[0], strs.names[1], strs.names[2], strs.names[3]))
  }

  /** A stream of records, each as long as its size field says. */
  function ParseAll(b: seq<byte>): Option<seq<Stat>>
    decreases |b|
  {
    if b == [] then Some([])
    else if |b| < 2 || LengthAt(b, 0) == 0 || LengthAt(b, 0) > |b| then None
    else
      var n := LengthAt(b, 0);
      var first, rest := ParseStat(b[..n]), ParseAll(b[n..]);
      if first.None? || rest.None? then None else Some([first.value] + rest.value)
  }

  function Encodes(sts: seq<Stat>): (rs: seq<Record>)
    requires forall st <- sts, n <- Names(st) :: |n| <= XSTRLEN_MAX
    ensures |rs| == |sts|
  {
    if sts == [] then [] else [EncodeStat(sts[0])] + Encodes(sts[1..])
  }

  // ------------------------------------------------------------------ lemmas

  lemma {:induction false} StrsEnd(b: seq<byte>, off: nat, n: nat)
    requires StrsAt(b, off, n).Strs?
    ensures StrsAt(b, off, n).end == off + StrsSize(StrsAt(b, off, n).names)
    ensures |StrsAt(b, off, n).names| == n
    decreases n
  {
    if n > 0 {
      var next := off + 2 + LengthAt(b, off);
      StrsEnd(b, next, n - 1);
      var names := StrsAt(b, off, n).names;
      assert names[1..] == StrsAt(b, next, n - 1).names;
    }
  }

  lemma Field(n: nat, k: nat, b: seq<byte>, i: nat)
    requires n < Pow256(k) && i + k <= |b| && b[i..i + k] == LittleEndian(n, k)
    ensures FromLittleEndian(b[i..i + k]) == n
  {
    LittleEndianRoundTrip(n, k);
  }

  lemma FixedFields(st: Stat)
    ensures
      var f := Fixed(st);
      && f[..2] == SizeField(st) && f[8] == st.kind
      && f[9..13] == LittleEndian(st.version, 4) && f[13..21] == LittleEndian(st.path, 8)
      && f[21..25] == LittleEndian(Mode(st.kind), 4)
      && f[25..29] == LittleEndian(st.atime, 4) && f[29..33] == LittleEndian(st.mtime, 4)
      && f[33..41] == LittleEndian(st.length, 8)
  {
    hide LittleEndian, SizeField;
  }

  /** The parts of a record where the accessors look for them. */
  lemma RecordParts(st: Stat)
    requires forall n <- Names(st) :: |n| <= XSTRLEN_MAX
    ensures
      var r := EncodeStat(st);
      && r[..SIZEOF_STAT] == Fixed(st)
      && r[SIZEOF_STAT..SIZEOF_STAT + StrsSize(Names(st))] == EncodeStrs(Names(st))
  {
    hide Fixed, EncodeStrs, Names;
    TwoParts(Fixed(st), EncodeStrs(Names(st)), []);
    assert EncodeStat(st) + [] == EncodeStat(st);
  }

  lemma SameField(r: seq<byte>, f: seq<byte>, i: nat, j: nat)
    requires |f| <= |r| && r[..|f|] == f && i <= j <= |f|
    ensures r[i..j] == f[i..j]
  {
    SubSlice(r, 0, |f|, i, j);
    assert r[0..|f|] == r[..|f|];
  }

  /** The size a record declares is its length, when that fits 16 bits. */
  lemma DeclaredSize(st: Stat)
    requires forall n <- Names(st) :: |n| <= XSTRLEN_MAX
    ensures LengthAt(EncodeStat(st), 0) == Low16(StatSize(st))
    ensures LengthAt(EncodeStat(st), 0) == |EncodeStat(st)| <==> StatSize(st) <= XSTRLEN_MAX
  {
    hide LittleEndian, EncodeStrs;
    RecordParts(st);
    var r, f := EncodeStat(st), Fixed(st);
    FixedFields(st);
    assert r[0] == r[..SIZEOF_STAT][0] == f[0] == f[..2][0];
    assert r[1] == r[..SIZEOF_STAT][1] == f[1] == f[..2][1];
  }

  lemma {:induction false} RecordFields(st: Stat)
    requires Storable(st)
    ensures
      var r := EncodeStat(st);
      && r[8] == st.kind
      && FromLittleEndian(r[9..13]) == st.version && FromLittleEndian(r[13..21]) == st.path
      && FromLittleEndian(r[25..29]) == st.atime && FromLittleEndian(r[29..33]) == st.mtime
      && FromLittleEndian(r[33..41]) == st.length
  {
    hide LittleEndian, FromLittleEndian, Fixed, EncodeStat, Pow256;
    RecordParts(st);
    var r, f := EncodeStat(st), Fixed(st);
    FixedFields(st);
    assert r[8] == r[..SIZEOF_STAT][8];
    SameField(r, f, 9, 13);
    SameField(r, f, 13, 21);
    SameField(r, f, 25, 29);
    SameField(r, f, 29, 33);
    SameField(r, f, 33, 41);
    Field(st.version, 4, r, 9);
    Field(st.path, 8, r, 13);
    Field(st.atime, 4, r, 25);
    Field(st.mtime, 4, r, 29);
    Field(st.length, 8, r, 33);
  }

  /** A record read back through stat_t's accessors is the stat written. */
  lemma {:induction false} StatRoundTrip(st: Stat)
    requires Storable(st)
    ensures ParseStat(EncodeStat(st)) == Some(st)
  {
    hide Fixed, EncodeStrs, StrsAt, FromLittleEndian, Pow256;
    RecordParts(st);
    RecordFields(st);
    StrsRecovered(EncodeStat(st), SIZEOF_STAT, Names(st));
  }

  /** Whatever is cut off a stream, the names found are as long as they say. */
  lemma ParsedLength(b: seq<byte>)
    requires ParseStat(b).Some?
    ensures |b| == StatSize(ParseStat(b).value)
  {
    hide StrsSize;
    StrsEnd(b, SIZEOF_STAT, 4);
    var strs := StrsAt(b, SIZEOF_STAT, 4);
    assert strs.names == Names(ParseStat(b).value);
  }

  ghost predicate AllStorable(sts: seq<Stat>) {
    forall st <- sts :: Storable(st)
  }

  /** A stream of whole records parses to the stats written exactly when each
      record is short enough for its 16-bit size field. */
  lemma {:induction false} StreamRoundTrip(sts: seq<Stat>)
    requires AllStorable(sts)
    ensures ParseAll(Flat(Encodes(sts))) == Some(sts) <==> forall st <- sts :: StatSize(st) <= XSTRLEN_MAX
  {
    hide EncodeStat, ParseStat, LengthAt, StatSize, Pow256;
    if sts != [] {
      var st, rest := sts[0], sts[1..];
      assert sts == [st] + rest;
      StreamRoundTrip(rest);
      FirstRecord(st, Flat(Encodes(rest)), rest);
    }
  }

  /** A stat no size field can hold: a name of the greatest length an xstr may
      have makes the record longer than 16 bits can say, and a reader loses
      it. */
  lemma {:induction false} LongName() returns (st: Stat)
    ensures Storable(st) && |st.name| == XSTRLEN_MAX && StatSize(st) == 0x1_0030
    ensures ParseAll(Flat(Encodes([st]))) != Some([st])
  {
    hide EncodeStat, ParseAll, Flat;
    PowersPositive();
    st := Stat(0, 0, 0, 0, 0, 0, seq(XSTRLEN_MAX, _ => 97), [], [], []);
    FourNames(st);
    StreamRoundTrip([st]);
    assert st in [st];
  }

  lemma PowersPositive()
    ensures Pow256(4) > 0 && Pow256(8) > 0
  {
    assert Pow256(2) == 0x1_0000;
    assert Pow256(4) == 0x1_0000_0000;
    assert Pow256(6) == 0x1_0000_0000_0000;
  }

  lemma {:induction false} FirstRecord(st: Stat, more: seq<byte>, rest: seq<Stat>)
    requires Storable(st)
    ensures ParseAll(EncodeStat(st) + more) == Some([st] + rest) <==>
            StatSize(st) <= XSTRLEN_MAX && ParseAll(more) == Some(rest)
  {
    hide EncodeStat, ParseStat, Low16, Pow256;
    var r := EncodeStat(st);
    var b := r + more;
    DeclaredSize(st);
    assert LengthAt(b, 0) == LengthAt(r, 0) by { assert b[0] == r[0] && b[1] == r[1]; }
    if StatSize(st) <= XSTRLEN_MAX {
      assert b[..|r|] == r && b[|r|..] == more;
      StatRoundTrip(st);
      if ParseAll(more).Some? && [st] + ParseAll(more).value == [st] + rest {
        assert ([st] + rest)[1..] == rest && ([st] + ParseAll(more).value)[1..] == ParseAll(more).value;
      }
    } else if ParseAll(b) == Some([st] + rest) {
      var n := LengthAt(b, 0);
      assert ParseStat(b[..n]) == Some(([st] + rest)[0]);
      ParsedLength(b[..n]);
      assert false;
    }
  }

  // ---------------------------------------------------------- implementation

  /** The i-th string behind the fixed part, found by xstrnext from the first. */
  method Accessor(out: array<byte>, first: nat, i: nat, ghost names: seq<Name>) returns (p: nat)
    requires |names| == i && StrsAt(out[..], first, i) == Strs(names, first + StrsSize(names))
    ensures p == first + StrsSize(names)
  {
    p := first;
    ghost var end := first + StrsSize(names);
    for j := 0 to i
      invariant StrsAt(out[..], p, i - j).Strs? && StrsAt(out[..], p, i - j).end == end
    {
      var len := StrLength(out, p);
      p := p + 2 + len;
    }
  }

  method PutAt(out: array<byte>, p: nat, bytes: seq<byte>)
    requires p + |bytes| <= out.Length
    modifies out
    ensures out[..p + |bytes|] == old(out[..p]) + bytes
    ensures out[p + |bytes|..] == old(out[p + |bytes|..])
  {
    for i := 0 to |bytes|
      invariant out[..p + i] == old(out[..p]) + bytes[..i]
      invariant out[p + |bytes|..] == old(out[p + |bytes|..])
    {
      out[p + i] := bytes[i];
      assert bytes[..i + 1] == bytes[..i] + [bytes[i]];
    }
    assert bytes[..|bytes|] == bytes;
  }

  /** One more string behind those already there, where the accessor finds it. */
  method PutNext(out: array<byte>, first: nat, i: nat, n: Name, ghost head: seq<byte>, ghost done: seq<Name>,
                 ghost limit: nat)
    requires |n| <= XSTRLEN_MAX && |done| == i && |head| == first && forall m <- done :: |m| <= XSTRLEN_MAX
    requires first + StrsSize(done) + StrSize(n) <= limit <= out.Length
    requires out[..first + StrsSize(done)] == head + EncodeStrs(done)
    modifies out
    ensures StrsSize(done + [n]) == StrsSize(done) + StrSize(n)
    ensures out[..first + StrsSize(done + [n])] == head + EncodeStrs(done + [n])
    ensures out[limit..] == old(out[limit..])
  {
    hide StrsAt, EncodeStr, LengthAt;
    ghost var end := first + StrsSize(done);
    BothParts(out[..], end, head, EncodeStrs(done));
    StrsRecovered(out[..], first, done);
    var p := Accessor(out, first, i, done);
    OneMoreStr(head, done, n);
    ghost var was := out[..];
    PutStr(out, p, n);
    SameTail(out[..], was, p + StrSize(n), limit);
  }

  lemma SameTail(a: seq<byte>, b: seq<byte>, from: nat, limit: nat)
    requires |a| == |b| && from <= limit <= |a| && a[from..] == b[from..]
    ensures a[limit..] == b[limit..]
  {
    assert a[limit..] == a[from..][limit - from..] && b[limit..] == b[from..][limit - from..];
  }

  lemma OneMoreStr(head: seq<byte>, done: seq<Name>, n: Name)
    requires |n| <= XSTRLEN_MAX && forall m <- done :: |m| <= XSTRLEN_MAX
    ensures forall m <- done + [n] :: |m| <= XSTRLEN_MAX
    ensures StrsSize(done + [n]) == StrsSize(done) + StrSize(n)
    ensures head + EncodeStrs(done + [n]) == head + EncodeStrs(done) + EncodeStr(n)
  {
    EncodeStrsAppend(done, [n]);
    assert EncodeStrs([n]) == EncodeStr(n) + EncodeStrs([]);
    Assoc(head, EncodeStrs(done), EncodeStr(n));
    assert EncodeStrs(done + [n]) == EncodeStrs(done) + EncodeStr(n);
    assert |EncodeStrs(done + [n])| == StrsSize(done + [n]);
  }

  lemma FourNames(st: Stat)
    ensures StrsSize(Names(st)) == StrSize(st.name) + StrSize(st.uid) + StrSize(st.gid) + StrSize(st.muid)
  {
    var d: seq<Name> := [st.muid];
    var c, b := [st.gid] + d, [st.uid] + ([st.gid] + d);
    assert d[1..] == [] && c[1..] == d && b[1..] == c && Names(st)[1..] == b;
    assert StrsSize(d) == StrSize(st.muid);
    assert StrsSize(c) == StrSize(st.gid) + StrsSize(d);
    assert StrsSize(b) == StrSize(st.uid) + StrsSize(c);
  }

  /** The struct's own fields. */
  method PutFixed(st: Stat, out: array<byte>, off: nat)
    requires off + SIZEOF_STAT <= out.Length && out[off + 2..off + 8] == UNUSED
    modifies out
    ensures out[..off + SIZEOF_STAT] == old(out[..off]) + Fixed(st)
    ensures out[off + SIZEOF_STAT..] == old(out[off + SIZEOF_STAT..])
  {
    hide Attributes, SizeField;
    ghost var was := out[..];
    assert was[off + 2..off + 8] == UNUSED;
    PutAt(out, off, SizeField(st));
    assert out[off + 2..off + 8] == UNUSED by {
      assert out[off + 2..off + 8] == out[off + 2..][..6] == was[off + 2..][..6] == was[off + 2..off + 8];
    }
    assert out[..off + 8] == out[..off + 2] + out[off + 2..off + 8];
    ghost var mid := out[..];
    PutAt(out, off + 8, Attributes(st));
    SameTail(mid, was, off + 2, off + SIZEOF_STAT);
    SameTail(out[..], mid, off + SIZEOF_STAT, off + SIZEOF_STAT);
    Assoc(was[..off], SizeField(st) + UNUSED, Attributes(st));
    Assoc(was[..off], SizeField(st), UNUSED);
  }

  /** fsapistat: without a buffer only the size is computed; with one, exactly
      that many bytes are written, type and dev staying as they were. */
  method FsApiStat(st: Stat, out: array?<byte>, off: nat) returns (sz: nat)
    requires forall n <- Names(st) :: |n| <= XSTRLEN_MAX
    requires out != null ==> off + StatSize(st) <= out.Length && out[off + 2..off + 8] == UNUSED
    modifies if out == null then {} else {out}
    ensures sz == StatSize(st)
    ensures out != null ==> out[..off + sz] == old(out[..off]) + EncodeStat(st)
    ensures out != null ==> out[off + sz..] == old(out[off + sz..])
  {
    hide Fixed, EncodeStrs, StrsSize, StrSize;
    sz := SIZEOF_STAT + StrSize(st.name) + StrSize(st.uid) + StrSize(st.gid) + StrSize(st.muid);
    FourNames(st);
    if out == null { return; }
    ghost var was := out[..];
    PutFixed(st, out, off);
    ghost var mid := out[..];
    assert mid[off + SIZEOF_STAT..] == was[off + SIZEOF_STAT..];
    PutNames(st, out, off + SIZEOF_STAT);
    assert out[off + sz..] == mid[off + sz..];
    SameTail(mid, was, off + SIZEOF_STAT, off + sz);
    assert was[off + sz..] == old(out[off + sz..]);
    Assoc(old(out[..off]), Fixed(st), EncodeStrs(Names(st)));
  }

  /** The names behind the fixed part. */
  method PutNames(st: Stat, out: array<byte>, first: nat)
    requires forall n <- Names(st) :: |n| <= XSTRLEN_MAX
    requires first + StrsSize(Names(st)) <= out.Length
    modifies out
    ensures out[..first + StrsSize(Names(st))] == old(out[..first]) + EncodeStrs(Names(st))
    ensures out[first + StrsSize(Names(st))..] == old(out[first + StrsSize(Names(st))..])
  {
    hide EncodeStrs, StrsSize, StrSize, EncodeStr, StrsAt;
    FourNames(st);
    NoNames();
    ghost var head, end := out[..first], first + StrsSize(Names(st));
    assert head + [] == head && [] + [st.name] == [st.name] && [st.name] + [st.uid] == [st.name, st.uid];
    PutNext(out, first, 0, st.name, head, [], end);
    PutNext(out, first, 1, st.uid, head, [st.name], end);
    PutLast(st, out, first, head);
  }

  /** gid and muid. */
  method PutLast(st: Stat, out: array<byte>, first: nat, ghost head: seq<byte>)
    requires forall n <- Names(st) :: |n| <= XSTRLEN_MAX
    requires |head| == first && first + StrsSize(Names(st)) <= out.Length
    requires StrsSize([st.name, st.uid]) + StrSize(st.gid) + StrSize(st.muid) == StrsSize(Names(st))
    requires forall n <- [st.name, st.uid] :: |n| <= XSTRLEN_MAX
    requires out[..first + StrsSize([st.name, st.uid])] == head + EncodeStrs([st.name, st.uid])
    modifies out
    ensures out[..first + StrsSize(Names(st))] == head + EncodeStrs(Names(st))
    ensures out[first + StrsSize(Names(st))..] == old(out[first + StrsSize(Names(st))..])
  {
    hide EncodeStrs, StrsSize, StrSize, EncodeStr, StrsAt;
    ghost var two: seq<Name> := [st.name, st.uid];
    ghost var end := first + StrsSize(Names(st));
    assert two + [st.gid] == [st.name, st.uid, st.gid] && [st.name, st.uid, st.gid] + [st.muid] == Names(st);
    PutNext(out, first, 2, st.gid, head, two, end);
    PutNext(out, first, 3, st.muid, head, [st.name, st.uid, st.gid], end);
  }

  lemma NoNames()
    ensures EncodeStrs([]) == [] && StrsSize([]) == 0
  {
  }

  // ------------------------------------------------------------- main result

  /** Reading a directory from the start with any counts, as many as there are
      children, and cutting what came back by the size fields gives the
      children's stats, all and in order, if and only if every record is short
      enough for its size field. */
  lemma {:induction false} ListingIsTheChildren(sts: seq<Stat>, counts: seq<nat>)
    requires AllStorable(sts) && |counts| >= |sts|
    ensures ParseAll(Replies(Encodes(sts), 0, counts)) == Some(sts) <==> forall st <- sts :: StatSize(st) <= XSTRLEN_MAX
  {
    WholeDirectory(Encodes(sts), counts, 0);
    StreamRoundTrip(sts);
  }

  /** Where a record has what, byte by byte: permission bits 0x1FF and the type
      in the top byte of the mode, the numbers low byte first, and behind the
      fixed part the name of the file, its owner, its group and who modified it
      last. */
  lemma RecordLayout(st: Stat)
    requires forall n <- Names(st) :: |n| <= XSTRLEN_MAX
    ensures |EncodeStat(st)| >= 41 && EncodeStat(st)[21..25] == [0xFF, 0x01, 0, st.kind]
    ensures EncodeStat(st)[2..8] == [0, 0, 0, 0, 0, 0] && EncodeStat(st)[8] == st.kind
    ensures EncodeStat(st)[9..13] == LittleEndian(st.version, 4) && EncodeStat(st)[13..21] == LittleEndian(st.path, 8)
    ensures EncodeStat(st)[25..29] == LittleEndian(st.atime, 4) && EncodeStat(st)[29..33] == LittleEndian(st.mtime, 4)
    ensures EncodeStat(st)[33..41] == LittleEndian(st.length, 8)
    ensures StrsAt(EncodeStat(st), 41, 4) == Strs([st.name, st.uid, st.gid, st.muid], |EncodeStat(st)|)
  {
    FixedPart(st);
    NumbersPart(st);
    ModeBytes(st.kind);
    NamesPart(st);
    hide EncodeStat, EncodeStrs, LittleEndian, StrsAt, Mode;
  }

  lemma NumbersPart(st: Stat)
    requires forall n <- Names(st) :: |n| <= XSTRLEN_MAX
    ensures |EncodeStat(st)| >= 41
    ensures EncodeStat(st)[9..13] == LittleEndian(st.version, 4) && EncodeStat(st)[13..21] == LittleEndian(st.path, 8)
    ensures EncodeStat(st)[25..29] == LittleEndian(st.atime, 4) && EncodeStat(st)[29..33] == LittleEndian(st.mtime, 4)
    ensures EncodeStat(st)[33..41] == LittleEndian(st.length, 8)
  {
    hide LittleEndian, Fixed, EncodeStat, Mode;
    RecordParts(st);
    FixedFields(st);
    var r, f := EncodeStat(st), Fixed(st);
    SameField(r, f, 9, 13);
    SameField(r, f, 13, 21);
    SameField(r, f, 25, 29);
    SameField(r, f, 29, 33);
    SameField(r, f, 33, 41);
  }

  lemma FixedPart(st: Stat)
    requires forall n <- Names(st) :: |n| <= XSTRLEN_MAX
    ensures |EncodeStat(st)| >= 41 && EncodeStat(st)[21..25] == LittleEndian(Mode(st.kind), 4)
    ensures EncodeStat(st)[2..8] == [0, 0, 0, 0, 0, 0] && EncodeStat(st)[8] == st.kind
  {
    RecordParts(st);
    FixedFields(st);
    UnusedBytes(st);
    hide LittleEndian, Fixed, EncodeStat, Mode;
    var r, f := EncodeStat(st), Fixed(st);
    SameField(r, f, 21, 25);
    SameField(r, f, 2, 8);
    assert r[8] == r[..SIZEOF_STAT][8];
  }

  lemma NamesPart(st: Stat)
    requires forall n <- Names(st) :: |n| <= XSTRLEN_MAX
    ensures StrsAt(EncodeStat(st), 41, 4) == Strs([st.name, st.uid, st.gid, st.muid], |EncodeStat(st)|)
  {
    hide Fixed, EncodeStrs, StrsAt, StrsSize, EncodeStat;
    RecordParts(st);
    StrsRecovered(EncodeStat(st), SIZEOF_STAT, Names(st));
  }

  lemma UnusedBytes(st: Stat)
    ensures Fixed(st)[2..8] == [0, 0, 0, 0, 0, 0]
  {
    hide Attributes, SizeField;
  }

  lemma ModeBytes(kind: byte)
    ensures LittleEndian(Mode(kind), 4) == [0xFF, 0x01, 0, kind]
  {
    var m := Mode(kind);
    assert m % 256 == 0xFF && m / 256 == 1 + 0x1_0000 * kind;
    assert (m / 256) % 256 == 1 && m / 256 / 256 == 256 * kind;
    assert m / 256 / 256 / 256 == kind;
    assert LittleEndian(kind, 1) == [kind] + LittleEndian(0, 0);
    assert LittleEndian(256 * kind, 2) == [0] + LittleEndian(kind, 1);
    assert LittleEndian(1 + 0x1_0000 * kind, 3) == [1] + LittleEndian(256 * kind, 2);
  }
}
