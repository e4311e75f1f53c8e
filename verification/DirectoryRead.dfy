/** Reading a directory as a resumable stream of stat records: the three-pass
    loop of XApiFileSystem::Tread and the one-entry loop of
    XVirtualFileSystem::Tread. */
module DirectoryRead {
  import opened X9PProtocol

  /** A child's serialised stat; at least the fixed part is there. */
  type Record = r: seq<byte> | 0 < |r| witness [0]

  // ------------------------------------------------------------- specification

  /** The children GetChild could return; None stands for one it refused. */
  function Records(es: seq<Option<Record>>): (rs: seq<Record>)
    ensures |rs| <= |es|
  {
    if es == [] then []
    else
      var rs, e := Records(es[..|es| - 1]), es[|es| - 1];
      if e.Some? then rs + [e.value] else rs
  }

  /** Offset is where a record starts, or at or past the end. */
  predicate OnBoundary(rs: seq<Record>, offset: nat) {
    offset == 0 || rs == [] ||
    (offset >= |rs[0]| && OnBoundary(rs[1..], offset - |rs[0]|))
  }

  /** The first record that starts at or after offset, |rs| if there is none. */
  function IndexAt(rs: seq<Record>, offset: nat): (k: nat)
    ensures k <= |rs|
  {
    if offset == 0 || rs == [] then 0
    else 1 + IndexAt(rs[1..], if offset < |rs[0]| then 0 else offset - |rs[0]|)
  }

  /** Greedy extension: records from i on are added while the total stays
      within count. */
  function Extend(rs: seq<Record>, i: nat, size: nat, count: nat): (e: nat)
    requires i <= |rs|
    ensures i <= e <= |rs|
    decreases |rs| - i
  {
    if i < |rs| && size + |rs[i]| <= count then Extend(rs, i + 1, size + |rs[i]|, count) else i
  }

  /** Index after the last record that a read starting at record k reports. */
  function Next(rs: seq<Record>, k: nat, count: nat): (e: nat)
    requires k <= |rs|
    ensures k <= e <= |rs|
  {
    if k == |rs| then k else Extend(rs, k + 1, |rs[k]|, count)
  }

  /** The reply to one read at a boundary. */
  function ReadAt(rs: seq<Record>, offset: nat, count: nat): seq<byte> {
    var k := IndexAt(rs, offset);
    Flat(rs[k..Next(rs, k, count)])
  }

  /** The reply of the one-entry loop at a boundary. */
  function ReadOne(rs: seq<Record>, offset: nat): seq<byte> {
    var k := IndexAt(rs, offset);
    if k == |rs| then [] else rs[k]
  }

  // ------------------------------------------------------------------- facts

  lemma FlatSnoc(rs: seq<Record>, i: nat, j: nat)
    requires i <= j < |rs|
    ensures Flat(rs[i..j + 1]) == Flat(rs[i..j]) + rs[j]
  {
    assert rs[i..j + 1] == rs[i..j] + [rs[j]];
    FlatConcat(rs[i..j], [rs[j]]);
    FlatOne(rs[j]);
  }

  lemma FlatOne(r: Record)
    ensures Flat([r]) == r
  {
    assert [r][1..] == [];
  }

  /** Prefixes of the listing give prefixes of the records. */
  lemma {:induction false} RecordsPrefix(es: seq<Option<Record>>, i: nat)
    requires i <= |es|
    ensures |Records(es[..i])| <= |Records(es)|
    ensures Records(es)[..|Records(es[..i])|] == Records(es[..i])
    decreases |es|
  {
    if i == |es| {
      assert es[..i] == es;
    } else {
      assert es[..|es| - 1][..i] == es[..i];
      RecordsPrefix(es[..|es| - 1], i);
    }
  }

  lemma RecordsNext(es: seq<Option<Record>>, i: nat)
    requires i < |es|
    ensures Records(es[..i + 1]) == Records(es[..i]) + (if es[i].Some? then [es[i].value] else [])
    ensures |Records(es[..i + 1])| <= |Records(es)|
    ensures es[i].Some? ==> Records(es)[|Records(es[..i])|] == es[i].value
  {
    assert es[..i + 1][..i] == es[..i];
    RecordsPrefix(es, i + 1);
  }

  lemma FlatNext(es: seq<Option<Record>>, i: nat)
    requires i < |es|
    ensures Flat(Records(es[..i + 1])) ==
            Flat(Records(es[..i])) + (if es[i].Some? then es[i].value else [])
  {
    RecordsNext(es, i);
    if es[i].Some? {
      assert Records(es[..i + 1]) == Records(es[..i]) + [es[i].value];
      FlatConcat(Records(es[..i]), [es[i].value]);
      FlatOne(es[i].value);
    } else {
      assert Records(es[..i + 1]) == Records(es[..i]);
    }
  }

  /** Where a record starts that reaches past offset decides whether offset is
      a boundary, and then it is the record there. */
  lemma {:induction false} Crossing(rs: seq<Record>, j: nat, offset: nat)
    requires j < |rs|
    requires |Flat(rs[..j])| <= offset < |Flat(rs[..j + 1])|
    ensures OnBoundary(rs, offset) <==> |Flat(rs[..j])| == offset
    ensures OnBoundary(rs, offset) ==> IndexAt(rs, offset) == j
  {
    if j == 0 {
      assert rs[..1] == [rs[0]];
      FlatSnoc(rs, 0, 0);
    } else {
      assert rs[..j][1..] == rs[1..][..j - 1];
      assert rs[..j + 1][1..] == rs[1..][..j];
      Crossing(rs[1..], j - 1, offset - |rs[0]|);
    }
  }

  lemma {:induction false} PastEnd(rs: seq<Record>, offset: nat)
    requires |Flat(rs)| <= offset
    ensures OnBoundary(rs, offset) && IndexAt(rs, offset) == |rs|
  {
    if rs != [] { PastEnd(rs[1..], offset - |rs[0]|); }
  }

  lemma {:induction false} BoundaryOf(rs: seq<Record>, k: nat)
    requires k <= |rs|
    ensures OnBoundary(rs, |Flat(rs[..k])|) && IndexAt(rs, |Flat(rs[..k])|) == k
  {
    if k > 0 {
      assert rs[..k][1..] == rs[1..][..k - 1];
      BoundaryOf(rs[1..], k - 1);
    }
  }

  lemma {:induction false} IndexOffset(rs: seq<Record>, offset: nat)
    requires OnBoundary(rs, offset) && offset <= |Flat(rs)|
    ensures |Flat(rs[..IndexAt(rs, offset)])| == offset
  {
    var k := IndexAt(rs, offset);
    if offset != 0 && rs != [] {
      assert rs[..k][1..] == rs[1..][..k - 1];
      IndexOffset(rs[1..], offset - |rs[0]|);
    }
  }

  /** The offset a read leads to is a boundary again: the assertion in the
      loops never fails for a client that advances by what it was given. */
  lemma BoundaryAfter(rs: seq<Record>, offset: nat, e: nat)
    requires OnBoundary(rs, offset) && IndexAt(rs, offset) <= e <= |rs|
    ensures
      var offset' := offset + |Flat(rs[IndexAt(rs, offset)..e])|;
      && OnBoundary(rs, offset')
      && (offset <= |Flat(rs)| ==> IndexAt(rs, offset') == e && offset' == |Flat(rs[..e])| <= |Flat(rs)|)
  {
    var k := IndexAt(rs, offset);
    if offset <= |Flat(rs)| {
      IndexOffset(rs, offset);
      Remainder(rs, 0, k, e);
      Remainder(rs, 0, e, |rs|);
      assert rs[0..e] == rs[..e] && rs[0..k] == rs[..k] && rs[0..|rs|] == rs;
      BoundaryOf(rs, e);
    } else {
      PastEnd(rs, offset);
      PastEnd(rs, offset + |Flat(rs[k..e])|);
    }
  }

  lemma FlatSlice1(rs: seq<Record>, k: nat)
    requires k < |rs|
    ensures Flat(rs[k..k + 1]) == rs[k]
  {
    FlatSnoc(rs, k, k);
    assert rs[k..k] == [];
  }

  // ------------------------------------------------------------ implementation

  method CopyRecord(buf: array<byte>, p: nat, r: seq<byte>)
    requires p + |r| <= buf.Length
    modifies buf
    ensures buf[..p + |r|] == old(buf[..p]) + r
  {
    for i := 0 to |r|
      invariant buf[..p + i] == old(buf[..p]) + r[..i]
    {
      buf[p + i] := r[i];
    }
  }

  /** Seek pass: walk entries until one reaches past offset. */
  method Seek(es: seq<Option<Record>>, offset: nat) returns (i: nat, trek: nat, sz: nat)
    ensures i <= |es| && trek == |Flat(Records(es[..i]))|
    ensures trek <= offset ==> i == |es|
    ensures trek > offset ==>
              i > 0 && es[i - 1].Some? && sz == |es[i - 1].value| &&
              trek - sz == |Flat(Records(es[..i - 1]))| <= offset
  {
    i, trek, sz := 0, 0, 0;
    while i < |es|
      invariant i <= |es| && trek == |Flat(Records(es[..i]))|
      invariant trek > offset ==>
                  i > 0 && es[i - 1].Some? && sz == |es[i - 1].value| &&
                  trek - sz == |Flat(Records(es[..i - 1]))| <= offset
    {
      if trek > offset { break; }
      FlatNext(es, i);
      if es[i].Some? {
        sz := |es[i].value|;
        trek := trek + sz;
      }
      i := i + 1;
    }
  }

  /** Size pass: how far the reply extends. */
  method Measure(es: seq<Option<Record>>, start: nat, first: nat, count: nat, ghost k: nat)
    returns (endi: nat, sz: nat)
    requires start < |es| && es[start].Some? && first == |es[start].value|
    requires k == |Records(es[..start])|
    ensures start < endi <= |es|
    ensures k < |Records(es)| && |Records(es[..endi])| == Next(Records(es), k, count)
    ensures sz == |Flat(Records(es)[k..|Records(es[..endi])|])|
  {
    hide Flat, Records;
    ghost var rs := Records(es);
    RecordsNext(es, start);
    FlatSlice1(rs, k);
    endi, sz := start + 1, first;
    while endi < |es|
      invariant start < endi <= |es|
      invariant k < |Records(es[..endi])| <= |rs|
      invariant sz == |Flat(rs[k..|Records(es[..endi])|])|
      invariant Extend(rs, |Records(es[..endi])|, sz, count) == Next(rs, k, count)
    {
      RecordsNext(es, endi);
      if es[endi].Some? {
        var nz := |es[endi].value|;
        if sz + nz > count { break; }
        FlatSnoc(rs, k, |Records(es[..endi])|);
        sz := sz + nz;
      }
      endi := endi + 1;
    }
    if endi == |es| {
      assert es[..endi] == es;
    }
  }

  /** Write pass: the records from start to endi fill the buffer exactly. */
  method Fill(es: seq<Option<Record>>, start: nat, endi: nat, sz: nat) returns (buf: array<byte>)
    requires start < endi <= |es|
    requires |Records(es[..start])| <= |Records(es[..endi])| <= |Records(es)|
    requires sz == |Flat(Records(es)[|Records(es[..start])|..|Records(es[..endi])|])|
    ensures buf[..] == Flat(Records(es)[|Records(es[..start])|..|Records(es[..endi])|])
  {
    hide Flat, Records;
    ghost var rs, k, m := Records(es), |Records(es[..start])|, |Records(es[..endi])|;
    NoRecords(rs, k);
    buf := new byte[sz];
    var p := 0;
    var i := start;
    while i < endi
      invariant start <= i <= endi && k <= |Records(es[..i])| <= m
      invariant p == |Flat(rs[k..|Records(es[..i])|])| <= sz
      invariant buf[..p] == Flat(rs[k..|Records(es[..i])|])
    {
      FillNext(es, start, i, endi);
      if es[i].Some? {
        var x := sz - p;
        if x == 0 { break; }
        CopyRecord(buf, p, es[i].value);
        p := p + |es[i].value|;
      }
      i := i + 1;
    }
    assert buf[..sz] == buf[..];
  }

  /** Writing entry i keeps the copied part a beginning of the whole reply. */
  lemma FillNext(es: seq<Option<Record>>, start: nat, i: nat, endi: nat)
    requires start <= i < endi <= |es|
    requires |Records(es[..start])| <= |Records(es[..i])| <= |Records(es[..endi])| <= |Records(es)|
    ensures
      var rs, k, n, m := Records(es), |Records(es[..start])|, |Records(es[..i])|, |Records(es[..endi])|;
      var n' := |Records(es[..i + 1])|;
      && n <= n' <= m
      && Flat(rs[k..n']) == Flat(rs[k..n]) + (if es[i].Some? then es[i].value else [])
      && |Flat(rs[k..n'])| <= |Flat(rs[k..m])|
  {
    hide Flat, Records;
    var rs, k, n, m := Records(es), |Records(es[..start])|, |Records(es[..i])|, |Records(es[..endi])|;
    RecordsNext(es, i);
    RecordsPrefix(es[..endi], i + 1);
    assert es[..endi][..i + 1] == es[..i + 1];
    var n' := |Records(es[..i + 1])|;
    if es[i].Some? { FlatSnoc(rs, k, n); }
    Remainder(rs, k, n', m);
  }

  lemma Remainder(rs: seq<Record>, k: nat, n: nat, m: nat)
    requires k <= n <= m <= |rs|
    ensures Flat(rs[k..m]) == Flat(rs[k..n]) + Flat(rs[n..m])
  {
    assert rs[k..m] == rs[k..n] + rs[n..m];
    FlatConcat(rs[k..n], rs[n..m]);
  }

  lemma NothingAt(rs: seq<Record>, offset: nat, count: nat)
    requires IndexAt(rs, offset) == |rs|
    ensures ReadAt(rs, offset, count) == []
  {
    assert rs[|rs|..|rs|] == [];
  }

  /** XApiFileSystem::Tread on a directory. The source asserts that offset is
      where the record it found starts; ok is that assertion. */
  method Tread(es: seq<Option<Record>>, offset: nat, count: nat) returns (ok: bool, data: seq<byte>)
    ensures ok <==> OnBoundary(Records(es), offset)
    ensures ok ==> data == ReadAt(Records(es), offset, count)
  {
    hide Flat, Records, OnBoundary, IndexAt, Next;
    ghost var rs := Records(es);
    var i, trek, sz := Seek(es, offset);
    assert es[..|es|] == es;
    if offset >= trek {
      PastEnd(rs, offset);
      NothingAt(rs, offset, count);
      return true, [];
    }
    var start := i - 1;
    ghost var k := |Records(es[..start])|;
    RecordsNext(es, start);
    RecordsPrefix(es, start);
    RecordsPrefix(es, i);
    Crossing(rs, k, offset);
    if trek - sz != offset {
      return false, [];
    }
    var endi, total := Measure(es, start, sz, count, k);
    RecordsPrefix(es, endi);
    var buf := Fill(es, start, endi, total);
    return true, buf[..];
  }

  /** The directory branch of XVirtualFileSystem::Tread; every index below the
      child count has a child there. */
  method TreadOne(rs: seq<Record>, offset: nat) returns (ok: bool, data: seq<byte>)
    ensures ok <==> OnBoundary(rs, offset)
    ensures ok ==> data == ReadOne(rs, offset)
  {
    var idx, o, sz := 0, 0, 0;
    assert rs[..0] == [];
    while o <= offset
      invariant idx <= |rs| && o == |Flat(rs[..idx])|
      invariant idx > 0 ==> sz == |rs[idx - 1]| && o - sz == |Flat(rs[..idx - 1])| <= offset
      invariant idx == 0 ==> o == 0
      decreases |rs| - idx
    {
      if idx >= |rs| {
        assert rs[..idx] == rs;
        PastEnd(rs, offset);
        return true, [];
      }
      FlatSnoc(rs, 0, idx);
      sz := |rs[idx]|;
      idx := idx + 1;
      o := o + sz;
    }
    Crossing(rs, idx - 1, offset);
    if o - sz != offset {
      return false, [];
    }
    return true, rs[idx - 1];
  }

  // ------------------------------------------------------------- main results

  /** Offset after a sequence of reads, each continuing where the last ended. */
  function OffsetAfter(rs: seq<Record>, offset: nat, counts: seq<nat>): nat
    decreases |counts|
  {
    if counts == [] then offset
    else
      OffsetAfter(rs, offset + |ReadAt(rs, offset, counts[0])|, counts[1..])
  }

  /** The bytes those reads return, one after the other. */
  function Replies(rs: seq<Record>, offset: nat, counts: seq<nat>): seq<byte>
    decreases |counts|
  {
    if counts == [] then []
    else
      var d := ReadAt(rs, offset, counts[0]);
      d + Replies(rs, offset + |d|, counts[1..])
  }

  /** Record index reached from record k by reads of the given counts. */
  function Reached(rs: seq<Record>, k: nat, counts: seq<nat>): (e: nat)
    requires k <= |rs|
    ensures k <= e <= |rs|
    ensures e == |rs| || e >= k + |counts|
    decreases |counts|
  {
    if counts == [] then k else Reached(rs, Next(rs, k, counts[0]), counts[1..])
  }

  lemma {:induction false} OffsetReached(rs: seq<Record>, offset: nat, counts: seq<nat>)
    requires OnBoundary(rs, offset) && offset <= |Flat(rs)|
    ensures
      var e := Reached(rs, IndexAt(rs, offset), counts);
      OffsetAfter(rs, offset, counts) == |Flat(rs[..e])| <= |Flat(rs)|
    decreases |counts|
  {
    hide ReadAt, IndexAt, Flat, OnBoundary;
    if counts == [] {
      IndexOffset(rs, offset);
    } else {
      ReadLands(rs, offset, counts[0]);
      OffsetReached(rs, offset + |ReadAt(rs, offset, counts[0])|, counts[1..]);
    }
  }

  /** A read from a boundary returns whole records and ends at a boundary. */
  lemma ReadLands(rs: seq<Record>, offset: nat, count: nat)
    requires OnBoundary(rs, offset) && offset <= |Flat(rs)|
    ensures
      var k, d := IndexAt(rs, offset), ReadAt(rs, offset, count);
      var e := Next(rs, k, count);
      && d == Flat(rs[k..e])
      && OnBoundary(rs, offset + |d|)
      && IndexAt(rs, offset + |d|) == e && offset + |d| == |Flat(rs[..e])| <= |Flat(rs)|
  {
    BoundaryAfter(rs, offset, Next(rs, IndexAt(rs, offset), count));
  }

  lemma RepliesFirst(rs: seq<Record>, offset: nat, counts: seq<nat>)
    requires counts != []
    ensures
      var d := ReadAt(rs, offset, counts[0]);
      Replies(rs, offset, counts) == d + Replies(rs, offset + |d|, counts[1..])
  {
  }

  lemma NoReplies(rs: seq<Record>, offset: nat)
    ensures Replies(rs, offset, []) == []
  {
  }

  lemma NoRecords(rs: seq<Record>, k: nat)
    requires k <= |rs|
    ensures Flat(rs[k..k]) == []
  {
  }

  lemma {:induction false} RepliesReached(rs: seq<Record>, offset: nat, counts: seq<nat>)
    requires OnBoundary(rs, offset) && offset <= |Flat(rs)|
    ensures
      var k := IndexAt(rs, offset);
      Replies(rs, offset, counts) == Flat(rs[k..Reached(rs, k, counts)])
    decreases |counts|
  {
    hide ReadAt, IndexAt, Flat, OnBoundary, Replies, Next;
    var k := IndexAt(rs, offset);
    if counts == [] {
      NoReplies(rs, offset);
      NoRecords(rs, k);
    } else {
      var e := Next(rs, k, counts[0]);
      ReadLands(rs, offset, counts[0]);
      RepliesFirst(rs, offset, counts);
      RepliesReached(rs, offset + |ReadAt(rs, offset, counts[0])|, counts[1..]);
      Remainder(rs, k, e, Reached(rs, e, counts[1..]));
    }
  }

  /** However the counts are chosen, the reads from a boundary return, record
      by record and without splitting one, the part of the listing between it
      and the boundary they reach; each read makes progress until the end. */
  lemma ReadsFollowTheStream(rs: seq<Record>, offset: nat, counts: seq<nat>)
    requires OnBoundary(rs, offset) && offset <= |Flat(rs)|
    ensures
      var k, last := IndexAt(rs, offset), OffsetAfter(rs, offset, counts);
      && last <= |Flat(rs)| && OnBoundary(rs, last)
      && k <= IndexAt(rs, last)
      && Replies(rs, offset, counts) == Flat(rs[k..IndexAt(rs, last)])
      && (IndexAt(rs, last) == |rs| || IndexAt(rs, last) >= k + |counts|)
  {
    OffsetReached(rs, offset, counts);
    RepliesReached(rs, offset, counts);
    BoundaryOf(rs, Reached(rs, IndexAt(rs, offset), counts));
  }

  /** As many reads as there are children exhaust the directory: together they
      return every record once and in order, and one more read is empty. */
  lemma {:induction false} WholeDirectory(rs: seq<Record>, counts: seq<nat>, more: nat)
    requires |counts| >= |rs|
    ensures Replies(rs, 0, counts) == Flat(rs)
    ensures OnBoundary(rs, OffsetAfter(rs, 0, counts))
    ensures ReadAt(rs, OffsetAfter(rs, 0, counts), more) == []
  {
    ReadsFollowTheStream(rs, 0, counts);
    assert rs[0..|rs|] == rs;
    assert rs[|rs|..|rs|] == [];
  }

  /** One batched read starts with the record the simple loop returns, keeps
      within count unless that record alone exceeds it, and stops only where
      the next record would not fit. */
  lemma BatchStartsWithOne(rs: seq<Record>, offset: nat, count: nat)
    requires OnBoundary(rs, offset)
    ensures
      var one, batch := ReadOne(rs, offset), ReadAt(rs, offset, count);
      var e := Next(rs, IndexAt(rs, offset), count);
      && one <= batch
      && |batch| <= (if count < |one| then |one| else count)
      && (e < |rs| ==> |batch| + |rs[e]| > count)
  {
    var k := IndexAt(rs, offset);
    if k < |rs| {
      BatchFrom(rs, k, count);
    } else {
      assert rs[k..k] == [];
    }
  }

  lemma BatchFrom(rs: seq<Record>, k: nat, count: nat)
    requires k < |rs|
    ensures
      var e := Next(rs, k, count);
      var batch := Flat(rs[k..e]);
      && rs[k] <= batch
      && |batch| <= (if count < |rs[k]| then |rs[k]| else count)
      && (e < |rs| ==> |batch| + |rs[e]| > count)
  {
    FlatSlice1(rs, k);
    ExtendSize(rs, k, k + 1, count);
    Remainder(rs, k, k + 1, Next(rs, k, count));
  }

  lemma {:induction false} ExtendSize(rs: seq<Record>, k: nat, i: nat, count: nat)
    requires k < i <= |rs|
    ensures
      var size := |Flat(rs[k..i])|;
      var e := Extend(rs, i, size, count);
      && |Flat(rs[k..e])| <= (if size <= count then count else size)
      && (e < |rs| ==> |Flat(rs[k..e])| + |rs[e]| > count)
    decreases |rs| - i
  {
    var size := |Flat(rs[k..i])|;
    if i < |rs| && size + |rs[i]| <= count {
      FlatSnoc(rs, k, i);
      ExtendSize(rs, k, i + 1, count);
    }
  }

  /** The bytes of n reads with the one-entry loop. */
  function OneByOne(rs: seq<Record>, offset: nat, n: nat): seq<byte>
    decreases n
  {
    if n == 0 then []
    else
      var d := ReadOne(rs, offset);
      d + OneByOne(rs, offset + |d|, n - 1)
  }

  lemma OneIsBatchOfZero(rs: seq<Record>, offset: nat)
    ensures ReadOne(rs, offset) == ReadAt(rs, offset, 0)
  {
    var k := IndexAt(rs, offset);
    if k < |rs| { FlatSlice1(rs, k); } else { assert rs[k..k] == []; }
  }

  lemma {:induction false} OneByOneIsBatched(rs: seq<Record>, offset: nat, n: nat)
    ensures OneByOne(rs, offset, n) == Replies(rs, offset, seq(n, _ => 0))
    decreases n
  {
    if n > 0 {
      OneIsBatchOfZero(rs, offset);
      OneByOneIsBatched(rs, offset + |ReadOne(rs, offset)|, n - 1);
      assert seq(n, _ => 0)[1..] == seq(n - 1, _ => 0);
    }
  }

  /** Both loops, iterated to the end, give the same byte stream. */
  lemma SameStream(rs: seq<Record>, counts: seq<nat>, n: nat)
    requires |counts| >= |rs| && n >= |rs|
    ensures OneByOne(rs, 0, n) == Replies(rs, 0, counts)
  {
    WholeDirectory(rs, counts, 0);
    OneByOneIsBatched(rs, 0, n);
    WholeDirectory(rs, seq(n, _ => 0), 0);
  }
}
