/** Content of an in-memory file: XVFSFile of src/XVirtualFileSystem.cpp. */
module VirtualFile {
  import opened X9PProtocol

  /** std::vector cannot grow past this many bytes. */
  const MAX_SIZE := 0x7FFF_FFFF_FFFF_FFFF
  const UINT64 := 0x1_0000_0000_0000_0000
  const UINT32 := 0x1_0000_0000

  datatype Written = Written(offset: nat, data: seq<byte>)

  // ------------------------------------------------------------- specification

  /** Length after a write; a write past the end leaves a gap of zeros, even
      when it carries no data. */
  function GrownTo(size: nat, w: Written): nat {
    if w.offset + |w.data| > size then w.offset + |w.data| else size
  }

  function Overlay(buf: seq<byte>, w: Written): (r: seq<byte>)
    ensures |r| == GrownTo(|buf|, w)
  {
    seq(GrownTo(|buf|, w), i requires 0 <= i < GrownTo(|buf|, w) =>
      if w.offset <= i < w.offset + |w.data| then w.data[i - w.offset]
      else if i < |buf| then buf[i] else 0)
  }

  /** How many of count bytes at offset exist. */
  function Available(size: nat, offset: nat, count: nat): nat {
    if offset >= size then 0 else if offset + count > size then size - offset else count
  }

  function Slice(buf: seq<byte>, offset: nat, count: nat): seq<byte> {
    if offset >= |buf| then [] else buf[offset..offset + Available(|buf|, offset, count)]
  }

  function Overlays(buf: seq<byte>, ws: seq<Written>): seq<byte> {
    if ws == [] then buf else Overlay(Overlays(buf, ws[..|ws| - 1]), ws[|ws| - 1])
  }

  /** End of the farthest write. */
  function Extent(ws: seq<Written>): nat {
    if ws == [] then 0 else GrownTo(Extent(ws[..|ws| - 1]), ws[|ws| - 1])
  }

  /** The byte the last write covering position k put there, zero if none did. */
  function LastByte(ws: seq<Written>, k: nat): byte {
    if ws == [] then 0
    else
      var w := ws[|ws| - 1];
      if w.offset <= k < w.offset + |w.data| then w.data[k - w.offset]
      else LastByte(ws[..|ws| - 1], k)
  }

  // ------------------------------------------------------------ implementation

  class XVFSFile {
    var m_buf: seq<byte>
    var m_version: nat

    ghost predicate Valid()
      reads this
    {
      |m_buf| <= MAX_SIZE && m_version < UINT32
    }

    constructor ()
      ensures Valid() && m_buf == [] && m_version == 0
    {
      m_buf, m_version := [], 0;
    }

    /** copy is false for a null destination; a copy moves count bytes whatever
        the size returned, so all of them must exist. */
    method Read(offset: nat, count: nat, copy: bool) returns (size: nat, data: seq<byte>)
      requires Valid() && offset < UINT64 && count < UINT32
      requires copy && offset < |m_buf| ==> offset + count <= |m_buf|
      ensures size == Available(|m_buf|, offset, count)
      ensures data == if copy then Slice(m_buf, offset, count) else []
    {
      data := [];
      if offset >= |m_buf| { return 0, data; }
      var sz := (offset + count) % UINT64;
      if sz > |m_buf| { sz := |m_buf|; }
      sz := sz - offset;
      if copy { data := m_buf[offset..offset + count]; }
      size := sz % UINT32;
    }

    /** data is None for a null source: the write is only announced. */
    method Write(offset: nat, count: nat, data: Option<seq<byte>>) returns (size: nat)
      requires Valid() && count < UINT32 && offset + count <= MAX_SIZE
      requires data.Some? ==> |data.value| == count
      modifies this
      ensures Valid() && size == count
      ensures data == None ==> m_buf == old(m_buf) && m_version == old(m_version)
      ensures data.Some? ==> m_buf == Overlay(old(m_buf), Written(offset, data.value))
      ensures data.Some? ==> m_version == (old(m_version) + 1) % UINT32
    {
      if data.Some? {
        var sz := offset + count;
        if sz > |m_buf| {
          m_buf := m_buf + seq(sz - |m_buf|, _ => 0);
        }
        m_buf := m_buf[..offset] + data.value + m_buf[offset + count..];
        m_version := (m_version + 1) % UINT32;
      }
      return count;
    }
  }

  // -------------------------------------------------------------- main results

  /** After any sequence of writes to a new file, its length is the end of the
      farthest one and every byte is what the last write over it put there. */
  lemma {:induction false} ContentIsLastWritten(ws: seq<Written>)
    ensures |Overlays([], ws)| == Extent(ws)
    ensures forall k | 0 <= k < Extent(ws) :: Overlays([], ws)[k] == LastByte(ws, k)
  {
    if ws != [] {
      var init := ws[..|ws| - 1];
      ContentIsLastWritten(init);
      forall k | Extent(init) <= k ensures LastByte(init, k) == 0 { BeyondExtent(init, k); }
    }
  }

  lemma {:induction false} BeyondExtent(ws: seq<Written>, k: nat)
    requires Extent(ws) <= k
    ensures LastByte(ws, k) == 0
  {
    if ws != [] { BeyondExtent(ws[..|ws| - 1], k); }
  }

  /** What was written is read back. */
  lemma ReadBack(buf: seq<byte>, w: Written)
    ensures Slice(Overlay(buf, w), w.offset, |w.data|) == w.data
  {
    if w.data != [] {
      assert Slice(Overlay(buf, w), w.offset, |w.data|) == w.data;
    }
  }

  function Join(pieces: seq<seq<byte>>): seq<byte> {
    if pieces == [] then [] else Join(pieces[..|pieces| - 1]) + pieces[|pieces| - 1]
  }

  /** Writes of consecutive pieces from offset on. */
  function Consecutive(offset: nat, pieces: seq<seq<byte>>): (ws: seq<Written>)
    ensures |ws| == |pieces|
  {
    if pieces == [] then []
    else
      var init := pieces[..|pieces| - 1];
      Consecutive(offset, init) + [Written(offset + |Join(init)|, pieces[|pieces| - 1])]
  }

  /** However a write is cut into consecutive pieces, the file is the same. */
  lemma {:induction false} WriteInPieces(buf: seq<byte>, offset: nat, pieces: seq<seq<byte>>)
    requires pieces != []
    ensures Overlays(buf, Consecutive(offset, pieces)) == Overlay(buf, Written(offset, Join(pieces)))
  {
    hide Overlay, Overlays, Consecutive, Join;
    var n := |pieces| - 1;
    var init := pieces[..n];
    LastPiece(buf, offset, pieces);
    if n == 0 {
      OnlyPiece(buf, offset, pieces);
    } else {
      WriteInPieces(buf, offset, init);
      JoinCut(pieces);
      WriteInTwo(buf, Written(offset, Join(pieces)), |Join(init)|);
    }
  }

  lemma OnlyPiece(buf: seq<byte>, offset: nat, pieces: seq<seq<byte>>)
    requires |pieces| == 1
    ensures Overlays(buf, Consecutive(offset, pieces)) == Overlay(buf, Written(offset, Join(pieces)))
  {
    assert pieces[..0] == [];
    LastPiece(buf, offset, pieces);
    assert Join(pieces) == pieces[0];
  }

  lemma JoinCut(pieces: seq<seq<byte>>)
    requires pieces != []
    ensures
      var n := |pieces| - 1;
      var k := |Join(pieces[..n])|;
      && k <= |Join(pieces)|
      && Join(pieces)[..k] == Join(pieces[..n]) && Join(pieces)[k..] == pieces[n]
  {
  }

  lemma LastPiece(buf: seq<byte>, offset: nat, pieces: seq<seq<byte>>)
    requires pieces != []
    ensures
      var init := pieces[..|pieces| - 1];
      Overlays(buf, Consecutive(offset, pieces)) ==
      Overlay(Overlays(buf, Consecutive(offset, init)), Written(offset + |Join(init)|, pieces[|pieces| - 1]))
  {
    var n, ws := |pieces| - 1, Consecutive(offset, pieces);
    assert ws[..n] == Consecutive(offset, pieces[..n]);
  }

  lemma WriteInTwo(buf: seq<byte>, w: Written, k: nat)
    requires k <= |w.data|
    ensures Overlay(Overlay(buf, Written(w.offset, w.data[..k])), Written(w.offset + k, w.data[k..]))
            == Overlay(buf, w)
  {
  }

  function Sum(counts: seq<nat>): nat {
    if counts == [] then 0 else counts[0] + Sum(counts[1..])
  }

  function ReadOn(buf: seq<byte>, offset: nat, counts: seq<nat>): seq<byte>
    decreases |counts|
  {
    if counts == [] then [] else Slice(buf, offset, counts[0]) + ReadOn(buf, offset + counts[0], counts[1..])
  }

  /** However a read is cut into consecutive ones, the bytes are the same. */
  lemma {:induction false} ReadInPieces(buf: seq<byte>, offset: nat, counts: seq<nat>)
    ensures ReadOn(buf, offset, counts) == Slice(buf, offset, Sum(counts))
    decreases |counts|
  {
    hide Slice;
    if counts == [] {
      ReadNothing(buf, offset);
    } else {
      ReadInPieces(buf, offset + counts[0], counts[1..]);
      ReadFirst(buf, offset, counts);
      ReadInTwo(buf, offset, counts[0], Sum(counts[1..]));
    }
  }

  lemma ReadNothing(buf: seq<byte>, offset: nat)
    ensures Slice(buf, offset, 0) == []
  {
  }

  lemma ReadFirst(buf: seq<byte>, offset: nat, counts: seq<nat>)
    requires counts != []
    ensures ReadOn(buf, offset, counts) == Slice(buf, offset, counts[0]) + ReadOn(buf, offset + counts[0], counts[1..])
    ensures Sum(counts) == counts[0] + Sum(counts[1..])
  {
  }

  lemma ReadInTwo(buf: seq<byte>, offset: nat, first: nat, second: nat)
    ensures Slice(buf, offset, first) + Slice(buf, offset + first, second) == Slice(buf, offset, first + second)
  {
  }

  /** Writes to disjoint ranges commute. */
  lemma DisjointWritesCommute(buf: seq<byte>, v: Written, w: Written)
    requires v.offset + |v.data| <= w.offset || w.offset + |w.data| <= v.offset
    ensures Overlay(Overlay(buf, v), w) == Overlay(Overlay(buf, w), v)
  {
  }

  /** What a read returns, byte by byte: from the end of the file on nothing,
      before it as much of what is asked as there is. */
  lemma WhatIsRead(buf: seq<byte>, offset: nat, count: nat)
    ensures
      var d := Slice(buf, offset, count);
      && |d| == Available(|buf|, offset, count)
      && |d| == (if offset >= |buf| then 0 else if count < |buf| - offset then count else |buf| - offset)
      && forall i | 0 <= i < |d| :: d[i] == buf[offset + i]
  {
  }

  /** What reads of the given counts return, each going on where the last one
      ended. */
  function ReadThrough(buf: seq<byte>, offset: nat, counts: seq<nat>): seq<byte>
    decreases |counts|
  {
    if counts == [] then []
    else
      var d := Slice(buf, offset, counts[0]);
      d + ReadThrough(buf, offset + |d|, counts[1..])
  }

  /** A reader that goes on until a read comes back empty gets exactly the
      file: as many non-empty reads as it has bytes return all of it, and every
      further one is empty. */
  lemma {:induction false} WholeFile(buf: seq<byte>, offset: nat, counts: seq<nat>)
    requires offset <= |buf| && forall c <- counts :: c > 0
    requires |counts| >= |buf| - offset
    ensures ReadThrough(buf, offset, counts) == buf[offset..]
    ensures forall at: nat, count: nat | at >= |buf| :: Slice(buf, at, count) == []
    decreases |counts|
  {
    hide Slice;
    forall at: nat, count: nat | at >= |buf| ensures Slice(buf, at, count) == [] { WhatIsRead(buf, at, count); }
    if counts != [] {
      var d := Slice(buf, offset, counts[0]);
      WhatIsRead(buf, offset, counts[0]);
      assert counts[0] in counts && forall c <- counts[1..] :: c in counts;
      WholeFile(buf, offset + |d|, counts[1..]);
      assert d == buf[offset..offset + |d|];
      assert buf[offset..offset + |d|] + buf[offset + |d|..] == buf[offset..];
    }
  }
}
