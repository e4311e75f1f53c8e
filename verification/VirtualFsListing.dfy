/** Reading a directory of the in-memory filesystem to its end: every child is
    reported, once. */
module VirtualFsListing {
  import opened X9PProtocol
  import opened DirectoryRead
  import opened VirtualFile
  import opened VirtualFs

  /** order is an enumeration of the children of d, each once, and listing what
      their serialised stats are in that order. */
  ghost predicate Lists(nodes: seq<Node>, d: nat, order: seq<Name>, stat: DirEntry -> Record, listing: seq<Record>) {
    && (forall name: Name :: name in order <==> HasChild(nodes, d, name))
    && (forall i, j | 0 <= i < j < |order| :: order[i] != order[j])
    && |listing| == |order|
    && forall i | 0 <= i < |order| && HasChild(nodes, d, order[i]) :: listing[i] == stat(Child(nodes, d, order[i]))
  }

  /** What n reads through a handle return, each going on where the last ended,
      together. */
  function Reads(fs: Fs, id: nat, listing: seq<Record>, offset: nat, count: nat, n: nat): seq<byte>
    requires Inv(fs)
    decreases n
  {
    if n == 0 then []
    else
      var reply := DoRead(fs, id, offset, count, listing).reply;
      if !reply.RRead? then [] else reply.data + Reads(fs, id, listing, offset + |reply.data|, count, n - 1)
  }

  lemma {:induction false} ReadsAreOneByOne(fs: Fs, id: nat, listing: seq<Record>, offset: nat, count: nat, n: nat)
    requires Inv(fs) && Known(fs, id) && MayRead(fs.handles[id].open) && fs.nodes[fs.handles[id].entry.node].Directory?
    ensures Reads(fs, id, listing, offset, count, n) == OneByOne(listing, offset, n)
    decreases n
  {
    if n > 0 {
      ReadsAreOneByOne(fs, id, listing, offset + |ReadOne(listing, offset)|, count, n - 1);
    }
  }

  lemma {:induction false} OffsetIsLength(rs: seq<Record>, offset: nat, counts: seq<nat>)
    ensures OffsetAfter(rs, offset, counts) == offset + |Replies(rs, offset, counts)|
    decreases |counts|
  {
    if counts != [] { OffsetIsLength(rs, offset + |ReadAt(rs, offset, counts[0])|, counts[1..]); }
  }

  /** Each read goes on at an offset the source accepts. */
  lemma ReadsStayOnBoundaries(fs: Fs, id: nat, listing: seq<Record>, count: nat, k: nat)
    requires Inv(fs) && Known(fs, id) && MayRead(fs.handles[id].open) && fs.nodes[fs.handles[id].entry.node].Directory?
    ensures OnBoundary(listing, |Reads(fs, id, listing, 0, count, k)|)
  {
    var counts := seq(k, _ => 0);
    ReadsAreOneByOne(fs, id, listing, 0, count, k);
    OneByOneIsBatched(listing, 0, k);
    OffsetIsLength(listing, 0, counts);
    ReadsFollowTheStream(listing, 0, counts);
  }

  /** Whatever order the children are enumerated in, and whatever their stats,
      as many reads as there are children return the stats of all of them, each
      exactly once, and one more returns nothing. */
  lemma EveryChildIsRead(fs: Fs, id: nat, order: seq<Name>, stat: DirEntry -> Record, listing: seq<Record>,
                         count: nat, n: nat)
    requires Inv(fs) && Known(fs, id) && MayRead(fs.handles[id].open) && fs.nodes[fs.handles[id].entry.node].Directory?
    requires Lists(fs.nodes, fs.handles[id].entry.node, order, stat, listing) && n >= |order|
    ensures Reads(fs, id, listing, 0, count, n) == Flat(listing)
    ensures DoRead(fs, id, |Flat(listing)|, count, listing).reply == RRead([])
    ensures forall k | 0 <= k <= n :: OnBoundary(listing, |Reads(fs, id, listing, 0, count, k)|)
    ensures
      var d := fs.handles[id].entry.node;
      forall name: Name | HasChild(fs.nodes, d, name) ::
        exists i ::
          && 0 <= i < |order| && order[i] == name && listing[i] == stat(Child(fs.nodes, d, name))
          && forall j | 0 <= j < |order| && order[j] == name :: j == i
  {
    ReadsAreOneByOne(fs, id, listing, 0, count, n);
    OneByOneIsBatched(listing, 0, n);
    WholeDirectory(listing, seq(n, _ => 0), 0);
    PastEnd(listing, |Flat(listing)|);
    forall k | 0 <= k <= n ensures OnBoundary(listing, |Reads(fs, id, listing, 0, count, k)|) {
      ReadsStayOnBoundaries(fs, id, listing, count, k);
    }
    var d := fs.handles[id].entry.node;
    forall name: Name | HasChild(fs.nodes, d, name)
      ensures exists i ::
                && 0 <= i < |order| && order[i] == name && listing[i] == stat(Child(fs.nodes, d, name))
                && forall j | 0 <= j < |order| && order[j] == name :: j == i
    {
      assert name in order;
      var i :| 0 <= i < |order| && order[i] == name;
      assert listing[i] == stat(Child(fs.nodes, d, order[i]));
    }
  }
}
