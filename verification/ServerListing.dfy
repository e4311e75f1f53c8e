/** Listing a directory over a connection: what a client collects by reading on
    through one fid, other requests of its own and of others coming between. */
module ServerListing {
  import opened X9PProtocol
  import opened DirectoryRead
  import opened VirtualFs
  import opened VirtualFsListing
  import opened Server
  import opened ServerRuns

  predicate ReadsThrough(a: Arrival, c: nat, fid: Fid) {
    a.Arrival? && a.conn == c && a.msg.body.TRead? && a.msg.body.fid == fid
  }

  /** How many of arrivals k to n - 1 are Treads through the fid. */
  function ReadsMade(arrivals: seq<Arrival>, k: nat, n: nat, c: nat, fid: Fid): nat
    requires k <= n <= |arrivals|
    decreases n - k
  {
    if k == n then 0
    else ReadsMade(arrivals, k, n - 1, c, fid) + if ReadsThrough(arrivals[n - 1], c, fid) then 1 else 0
  }

  /** The data they are answered with, put together. */
  ghost function Collected(states: seq<Srv>, arrivals: seq<Arrival>, k: nat, n: nat, c: nat, fid: Fid): seq<byte>
    requires Sound(states, arrivals) && k <= n <= |arrivals|
    decreases n - k
  {
    if k == n then []
    else
      var before, a := Collected(states, arrivals, k, n - 1, c, fid), arrivals[n - 1];
      before + if ReadsThrough(a, c, fid) then DataOf(ReplyTo(states[n - 1], a)) else []
  }

  function DataOf(r: Reply): seq<byte> { if r.RRead? then r.data else [] }

  /** The Tread is through a fid that stands at directory d, which is as dir and
      is listed in the given order; it goes on at the given offset, and is
      answered with data. */
  ghost predicate GoesOn(srv: Srv, a: Arrival, d: nat, dir: Node, order: seq<Name>, stat: DirEntry -> Record, offset: nat)
    requires Inv(srv.fs) && Possible(srv, a)
  {
    && a.Arrival? && a.msg.body.TRead? && a.msg.body.fid in srv.conns[a.conn].fids
    && StandsAt(srv, a.conn, a.msg.body.fid, d)
    && d < |srv.fs.nodes| && srv.fs.nodes[d] == dir && Lists(srv.fs.nodes, d, order, stat, a.listing)
    && a.msg.body.offset == offset && ReplyTo(srv, a).RRead?
  }

  /** All Treads through the fid go on where the last ended. */
  ghost predicate ReadsOn(states: seq<Srv>, arrivals: seq<Arrival>, k: nat, n: nat, c: nat, fid: Fid,
                          d: nat, dir: Node, order: seq<Name>, stat: DirEntry -> Record)
    requires Sound(states, arrivals) && k <= n <= |arrivals|
  {
    forall i | k <= i < n && ReadsThrough(arrivals[i], c, fid) ::
      GoesOn(states[i], arrivals[i], d, dir, order, stat, |Collected(states, arrivals, k, i, c, fid)|)
  }

  /** A directory's listing is a matter of what it is and of the order. */
  function ListingOf(dir: Node, order: seq<Name>, stat: DirEntry -> Record): seq<Record>
    requires dir.Directory? && forall name <- order :: name in dir.children
  {
    seq(|order|, i requires 0 <= i < |order| => stat(dir.children[order[i]]))
  }

  lemma Listing(nodes: seq<Node>, d: nat, order: seq<Name>, stat: DirEntry -> Record, listing: seq<Record>)
    requires d < |nodes| && nodes[d].Directory? && Lists(nodes, d, order, stat, listing)
    ensures forall name :: name in order <==> name in nodes[d].children
    ensures listing == ListingOf(nodes[d], order, stat)
  {
    forall name: Name ensures name in order <==> name in nodes[d].children {
      assert name in order <==> HasChild(nodes, d, name);
    }
    forall i | 0 <= i < |order| ensures listing[i] == stat(nodes[d].children[order[i]]) {
      assert order[i] in order && HasChild(nodes, d, order[i]);
    }
  }

  lemma DirectoryReply(srv: Srv, a: Arrival, d: nat)
    requires Inv(srv.fs) && Possible(srv, a) && a.Arrival? && a.msg.body.TRead?
    requires a.msg.body.fid in srv.conns[a.conn].fids && StandsAt(srv, a.conn, a.msg.body.fid, d)
    requires d < |srv.fs.nodes| && srv.fs.nodes[d].Directory? && ReplyTo(srv, a).RRead?
    ensures ReplyTo(srv, a) == RRead(ReadOne(a.listing, a.msg.body.offset))
  {
    DispatchOther(srv, a.conn, a.msg, a.listing);
    hide Dispatch, Inv, ReadOne;
  }

  /** One read further. */
  lemma OneRead(srv: Srv, a: Arrival, d: nat, dir: Node, order: seq<Name>, stat: DirEntry -> Record, m: nat)
    requires SrvInv(srv) && Possible(srv, a) && dir.Directory?
    requires forall name :: name in order <==> name in dir.children
    requires
      var rs := ListingOf(dir, order, stat);
      GoesOn(srv, a, d, dir, order, stat, |Flat(rs[..if m < |rs| then m else |rs|])|)
    ensures
      var rs := ListingOf(dir, order, stat);
      ReplyTo(srv, a) == RRead(if m < |rs| then rs[m] else [])
  {
    hide ReplyTo, Inv, HandlesMatch, FidsMatch, Possible, StandsAt, Lists, Flat;
    var rs := ListingOf(dir, order, stat);
    Listing(srv.fs.nodes, d, order, stat, a.listing);
    DirectoryReply(srv, a, d);
    BoundaryOf(rs, if m < |rs| then m else |rs|);
  }

  /** After m reads the client has the first m records, or all of them. */
  lemma {:induction false} CollectedSoFar(states: seq<Srv>, arrivals: seq<Arrival>, k: nat, n: nat, c: nat, fid: Fid,
                                          d: nat, dir: Node, order: seq<Name>, stat: DirEntry -> Record)
    requires Sound(states, arrivals) && k <= n <= |arrivals| && dir.Directory?
    requires forall name :: name in order <==> name in dir.children
    requires ReadsOn(states, arrivals, k, n, c, fid, d, dir, order, stat)
    ensures
      var rs, m := ListingOf(dir, order, stat), ReadsMade(arrivals, k, n, c, fid);
      Collected(states, arrivals, k, n, c, fid) == Flat(rs[..if m < |rs| then m else |rs|])
    decreases n - k
  {
    hide Flat, Sound, SrvInv, Possible, GoesOn, ReplyTo;
    SoundSize(states, arrivals);
    var rs := ListingOf(dir, order, stat);
    if k == n {
      assert rs[..0] == [] && Flat([]) == [] by { NothingYet(); }
    } else {
      CollectedSoFar(states, arrivals, k, n - 1, c, fid, d, dir, order, stat);
      var a, m := arrivals[n - 1], ReadsMade(arrivals, k, n - 1, c, fid);
      SoundAt(states, arrivals, n - 1);
      if ReadsThrough(a, c, fid) {
        OneRead(states[n - 1], a, d, dir, order, stat, m);
        OneMoreRecord(rs, m);
      }
    }
  }

  lemma NothingYet()
    ensures Flat([]) == []
  {
  }

  lemma OneMoreRecord(rs: seq<Record>, m: nat)
    ensures
      Flat(rs[..if m + 1 < |rs| then m + 1 else |rs|]) ==
      Flat(rs[..if m < |rs| then m else |rs|]) + if m < |rs| then rs[m] else []
  {
    if m < |rs| {
      FlatSnoc(rs, 0, m);
      assert rs[0..m + 1] == rs[..m + 1] && rs[0..m] == rs[..m];
    }
  }

  /** Over every run of the server, whatever else its clients do meanwhile:
      reading on through a fid at a directory that stays as it is, in whatever
      order its children are enumerated, as many reads as there are children
      collect the stats of all of them, each exactly once. */
  lemma EveryChildIsListed(states: seq<Srv>, arrivals: seq<Arrival>, k: nat, n: nat, c: nat, fid: Fid,
                           d: nat, dir: Node, order: seq<Name>, stat: DirEntry -> Record)
    requires Run(states, arrivals) && k <= n <= |arrivals| && dir.Directory?
    requires |order| == |dir.children| && forall name :: name in order <==> name in dir.children
    requires Sound(states, arrivals) ==> ReadsOn(states, arrivals, k, n, c, fid, d, dir, order, stat)
    requires ReadsMade(arrivals, k, n, c, fid) >= |dir.children|
    ensures Sound(states, arrivals)
    ensures Collected(states, arrivals, k, n, c, fid) == Flat(ListingOf(dir, order, stat))
    ensures forall name <- dir.children ::
              exists i ::
                && 0 <= i < |order| && order[i] == name && ListingOf(dir, order, stat)[i] == stat(dir.children[name])
                && forall j | 0 <= j < |order| && order[j] == name :: j == i
  {
    RunIsSound(states, arrivals);
    hide Run, Sound, ReadsOn, Collected, ReadsMade, Flat;
    CollectedSoFar(states, arrivals, k, n, c, fid, d, dir, order, stat);
    var rs := ListingOf(dir, order, stat);
    assert rs[..|rs|] == rs;
    EachOnce(order, dir.children.Keys);
    forall name <- dir.children
      ensures exists i ::
                && 0 <= i < |order| && order[i] == name && rs[i] == stat(dir.children[name])
                && forall j | 0 <= j < |order| && order[j] == name :: j == i
    {
      var i :| 0 <= i < |order| && order[i] == name;
      assert rs[i] == stat(dir.children[name]);
    }
  }

  /** A sequence of all of a set's elements, no longer than the set, has each
      once. */
  lemma {:induction false} EachOnce(order: seq<Name>, names: set<Name>)
    requires |order| == |names| && forall name :: name in order <==> name in names
    ensures forall i, j | 0 <= i < j < |order| :: order[i] != order[j]
  {
    if i, j :| 0 <= i < j < |order| && order[i] == order[j] {
      var rest := order[..j] + order[j + 1..];
      forall name <- names ensures name in rest {
        var p :| 0 <= p < |order| && order[p] == name;
        assert name == if p < j then rest[p] else if p == j then rest[i] else rest[p - 1];
      }
      FewNames(rest, names);
    }
  }

  lemma {:induction false} FewNames(s: seq<Name>, names: set<Name>)
    requires forall name <- names :: name in s
    ensures |names| <= |s|
  {
    if s == [] {
      assert names == {};
    } else {
      var n := |s| - 1;
      forall name <- names - {s[n]} ensures name in s[..n] {
        var p :| 0 <= p < |s| && s[p] == name;
        assert s[..n][p] == name;
      }
      FewNames(s[..n], names - {s[n]});
    }
  }
}
