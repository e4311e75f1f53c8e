/** Which handle objects of the server a client can still name: all but those
    left behind by attaching with a fid in use, which stay for good. */
module ServerHandles {
  import opened X9PProtocol
  import opened DirectoryRead
  import opened VirtualFs
  import opened Server

  /** A live handle object no fid of any connection is bound to. */
  ghost predicate Orphan(srv: Srv, h: nat) {
    h < |srv.hnds| && srv.hnds[h].Some? && !exists c: nat, fid: Fid :: Bound(srv, c, fid, h)
  }

  ghost predicate AllBound(srv: Srv) {
    forall h: nat | h < |srv.hnds| && srv.hnds[h].Some? :: exists c: nat, fid: Fid :: Bound(srv, c, fid, h)
  }

  /** An attach naming a fid that is in use. */
  predicate Reattaches(srv: Srv, a: Arrival) {
    a.Arrival? && a.msg.body.TAttach? && a.conn < |srv.conns| && a.msg.body.fid in srv.conns[a.conn].fids
  }

  // ------------------------------------------------------------- one request

  /** The orphans afterwards are those before, with their ids, and the object
      given, if any. */
  ghost predicate Orphans(srv: Srv, srv': Srv, more: Option<nat>) {
    && |srv.hnds| <= |srv'.hnds|
    && (forall h: nat :: Orphan(srv', h) <==> Orphan(srv, h) || more == Some(h))
    && forall h: nat | Orphan(srv, h) :: srv'.hnds[h] == srv.hnds[h]
  }

  lemma SameOrphans(srv: Srv, srv': Srv)
    requires srv'.hnds == srv.hnds
    requires forall c: nat, fid: Fid, h: nat :: Bound(srv', c, fid, h) <==> Bound(srv, c, fid, h)
    ensures Orphans(srv, srv', None)
  {
  }

  lemma BoundAlike(srv: Srv, srv': Srv)
    requires srv'.hnds == srv.hnds && |srv'.conns| == |srv.conns|
    requires forall d | 0 <= d < |srv.conns| :: srv'.conns[d].fids == srv.conns[d].fids
    ensures Orphans(srv, srv', None)
  {
    forall d: nat, f: Fid, h: nat ensures Bound(srv', d, f, h) <==> Bound(srv, d, f, h) {}
    SameOrphans(srv, srv');
  }

  /** A new object bound to a fid that was free is none. */
  lemma BoundAtOnce(srv: Srv, srv': Srv, c: nat, fid: Fid, id: nat)
    requires FidsMatch(srv) && c < |srv.conns| && fid !in srv.conns[c].fids
    requires srv'.hnds == srv.hnds + [Some(id)] && |srv'.conns| == |srv.conns|
    requires forall d | 0 <= d < |srv.conns| && d != c :: srv'.conns[d].fids == srv.conns[d].fids
    requires srv'.conns[c].fids == srv.conns[c].fids[fid := |srv.hnds|]
    ensures Orphans(srv, srv', None)
  {
    forall d: nat, f: Fid, h: nat
      ensures Bound(srv', d, f, h) <==> Bound(srv, d, f, h) || (d == c && f == fid && h == |srv.hnds|) {}
    assert Bound(srv', c, fid, |srv.hnds|);
    forall h: nat ensures Orphan(srv', h) <==> Orphan(srv, h) {
      if h < |srv.hnds| && exists d: nat, f: Fid :: Bound(srv, d, f, h) {
        var d: nat, f: Fid :| Bound(srv, d, f, h);
        assert Bound(srv', d, f, h);
      }
    }
  }

  /** One that is bound to nothing is one. */
  lemma LeftBehind(srv: Srv, srv': Srv, id: nat)
    requires FidsMatch(srv) && srv'.hnds == srv.hnds + [Some(id)] && |srv'.conns| == |srv.conns|
    requires forall d | 0 <= d < |srv.conns| :: srv'.conns[d].fids == srv.conns[d].fids
    ensures Orphans(srv, srv', Some(|srv.hnds|))
  {
    forall d: nat, f: Fid, h: nat ensures Bound(srv', d, f, h) <==> Bound(srv, d, f, h) {}
  }

  lemma Released(srv: Srv, srv': Srv, c: nat, fid: Fid)
    requires FidsMatch(srv) && c < |srv.conns| && fid in srv.conns[c].fids && srv.conns[c].fids[fid] < |srv.hnds|
    requires srv'.hnds == srv.hnds[srv.conns[c].fids[fid] := None] && |srv'.conns| == |srv.conns|
    requires forall d | 0 <= d < |srv.conns| && d != c :: srv'.conns[d].fids == srv.conns[d].fids
    requires srv'.conns[c].fids == srv.conns[c].fids - {fid}
    ensures Orphans(srv, srv', None)
  {
    var gone := srv.conns[c].fids[fid];
    assert Bound(srv, c, fid, gone);
    forall d: nat, f: Fid, h: nat ensures Bound(srv', d, f, h) <==> Bound(srv, d, f, h) && !(d == c && f == fid) {}
    forall h: nat ensures Orphan(srv', h) <==> Orphan(srv, h) {
      if h != gone && exists d: nat, f: Fid :: Bound(srv, d, f, h) {
        var d: nat, f: Fid :| Bound(srv, d, f, h);
        assert Bound(srv', d, f, h);
      }
    }
  }

  lemma AttachOrphans(srv: Srv, c: nat, m: Request, listing: seq<Record>)
    requires SrvInv(srv) && c < |srv.conns| && m.body.TAttach?
    ensures
      Orphans(srv, Dispatch(srv, c, m, listing), if m.body.fid in srv.conns[c].fids then Some(|srv.hnds|) else None)
  {
    DispatchAttach(srv, c, m, listing);
    hide Dispatch, Inv, HandlesMatch, FidsMatch, Orphans;
    var srv', out := Dispatch(srv, c, m, listing), DoAttach(srv.fs, XHID_UNINITIALIZED);
    if m.body.fid in srv.conns[c].fids {
      LeftBehind(srv, srv', out.id);
    } else {
      BoundAtOnce(srv, srv', c, m.body.fid, out.id);
    }
  }

  lemma WalkOrphans(srv: Srv, c: nat, m: Request, listing: seq<Record>)
    requires SrvInv(srv) && c < |srv.conns| && m.body.TWalk? && Refusal(srv, c, m.body).None?
    ensures Orphans(srv, Dispatch(srv, c, m, listing), None)
  {
    DispatchWalk(srv, c, m, listing);
    hide Dispatch, Inv, HandlesMatch, FidsMatch, Orphans;
    var srv' := Dispatch(srv, c, m, listing);
    if m.body.newfid == m.body.fid {
      BoundAlike(srv, srv');
    } else {
      BoundAtOnce(srv, srv', c, m.body.newfid, DoWalk(srv.fs, FidId(srv, c, m.body.fid), XHID_UNINITIALIZED, m.body.names).id);
    }
  }

  lemma ReleaseOrphans(srv: Srv, c: nat, m: Request, listing: seq<Record>)
    requires SrvInv(srv) && c < |srv.conns| && (m.body.TClunk? || m.body.TRemove?) && Refusal(srv, c, m.body).None?
    ensures Orphans(srv, Dispatch(srv, c, m, listing), None)
  {
    assert Bound(srv, c, m.body.fid, srv.conns[c].fids[m.body.fid]);
    DispatchRelease(srv, c, m, listing);
    hide Dispatch, Inv, HandlesMatch, FidsMatch, Orphans;
    Released(srv, Dispatch(srv, c, m, listing), c, m.body.fid);
  }

  lemma DispatchOrphans(srv: Srv, c: nat, m: Request, listing: seq<Record>)
    requires SrvInv(srv) && c < |srv.conns|
    ensures
      Orphans(srv, Dispatch(srv, c, m, listing),
              if Reattaches(srv, Arrival(c, m, listing)) then Some(|srv.hnds|) else None)
  {
    hide Inv, HandlesMatch, FidsMatch, Orphans;
    if m.body.TAttach? {
      AttachOrphans(srv, c, m, listing);
    } else if m.body.TVersion? || Refusal(srv, c, m.body).Some? {
      BoundAlike(srv, Dispatch(srv, c, m, listing));
    } else if m.body.TWalk? {
      WalkOrphans(srv, c, m, listing);
    } else if m.body.TClunk? || m.body.TRemove? {
      ReleaseOrphans(srv, c, m, listing);
    } else {
      DispatchOther(srv, c, m, listing);
      hide Dispatch;
      BoundAlike(srv, Dispatch(srv, c, m, listing));
    }
  }

  lemma AfterOrphans(srv: Srv, a: Arrival)
    requires SrvInv(srv) && Possible(srv, a)
    ensures Orphans(srv, After(srv, a), if Reattaches(srv, a) then Some(|srv.hnds|) else None)
  {
    hide Inv, HandlesMatch, FidsMatch, Orphans, Dispatch, Fine;
    match a
    case Accepted => AcceptOrphans(srv);
    case Arrival(c, m, listing) => DispatchOrphans(srv, c, m, listing);
    case Sent(c, ok) => BoundAlike(srv, Send(srv, c, ok));
  }

  lemma AcceptOrphans(srv: Srv)
    ensures Orphans(srv, Accept(srv), None)
  {
    forall d: nat, f: Fid, h: nat ensures Bound(Accept(srv), d, f, h) <==> Bound(srv, d, f, h) {}
    SameOrphans(srv, Accept(srv));
  }

  /** With every object bound, a request leaves every object bound if and only
      if it is no attach with a fid in use. */
  lemma OnlyReattachOrphans(srv: Srv, c: nat, m: Request, listing: seq<Record>)
    requires SrvInv(srv) && c < |srv.conns| && AllBound(srv)
    ensures AllBound(Dispatch(srv, c, m, listing)) <==> !(m.body.TAttach? && m.body.fid in srv.conns[c].fids)
  {
    DispatchOrphans(srv, c, m, listing);
    NoOrphans(srv);
    NoOrphans(Dispatch(srv, c, m, listing));
  }

  lemma NoOrphans(srv: Srv)
    ensures AllBound(srv) <==> forall h: nat :: !Orphan(srv, h)
  {
    if forall h: nat :: !Orphan(srv, h) {
      forall h: nat | h < |srv.hnds| && srv.hnds[h].Some? ensures exists c: nat, fid: Fid :: Bound(srv, c, fid, h) {
        assert !Orphan(srv, h);
      }
    }
  }

  // -------------------------------------------------------------------- runs

  /** Arrival i left object h behind. */
  ghost predicate LeftAt(states: seq<Srv>, arrivals: seq<Arrival>, i: nat, h: nat) {
    i < |states| && i < |arrivals| && Reattaches(states[i], arrivals[i]) && |states[i].hnds| == h
  }

  /** In every run of a server from its beginning the objects no client can
      name are exactly those made by attaches with a fid in use, one each. */
  lemma {:induction false} OrphansAreReattached(msize: nat, states: seq<Srv>, arrivals: seq<Arrival>, n: nat)
    requires Run(states, arrivals) && states[0] == Begin(msize) && n <= |arrivals|
    ensures forall h: nat :: Orphan(states[n], h) <==> exists i: nat :: i < n && LeftAt(states, arrivals, i, h)
  {
    hide SrvInv, Dispatch, Orphan, Reattaches;
    if n == 0 {
      NoneAtFirst(msize);
    } else {
      OrphansAreReattached(msize, states, arrivals, n - 1);
      RunKeepsInv(states, arrivals, n - 1);
      assert Serves(states[n - 1], arrivals[n - 1], states[n - 1 + 1]);
      AfterOrphans(states[n - 1], arrivals[n - 1]);
      forall h: nat
        ensures Orphan(states[n], h) <==> exists i: nat :: i < n && LeftAt(states, arrivals, i, h)
      {
        if Orphan(states[n], h) && !Orphan(states[n - 1], h) { assert LeftAt(states, arrivals, n - 1, h); }
        if i: nat :| i < n && LeftAt(states, arrivals, i, h) { assert i < n - 1 || i == n - 1; }
      }
    }
  }

  lemma NoneAtFirst(msize: nat)
    ensures forall h: nat :: !Orphan(Begin(msize), h)
  {
  }

  /** So every object can be named if and only if nobody ever attached with a
      fid in use. */
  lemma AllBoundOverRuns(msize: nat, states: seq<Srv>, arrivals: seq<Arrival>, n: nat)
    requires Run(states, arrivals) && states[0] == Begin(msize) && n <= |arrivals|
    ensures AllBound(states[n]) <==> forall i | 0 <= i < n :: !Reattaches(states[i], arrivals[i])
  {
    hide SrvInv, Orphan;
    OrphansAreReattached(msize, states, arrivals, n);
    NoOrphans(states[n]);
    forall i: nat | i < n && Reattaches(states[i], arrivals[i]) ensures !AllBound(states[n]) {
      assert LeftAt(states, arrivals, i, |states[i].hnds|);
      assert Orphan(states[n], |states[i].hnds|);
    }
    if !AllBound(states[n]) {
      var h: nat :| Orphan(states[n], h);
      var i: nat :| i < n && LeftAt(states, arrivals, i, h);
    }
  }

  /** And what was left behind keeps its entry in the filesystem's handle table
      for the rest of the run. */
  lemma {:induction false} LeftForGood(states: seq<Srv>, arrivals: seq<Arrival>, i: nat, n: nat)
    requires Run(states, arrivals) && i < n <= |arrivals| && Reattaches(states[i], arrivals[i])
    ensures Orphan(states[n], |states[i].hnds|) && Holds(states[n], |states[i].hnds|, states[i].fs.hidserial)
    ensures states[i].fs.hidserial in states[n].fs.handles
  {
    hide Dispatch, Inv, FidsMatch;
    RunKeepsInv(states, arrivals, n);
    RunKeepsInv(states, arrivals, n - 1);
    assert Serves(states[n - 1], arrivals[n - 1], states[n - 1 + 1]);
    AfterOrphans(states[n - 1], arrivals[n - 1]);
    if n == i + 1 {
      var a := arrivals[i];
      DispatchAttach(states[i], a.conn, a.msg, a.listing);
    } else {
      LeftForGood(states, arrivals, i, n - 1);
    }
  }

  // ------------------------------------------------------------------ a case

  const ATTACH := Request(0, TAttach(0, [], []))

  /** A run in which one connection attaches twice with the same fid: the
      second object has no name. */
  lemma AttachedTwice(msize: nat) returns (states: seq<Srv>)
    ensures
      var arrivals := [Accepted, Arrival(0, ATTACH, []), Arrival(0, ATTACH, [])];
      && Run(states, arrivals) && states[0] == Begin(msize)
      && AllBound(states[2]) && Orphan(states[3], 1) && !AllBound(states[3])
  {
    hide Inv, HandlesMatch, FidsMatch, Orphan, AllBound;
    var s0 := Begin(msize);
    BeginInv(msize);
    var s1 := Accept(s0);
    Extended([s0], [], Accepted);
    assert [s0] + [s1] == [s0, s1] && [] + [Accepted] == [Accepted];
    var a := Arrival(0, ATTACH, []);
    var s2 := After(s1, a);
    Extended([s0, s1], [Accepted], a);
    assert [s0, s1] + [s2] == [s0, s1, s2] && [Accepted] + [a] == [Accepted, a];
    DispatchAttach(s1, 0, ATTACH, []);
    var s3 := After(s2, a);
    Extended([s0, s1, s2], [Accepted, a], a);
    states := [s0, s1, s2, s3];
    assert [s0, s1, s2] + [s3] == states && [Accepted, a] + [a] == [Accepted, a, a];
    AllBoundOverRuns(msize, states, [Accepted, a, a], 2);
    AllBoundOverRuns(msize, states, [Accepted, a, a], 3);
    LeftForGood(states, [Accepted, a, a], 2, 3);
  }
}
