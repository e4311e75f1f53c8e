/** Walks that resolve nothing, as a client of the server meets them: where
    walk(5) wants an error and the server gives none. */
module ServerWalks {
  import opened X9PProtocol
  import opened DirectoryRead
  import opened VirtualFs
  import opened VirtualFsTree
  import opened VirtualFsWalk
  import opened Server
  import opened ServerRuns

  /** The same server but for what is queued to be sent. */
  predicate SameState(a: Srv, b: Srv) {
    && a.fs == b.fs && a.hnds == b.hnds && |a.conns| == |b.conns|
    && forall d | 0 <= d < |a.conns| :: a.conns[d].fids == b.conns[d].fids
  }

  /** A Twalk through a known handle whose first name has no entry there. */
  predicate LeadsNowhere(srv: Srv, c: nat, b: Body)
    requires c < |srv.conns|
  {
    b.TWalk? && b.names != [] &&
    (b.fid in srv.conns[c].fids ==> Known(srv.fs, FidId(srv, c, b.fid)) && Unresolvable(srv.fs, FidId(srv, c, b.fid), b.names))
  }

  /** Such a Twalk is answered with an error, as walk(5) has it, if and only if
      it has too many names, an unknown fid or a new fid in use. Otherwise the
      answer is a walk of no names, the new fid stands where the fid did, not
      open, and nothing else has changed: for a walk in place from a fid that is
      not open, nothing at all. */
  lemma UnresolvableTwalk(srv: Srv, a: Arrival)
    requires SrvInv(srv) && Possible(srv, a) && a.Arrival? && LeadsNowhere(srv, a.conn, a.msg.body)
    ensures
      var b, srv', fids := a.msg.body, After(srv, a), srv.conns[a.conn].fids;
      && (ReplyTo(srv, a).RError? <==>
            |b.names| > TWALK_MAXELEM || b.fid !in fids || (b.newfid != b.fid && b.newfid in fids))
      && (ReplyTo(srv, a).RError? ==> SameState(srv, srv'))
      && (!ReplyTo(srv, a).RError? ==>
            var h := srv.fs.handles[FidId(srv, a.conn, b.fid)];
            && ReplyTo(srv, a) == RWalk([])
            && srv'.fs.nodes == srv.fs.nodes
            && a.conn < |srv'.conns| && b.newfid in srv'.conns[a.conn].fids
            && FidId(srv', a.conn, b.newfid) in srv'.fs.handles
            && srv'.fs.handles[FidId(srv', a.conn, b.newfid)] == VHandle(h.entry, OPEN_EX_INVALID)
            && (SameState(srv, srv') <==> b.newfid == b.fid && h.open == OPEN_EX_INVALID))
  {
    hide Inv, HandlesMatch, FidsMatch, DoWalk, NoDot, Safe;
    var b := a.msg.body;
    if Refusal(srv, a.conn, b).Some? {
      DispatchRefused(srv, a.conn, a.msg, a.listing);
    } else {
      DispatchWalk(srv, a.conn, a.msg, a.listing);
      hide Dispatch;
      var id := FidId(srv, a.conn, b.fid);
      Bounded(srv, a.conn, b.fid);
      UnresolvableWalk(srv.fs, id, if b.newfid == b.fid then id else XHID_UNINITIALIZED, b.names);
      if b.newfid == b.fid { WalkKeepsId(srv.fs, id, b.names); }
    }
  }

  // ------------------------------------------------------------------ a case

  const ATTACH := Request(0, TAttach(0, [], []))
  const OPEN := Request(0, TOpen(0, OPEN_READ))
  const NOWHERE := Request(0, TWalk(0, 0, [[102]]))

  const ROOT_QID := Qid(true, 0, 0)

  /** One connection whose fid 0 stands at the root, open so. */
  function AtRoot(msize: nat, open: OpenMode, queue: seq<Response>): Srv {
    Srv(Fs([Directory(map[], 0)], map[0 := VHandle(ROOT_ENTRY, open)], 1, 1), [Some(0)], [Conn(map[0 := 0], queue)], msize)
  }

  const Q1 := [Response(0, RAttach(ROOT_QID))]
  const Q2 := Q1 + [Response(0, ROpen(ROOT_QID))]

  lemma Attached(msize: nat)
    ensures
      var s, a := Accept(Begin(msize)), Arrival(0, ATTACH, []);
      Possible(s, a) && Inv(s.fs) && After(s, a) == AtRoot(msize, OPEN_EX_INVALID, Q1)
  {
    BeginInv(msize);
    DispatchAttach(Accept(Begin(msize)), 0, ATTACH, []);
    var srv := After(Accept(Begin(msize)), Arrival(0, ATTACH, []));
    assert srv.conns[0].fids == map[0 := 0] && srv.conns[0].queue == Q1;
    assert srv.hnds == [Some(0)] && srv.fs == AtRoot(msize, OPEN_EX_INVALID, Q1).fs;
  }

  lemma Opened(msize: nat)
    requires Inv(AtRoot(msize, OPEN_EX_INVALID, Q1).fs)
    ensures
      var s, a := AtRoot(msize, OPEN_EX_INVALID, Q1), Arrival(0, OPEN, []);
      Possible(s, a) && After(s, a) == AtRoot(msize, OPEN_READ, Q2)
  {
    hide Inv;
    DispatchOther(AtRoot(msize, OPEN_EX_INVALID, Q1), 0, OPEN, []);
    MaskKeepsRead();
  }

  lemma MaskKeepsRead()
    ensures OPEN_READ & OPEN_PROTOCOL_MASK == OPEN_READ
  {
  }

  lemma Walked(msize: nat)
    requires SrvInv(AtRoot(msize, OPEN_READ, Q2))
    ensures
      var s, a := AtRoot(msize, OPEN_READ, Q2), Arrival(0, NOWHERE, []);
      && Possible(s, a) && ReplyTo(s, a) == RWalk([])
      && After(s, a).fs == s.fs.(handles := map[0 := VHandle(ROOT_ENTRY, OPEN_EX_INVALID)])
  {
    hide Inv, HandlesMatch, FidsMatch;
    DispatchWalk(AtRoot(msize, OPEN_READ, Q2), 0, NOWHERE, []);
  }

  /** A run that attaches, opens the root and walks it in place to a name it
      lacks: no error, the handle stays at the root, and is open no longer. */
  lemma WalkToNowhere(msize: nat) returns (states: seq<Srv>)
    ensures
      var arrivals := [Accepted, Arrival(0, ATTACH, []), Arrival(0, OPEN, []), Arrival(0, NOWHERE, [])];
      && Run(states, arrivals) && states[0] == Begin(msize)
      && SrvInv(states[3]) && states[3].fs.handles == map[0 := VHandle(ROOT_ENTRY, OPEN_READ)]
      && Possible(states[3], arrivals[3]) && ReplyTo(states[3], arrivals[3]) == RWalk([])
      && states[4].fs == states[3].fs.(handles := map[0 := VHandle(ROOT_ENTRY, OPEN_EX_INVALID)])
  {
    hide Inv, HandlesMatch, FidsMatch, Dispatch, Possible, After, ReplyTo;
    BeginInv(msize);
    assert Run([Begin(msize)], []);
    var s0, s1, s2, s3 := Begin(msize), Accept(Begin(msize)), AtRoot(msize, OPEN_EX_INVALID, Q1), AtRoot(msize, OPEN_READ, Q2);
    var a, o, w := Arrival(0, ATTACH, []), Arrival(0, OPEN, []), Arrival(0, NOWHERE, []);
    AcceptIs(s0);
    Extended([s0], [], Accepted);
    assert [s0] + [s1] == [s0, s1] && [] + [Accepted] == [Accepted];
    Attached(msize);
    Extended([s0, s1], [Accepted], a);
    assert [s0, s1] + [s2] == [s0, s1, s2] && [Accepted] + [a] == [Accepted, a];
    Opened(msize);
    Extended([s0, s1, s2], [Accepted, a], o);
    assert [s0, s1, s2] + [s3] == [s0, s1, s2, s3] && [Accepted, a] + [o] == [Accepted, a, o];
    Walked(msize);
    Extended([s0, s1, s2, s3], [Accepted, a, o], w);
    assert [Accepted, a, o] + [w] == [Accepted, a, o, w];
    states := [s0, s1, s2, s3] + [After(s3, w)];
  }

  lemma AcceptIs(srv: Srv)
    ensures Possible(srv, Accepted) && (Inv(srv.fs) ==> After(srv, Accepted) == Accept(srv))
  {
  }
}
