/** The request dispatch of src/X9PServer.cpp over the in-memory filesystem:
    connections with their fid tables and response queues, and the handle
    objects they share the filesystem through. */
module Server {
  import opened X9PProtocol
  import opened DirectoryRead
  import opened VirtualFs
  import opened VirtualFsTree
  import Session

  /** fids name handle objects by allocation index. */
  datatype Conn = Conn(fids: map<Fid, nat>, queue: seq<Response>)

  /** hnds[h] is the id held by the h-th handle object, None once deleted. */
  datatype Srv = Srv(fs: Fs, hnds: seq<Option<nat>>, conns: seq<Conn>, msize: nat)

  function IdOf(srv: Srv, h: nat): nat {
    if h < |srv.hnds| && srv.hnds[h].Some? then srv.hnds[h].value else XHID_UNINITIALIZED
  }

  function FidId(srv: Srv, c: nat, fid: Fid): nat
    requires c < |srv.conns| && fid in srv.conns[c].fids
  {
    IdOf(srv, srv.conns[c].fids[fid])
  }

  function Respond(srv: Srv, c: nat, tag: Tag, reply: Reply): Srv
    requires c < |srv.conns|
  {
    srv.(conns := srv.conns[c := srv.conns[c].(queue := srv.conns[c].queue + [Response(tag, reply)])])
  }

  function SetFids(srv: Srv, c: nat, fids: map<Fid, nat>): Srv
    requires c < |srv.conns|
  {
    srv.(conns := srv.conns[c := srv.conns[c].(fids := fids)])
  }

  /** The filesystem request behind a message that names a known fid and gets
      past the checks of the dispatch. */
  function FsOpOf(b: Body, id: nat, newid: nat, listing: seq<Record>): FsOp
    requires !b.TVersion? && !b.TAttach?
  {
    match b
    case TWalk(_, _, names) => OpWalk(id, newid, names)
    case TOpen(_, mode) => OpOpen(id, mode & OPEN_PROTOCOL_MASK)
    case TCreate(_, name, isDir, mode) => OpCreate(id, name, isDir, mode & OPEN_PROTOCOL_MASK)
    case TRead(_, offset, count) => OpRead(id, offset, count, listing)
    case TWrite(_, offset, data) => OpWrite(id, offset, data)
    case TClunk(_) => OpClunk(id)
    case TRemove(_) => OpRemove(id)
    case TWstat(_, name) => OpRename(id, name)
  }

  /** The refusals decided before the filesystem is asked. */
  function Refusal(srv: Srv, c: nat, b: Body): Option<Error>
    requires c < |srv.conns|
  {
    var fids := srv.conns[c].fids;
    match b
    case TVersion(_, _) => None
    case TAttach(_, _, _) => None
    case TWalk(fid, newfid, names) =>
      if |names| > TWALK_MAXELEM then Some(WalkTooFar)
      else if fid !in fids then Some(FidDne)
      else if newfid != fid && newfid in fids then Some(FidUsed)
      else None
    case TCreate(fid, name, _, _) =>
      if fid !in fids then Some(FidDne)
      else if name == [46, 46] then Some(FilenameDotDot)
      else if name == [46] then Some(FilenameDot)
      else None
    case _ => if b.fid !in fids then Some(FidDne) else None
  }

  /** Which filesystem request a message leads to; attach and version apart. */
  function FsRequest(srv: Srv, c: nat, b: Body, listing: seq<Record>): Option<FsOp>
    requires c < |srv.conns|
  {
    if b.TVersion? || Refusal(srv, c, b).Some? then None
    else if b.TAttach? then Some(OpAttach(XHID_UNINITIALIZED))
    else
      var newid := if b.TWalk? && b.newfid == b.fid then FidId(srv, c, b.fid) else XHID_UNINITIALIZED;
      Some(FsOpOf(b, FidId(srv, c, b.fid), newid, listing))
  }

  /** Handle objects and fid table after the filesystem's answer gave the
      handle concerned the given id. */
  function Rebind(srv: Srv, c: nat, b: Body, id: nat): Srv
    requires c < |srv.conns| && Refusal(srv, c, b).None?
  {
    var fids := srv.conns[c].fids;
    match b
    case TVersion(_, _) => srv
    case TAttach(fid, _, _) =>
      SetFids(srv.(hnds := srv.hnds + [Some(id)]), c,
              if fid in fids then fids else fids[fid := |srv.hnds|])
    case TWalk(fid, newfid, _) =>
      if newfid == fid then srv
      else SetFids(srv.(hnds := srv.hnds + [Some(id)]), c, fids[newfid := |srv.hnds|])
    case TClunk(fid) => Release(srv, c, fid)
    case TRemove(fid) => Release(srv, c, fid)
    case _ => srv
  }

  function Release(srv: Srv, c: nat, fid: Fid): Srv
    requires c < |srv.conns| && fid in srv.conns[c].fids
  {
    var h := srv.conns[c].fids[fid];
    SetFids(if h < |srv.hnds| then srv.(hnds := srv.hnds[h := None]) else srv, c, srv.conns[c].fids - {fid})
  }

  /** One request on connection c. */
  function Dispatch(srv: Srv, c: nat, m: Request, listing: seq<Record>): Srv
    requires c < |srv.conns| && Inv(srv.fs)
  {
    var refusal := Refusal(srv, c, m.body);
    if refusal.Some? then Respond(srv, c, m.tag, RError(refusal.value))
    else if m.body.TVersion? then
      Respond(srv, c, m.tag, RVersion(if m.body.msize > srv.msize then srv.msize else m.body.msize))
    else
      var out := Step(srv.fs, FsRequest(srv, c, m.body, listing).value);
      Respond(Rebind(srv, c, m.body, out.id).(fs := out.fs), c, m.tag, out.reply)
  }

  // ------------------------------------------------ the dispatch case by case

  lemma DispatchRefused(srv: Srv, c: nat, m: Request, listing: seq<Record>)
    requires c < |srv.conns| && Inv(srv.fs)
    ensures
      var refusal := Refusal(srv, c, m.body);
      refusal.Some? ==> Dispatch(srv, c, m, listing) == Respond(srv, c, m.tag, RError(refusal.value))
  {
  }

  lemma DispatchAttach(srv: Srv, c: nat, m: Request, listing: seq<Record>)
    requires c < |srv.conns| && Inv(srv.fs) && m.body.TAttach?
    ensures
      var out, fids := DoAttach(srv.fs, XHID_UNINITIALIZED), srv.conns[c].fids;
      Dispatch(srv, c, m, listing) ==
      Respond(SetFids(srv.(fs := out.fs, hnds := srv.hnds + [Some(out.id)]), c,
                      if m.body.fid in fids then fids else fids[m.body.fid := |srv.hnds|]),
              c, m.tag, out.reply)
  {
  }

  lemma DispatchWalk(srv: Srv, c: nat, m: Request, listing: seq<Record>)
    requires c < |srv.conns| && Inv(srv.fs) && m.body.TWalk? && Refusal(srv, c, m.body).None?
    ensures
      var fids := srv.conns[c].fids;
      var id := FidId(srv, c, m.body.fid);
      Dispatch(srv, c, m, listing) ==
      if m.body.newfid == m.body.fid then
        var out := DoWalk(srv.fs, id, id, m.body.names);
        Respond(srv.(fs := out.fs), c, m.tag, out.reply)
      else
        var out := DoWalk(srv.fs, id, XHID_UNINITIALIZED, m.body.names);
        Respond(SetFids(srv.(fs := out.fs, hnds := srv.hnds + [Some(out.id)]), c, fids[m.body.newfid := |srv.hnds|]),
                c, m.tag, out.reply)
  {
  }

  lemma WalkKeepsId(fs: Fs, id: nat, names: seq<Name>)
    requires Inv(fs)
    ensures DoWalk(fs, id, id, names).id == id
  {
  }

  lemma DispatchRelease(srv: Srv, c: nat, m: Request, listing: seq<Record>)
    requires c < |srv.conns| && Inv(srv.fs) && (m.body.TClunk? || m.body.TRemove?)
    requires m.body.fid in srv.conns[c].fids && srv.conns[c].fids[m.body.fid] < |srv.hnds|
    ensures
      var fids := srv.conns[c].fids;
      var id := FidId(srv, c, m.body.fid);
      var out := if m.body.TClunk? then DoClunk(srv.fs, id) else DoRemove(srv.fs, id);
      Dispatch(srv, c, m, listing) ==
      Respond(SetFids(srv.(fs := out.fs, hnds := srv.hnds[fids[m.body.fid] := None]), c, fids - {m.body.fid}),
              c, m.tag, out.reply)
  {
  }

  predicate Other(b: Body) {
    b.TOpen? || b.TCreate? || b.TRead? || b.TWrite? || b.TWstat?
  }

  lemma DispatchOther(srv: Srv, c: nat, m: Request, listing: seq<Record>)
    requires c < |srv.conns| && Inv(srv.fs) && Other(m.body) && Refusal(srv, c, m.body).None?
    ensures
      var op := FsOpOf(m.body, FidId(srv, c, m.body.fid), XHID_UNINITIALIZED, listing);
      var out := Step(srv.fs, op);
      FsRequest(srv, c, m.body, listing) == Some(op) &&
      Dispatch(srv, c, m, listing) == Respond(srv.(fs := out.fs), c, m.tag, out.reply)
  {
  }

  // -------------------------------------------------------------- invariant

  ghost predicate Holds(srv: Srv, h: nat, id: nat) {
    h < |srv.hnds| && srv.hnds[h] == Some(id) && id != XHID_UNINITIALIZED
  }

  /** The ids of handle objects not deleted are the keys of the filesystem's
      handle table, one object per key. */
  ghost predicate HandlesMatch(srv: Srv) {
    && (forall h: nat, id: nat | Holds(srv, h, id) :: id in srv.fs.handles)
    && (forall h: nat, h': nat, id: nat | Holds(srv, h, id) && Holds(srv, h', id) :: h == h')
    && (forall id <- srv.fs.handles :: exists h: nat :: Holds(srv, h, id))
  }

  ghost predicate Bound(srv: Srv, c: nat, fid: Fid, h: nat) {
    c < |srv.conns| && fid in srv.conns[c].fids && srv.conns[c].fids[fid] == h
  }

  /** Fids of all connections are bound to objects not deleted, no two to one. */
  ghost predicate FidsMatch(srv: Srv) {
    && (forall c: nat, fid: Fid, h: nat | Bound(srv, c, fid, h) :: h < |srv.hnds| && srv.hnds[h].Some?)
    && (forall c: nat, fid: Fid, c': nat, fid': Fid, h: nat | Bound(srv, c, fid, h) && Bound(srv, c', fid', h) ::
          c == c' && fid == fid')
  }

  ghost predicate SrvInv(srv: Srv) {
    Inv(srv.fs) && HandlesMatch(srv) && FidsMatch(srv)
  }

  /** What a request needs beyond the fid checks; the ids the handles carry are
      not part of it. */
  predicate Fine(srv: Srv, c: nat, m: Request, listing: seq<Record>)
    requires c < |srv.conns|
  {
    var op := FsRequest(srv, c, m.body, listing);
    op.Some? ==> Safe(srv.fs, op.value) && !RenamesRoot(srv.fs, op.value)
  }

  // ----------------------------------------------------------------- lemmas

  /** What a request does to the keys of the handle table. */
  lemma StepIds(fs: Fs, op: FsOp)
    requires Inv(fs) && Allowed(fs, op)
    ensures
      var out := Step(fs, op);
      var old_, new_ := fs.handles.Keys, out.fs.handles.Keys;
      match op
      case OpAttach(id) =>
        if Known(fs, id) then new_ == old_ && out.id == id
        else new_ == old_ + {fs.hidserial} && out.id == fs.hidserial
      case OpWalk(id, newid, _) =>
        if !out.reply.RWalk? || id == newid then new_ == old_ && out.id == newid
        else new_ == old_ + {fs.hidserial} && out.id == fs.hidserial
      case OpRemove(id) => new_ == old_ - {id}
      case OpClunk(id) => new_ == old_ - {id}
      case _ => new_ == old_ && out.id == op.id
  {
  }

  lemma AddObject(srv: Srv, srv': Srv, id: nat)
    requires HandlesMatch(srv) && srv'.hnds == srv.hnds + [Some(id)]
    requires if id == XHID_UNINITIALIZED then srv'.fs.handles.Keys == srv.fs.handles.Keys
             else id !in srv.fs.handles && srv'.fs.handles.Keys == srv.fs.handles.Keys + {id}
    ensures HandlesMatch(srv')
  {
    forall h: nat, i: nat
      ensures Holds(srv', h, i) <==> Holds(srv, h, i) || (h == |srv.hnds| && i == id && id != XHID_UNINITIALIZED) {}
    forall i <- srv'.fs.handles ensures exists h: nat :: Holds(srv', h, i) {
      if i in srv.fs.handles {
        var h: nat :| Holds(srv, h, i);
        assert Holds(srv', h, i);
      } else {
        assert Holds(srv', |srv.hnds|, i);
      }
    }
  }

  lemma DropObject(srv: Srv, srv': Srv, h: nat)
    requires HandlesMatch(srv) && h < |srv.hnds| && srv'.hnds == srv.hnds[h := None]
    requires srv'.fs.handles.Keys == srv.fs.handles.Keys - {IdOf(srv, h)}
    ensures HandlesMatch(srv')
  {
    forall k: nat, i: nat ensures Holds(srv', k, i) <==> Holds(srv, k, i) && k != h {}
    forall i <- srv'.fs.handles ensures exists k: nat :: Holds(srv', k, i) {
      var k: nat :| Holds(srv, k, i);
      assert Holds(srv', k, i);
    }
    forall k: nat, i: nat | Holds(srv', k, i) ensures i in srv'.fs.handles {
      assert Holds(srv, k, i);
      if i == IdOf(srv, h) { assert Holds(srv, h, i); }
    }
  }

  lemma BindObject(srv: Srv, srv': Srv, c: nat, fid: Fid, id: nat)
    requires FidsMatch(srv) && c < |srv.conns| && srv'.hnds == srv.hnds + [Some(id)]
    requires |srv'.conns| == |srv.conns|
    requires forall d | 0 <= d < |srv.conns| && d != c :: srv'.conns[d].fids == srv.conns[d].fids
    requires srv'.conns[c].fids == srv.conns[c].fids[fid := |srv.hnds|]
    ensures FidsMatch(srv')
  {
    forall d: nat, f: Fid, h: nat
      ensures Bound(srv', d, f, h) <==>
              if d == c && f == fid then h == |srv.hnds| else Bound(srv, d, f, h) {}
  }

  lemma UnbindObject(srv: Srv, srv': Srv, c: nat, fid: Fid, h: nat)
    requires FidsMatch(srv) && Bound(srv, c, fid, h) && srv'.hnds == srv.hnds[h := None]
    requires |srv'.conns| == |srv.conns|
    requires forall d | 0 <= d < |srv.conns| && d != c :: srv'.conns[d].fids == srv.conns[d].fids
    requires srv'.conns[c].fids == srv.conns[c].fids - {fid}
    ensures FidsMatch(srv')
  {
    forall d: nat, f: Fid, k: nat
      ensures Bound(srv', d, f, k) <==> Bound(srv, d, f, k) && !(d == c && f == fid) {}
  }

  /** Ids the server passes on are ids the filesystem gave out. */
  lemma IdsAreKnown(srv: Srv, c: nat, b: Body, listing: seq<Record>)
    requires SrvInv(srv) && c < |srv.conns| && FsRequest(srv, c, b, listing).Some?
    ensures IdsKnown(srv.fs, FsRequest(srv, c, b, listing).value)
  {
    if b.TWalk? && b.newfid == b.fid {
      var h := srv.conns[c].fids[b.fid];
      assert Bound(srv, c, b.fid, h);
      if IdOf(srv, h) != XHID_UNINITIALIZED { assert Holds(srv, h, IdOf(srv, h)); }
    }
  }

  /** Everything but the queue of connection c agrees. */
  ghost predicate SameButQueue(a: Srv, b: Srv) {
    && a.fs == b.fs && a.hnds == b.hnds && |a.conns| == |b.conns|
    && forall d | 0 <= d < |a.conns| :: a.conns[d].fids == b.conns[d].fids
  }

  lemma QueueIrrelevant(a: Srv, b: Srv)
    requires SrvInv(a) && SameButQueue(a, b)
    ensures SrvInv(b)
  {
    forall h: nat, i: nat ensures Holds(b, h, i) <==> Holds(a, h, i) {}
    forall d: nat, f: Fid, h: nat ensures Bound(b, d, f, h) <==> Bound(a, d, f, h) {}
  }

  /** The state before the response is queued. */
  function Effected(srv: Srv, c: nat, b: Body, listing: seq<Record>): Srv
    requires c < |srv.conns| && Inv(srv.fs) && FsRequest(srv, c, b, listing).Some?
  {
    var out := Step(srv.fs, FsRequest(srv, c, b, listing).value);
    Rebind(srv, c, b, out.id).(fs := out.fs)
  }

  /** The filesystem after the request, and the keys of its handle table. */
  lemma EffectedFs(srv: Srv, c: nat, m: Request, listing: seq<Record>) returns (op: FsOp, out: Outcome)
    requires SrvInv(srv) && c < |srv.conns| && Fine(srv, c, m, listing)
    requires FsRequest(srv, c, m.body, listing).Some?
    ensures op == FsRequest(srv, c, m.body, listing).value && out == Step(srv.fs, op)
    ensures Inv(out.fs) && Effected(srv, c, m.body, listing).fs == out.fs
    ensures IdsKnown(srv.fs, op) && Allowed(srv.fs, op)
    ensures srv.fs.hidserial < XHID_UNINITIALIZED ==> srv.fs.hidserial !in srv.fs.handles
  {
    op := FsRequest(srv, c, m.body, listing).value;
    out := Step(srv.fs, op);
    IdsAreKnown(srv, c, m.body, listing);
    StepKeepsInv(srv.fs, op);
  }

  lemma AttachInv(srv: Srv, c: nat, m: Request, listing: seq<Record>)
    requires SrvInv(srv) && c < |srv.conns| && Fine(srv, c, m, listing) && m.body.TAttach?
    ensures SrvInv(Effected(srv, c, m.body, listing))
  {
    hide Inv, Step, HandlesMatch;
    var op, out := EffectedFs(srv, c, m, listing);
    StepIds(srv.fs, op);
    var srv' := Effected(srv, c, m.body, listing);
    AddObject(srv, srv', out.id);
    if m.body.fid in srv.conns[c].fids {
      forall d: nat, f: Fid, h: nat ensures Bound(srv', d, f, h) <==> Bound(srv, d, f, h) {}
    } else {
      BindObject(srv, srv', c, m.body.fid, out.id);
    }
  }

  lemma WalkInv(srv: Srv, c: nat, m: Request, listing: seq<Record>)
    requires SrvInv(srv) && c < |srv.conns| && Fine(srv, c, m, listing) && m.body.TWalk?
    requires FsRequest(srv, c, m.body, listing).Some?
    ensures SrvInv(Effected(srv, c, m.body, listing))
  {
    hide Inv, Step, HandlesMatch;
    var op, out := EffectedFs(srv, c, m, listing);
    StepIds(srv.fs, op);
    var srv' := Effected(srv, c, m.body, listing);
    if m.body.newfid == m.body.fid {
      Unmoved(srv, srv');
    } else {
      AddObject(srv, srv', out.id);
      BindObject(srv, srv', c, m.body.newfid, out.id);
    }
  }

  lemma ReleaseInv(srv: Srv, c: nat, m: Request, listing: seq<Record>)
    requires SrvInv(srv) && c < |srv.conns| && Fine(srv, c, m, listing) && (m.body.TClunk? || m.body.TRemove?)
    requires FsRequest(srv, c, m.body, listing).Some?
    ensures SrvInv(Effected(srv, c, m.body, listing))
  {
    hide Inv, Step, HandlesMatch, FidsMatch, Safe, RenamesRoot;
    var op, out := EffectedFs(srv, c, m, listing);
    StepIds(srv.fs, op);
    ReleasedInv(srv, Effected(srv, c, m.body, listing), c, m.body.fid);
  }

  lemma EffectedInv(srv: Srv, c: nat, m: Request, listing: seq<Record>)
    requires SrvInv(srv) && c < |srv.conns| && Fine(srv, c, m, listing)
    requires FsRequest(srv, c, m.body, listing).Some?
    ensures SrvInv(Effected(srv, c, m.body, listing))
  {
    if m.body.TAttach? {
      AttachInv(srv, c, m, listing);
    } else if m.body.TWalk? {
      WalkInv(srv, c, m, listing);
    } else if m.body.TClunk? || m.body.TRemove? {
      ReleaseInv(srv, c, m, listing);
    } else {
      OtherInv(srv, c, m, listing);
    }
  }

  lemma OtherInv(srv: Srv, c: nat, m: Request, listing: seq<Record>)
    requires SrvInv(srv) && c < |srv.conns| && Fine(srv, c, m, listing)
    requires FsRequest(srv, c, m.body, listing).Some?
    requires !m.body.TAttach? && !m.body.TWalk? && !m.body.TClunk? && !m.body.TRemove?
    ensures SrvInv(Effected(srv, c, m.body, listing))
  {
    hide Inv, Step, HandlesMatch, FidsMatch, Safe, RenamesRoot;
    var op, out := EffectedFs(srv, c, m, listing);
    StepIds(srv.fs, op);
    Unmoved(srv, Effected(srv, c, m.body, listing));
  }

  lemma Unmoved(srv: Srv, srv': Srv)
    requires HandlesMatch(srv) && FidsMatch(srv)
    requires srv'.hnds == srv.hnds && srv'.conns == srv.conns && srv'.fs.handles.Keys == srv.fs.handles.Keys
    ensures HandlesMatch(srv') && FidsMatch(srv')
  {
    forall h: nat, i: nat ensures Holds(srv', h, i) <==> Holds(srv, h, i) {}
    forall d: nat, f: Fid, h: nat ensures Bound(srv', d, f, h) <==> Bound(srv, d, f, h) {}
  }

  lemma ReleasedInv(srv: Srv, srv': Srv, c: nat, fid: Fid)
    requires HandlesMatch(srv) && FidsMatch(srv)
    requires c < |srv.conns| && fid in srv.conns[c].fids
    requires srv'.hnds == Release(srv, c, fid).hnds && srv'.conns == Release(srv, c, fid).conns
    requires srv'.fs.handles.Keys == srv.fs.handles.Keys - {FidId(srv, c, fid)}
    ensures HandlesMatch(srv') && FidsMatch(srv')
  {
    var h := srv.conns[c].fids[fid];
    assert Bound(srv, c, fid, h);
    DropObject(srv, srv', h);
    UnbindObject(srv, srv', c, fid, h);
  }

  // ------------------------------------------------------------ main results

  /** Every request on every connection keeps the whole invariant: the tree,
      the one-to-one match of handle objects and handle-table keys, and the
      counter above every key. */
  lemma DispatchKeepsInv(srv: Srv, c: nat, m: Request, listing: seq<Record>)
    requires SrvInv(srv) && c < |srv.conns| && Fine(srv, c, m, listing)
    ensures SrvInv(Dispatch(srv, c, m, listing))
  {
    var srv' := Dispatch(srv, c, m, listing);
    if FsRequest(srv, c, m.body, listing).Some? {
      EffectedInv(srv, c, m, listing);
      QueueIrrelevant(Effected(srv, c, m.body, listing), srv');
    } else {
      QueueIrrelevant(srv, srv');
    }
  }

  ghost predicate Refines(srv: Srv, c: nat, m: Request, srv': Srv) {
    && c < |srv.conns| == |srv'.conns|
    && (forall d | 0 <= d < |srv.conns| && d != c :: srv'.conns[d] == srv.conns[d])
    && srv'.conns[c].fids.Keys == Session.Effect(srv.conns[c].fids.Keys, m.body)
    && |srv'.conns[c].queue| == |srv.conns[c].queue| + 1
    && var response := srv'.conns[c].queue[|srv.conns[c].queue|];
       && srv'.conns[c].queue == srv.conns[c].queue + [response] && response.tag == m.tag
       && Session.Responds(Session.Check(srv.conns[c].fids.Keys, m.body), m.body, response.reply)
  }

  lemma RefusedRefines(srv: Srv, c: nat, m: Request, listing: seq<Record>)
    requires c < |srv.conns| && Inv(srv.fs) && Refusal(srv, c, m.body).Some?
    ensures Refines(srv, c, m, Dispatch(srv, c, m, listing))
  {
    hide Inv;
  }

  lemma FirstRefines(srv: Srv, c: nat, m: Request, listing: seq<Record>)
    requires c < |srv.conns| && Inv(srv.fs) && (m.body.TVersion? || m.body.TAttach?)
    ensures Refines(srv, c, m, Dispatch(srv, c, m, listing))
  {
    hide Inv;
  }

  lemma WalkRefines(srv: Srv, c: nat, m: Request, listing: seq<Record>)
    requires c < |srv.conns| && Inv(srv.fs) && m.body.TWalk? && Refusal(srv, c, m.body).None?
    ensures Refines(srv, c, m, Dispatch(srv, c, m, listing))
  {
    DispatchWalk(srv, c, m, listing);
    hide Inv, Dispatch, Walk;
  }

  lemma ReleaseRefines(srv: Srv, c: nat, m: Request, listing: seq<Record>)
    requires c < |srv.conns| && Inv(srv.fs) && (m.body.TClunk? || m.body.TRemove?) && Refusal(srv, c, m.body).None?
    ensures Refines(srv, c, m, Dispatch(srv, c, m, listing))
  {
    hide Inv;
  }

  lemma OtherRefines(srv: Srv, c: nat, m: Request, listing: seq<Record>)
    requires c < |srv.conns| && Inv(srv.fs) && Other(m.body) && Refusal(srv, c, m.body).None?
    ensures Refines(srv, c, m, Dispatch(srv, c, m, listing))
  {
    DispatchOther(srv, c, m, listing);
    hide Inv, Dispatch;
  }

  /** One request on connection c: exactly one response is queued there, with
      the request's tag and a reply of its kind or an error; the fid table
      changes, and refuses, exactly as the session model says; no other
      connection is touched. */
  lemma DispatchRefinesSession(srv: Srv, c: nat, m: Request, listing: seq<Record>)
    requires c < |srv.conns| && Inv(srv.fs)
    ensures
      var srv' := Dispatch(srv, c, m, listing);
      var before := srv.conns[c].fids.Keys;
      && |srv'.conns| == |srv.conns|
      && (forall d | 0 <= d < |srv.conns| && d != c :: srv'.conns[d] == srv.conns[d])
      && srv'.conns[c].fids.Keys == Session.Effect(before, m.body)
      && (exists reply: Reply ::
            srv'.conns[c].queue == srv.conns[c].queue + [Response(m.tag, reply)] &&
            Session.Responds(Session.Check(before, m.body), m.body, reply))
  {
    hide Inv, Dispatch, Refines;
    if Refusal(srv, c, m.body).Some? {
      RefusedRefines(srv, c, m, listing);
    } else if m.body.TVersion? || m.body.TAttach? {
      FirstRefines(srv, c, m, listing);
    } else if m.body.TWalk? {
      WalkRefines(srv, c, m, listing);
    } else if m.body.TClunk? || m.body.TRemove? {
      ReleaseRefines(srv, c, m, listing);
    } else {
      OtherRefines(srv, c, m, listing);
    }
    RefinesMeans(srv, c, m, Dispatch(srv, c, m, listing));
  }

  lemma RefinesMeans(srv: Srv, c: nat, m: Request, srv': Srv)
    requires Refines(srv, c, m, srv')
    ensures c < |srv.conns| == |srv'.conns|
    ensures forall d | 0 <= d < |srv.conns| && d != c :: srv'.conns[d] == srv.conns[d]
    ensures srv'.conns[c].fids.Keys == Session.Effect(srv.conns[c].fids.Keys, m.body)
    ensures exists reply: Reply ::
              srv'.conns[c].queue == srv.conns[c].queue + [Response(m.tag, reply)] &&
              Session.Responds(Session.Check(srv.conns[c].fids.Keys, m.body), m.body, reply)
  {
    hide Session.Effect, Session.Check, Session.Responds;
    var reply := srv'.conns[c].queue[|srv.conns[c].queue|].reply;
    assert srv'.conns[c].queue == srv.conns[c].queue + [Response(m.tag, reply)];
  }

  /** What a session sees of connection c. */
  function Seen(srv: Srv, c: nat): Session.Connection
    requires c < |srv.conns|
  {
    Session.Connection(srv.conns[c].fids.Keys, srv.conns[c].queue)
  }

  /** So a dispatch is a serve step of the session on its connection: whatever
      holds over every run of sessions holds with this server in it. */
  lemma DispatchIsServeStep(srv: Srv, c: nat, s: Session.System, listing: seq<Record>) returns (reply: Reply)
    requires c < |srv.conns| && Inv(srv.fs)
    requires s.up != [] && s.server == Seen(srv, c)
    ensures Session.Enabled(s, Session.DoServe(reply))
    ensures
      var srv' := Dispatch(srv, c, s.up[0], listing);
      c < |srv'.conns| && Session.Step(s, Session.DoServe(reply)).server == Seen(srv', c)
  {
    DispatchRefinesSession(srv, c, s.up[0], listing);
    var srv' := Dispatch(srv, c, s.up[0], listing);
    reply :| srv'.conns[c].queue == srv.conns[c].queue + [Response(s.up[0].tag, reply)] &&
             Session.Responds(Session.Check(srv.conns[c].fids.Keys, s.up[0].body), s.up[0].body, reply);
  }

  /** What happens at the server: a connection is accepted, a request is
      handled, or responses are sent, each as the socket lets it. */
  datatype Arrival =
    | Accepted
    | Arrival(conn: nat, msg: Request, listing: seq<Record>)
    | Sent(conn: nat, ok: seq<bool>)

  function Accept(srv: Srv): Srv {
    srv.(conns := srv.conns + [Conn(map[], [])])
  }

  /** The responses whose send failed, in order. */
  function Kept(q: seq<Response>, ok: seq<bool>): seq<Response>
    requires |q| == |ok|
  {
    if q == [] then [] else (if ok[0] then [] else [q[0]]) + Kept(q[1..], ok[1..])
  }

  lemma KeptNext(q: seq<Response>, ok: seq<bool>, i: nat)
    requires i < |q| == |ok|
    ensures Kept(q[i..], ok[i..]) == (if ok[i] then [] else [q[i]]) + Kept(q[i + 1..], ok[i + 1..])
  {
    assert q[i..][1..] == q[i + 1..] && ok[i..][1..] == ok[i + 1..];
  }

  lemma KeptNone()
    ensures Kept([], []) == []
  {
  }

  function Send(srv: Srv, c: nat, ok: seq<bool>): Srv
    requires c < |srv.conns| && |ok| == |srv.conns[c].queue|
  {
    srv.(conns := srv.conns[c := srv.conns[c].(queue := Kept(srv.conns[c].queue, ok))])
  }

  /** The source's demands on what happens, in the state it finds. */
  predicate Possible(srv: Srv, a: Arrival) {
    match a
    case Accepted => true
    case Arrival(c, m, listing) => c < |srv.conns| && Fine(srv, c, m, listing)
    case Sent(c, ok) => c < |srv.conns| && |ok| == |srv.conns[c].queue|
  }

  function After(srv: Srv, a: Arrival): Srv
    requires Inv(srv.fs) && Possible(srv, a)
  {
    match a
    case Accepted => Accept(srv)
    case Arrival(c, m, listing) => Dispatch(srv, c, m, listing)
    case Sent(c, ok) => Send(srv, c, ok)
  }

  /** A server that has just begun, over a filesystem that has. */
  function Begin(msize: nat): Srv {
    Srv(VirtualFs.Start(), [], [], msize)
  }

  lemma BeginInv(msize: nat)
    ensures SrvInv(Begin(msize))
  {
    StartInv();
  }

  lemma AcceptInv(srv: Srv)
    requires SrvInv(srv)
    ensures SrvInv(Accept(srv))
  {
    var srv' := Accept(srv);
    forall h: nat, i: nat ensures Holds(srv', h, i) <==> Holds(srv, h, i) {}
    forall d: nat, f: Fid, h: nat ensures Bound(srv', d, f, h) <==> Bound(srv, d, f, h) {}
  }

  lemma AfterKeepsInv(srv: Srv, a: Arrival)
    requires SrvInv(srv) && Possible(srv, a)
    ensures SrvInv(After(srv, a))
  {
    match a
    case Accepted => AcceptInv(srv);
    case Arrival(c, m, listing) => DispatchKeepsInv(srv, c, m, listing);
    case Sent(c, ok) => QueueIrrelevant(srv, Send(srv, c, ok));
  }

  /** states[i+1] is states[i] after arrival i; each arrival meets the source's
      demands on the state it finds. */
  ghost predicate Run(states: seq<Srv>, arrivals: seq<Arrival>) {
    && |states| == |arrivals| + 1
    && SrvInv(states[0])
    && forall i | 0 <= i < |arrivals| :: Serves(states[i], arrivals[i], states[i + 1])
  }

  ghost predicate Serves(srv: Srv, a: Arrival, srv': Srv) {
    SrvInv(srv) ==> Possible(srv, a) && srv' == After(srv, a)
  }

  /** Over every run of requests from all connections together, the handle
      objects match the handle table one to one and the directories stay a
      tree. */
  lemma {:induction false} RunKeepsInv(states: seq<Srv>, arrivals: seq<Arrival>, n: nat)
    requires Run(states, arrivals) && n <= |arrivals|
    ensures SrvInv(states[n])
  {
    if n > 0 {
      RunKeepsInv(states, arrivals, n - 1);
      assert Serves(states[n - 1], arrivals[n - 1], states[n - 1 + 1]);
      AfterKeepsInv(states[n - 1], arrivals[n - 1]);
    }
  }

  /** One more arrival at the end of a run. */
  lemma Extended(states: seq<Srv>, arrivals: seq<Arrival>, a: Arrival)
    requires Run(states, arrivals) && Possible(states[|arrivals|], a)
    ensures SrvInv(states[|arrivals|]) && SrvInv(After(states[|arrivals|], a))
    ensures Run(states + [After(states[|arrivals|], a)], arrivals + [a])
  {
    RunKeepsInv(states, arrivals, |arrivals|);
    AfterKeepsInv(states[|arrivals|], a);
    var more := states + [After(states[|arrivals|], a)];
    forall i | 0 <= i < |arrivals + [a]| ensures Serves(more[i], (arrivals + [a])[i], more[i + 1]) {
      if i < |arrivals| { assert Serves(states[i], arrivals[i], states[i + 1]); }
    }
  }
}
