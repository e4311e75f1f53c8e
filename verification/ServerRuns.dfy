/** What whole runs of the server mean to its clients: a run of the server is a
    run of the filesystem whose modes the server has masked; when a fid may be
    read and written; and what is in a file. */
module ServerRuns {
  import opened X9PProtocol
  import opened DirectoryRead
  import opened VirtualFile
  import opened VirtualFs
  import opened VirtualFsTree
  import opened Server
  import F = VirtualFsRuns

  // ------------------------------------------------------ the filesystem's log

  /** What an arrival asks of the filesystem, with what comes of it. */
  ghost function EventsOf(srv: Srv, a: Arrival): seq<F.Event>
    requires Inv(srv.fs) && Possible(srv, a)
  {
    if a.Arrival? && FsRequest(srv, a.conn, a.msg.body, a.listing).Some? then
      var op := FsRequest(srv, a.conn, a.msg.body, a.listing).value;
      [F.Event(op, Step(srv.fs, op))]
    else []
  }

  ghost predicate Sound(states: seq<Srv>, arrivals: seq<Arrival>) {
    && |states| == |arrivals| + 1
    && (forall i | 0 <= i < |states| :: SrvInv(states[i]))
    && forall i | 0 <= i < |arrivals| :: Possible(states[i], arrivals[i]) && states[i + 1] == After(states[i], arrivals[i])
  }

  lemma RunIsSound(states: seq<Srv>, arrivals: seq<Arrival>)
    requires Run(states, arrivals)
    ensures Sound(states, arrivals)
  {
    forall i | 0 <= i < |states| ensures SrvInv(states[i]) { RunKeepsInv(states, arrivals, i); }
    forall i | 0 <= i < |arrivals|
      ensures Possible(states[i], arrivals[i]) && states[i + 1] == After(states[i], arrivals[i])
    {
      assert SrvInv(states[i]) && Serves(states[i], arrivals[i], states[i + 1]);
    }
  }

  /** The log of arrivals k to n - 1. */
  ghost function Log(states: seq<Srv>, arrivals: seq<Arrival>, k: nat, n: nat): seq<F.Event>
    requires Sound(states, arrivals) && k <= n <= |arrivals|
    decreases n - k
  {
    if k == n then [] else Log(states, arrivals, k, n - 1) + EventsOf(states[n - 1], arrivals[n - 1])
  }

  lemma MaskTwice(mode: OpenMode)
    ensures (mode & OPEN_PROTOCOL_MASK) & OPEN_PROTOCOL_MASK == mode & OPEN_PROTOCOL_MASK
  {
  }

  /** What an arrival does to the filesystem is its event, if it has one. */
  lemma ArrivalIsEvent(srv: Srv, a: Arrival)
    requires SrvInv(srv) && Possible(srv, a)
    ensures
      var es := EventsOf(srv, a);
      && |es| <= 1
      && (es == [] ==> After(srv, a).fs == srv.fs)
      && (es != [] ==>
            && Allowed(srv.fs, es[0].op) && !RenamesRoot(srv.fs, es[0].op)
            && es[0].out == Step(srv.fs, es[0].op) && After(srv, a).fs == es[0].out.fs)
  {
    if EventsOf(srv, a) != [] { IdsAreKnown(srv, a.conn, a.msg.body, a.listing); }
    hide Inv, HandlesMatch, FidsMatch, Step, Safe, RenamesRoot, IdsKnown;
  }

  /** One arrival extends a masked run of the filesystem to a masked run. */
  lemma ArrivalLogged(fs: Fs, log: seq<F.Event>, srv: Srv, a: Arrival)
    requires F.Run(fs, log) && F.Masked(log) && F.Final(fs, log) == srv.fs
    requires SrvInv(srv) && Possible(srv, a)
    ensures
      var log' := log + EventsOf(srv, a);
      F.Run(fs, log') && F.Masked(log') && F.Final(fs, log') == After(srv, a).fs
  {
    ArrivalIsEvent(srv, a);
    Masks(srv, a);
    hide EventsOf, After, Dispatch, SrvInv, Possible, Allowed, RenamesRoot, Step;
    var es := EventsOf(srv, a);
    if es == [] {
      assert log + es == log;
    } else {
      assert (log + es)[..|log|] == log && (log + es)[|log|] == es[0];
    }
  }

  lemma Masks(srv: Srv, a: Arrival)
    requires Inv(srv.fs) && Possible(srv, a)
    ensures F.Masked(EventsOf(srv, a))
  {
    if a.Arrival? {
      var b := a.msg.body;
      if b.TOpen? { MaskTwice(b.mode); }
      if b.TCreate? { MaskTwice(b.mode); }
    }
  }

  lemma NoLog(fs: Fs)
    ensures F.Run(fs, []) && F.Masked([]) && F.Final(fs, []) == fs
  {
  }

  /** A run of the server is a masked run of the filesystem. */
  lemma {:induction false} LogIsRun(states: seq<Srv>, arrivals: seq<Arrival>, k: nat, n: nat)
    requires Sound(states, arrivals) && k <= n <= |arrivals|
    ensures
      var log := Log(states, arrivals, k, n);
      F.Run(states[k].fs, log) && F.Masked(log) && F.Final(states[k].fs, log) == states[n].fs
    decreases n - k
  {
    hide EventsOf, SrvInv, Possible, Sound, F.Run, F.Masked;
    SoundSize(states, arrivals);
    if k == n {
      NoLog(states[k].fs);
    } else {
      SoundAt(states, arrivals, n - 1);
      LogIsRun(states, arrivals, k, n - 1);
      ArrivalLogged(states[k].fs, Log(states, arrivals, k, n - 1), states[n - 1], arrivals[n - 1]);
    }
  }

  // ---------------------------------------------------------------- contents

  /** The writes clients made to object n, message by message. */
  ghost function WritesTo(states: seq<Srv>, arrivals: seq<Arrival>, k: nat, i: nat, n: nat): seq<Written>
    requires Sound(states, arrivals) && k <= i <= |arrivals|
    decreases i - k
  {
    if k == i then []
    else WritesTo(states, arrivals, k, i - 1, n) + WriteTo(states[i - 1], arrivals[i - 1], n)
  }

  /** The reply an arrival gets. */
  ghost function ReplyTo(srv: Srv, a: Arrival): Reply
    requires Inv(srv.fs) && Possible(srv, a) && a.Arrival?
  {
    var q := Dispatch(srv, a.conn, a.msg, a.listing).conns[a.conn].queue;
    if q == [] then RClunk else q[|q| - 1].reply
  }

  /** A successful write through a fid whose handle stands at object n. */
  ghost function WriteTo(srv: Srv, a: Arrival, n: nat): seq<Written>
    requires Inv(srv.fs) && Possible(srv, a)
  {
    if a.Arrival? && a.msg.body.TWrite? && ReplyTo(srv, a).RWrite? then
      var b := a.msg.body;
      if b.fid in srv.conns[a.conn].fids && StandsAt(srv, a.conn, b.fid, n) then [Written(b.offset, b.data)] else []
    else []
  }

  ghost predicate StandsAt(srv: Srv, c: nat, fid: Fid, n: nat)
    requires c < |srv.conns| && fid in srv.conns[c].fids
  {
    var id := FidId(srv, c, fid);
    id in srv.fs.handles && srv.fs.handles[id].entry.node == n
  }

  lemma WriteLogged(srv: Srv, a: Arrival, n: nat)
    requires Inv(srv.fs) && Possible(srv, a)
    ensures
      var es := EventsOf(srv, a);
      WriteTo(srv, a, n) == if es == [] then [] else F.WriteTo(srv.fs, es[0], n)
  {
  }

  lemma {:induction false} WritesLogged(states: seq<Srv>, arrivals: seq<Arrival>, k: nat, i: nat, n: nat)
    requires Sound(states, arrivals) && k <= i <= |arrivals|
    ensures WritesTo(states, arrivals, k, i, n) == F.WritesTo(states[k].fs, Log(states, arrivals, k, i), n)
    decreases i - k
  {
    hide EventsOf, WriteTo, F.WritesTo, F.Run, F.Masked, SrvInv, Possible, Sound;
    SoundSize(states, arrivals);
    if k < i {
      SoundAt(states, arrivals, i - 1);
      WritesLogged(states, arrivals, k, i - 1, n);
      LogIsRun(states, arrivals, k, i - 1);
      LoggedWrite(states[k].fs, Log(states, arrivals, k, i - 1), states[i - 1], arrivals[i - 1], n);
    } else {
      NoWrites(states[k].fs, n);
    }
  }

  lemma SoundSize(states: seq<Srv>, arrivals: seq<Arrival>)
    requires Sound(states, arrivals)
    ensures |states| == |arrivals| + 1
  {
  }

  lemma SoundAt(states: seq<Srv>, arrivals: seq<Arrival>, i: nat)
    requires Sound(states, arrivals) && i < |arrivals|
    ensures SrvInv(states[i]) && Inv(states[i].fs) && Possible(states[i], arrivals[i])
    ensures states[i + 1] == After(states[i], arrivals[i])
  {
  }

  lemma NoWrites(fs: Fs, n: nat)
    ensures F.WritesTo(fs, [], n) == []
  {
  }

  lemma LoggedWrite(fs: Fs, log: seq<F.Event>, srv: Srv, a: Arrival, n: nat)
    requires SrvInv(srv) && Possible(srv, a) && F.Final(fs, log) == srv.fs
    ensures F.WritesTo(fs, log + EventsOf(srv, a), n) == F.WritesTo(fs, log, n) + WriteTo(srv, a, n)
  {
    WriteLogged(srv, a, n);
    hide WriteTo;
    var es := EventsOf(srv, a);
    if es == [] {
      assert log + es == log;
    } else {
      assert (log + es)[..|log|] == log && (log + es)[|log|] == es[0];
    }
  }

  /** Over every run of the server, whoever the clients are, the content of a
      file is what it was overlaid with exactly the writes clients made through
      fids standing at it, in the order they were handled. */
  lemma ContentIsWritten(states: seq<Srv>, arrivals: seq<Arrival>, k: nat, i: nat, n: nat)
    requires Run(states, arrivals) && k <= i <= |arrivals|
    requires n < |states[k].fs.nodes| && states[k].fs.nodes[n].File?
    ensures Sound(states, arrivals)
    ensures
      var before, after := states[k].fs.nodes, states[i].fs.nodes;
      n < |after| && after[n].File? && after[n].buf == Overlays(before[n].buf, WritesTo(states, arrivals, k, i, n))
  {
    RunIsSound(states, arrivals);
    LogIsRun(states, arrivals, k, i);
    WritesLogged(states, arrivals, k, i, n);
    F.RunContent(states[k].fs, Log(states, arrivals, k, i), n);
  }

  /** So a byte of a file that was empty is what the last client to write there
      wrote, or zero. */
  lemma ByteIsLastWritten(states: seq<Srv>, arrivals: seq<Arrival>, k: nat, i: nat, n: nat, p: nat)
    requires Run(states, arrivals) && k <= i <= |arrivals|
    requires n < |states[k].fs.nodes| && states[k].fs.nodes[n].File? && states[k].fs.nodes[n].buf == []
    ensures Sound(states, arrivals)
    ensures
      var after, ws := states[i].fs.nodes, WritesTo(states, arrivals, k, i, n);
      && n < |after| && after[n].File? && |after[n].buf| == Extent(ws)
      && (p < |after[n].buf| ==> after[n].buf[p] == LastByte(ws, p))
  {
    RunIsSound(states, arrivals);
    LogIsRun(states, arrivals, k, i);
    WritesLogged(states, arrivals, k, i, n);
    F.RunLastByte(states[k].fs, Log(states, arrivals, k, i), n, p);
  }

  // ------------------------------------------------------------------- opens

  /** What a request, answered so, does to the open in force on fid of
      connection d. */
  function ModeAfter(srv: Srv, c: nat, b: Body, reply: Reply, d: nat, fid: Fid, mode: Option<OpenMode>): Option<OpenMode>
    requires c < |srv.conns|
  {
    if d != c then mode
    else
      match b
      case TAttach(f, _, _) => if f == fid && fid !in srv.conns[c].fids then None else mode
      case TWalk(_, newfid, _) => if newfid == fid && reply.RWalk? then None else mode
      case TOpen(f, m) => if f == fid && reply.ROpen? then Some(m & OPEN_PROTOCOL_MASK) else mode
      case TCreate(f, _, isDir, m) =>
        if f == fid && reply.RCreate? then (if isDir then None else Some(m & OPEN_PROTOCOL_MASK)) else mode
      case _ => mode
  }

  /** The mode of the last successful open through fid of connection d, or
      creation of a file through it, unless the attach that bound the fid or a
      walk onto it came later. */
  ghost function OpenedThrough(states: seq<Srv>, arrivals: seq<Arrival>, n: nat, d: nat, fid: Fid): Option<OpenMode>
    requires Sound(states, arrivals) && n <= |arrivals|
  {
    if n == 0 then None
    else
      var before, a := OpenedThrough(states, arrivals, n - 1, d, fid), arrivals[n - 1];
      if !a.Arrival? then before
      else ModeAfter(states[n - 1], a.conn, a.msg.body, ReplyTo(states[n - 1], a), d, fid, before)
  }

  /** The handle behind fid of connection d, if the filesystem knows it, holds
      this mode. */
  ghost predicate HoldsMode(srv: Srv, d: nat, fid: Fid, mode: Option<OpenMode>) {
    d < |srv.conns| && fid in srv.conns[d].fids && FidId(srv, d, fid) in srv.fs.handles ==>
      srv.fs.handles[FidId(srv, d, fid)].open == F.Stored(mode)
  }

  /** Requests leave handles other than their own as they are. */
  lemma OtherHandles(fs: Fs, op: FsOp, i: nat)
    requires Inv(fs) && Allowed(fs, op)
    requires i != Step(fs, op).id && (op.OpAttach? || op.OpWalk? || i != op.id)
    ensures
      var hs := Step(fs, op).fs.handles;
      i in hs ==> i in fs.handles && hs[i] == fs.handles[i]
  {
  }

  /** Two fids never stand for one known handle. */
  lemma DistinctIds(srv: Srv, c: nat, f: Fid, d: nat, g: Fid)
    requires SrvInv(srv) && c < |srv.conns| && f in srv.conns[c].fids && d < |srv.conns| && g in srv.conns[d].fids
    requires FidId(srv, c, f) == FidId(srv, d, g) && FidId(srv, c, f) in srv.fs.handles
    requires FidId(srv, c, f) != XHID_UNINITIALIZED
    ensures c == d && f == g
  {
    var h, k := srv.conns[c].fids[f], srv.conns[d].fids[g];
    assert Bound(srv, c, f, h) && Bound(srv, d, g, k);
    assert Holds(srv, h, FidId(srv, c, f)) && Holds(srv, k, FidId(srv, c, f));
  }

  lemma RefusedMode(srv: Srv, c: nat, m: Request, listing: seq<Record>, d: nat, fid: Fid, mode: Option<OpenMode>)
    requires SrvInv(srv) && c < |srv.conns| && FsRequest(srv, c, m.body, listing).None?
    requires HoldsMode(srv, d, fid, mode)
    ensures
      var a := Arrival(c, m, listing);
      HoldsMode(Dispatch(srv, c, m, listing), d, fid, ModeAfter(srv, c, m.body, ReplyTo(srv, a), d, fid, mode))
  {
    hide Inv, HandlesMatch, FidsMatch;
    DispatchRefused(srv, c, m, listing);
  }

  lemma AttachMode(srv: Srv, c: nat, m: Request, listing: seq<Record>, d: nat, fid: Fid, mode: Option<OpenMode>)
    requires SrvInv(srv) && c < |srv.conns| && m.body.TAttach? && Fine(srv, c, m, listing)
    requires HoldsMode(srv, d, fid, mode)
    ensures
      var a := Arrival(c, m, listing);
      HoldsMode(Dispatch(srv, c, m, listing), d, fid, ModeAfter(srv, c, m.body, ReplyTo(srv, a), d, fid, mode))
  {
    DispatchAttach(srv, c, m, listing);
    hide Dispatch, HandlesMatch, FidsMatch;
    var srv' := Dispatch(srv, c, m, listing);
    if d < |srv.conns| && fid in srv.conns[d].fids {
      Bounded(srv, d, fid);
    }
  }

  /** A bound fid's handle object exists, and its id, if known, is below the
      counter. */
  lemma Bounded(srv: Srv, d: nat, fid: Fid)
    requires SrvInv(srv) && d < |srv.conns| && fid in srv.conns[d].fids
    ensures srv.conns[d].fids[fid] < |srv.hnds| && srv.hnds[srv.conns[d].fids[fid]].Some?
    ensures FidId(srv, d, fid) != XHID_UNINITIALIZED ==> FidId(srv, d, fid) in srv.fs.handles
    ensures FidId(srv, d, fid) in srv.fs.handles ==> FidId(srv, d, fid) < srv.fs.hidserial <= XHID_UNINITIALIZED
  {
    var h := srv.conns[d].fids[fid];
    assert Bound(srv, d, fid, h);
    if FidId(srv, d, fid) != XHID_UNINITIALIZED { assert Holds(srv, h, FidId(srv, d, fid)); }
  }

  lemma WalkMode(srv: Srv, c: nat, m: Request, listing: seq<Record>, d: nat, fid: Fid, mode: Option<OpenMode>)
    requires SrvInv(srv) && c < |srv.conns| && m.body.TWalk? && Fine(srv, c, m, listing)
    requires Refusal(srv, c, m.body).None? && HoldsMode(srv, d, fid, mode)
    ensures
      var a := Arrival(c, m, listing);
      HoldsMode(Dispatch(srv, c, m, listing), d, fid, ModeAfter(srv, c, m.body, ReplyTo(srv, a), d, fid, mode))
  {
    if m.body.newfid == m.body.fid {
      WalkInPlaceMode(srv, c, m, listing, d, fid, mode);
    } else {
      WalkToNewMode(srv, c, m, listing, d, fid, mode);
    }
  }

  lemma WalkInPlaceMode(srv: Srv, c: nat, m: Request, listing: seq<Record>, d: nat, fid: Fid, mode: Option<OpenMode>)
    requires SrvInv(srv) && c < |srv.conns| && m.body.TWalk? && m.body.newfid == m.body.fid && Fine(srv, c, m, listing)
    requires Refusal(srv, c, m.body).None? && HoldsMode(srv, d, fid, mode)
    ensures
      var a := Arrival(c, m, listing);
      HoldsMode(Dispatch(srv, c, m, listing), d, fid, ModeAfter(srv, c, m.body, ReplyTo(srv, a), d, fid, mode))
  {
    DispatchWalk(srv, c, m, listing);
    hide Dispatch, HandlesMatch, FidsMatch, Walk, NoDot, Inv, Safe, Refusal;
    if d < |srv.conns| && fid in srv.conns[d].fids {
      Bounded(srv, d, fid);
      Apart(srv, c, m.body.fid, d, fid);
    }
  }

  lemma WalkToNewMode(srv: Srv, c: nat, m: Request, listing: seq<Record>, d: nat, fid: Fid, mode: Option<OpenMode>)
    requires SrvInv(srv) && c < |srv.conns| && m.body.TWalk? && m.body.newfid != m.body.fid && Fine(srv, c, m, listing)
    requires Refusal(srv, c, m.body).None? && HoldsMode(srv, d, fid, mode)
    ensures
      var a := Arrival(c, m, listing);
      HoldsMode(Dispatch(srv, c, m, listing), d, fid, ModeAfter(srv, c, m.body, ReplyTo(srv, a), d, fid, mode))
  {
    hide HoldsMode, Dispatch, ModeAfter, ReplyTo, SrvInv, Fine, Refusal;
    if d == c && fid == m.body.newfid {
      NewFidMode(srv, c, m, listing, d, fid, mode);
    } else {
      OldFidMode(srv, c, m, listing, d, fid, mode);
    }
  }

  lemma NewFidMode(srv: Srv, c: nat, m: Request, listing: seq<Record>, d: nat, fid: Fid, mode: Option<OpenMode>)
    requires SrvInv(srv) && c < |srv.conns| && m.body.TWalk? && m.body.newfid != m.body.fid && Fine(srv, c, m, listing)
    requires Refusal(srv, c, m.body).None? && HoldsMode(srv, d, fid, mode) && d == c && fid == m.body.newfid
    ensures
      var a := Arrival(c, m, listing);
      HoldsMode(Dispatch(srv, c, m, listing), d, fid, ModeAfter(srv, c, m.body, ReplyTo(srv, a), d, fid, mode))
  {
    DispatchWalk(srv, c, m, listing);
    hide Dispatch, HandlesMatch, FidsMatch, Walk, NoDot, Inv;
  }

  lemma OldFidMode(srv: Srv, c: nat, m: Request, listing: seq<Record>, d: nat, fid: Fid, mode: Option<OpenMode>)
    requires SrvInv(srv) && c < |srv.conns| && m.body.TWalk? && m.body.newfid != m.body.fid && Fine(srv, c, m, listing)
    requires Refusal(srv, c, m.body).None? && HoldsMode(srv, d, fid, mode) && !(d == c && fid == m.body.newfid)
    ensures
      var a := Arrival(c, m, listing);
      HoldsMode(Dispatch(srv, c, m, listing), d, fid, ModeAfter(srv, c, m.body, ReplyTo(srv, a), d, fid, mode))
  {
    DispatchWalk(srv, c, m, listing);
    hide Dispatch, SrvInv, DoWalk, Safe;
    if d < |srv.conns| && fid in srv.conns[d].fids {
      Bounded(srv, d, fid);
      TagsOne(srv.fs, FidId(srv, c, m.body.fid), m.body.names, FidId(srv, d, fid));
    }
  }

  lemma TagsOne(fs: Fs, id: nat, names: seq<Name>, i: nat)
    requires EntriesOk(fs.nodes)
    ensures
      var hs := DoWalk(fs, id, XHID_UNINITIALIZED, names).fs.handles;
      i in hs && i != fs.hidserial ==> i in fs.handles && hs[i] == fs.handles[i]
  {
    hide Walk;
  }

  lemma Apart(srv: Srv, c: nat, f: Fid, d: nat, g: Fid)
    requires SrvInv(srv) && c < |srv.conns| && f in srv.conns[c].fids && d < |srv.conns| && g in srv.conns[d].fids
    ensures FidId(srv, c, f) == FidId(srv, d, g) && FidId(srv, d, g) in srv.fs.handles ==> c == d && f == g
  {
    hide HandlesMatch, FidsMatch;
    if FidId(srv, c, f) == FidId(srv, d, g) && FidId(srv, d, g) in srv.fs.handles {
      Bounded(srv, d, g);
      DistinctIds(srv, c, f, d, g);
    }
  }

  lemma ReleaseMode(srv: Srv, c: nat, m: Request, listing: seq<Record>, d: nat, fid: Fid, mode: Option<OpenMode>)
    requires SrvInv(srv) && c < |srv.conns| && (m.body.TClunk? || m.body.TRemove?) && Fine(srv, c, m, listing)
    requires Refusal(srv, c, m.body).None? && HoldsMode(srv, d, fid, mode)
    ensures
      var a := Arrival(c, m, listing);
      HoldsMode(Dispatch(srv, c, m, listing), d, fid, ModeAfter(srv, c, m.body, ReplyTo(srv, a), d, fid, mode))
  {
    Bounded(srv, c, m.body.fid);
    DispatchRelease(srv, c, m, listing);
    hide Dispatch, HandlesMatch, FidsMatch;
    if d < |srv.conns| && fid in srv.conns[d].fids {
      Bounded(srv, d, fid);
    }
  }

  lemma OtherMode(srv: Srv, c: nat, m: Request, listing: seq<Record>, d: nat, fid: Fid, mode: Option<OpenMode>)
    requires SrvInv(srv) && c < |srv.conns| && Other(m.body) && Fine(srv, c, m, listing)
    requires Refusal(srv, c, m.body).None? && HoldsMode(srv, d, fid, mode)
    ensures
      var a := Arrival(c, m, listing);
      HoldsMode(Dispatch(srv, c, m, listing), d, fid, ModeAfter(srv, c, m.body, ReplyTo(srv, a), d, fid, mode))
  {
    if d == c && fid == m.body.fid {
      OwnMode(srv, c, m, listing, mode);
    } else {
      ElsewhereMode(srv, c, m, listing, d, fid, mode);
    }
  }

  lemma OpenedMode(srv: Srv, c: nat, m: Request, listing: seq<Record>, mode: Option<OpenMode>)
    requires SrvInv(srv) && c < |srv.conns| && m.body.TOpen? && Fine(srv, c, m, listing)
    requires Refusal(srv, c, m.body).None? && HoldsMode(srv, c, m.body.fid, mode)
    ensures
      var a := Arrival(c, m, listing);
      HoldsMode(Dispatch(srv, c, m, listing), c, m.body.fid,
                ModeAfter(srv, c, m.body, ReplyTo(srv, a), c, m.body.fid, mode))
  {
    Bounded(srv, c, m.body.fid);
    DispatchOther(srv, c, m, listing);
    hide Dispatch, HandlesMatch, FidsMatch, Tree, SerialsBelow, InRange;
  }

  lemma CreatedMode(srv: Srv, c: nat, m: Request, listing: seq<Record>, mode: Option<OpenMode>)
    requires SrvInv(srv) && c < |srv.conns| && m.body.TCreate? && Fine(srv, c, m, listing)
    requires Refusal(srv, c, m.body).None? && HoldsMode(srv, c, m.body.fid, mode)
    ensures
      var a := Arrival(c, m, listing);
      HoldsMode(Dispatch(srv, c, m, listing), c, m.body.fid,
                ModeAfter(srv, c, m.body, ReplyTo(srv, a), c, m.body.fid, mode))
  {
    Bounded(srv, c, m.body.fid);
    DispatchOther(srv, c, m, listing);
    hide Dispatch, HandlesMatch, FidsMatch, Tree, SerialsBelow, InRange;
  }

  lemma TransferredMode(srv: Srv, c: nat, m: Request, listing: seq<Record>, mode: Option<OpenMode>)
    requires SrvInv(srv) && c < |srv.conns| && (m.body.TRead? || m.body.TWrite?) && Fine(srv, c, m, listing)
    requires Refusal(srv, c, m.body).None? && HoldsMode(srv, c, m.body.fid, mode)
    ensures
      var a := Arrival(c, m, listing);
      HoldsMode(Dispatch(srv, c, m, listing), c, m.body.fid,
                ModeAfter(srv, c, m.body, ReplyTo(srv, a), c, m.body.fid, mode))
  {
    Bounded(srv, c, m.body.fid);
    DispatchOther(srv, c, m, listing);
    hide Dispatch, HandlesMatch, FidsMatch, Tree, SerialsBelow, InRange;
  }

  lemma RenamedMode(srv: Srv, c: nat, m: Request, listing: seq<Record>, mode: Option<OpenMode>)
    requires SrvInv(srv) && c < |srv.conns| && m.body.TWstat? && Fine(srv, c, m, listing)
    requires Refusal(srv, c, m.body).None? && HoldsMode(srv, c, m.body.fid, mode)
    ensures
      var a := Arrival(c, m, listing);
      HoldsMode(Dispatch(srv, c, m, listing), c, m.body.fid,
                ModeAfter(srv, c, m.body, ReplyTo(srv, a), c, m.body.fid, mode))
  {
    Bounded(srv, c, m.body.fid);
    DispatchOther(srv, c, m, listing);
    hide Dispatch, HandlesMatch, FidsMatch, Tree, SerialsBelow, InRange;
  }

  lemma OwnMode(srv: Srv, c: nat, m: Request, listing: seq<Record>, mode: Option<OpenMode>)
    requires SrvInv(srv) && c < |srv.conns| && Other(m.body) && Fine(srv, c, m, listing)
    requires Refusal(srv, c, m.body).None? && HoldsMode(srv, c, m.body.fid, mode)
    ensures
      var a := Arrival(c, m, listing);
      HoldsMode(Dispatch(srv, c, m, listing), c, m.body.fid,
                ModeAfter(srv, c, m.body, ReplyTo(srv, a), c, m.body.fid, mode))
  {
    hide HoldsMode, Dispatch, ModeAfter, ReplyTo, SrvInv, Fine, Refusal;
    match m.body
    case TOpen(_, _) => OpenedMode(srv, c, m, listing, mode);
    case TCreate(_, _, _, _) => CreatedMode(srv, c, m, listing, mode);
    case TRead(_, _, _) => TransferredMode(srv, c, m, listing, mode);
    case TWrite(_, _, _) => TransferredMode(srv, c, m, listing, mode);
    case TWstat(_, _) => RenamedMode(srv, c, m, listing, mode);
  }

  lemma ElsewhereMode(srv: Srv, c: nat, m: Request, listing: seq<Record>, d: nat, fid: Fid, mode: Option<OpenMode>)
    requires SrvInv(srv) && c < |srv.conns| && Other(m.body) && Fine(srv, c, m, listing)
    requires Refusal(srv, c, m.body).None? && HoldsMode(srv, d, fid, mode) && !(d == c && fid == m.body.fid)
    ensures
      var a := Arrival(c, m, listing);
      HoldsMode(Dispatch(srv, c, m, listing), d, fid, ModeAfter(srv, c, m.body, ReplyTo(srv, a), d, fid, mode))
  {
    DispatchOther(srv, c, m, listing);
    var op := FsOpOf(m.body, FidId(srv, c, m.body.fid), XHID_UNINITIALIZED, listing);
    StepIds(srv.fs, op);
    hide Dispatch, HandlesMatch, FidsMatch, Step, Inv;
    if d < |srv.conns| && fid in srv.conns[d].fids && FidId(srv, d, fid) in srv.fs.handles {
      Apart(srv, c, m.body.fid, d, fid);
      OtherHandles(srv.fs, op, FidId(srv, d, fid));
    }
  }

  lemma DispatchMode(srv: Srv, c: nat, m: Request, listing: seq<Record>, d: nat, fid: Fid, mode: Option<OpenMode>)
    requires SrvInv(srv) && c < |srv.conns| && Fine(srv, c, m, listing) && HoldsMode(srv, d, fid, mode)
    ensures
      var a := Arrival(c, m, listing);
      HoldsMode(Dispatch(srv, c, m, listing), d, fid, ModeAfter(srv, c, m.body, ReplyTo(srv, a), d, fid, mode))
  {
    hide HoldsMode, Dispatch, ModeAfter, ReplyTo, HandlesMatch, FidsMatch, Fine;
    if FsRequest(srv, c, m.body, listing).None? {
      RefusedMode(srv, c, m, listing, d, fid, mode);
    } else if m.body.TAttach? {
      AttachMode(srv, c, m, listing, d, fid, mode);
    } else if m.body.TWalk? {
      WalkMode(srv, c, m, listing, d, fid, mode);
    } else if m.body.TClunk? || m.body.TRemove? {
      ReleaseMode(srv, c, m, listing, d, fid, mode);
    } else {
      OtherMode(srv, c, m, listing, d, fid, mode);
    }
  }

  /** Accepting and sending leave fids and handles alone. */
  lemma QuietMode(srv: Srv, a: Arrival, d: nat, fid: Fid, mode: Option<OpenMode>)
    requires SrvInv(srv) && Possible(srv, a) && !a.Arrival? && HoldsMode(srv, d, fid, mode)
    ensures HoldsMode(After(srv, a), d, fid, mode)
  {
    hide Inv, HandlesMatch, FidsMatch;
  }

  lemma {:induction false} RunMode(states: seq<Srv>, arrivals: seq<Arrival>, n: nat, d: nat, fid: Fid)
    requires Sound(states, arrivals) && n <= |arrivals| && states[0].fs.handles == map[]
    ensures HoldsMode(states[n], d, fid, OpenedThrough(states, arrivals, n, d, fid))
  {
    hide SrvInv, Possible, Dispatch, ModeAfter, ReplyTo, Sound;
    SoundSize(states, arrivals);
    if n > 0 {
      SoundAt(states, arrivals, n - 1);
      RunMode(states, arrivals, n - 1, d, fid);
      var srv, a, mode := states[n - 1], arrivals[n - 1], OpenedThrough(states, arrivals, n - 1, d, fid);
      if a.Arrival? {
        ArrivalMode(srv, a, d, fid, mode);
      } else {
        QuietMode(srv, a, d, fid, mode);
      }
    }
  }

  lemma ArrivalMode(srv: Srv, a: Arrival, d: nat, fid: Fid, mode: Option<OpenMode>)
    requires SrvInv(srv) && Possible(srv, a) && a.Arrival? && HoldsMode(srv, d, fid, mode)
    ensures HoldsMode(After(srv, a), d, fid, ModeAfter(srv, a.conn, a.msg.body, ReplyTo(srv, a), d, fid, mode))
  {
    hide HoldsMode, Dispatch, ModeAfter, ReplyTo, HandlesMatch, FidsMatch, Fine, Inv;
    DispatchMode(srv, a.conn, a.msg, a.listing, d, fid, mode);
  }

  /** No bit outside the mask. */
  predicate InMask(mode: Option<OpenMode>) {
    mode.Some? ==> mode.value & OPEN_PROTOCOL_MASK == mode.value
  }

  /** Whatever modes clients send, none sets the not-opened bit. */
  lemma {:induction false} OpenedMasked(states: seq<Srv>, arrivals: seq<Arrival>, n: nat, d: nat, fid: Fid)
    requires Sound(states, arrivals) && n <= |arrivals|
    ensures InMask(OpenedThrough(states, arrivals, n, d, fid))
  {
    hide InMask, ModeAfter, ReplyTo, SrvInv, Possible;
    if n == 0 {
      NoneInMask();
    } else {
      SoundAt(states, arrivals, n - 1);
      OpenedMasked(states, arrivals, n - 1, d, fid);
      var a := arrivals[n - 1];
      if a.Arrival? { AfterMasked(states[n - 1], a, d, fid, OpenedThrough(states, arrivals, n - 1, d, fid)); }
    }
  }

  lemma NoneInMask()
    ensures InMask(None)
  {
  }

  lemma AfterMasked(srv: Srv, a: Arrival, d: nat, fid: Fid, mode: Option<OpenMode>)
    requires SrvInv(srv) && Possible(srv, a) && a.Arrival? && InMask(mode)
    ensures InMask(ModeAfter(srv, a.conn, a.msg.body, ReplyTo(srv, a), d, fid, mode))
  {
    hide Dispatch, ReplyTo, Inv, HandlesMatch, FidsMatch, Fine;
    var b := a.msg.body;
    if b.TOpen? { MaskTwice(b.mode); }
    if b.TCreate? { MaskTwice(b.mode); }
  }

  /** In every run of a server from its beginning, with any clients, the handle
      behind a fid may be read and written exactly when an open through that
      fid is in force. */
  lemma InForce(msize: nat, states: seq<Srv>, arrivals: seq<Arrival>, n: nat, c: nat, fid: Fid)
    requires Run(states, arrivals) && states[0] == Begin(msize) && n <= |arrivals|
    requires c < |states[n].conns| && fid in states[n].conns[c].fids
    ensures Sound(states, arrivals)
    ensures
      var srv, mode := states[n], OpenedThrough(states, arrivals, n, c, fid);
      var id := FidId(srv, c, fid);
      && (mode.Some? ==> mode.value & OPEN_EX_INVALID == 0)
      && (Known(srv.fs, id) ==>
            && srv.fs.handles[id].open == F.Stored(mode)
            && (MayRead(srv.fs.handles[id].open) <==> mode.Some?)
            && (MayWrite(srv.fs.handles[id].open) <==> mode.Some?))
  {
    RunIsSound(states, arrivals);
    RunMode(states, arrivals, n, c, fid);
    OpenedMasked(states, arrivals, n, c, fid);
    var mode := OpenedThrough(states, arrivals, n, c, fid);
    if mode.Some? { F.MaskedBits(mode.value); }
  }

  /** So a read through a known fid is answered with data if and only if an
      open through it is in force, and else by the demand to open it first. */
  lemma ReadNeedsOpen(msize: nat, states: seq<Srv>, arrivals: seq<Arrival>, n: nat, a: Arrival)
    requires Run(states, arrivals) && states[0] == Begin(msize) && n <= |arrivals|
    requires Possible(states[n], a) && a.Arrival? && a.msg.body.TRead? && a.msg.body.fid in states[n].conns[a.conn].fids
    ensures Sound(states, arrivals)
    ensures
      var srv, fid := states[n], a.msg.body.fid;
      var mode := OpenedThrough(states, arrivals, n, a.conn, fid);
      if Known(srv.fs, FidId(srv, a.conn, fid)) then
        if mode.Some? then ReplyTo(srv, a).RRead? else ReplyTo(srv, a) == RError(MustOpenFirst)
      else ReplyTo(srv, a) == RError(XhndInvalid)
  {
    hide Dispatch, OpenedThrough, ReplyTo, HandlesMatch, FidsMatch;
    RunKeepsInv(states, arrivals, n);
    InForce(msize, states, arrivals, n, a.conn, a.msg.body.fid);
    ReadReply(states[n], a);
  }

  lemma ReadReply(srv: Srv, a: Arrival)
    requires Inv(srv.fs) && Possible(srv, a) && a.Arrival? && a.msg.body.TRead?
    requires a.msg.body.fid in srv.conns[a.conn].fids
    ensures
      var id := FidId(srv, a.conn, a.msg.body.fid);
      if !Known(srv.fs, id) then ReplyTo(srv, a) == RError(XhndInvalid)
      else if !MayRead(srv.fs.handles[id].open) then ReplyTo(srv, a) == RError(MustOpenFirst)
      else ReplyTo(srv, a).RRead?
  {
    DispatchOther(srv, a.conn, a.msg, a.listing);
    hide Dispatch;
  }

  lemma WriteReply(srv: Srv, a: Arrival)
    requires Inv(srv.fs) && Possible(srv, a) && a.Arrival? && a.msg.body.TWrite?
    requires a.msg.body.fid in srv.conns[a.conn].fids
    ensures
      var id := FidId(srv, a.conn, a.msg.body.fid);
      ReplyTo(srv, a) ==
      if !Known(srv.fs, id) then RError(XhndInvalid)
      else if !MayWrite(srv.fs.handles[id].open) then RError(MustOpenFirst)
      else if srv.fs.nodes[srv.fs.handles[id].entry.node].File? then RWrite(|a.msg.body.data|)
      else RError(NotFile)
  {
    DispatchOther(srv, a.conn, a.msg, a.listing);
    hide Dispatch;
  }

  lemma WriteNeedsOpen(msize: nat, states: seq<Srv>, arrivals: seq<Arrival>, n: nat, a: Arrival)
    requires Run(states, arrivals) && states[0] == Begin(msize) && n <= |arrivals|
    requires Possible(states[n], a) && a.Arrival? && a.msg.body.TWrite? && a.msg.body.fid in states[n].conns[a.conn].fids
    ensures Sound(states, arrivals)
    ensures
      var srv, fid := states[n], a.msg.body.fid;
      var id, mode := FidId(srv, a.conn, fid), OpenedThrough(states, arrivals, n, a.conn, fid);
      if Known(srv.fs, id) then
        if mode.None? then ReplyTo(srv, a) == RError(MustOpenFirst)
        else if srv.fs.nodes[srv.fs.handles[id].entry.node].File? then ReplyTo(srv, a) == RWrite(|a.msg.body.data|)
        else ReplyTo(srv, a) == RError(NotFile)
      else ReplyTo(srv, a) == RError(XhndInvalid)
  {
    hide Dispatch, OpenedThrough, ReplyTo, HandlesMatch, FidsMatch;
    RunKeepsInv(states, arrivals, n);
    InForce(msize, states, arrivals, n, a.conn, a.msg.body.fid);
    WriteReply(states[n], a);
  }

  /** A clunk takes something out of a directory if and only if the open in
      force asked for it and the entry is there. */
  lemma ClunkRemoves(msize: nat, states: seq<Srv>, arrivals: seq<Arrival>, n: nat, a: Arrival)
    requires Run(states, arrivals) && states[0] == Begin(msize) && n <= |arrivals|
    requires Possible(states[n], a) && a.Arrival? && a.msg.body.TClunk? && a.msg.body.fid in states[n].conns[a.conn].fids
    ensures Sound(states, arrivals)
    ensures
      var srv, fid := states[n], a.msg.body.fid;
      var id, mode := FidId(srv, a.conn, fid), OpenedThrough(states, arrivals, n, a.conn, fid);
      After(srv, a).fs.nodes != srv.fs.nodes <==>
        Known(srv.fs, id) && mode.Some? && mode.value & OPEN_CLOSE != 0 &&
        HasChild(srv.fs.nodes, srv.fs.handles[id].entry.parent, srv.fs.handles[id].entry.name)
  {
    var srv := states[n];
    InForce(msize, states, arrivals, n, a.conn, a.msg.body.fid);
    Bounded(srv, a.conn, a.msg.body.fid);
    DispatchRelease(srv, a.conn, a.msg, a.listing);
    InvalidIsNotClose();
    var id := FidId(srv, a.conn, a.msg.body.fid);
    if Known(srv.fs, id) {
      var e := srv.fs.handles[id].entry;
      if HasChild(srv.fs.nodes, e.parent, e.name) {
        RemoveChildHas(srv.fs.nodes, e.parent, e.name);
        assert !HasChild(RemoveChild(srv.fs.nodes, e.parent, e.name), e.parent, e.name);
      }
    }
  }

  lemma InvalidIsNotClose()
    ensures OPEN_EX_INVALID & OPEN_CLOSE == 0
  {
  }
}
