/** What each message a client sends is answered with and does, in the terms of
    the message: files, names, bytes, qids. */
module ServerAnswers {
  import opened X9PProtocol
  import opened DirectoryRead
  import opened VirtualFile
  import opened VirtualFs
  import opened VirtualFsTree
  import opened VirtualFsWalk
  import opened Server
  import opened ServerRuns
  import F = VirtualFsRuns

  /** The fid is bound to a handle the filesystem knows. */
  predicate KnownFid(srv: Srv, c: nat, fid: Fid) {
    c < |srv.conns| && fid in srv.conns[c].fids && Known(srv.fs, FidId(srv, c, fid))
  }

  /** Where the fid stands and how it is open. */
  function HandleOf(srv: Srv, c: nat, fid: Fid): VHandle
    requires KnownFid(srv, c, fid)
  {
    srv.fs.handles[FidId(srv, c, fid)]
  }

  ghost predicate Ready(srv: Srv, a: Arrival, fid: Fid) {
    SrvInv(srv) && Possible(srv, a) && a.Arrival? && KnownFid(srv, a.conn, fid)
  }

  predicate Readable(h: VHandle) { h.open & 0x80 == 0 }

  /** Fids and handle objects stay as they are. */
  predicate SameFids(a: Srv, b: Srv) {
    && a.hnds == b.hnds && |a.conns| == |b.conns|
    && forall d | 0 <= d < |a.conns| :: a.conns[d].fids == b.conns[d].fids
  }

  /** Where the other handles stand stays. */
  predicate OtherHandlesStay(srv: Srv, srv': Srv, id: nat) {
    srv'.fs.handles.Keys == srv.fs.handles.Keys && forall i <- srv.fs.handles | i != id :: srv'.fs.handles[i] == srv.fs.handles[i]
  }

  /** What open, create, read, write and wstat do beyond the filesystem: answer,
      and nothing else. */
  lemma OtherShape(srv: Srv, a: Arrival, out: Outcome)
    requires a.Arrival? && Other(a.msg.body) && Ready(srv, a, a.msg.body.fid) && Refusal(srv, a.conn, a.msg.body).None?
    requires out == Step(srv.fs, FsOpOf(a.msg.body, FidId(srv, a.conn, a.msg.body.fid), XHID_UNINITIALIZED, a.listing))
    ensures ReplyTo(srv, a) == out.reply && After(srv, a).fs == out.fs && SameFids(srv, After(srv, a))
    ensures a.conn < |After(srv, a).conns| && a.msg.body.fid in After(srv, a).conns[a.conn].fids
    ensures FidId(After(srv, a), a.conn, a.msg.body.fid) == FidId(srv, a.conn, a.msg.body.fid)
  {
    DispatchOther(srv, a.conn, a.msg, a.listing);
    hide Dispatch, Inv, HandlesMatch, FidsMatch, Step;
  }

  lemma NotRefused(srv: Srv, a: Arrival)
    requires a.Arrival? && Other(a.msg.body) && Ready(srv, a, a.msg.body.fid)
    requires a.msg.body.TCreate? ==> a.msg.body.name != [46] && a.msg.body.name != [46, 46]
    ensures Refusal(srv, a.conn, a.msg.body).None?
    ensures Safe(srv.fs, FsOpOf(a.msg.body, FidId(srv, a.conn, a.msg.body.fid), XHID_UNINITIALIZED, a.listing))
    ensures HandleOf(srv, a.conn, a.msg.body.fid).entry.node < |srv.fs.nodes|
  {
    hide Safe;
    EntryKnown(srv.fs, FidId(srv, a.conn, a.msg.body.fid));
  }

  lemma EntryKnown(fs: Fs, id: nat)
    requires Inv(fs) && id in fs.handles
    ensures fs.handles[id].entry.node < |fs.nodes| && fs.handles[id].entry.parent < |fs.nodes|
    ensures fs.nodes[fs.handles[id].entry.parent].Directory?
  {
  }

  // ---------------------------------------------------------------- transfers

  /** The bytes of a file from offset on, as many as are asked for and there
      are. */
  predicate BytesOf(d: seq<byte>, buf: seq<byte>, offset: nat, count: nat) {
    && |d| == (if offset >= |buf| then 0 else if count < |buf| - offset then count else |buf| - offset)
    && forall i | 0 <= i < |d| :: d[i] == buf[offset + i]
  }

  lemma ReadAnswer(srv: Srv, a: Arrival)
    requires a.Arrival? && a.msg.body.TRead? && Ready(srv, a, a.msg.body.fid)
    requires srv.fs.nodes[HandleOf(srv, a.conn, a.msg.body.fid).entry.node].File?
    ensures
      var b, h := a.msg.body, HandleOf(srv, a.conn, a.msg.body.fid);
      && After(srv, a).fs == srv.fs && SameFids(srv, After(srv, a))
      && if Readable(h) then
           var r := ReplyTo(srv, a);
           r.RRead? && BytesOf(r.data, srv.fs.nodes[h.entry.node].buf, b.offset, b.count)
         else ReplyTo(srv, a) == RError(MustOpenFirst)
  {
    hide Dispatch, After, ReplyTo, Inv, HandlesMatch, FidsMatch, Possible, Refusal, MayRead, Slice, OnBoundary;
    var b, h := a.msg.body, HandleOf(srv, a.conn, a.msg.body.fid);
    NotRefused(srv, a);
    OtherShape(srv, a, Step(srv.fs, OpRead(FidId(srv, a.conn, b.fid), b.offset, b.count, a.listing)));
    F.OnlyNotOpenedCounts(h.open);
    WhatIsRead(srv.fs.nodes[h.entry.node].buf, b.offset, b.count);
  }

  /** The content after a write: as long as before or as the write reaches,
      zeros in between. */
  predicate Rewritten(buf': seq<byte>, buf: seq<byte>, offset: nat, data: seq<byte>) {
    && |buf'| == (if offset + |data| > |buf| then offset + |data| else |buf|)
    && forall i | 0 <= i < |buf'| ::
         buf'[i] == if offset <= i < offset + |data| then data[i - offset] else if i < |buf| then buf[i] else 0
  }

  lemma WriteAnswer(srv: Srv, a: Arrival)
    requires a.Arrival? && a.msg.body.TWrite? && Ready(srv, a, a.msg.body.fid)
    ensures
      var b, h, srv' := a.msg.body, HandleOf(srv, a.conn, a.msg.body.fid), After(srv, a);
      var n := h.entry.node;
      && SameFids(srv, srv') && srv'.fs.handles == srv.fs.handles
      && if Readable(h) && srv.fs.nodes[n].File? then
           && ReplyTo(srv, a) == RWrite(|b.data|)
           && |srv'.fs.nodes| == |srv.fs.nodes| && srv'.fs.nodes[n].File?
           && Rewritten(srv'.fs.nodes[n].buf, srv.fs.nodes[n].buf, b.offset, b.data)
           && srv'.fs.nodes[n].version == (srv.fs.nodes[n].version + 1) % 0x1_0000_0000
           && forall k | 0 <= k < |srv.fs.nodes| && k != n :: srv'.fs.nodes[k] == srv.fs.nodes[k]
         else ReplyTo(srv, a) == RError(if Readable(h) then NotFile else MustOpenFirst) && srv'.fs == srv.fs
  {
    hide Dispatch, After, ReplyTo, Inv, HandlesMatch, FidsMatch, Possible, Refusal, MayWrite;
    var b, h := a.msg.body, HandleOf(srv, a.conn, a.msg.body.fid);
    NotRefused(srv, a);
    OtherShape(srv, a, Step(srv.fs, OpWrite(FidId(srv, a.conn, b.fid), b.offset, b.data)));
    F.OnlyNotOpenedCounts(h.open);
  }

  // --------------------------------------------------------------- open, create

  /** The qid of object n: its kind, its version, and itself. */
  predicate IsQid(q: Qid, nodes: seq<Node>, n: nat) {
    n < |nodes| && q.isDir == nodes[n].Directory? && q.version == nodes[n].version && q.path == n
  }

  lemma OpenAnswer(srv: Srv, a: Arrival)
    requires a.Arrival? && a.msg.body.TOpen? && Ready(srv, a, a.msg.body.fid)
    ensures
      var b, h, srv' := a.msg.body, HandleOf(srv, a.conn, a.msg.body.fid), After(srv, a);
      && ReplyTo(srv, a).ROpen? && IsQid(ReplyTo(srv, a).qid, srv.fs.nodes, h.entry.node)
      && srv'.fs.nodes == srv.fs.nodes && SameFids(srv, srv')
      && KnownFid(srv', a.conn, b.fid) && HandleOf(srv', a.conn, b.fid) == VHandle(h.entry, b.mode & 0x53)
      && OtherHandlesStay(srv, srv', FidId(srv, a.conn, b.fid))
  {
    hide Dispatch, After, ReplyTo, Inv, HandlesMatch, FidsMatch, Possible, Refusal;
    NotRefused(srv, a);
    OtherShape(srv, a, Step(srv.fs, OpOpen(FidId(srv, a.conn, a.msg.body.fid), a.msg.body.mode & 0x53)));
  }

  /** A Tcreate is refused for the names "." and "..", in a file, and for a name
      that is taken; otherwise it makes one empty object of the kind asked for
      under that name, and the fid stands at it, a file open as asked. */
  ghost predicate CreatesAsAsked(srv: Srv, a: Arrival)
    requires a.Arrival? && a.msg.body.TCreate? && Ready(srv, a, a.msg.body.fid)
  {
    var b, h, srv' := a.msg.body, HandleOf(srv, a.conn, a.msg.body.fid), After(srv, a);
    var d, n := h.entry.node, |srv.fs.nodes|;
    && SameFids(srv, srv')
    && if b.name == [46] || b.name == [46, 46] || srv.fs.nodes[d].File? || b.name in srv.fs.nodes[d].children then
         && ReplyTo(srv, a) == RError(if b.name == [46] then FilenameDot
                                      else if b.name == [46, 46] then FilenameDotDot else CannotCreate)
         && srv'.fs == srv.fs
       else
         && ReplyTo(srv, a) == RCreate(Qid(b.isDir, 0, n))
         && |srv'.fs.nodes| == n + 1
         && srv'.fs.nodes[n] == (if b.isDir then Directory(map[], 0) else File([], 0))
         && srv'.fs.nodes[d].Directory? && b.name in srv'.fs.nodes[d].children
         && var e := srv'.fs.nodes[d].children[b.name];
            && e.node == n && e.name == b.name && e.parent == d
            && srv'.fs.nodes[d].children == srv.fs.nodes[d].children[b.name := e]
            && KnownFid(srv', a.conn, b.fid)
            && HandleOf(srv', a.conn, b.fid) == VHandle(e, if b.isDir then 0x80 else b.mode & 0x53)
            && (forall k | 0 <= k < n && k != d :: srv'.fs.nodes[k] == srv.fs.nodes[k])
            && OtherHandlesStay(srv, srv', FidId(srv, a.conn, b.fid))
  }

  lemma CreateAnswer(srv: Srv, a: Arrival)
    requires a.Arrival? && a.msg.body.TCreate? && Ready(srv, a, a.msg.body.fid)
    ensures CreatesAsAsked(srv, a)
  {
    hide CreatesAsAsked, Dispatch, SrvInv;
    if a.msg.body.name == [46] || a.msg.body.name == [46, 46] {
      DotRefused(srv, a);
    } else {
      CreateTried(srv, a);
    }
  }

  lemma DotRefused(srv: Srv, a: Arrival)
    requires a.Arrival? && a.msg.body.TCreate? && Ready(srv, a, a.msg.body.fid)
    requires a.msg.body.name == [46] || a.msg.body.name == [46, 46]
    ensures CreatesAsAsked(srv, a)
  {
    DispatchRefused(srv, a.conn, a.msg, a.listing);
    hide Dispatch, Inv, HandlesMatch, FidsMatch;
  }

  lemma CreateTried(srv: Srv, a: Arrival)
    requires a.Arrival? && a.msg.body.TCreate? && Ready(srv, a, a.msg.body.fid)
    requires a.msg.body.name != [46] && a.msg.body.name != [46, 46]
    ensures CreatesAsAsked(srv, a)
  {
    hide Dispatch, After, ReplyTo, Inv, HandlesMatch, FidsMatch, Possible, Refusal, DoCreate;
    var b := a.msg.body;
    var id := FidId(srv, a.conn, b.fid);
    NotRefused(srv, a);
    OtherShape(srv, a, Step(srv.fs, OpCreate(id, b.name, b.isDir, b.mode & 0x53)));
    Creation(srv.fs, id, b.name, b.isDir, b.mode & 0x53);
  }

  lemma Creation(fs: Fs, id: nat, name: Name, isDir: bool, mode: OpenMode)
    requires Known(fs, id) && fs.handles[id].entry.node < |fs.nodes|
    ensures
      var d, n := fs.handles[id].entry.node, |fs.nodes|;
      var out := DoCreate(fs, id, name, isDir, mode);
      if fs.nodes[d].File? || name in fs.nodes[d].children then out.reply == RError(CannotCreate) && out.fs == fs
      else
        var e := DirEntry(fs.entries, name, d, n);
        && out.reply == RCreate(Qid(isDir, 0, n))
        && |out.fs.nodes| == n + 1
        && out.fs.nodes[n] == (if isDir then Directory(map[], 0) else File([], 0))
        && out.fs.nodes[d].Directory? && out.fs.nodes[d].children == fs.nodes[d].children[name := e]
        && (forall k | 0 <= k < n && k != d :: out.fs.nodes[k] == fs.nodes[k])
        && out.fs.handles == fs.handles[id := VHandle(e, if isDir then 0x80 else mode)]
  {
  }

  // -------------------------------------------------------- rename, remove, clunk

  /** A rename through the name field of a Twstat: an empty name asks for nothing,
      one that is taken in the parent is refused; otherwise the object goes from
      its old name to the new one, and the fid with it. */
  lemma RenameAnswer(srv: Srv, a: Arrival)
    requires a.Arrival? && a.msg.body.TWstat? && Ready(srv, a, a.msg.body.fid)
    requires HandleOf(srv, a.conn, a.msg.body.fid).entry != ROOT_ENTRY
    ensures
      var b, h, srv' := a.msg.body, HandleOf(srv, a.conn, a.msg.body.fid), After(srv, a);
      var p := h.entry.parent;
      && SameFids(srv, srv') && p < |srv.fs.nodes| && srv.fs.nodes[p].Directory?
      && if b.name == [] then ReplyTo(srv, a) == RWstat && srv'.fs == srv.fs
         else if b.name in srv.fs.nodes[p].children then ReplyTo(srv, a) == RError(RenameExists) && srv'.fs == srv.fs
         else
           && ReplyTo(srv, a) == RWstat
           && |srv'.fs.nodes| == |srv.fs.nodes| && srv'.fs.nodes[p].Directory? && b.name in srv'.fs.nodes[p].children
           && var e := srv'.fs.nodes[p].children[b.name];
              && e.node == h.entry.node && e.name == b.name && e.parent == p
              && srv'.fs.nodes[p].children == (srv.fs.nodes[p].children - {h.entry.name})[b.name := e]
              && KnownFid(srv', a.conn, b.fid) && HandleOf(srv', a.conn, b.fid) == VHandle(e, h.open)
              && (forall k | 0 <= k < |srv.fs.nodes| && k != p :: srv'.fs.nodes[k] == srv.fs.nodes[k])
              && OtherHandlesStay(srv, srv', FidId(srv, a.conn, b.fid))
  {
    hide Dispatch, After, ReplyTo, Inv, HandlesMatch, FidsMatch, Possible, Refusal, DoRename;
    var b, id := a.msg.body, FidId(srv, a.conn, a.msg.body.fid);
    NotRefused(srv, a);
    OtherShape(srv, a, Step(srv.fs, OpRename(id, b.name)));
    StandsInParent(srv.fs, id);
    Renaming(srv.fs, id, b.name);
  }

  lemma StandsInParent(fs: Fs, id: nat)
    requires Inv(fs) && Known(fs, id) && NotStale(fs, id) && fs.handles[id].entry != ROOT_ENTRY
    ensures
      var e := fs.handles[id].entry;
      && e.parent < |fs.nodes| && fs.nodes[e.parent].Directory? && e.name in fs.nodes[e.parent].children
      && fs.nodes[e.parent].children[e.name] == e
  {
  }

  lemma Renaming(fs: Fs, id: nat, name: Name)
    requires Known(fs, id)
    requires
      var e := fs.handles[id].entry;
      e.parent < |fs.nodes| && fs.nodes[e.parent].Directory? && e.name in fs.nodes[e.parent].children
    ensures
      var h, out := fs.handles[id], DoRename(fs, id, name);
      var p := h.entry.parent;
      if name == [] then out.reply == RWstat && out.fs == fs
      else if name in fs.nodes[p].children then out.reply == RError(RenameExists) && out.fs == fs
      else
        var e := DirEntry(fs.entries, name, p, h.entry.node);
        && out.reply == RWstat && |out.fs.nodes| == |fs.nodes| && out.fs.nodes[p].Directory?
        && out.fs.nodes[p].children == (fs.nodes[p].children - {h.entry.name})[name := e]
        && out.fs.handles == fs.handles[id := VHandle(e, h.open)]
        && forall k | 0 <= k < |fs.nodes| && k != p :: out.fs.nodes[k] == fs.nodes[k]
  {
  }

  /** A Tremove, or a Tclunk of a fid opened to remove on close, takes the name
      out of its directory, if it is there; the fid is free again and the
      handle gone whatever was removed. */
  lemma ReleaseAnswer(srv: Srv, a: Arrival)
    requires a.Arrival? && (a.msg.body.TRemove? || a.msg.body.TClunk?) && Ready(srv, a, a.msg.body.fid)
    ensures
      var b, h, srv' := a.msg.body, HandleOf(srv, a.conn, a.msg.body.fid), After(srv, a);
      var p := h.entry.parent;
      && ReplyTo(srv, a) == (if b.TClunk? then RClunk else RRemove)
      && |srv'.conns| == |srv.conns| && srv'.conns[a.conn].fids == srv.conns[a.conn].fids - {b.fid}
      && srv'.fs.handles == srv.fs.handles - {FidId(srv, a.conn, b.fid)}
      && |srv'.fs.nodes| == |srv.fs.nodes|
      && if (b.TRemove? || h.open & 0x40 != 0) && p < |srv.fs.nodes| && srv.fs.nodes[p].Directory?
            && h.entry.name in srv.fs.nodes[p].children then
           && srv'.fs.nodes[p].Directory? && srv'.fs.nodes[p].children == srv.fs.nodes[p].children - {h.entry.name}
           && forall k | 0 <= k < |srv.fs.nodes| && k != p :: srv'.fs.nodes[k] == srv.fs.nodes[k]
         else srv'.fs.nodes == srv.fs.nodes
  {
    Bounded(srv, a.conn, a.msg.body.fid);
    DispatchRelease(srv, a.conn, a.msg, a.listing);
    hide Dispatch, Inv, HandlesMatch, FidsMatch;
  }

  // -------------------------------------------------------- attach, walk, version

  /** A Tattach is answered with the root's qid; a fid that was free stands there,
      not open. */
  lemma AttachAnswer(srv: Srv, a: Arrival)
    requires SrvInv(srv) && Possible(srv, a) && a.Arrival? && a.msg.body.TAttach?
    ensures
      var b, srv' := a.msg.body, After(srv, a);
      && ReplyTo(srv, a).RAttach? && IsQid(ReplyTo(srv, a).qid, srv.fs.nodes, 0)
      && srv'.fs.nodes == srv.fs.nodes
      && (b.fid !in srv.conns[a.conn].fids ==>
            KnownFid(srv', a.conn, b.fid) && HandleOf(srv', a.conn, b.fid) == VHandle(ROOT_ENTRY, 0x80))
      && forall i <- srv.fs.handles :: i in srv'.fs.handles && srv'.fs.handles[i] == srv.fs.handles[i]
  {
    DispatchAttach(srv, a.conn, a.msg, a.listing);
    BelowCounter(srv.fs);
    hide Dispatch, Inv, HandlesMatch, FidsMatch;
  }

  lemma BelowCounter(fs: Fs)
    requires Inv(fs)
    ensures forall i <- fs.handles :: i < fs.hidserial
  {
  }

  /** A Twalk past the checks is answered with the qids of the objects on the
      longest prefix of its names that resolves, name by name, from where the
      fid stands; the new fid stands at the last of them, not open. */
  ghost predicate WalksAlong(srv: Srv, a: Arrival, es: seq<DirEntry>)
    requires a.Arrival? && a.msg.body.TWalk? && Ready(srv, a, a.msg.body.fid)
  {
    var b, h, srv' := a.msg.body, HandleOf(srv, a.conn, a.msg.body.fid), After(srv, a);
    && ReplyTo(srv, a).RWalk? && |ReplyTo(srv, a).qids| <= |b.names|
    && var k := |ReplyTo(srv, a).qids|;
       && PathTo(srv.fs.nodes, h.entry, b.names[..k], es)
       && (forall i | 0 <= i < k :: IsQid(ReplyTo(srv, a).qids[i], srv.fs.nodes, es[i + 1].node))
       && (k < |b.names| ==> !HasChild(srv.fs.nodes, es[k].node, b.names[k]))
       && srv'.fs.nodes == srv.fs.nodes
       && KnownFid(srv', a.conn, b.newfid) && HandleOf(srv', a.conn, b.newfid) == VHandle(es[k], 0x80)
  }

  lemma WalkAnswer(srv: Srv, a: Arrival) returns (es: seq<DirEntry>)
    requires a.Arrival? && a.msg.body.TWalk? && Ready(srv, a, a.msg.body.fid)
    requires |a.msg.body.names| <= 16
    requires a.msg.body.newfid == a.msg.body.fid || a.msg.body.newfid !in srv.conns[a.conn].fids
    ensures WalksAlong(srv, a, es)
  {
    hide WalksAlong, Walk, Along, Dispatch, HandlesMatch, FidsMatch;
    var b := a.msg.body;
    es := EntriesAlong(srv.fs.nodes, HandleOf(srv, a.conn, b.fid).entry, b.names);
    if b.newfid == b.fid {
      WalksInPlace(srv, a, es);
    } else {
      WalksToNew(srv, a, es);
    }
  }

  /** es is the walk of the names from e, each with its qid. */
  ghost predicate Along(nodes: seq<Node>, e: DirEntry, names: seq<Name>, es: seq<DirEntry>, end: DirEntry, qids: seq<Qid>) {
    && |qids| <= |names| && PathTo(nodes, e, names[..|qids|], es) && end == es[|qids|]
    && (forall i | 0 <= i < |qids| :: IsQid(qids[i], nodes, es[i + 1].node))
    && (|qids| < |names| ==> !HasChild(nodes, es[|qids|].node, names[|qids|]))
  }

  lemma EntriesAlong(nodes: seq<Node>, e: DirEntry, names: seq<Name>) returns (es: seq<DirEntry>)
    requires EntriesOk(nodes)
    ensures Along(nodes, e, names, es, Walk(nodes, e, names).0, Walk(nodes, e, names).1)
  {
    es := WalkIsLongestPrefix(nodes, e, names);
    var qids := Walk(nodes, e, names).1;
    forall i | 0 <= i < |qids| ensures IsQid(qids[i], nodes, es[i + 1].node) {
      assert Walk(nodes, e, names).1[i] == qids[i];
      assert es[i + 1].node < |nodes|;
    }
  }

  lemma WalksInPlace(srv: Srv, a: Arrival, es: seq<DirEntry>)
    requires a.Arrival? && a.msg.body.TWalk? && Ready(srv, a, a.msg.body.fid)
    requires
      var e, names := HandleOf(srv, a.conn, a.msg.body.fid).entry, a.msg.body.names;
      Along(srv.fs.nodes, e, names, es, Walk(srv.fs.nodes, e, names).0, Walk(srv.fs.nodes, e, names).1)
    requires |a.msg.body.names| <= 16 && a.msg.body.newfid == a.msg.body.fid
    ensures WalksAlong(srv, a, es)
  {
    DispatchWalk(srv, a.conn, a.msg, a.listing);
    Bounded(srv, a.conn, a.msg.body.fid);
    hide Dispatch, Inv, HandlesMatch, FidsMatch, Walk, NoDot, PathTo, IsQid, Possible, Refusal;
  }

  lemma WalksToNew(srv: Srv, a: Arrival, es: seq<DirEntry>)
    requires a.Arrival? && a.msg.body.TWalk? && Ready(srv, a, a.msg.body.fid)
    requires
      var e, names := HandleOf(srv, a.conn, a.msg.body.fid).entry, a.msg.body.names;
      Along(srv.fs.nodes, e, names, es, Walk(srv.fs.nodes, e, names).0, Walk(srv.fs.nodes, e, names).1)
    requires |a.msg.body.names| <= 16 && a.msg.body.newfid !in srv.conns[a.conn].fids
    ensures WalksAlong(srv, a, es)
  {
    DispatchWalk(srv, a.conn, a.msg, a.listing);
    Bounded(srv, a.conn, a.msg.body.fid);
    hide Dispatch, Inv, HandlesMatch, FidsMatch, Walk, NoDot, PathTo, IsQid, Possible, Refusal;
  }

  /** What the server refuses by itself, the first that applies: a walk of more
      than 16 names, a fid nobody bound on the connection, a walk to another fid
      that is bound. Refused requests change nothing. */
  lemma RefusalAnswer(srv: Srv, a: Arrival)
    requires SrvInv(srv) && Possible(srv, a) && a.Arrival? && !a.msg.body.TVersion? && !a.msg.body.TAttach?
    ensures
      var b, fids := a.msg.body, srv.conns[a.conn].fids;
      var far, unknown := b.TWalk? && |b.names| > 16, b.fid !in fids;
      var taken := b.TWalk? && b.newfid != b.fid && b.newfid in fids;
      far || unknown || taken ==>
        && ReplyTo(srv, a) == RError(if far then WalkTooFar else if unknown then FidDne else FidUsed)
        && After(srv, a).fs == srv.fs && SameFids(srv, After(srv, a))
  {
    DispatchRefused(srv, a.conn, a.msg, a.listing);
    hide Dispatch, Inv, HandlesMatch, FidsMatch;
  }

  /** A fid may be bound to a handle the filesystem has not, after a walk from such
      a handle: whatever gets past the server's own checks is refused, and the
      filesystem stays as it is. */
  lemma NoHandleAnswer(srv: Srv, a: Arrival)
    requires SrvInv(srv) && Possible(srv, a) && a.Arrival? && !a.msg.body.TVersion? && !a.msg.body.TAttach?
    requires Refusal(srv, a.conn, a.msg.body).None? && !KnownFid(srv, a.conn, a.msg.body.fid)
    ensures ReplyTo(srv, a) == RError(XhndInvalid) && After(srv, a).fs == srv.fs
  {
    hide Inv, HandlesMatch, FidsMatch, Walk, NoDot, OnBoundary;
  }

  /** A Tversion is answered with a size neither side exceeds, and one of the
      two. */
  lemma VersionAnswer(srv: Srv, a: Arrival)
    requires SrvInv(srv) && Possible(srv, a) && a.Arrival? && a.msg.body.TVersion?
    ensures ReplyTo(srv, a).RVersion?
    ensures
      var size := ReplyTo(srv, a).msize;
      size <= a.msg.body.msize && size <= srv.msize && (size == a.msg.body.msize || size == srv.msize)
    ensures After(srv, a).fs == srv.fs && SameFids(srv, After(srv, a))
  {
    hide Inv, HandlesMatch, FidsMatch;
  }

  // ------------------------------------------------------------ reads over runs

  /** Over every run of the server from its beginning: a Tread through a fid that
      stands at a file is answered, if an open through it is in force, with the
      bytes of the file from the offset on, as many as are asked for and there
      are; and else with an error. */
  lemma ReadsTheFile(msize: nat, states: seq<Srv>, arrivals: seq<Arrival>, k: nat, a: Arrival, n: nat)
    requires Run(states, arrivals) && states[0] == Begin(msize) && k <= |arrivals|
    requires a.Arrival? && a.msg.body.TRead? && Possible(states[k], a) && KnownFid(states[k], a.conn, a.msg.body.fid)
    requires HandleOf(states[k], a.conn, a.msg.body.fid).entry.node == n < |states[k].fs.nodes|
    requires states[k].fs.nodes[n].File?
    ensures Sound(states, arrivals)
    ensures
      var r := ReplyTo(states[k], a);
      if OpenedThrough(states, arrivals, k, a.conn, a.msg.body.fid).Some?
      then r.RRead? && BytesOf(r.data, states[k].fs.nodes[n].buf, a.msg.body.offset, a.msg.body.count)
      else r == RError(MustOpenFirst)
  {
    hide Dispatch, OpenedThrough, ReplyTo, BytesOf, HandlesMatch, FidsMatch;
    RunKeepsInv(states, arrivals, k);
    InForce(msize, states, arrivals, k, a.conn, a.msg.body.fid);
    ReadAnswer(states[k], a);
    F.OnlyNotOpenedCounts(HandleOf(states[k], a.conn, a.msg.body.fid).open);
  }

  /** So a client reads, byte by byte, what clients last wrote there, or zero,
      up to the end of the farthest write, in a file that was empty. */
  lemma ReadsWhatWasWritten(msize: nat, states: seq<Srv>, arrivals: seq<Arrival>, j: nat, k: nat, a: Arrival, n: nat)
    requires Run(states, arrivals) && states[0] == Begin(msize) && j <= k <= |arrivals|
    requires n < |states[j].fs.nodes| && states[j].fs.nodes[n].File? && states[j].fs.nodes[n].buf == []
    requires a.Arrival? && a.msg.body.TRead? && Possible(states[k], a) && KnownFid(states[k], a.conn, a.msg.body.fid)
    requires HandleOf(states[k], a.conn, a.msg.body.fid).entry.node == n
    ensures Sound(states, arrivals)
    ensures
      var r, b, ws := ReplyTo(states[k], a), a.msg.body, WritesTo(states, arrivals, j, k, n);
      OpenedThrough(states, arrivals, k, a.conn, b.fid).Some? ==>
        && r.RRead?
        && |r.data| == (if b.offset >= Extent(ws) then 0 else if b.count < Extent(ws) - b.offset then b.count else Extent(ws) - b.offset)
        && forall i | 0 <= i < |r.data| :: r.data[i] == LastByte(ws, b.offset + i)
  {
    hide Dispatch, OpenedThrough, ReplyTo, WritesTo, Extent, LastByte, HandlesMatch, FidsMatch, Run;
    ByteIsLastWritten(states, arrivals, j, k, n, 0);
    ReadsTheFile(msize, states, arrivals, k, a, n);
    var r, b := ReplyTo(states[k], a), a.msg.body;
    if OpenedThrough(states, arrivals, k, a.conn, b.fid).Some? {
      forall i | 0 <= i < |r.data| ensures r.data[i] == LastByte(WritesTo(states, arrivals, j, k, n), b.offset + i) {
        assert r.data[i] == states[k].fs.nodes[n].buf[b.offset + i];
        ByteIsLastWritten(states, arrivals, j, k, n, b.offset + i);
      }
    }
  }
}
