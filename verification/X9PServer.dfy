/** The server object of src/X9PServer.cpp, its connections and their fid
    tables; each request is proved to do what Server.Dispatch says. */
module X9PServerModel {
  import opened X9PProtocol
  import opened DirectoryRead
  import opened VirtualFs
  import opened XVirtualFileSystemModel
  import S = Server

  /** A connection; fids name handle objects by allocation index. */
  class Connection {
    var m_fids: map<Fid, nat>
    var m_queue: seq<Response>

    constructor ()
      ensures m_fids == map[] && m_queue == []
    {
      m_fids, m_queue := map[], [];
    }
  }

  class X9PServer {
    const m_rootfilesystem: XVirtualFileSystem
    var m_clients: seq<Connection>
    var m_maxmessagesize: nat

    /** Every handle object allocated, in order, and the ones deleted since. */
    var m_objects: seq<Handle>
    ghost var deleted: set<nat>

    ghost function Repr(): set<object>
      reads this, m_rootfilesystem
    {
      {this, m_rootfilesystem} + Objects(m_rootfilesystem.m_nodes)
      + (set o <- m_objects) + (set c <- m_clients)
    }

    ghost predicate Valid()
      reads this, m_rootfilesystem, Repr()
    {
      && m_rootfilesystem.WellFormed()
      && (forall h, k | 0 <= h < k < |m_objects| :: m_objects[h] != m_objects[k])
      && (forall c, d | 0 <= c < d < |m_clients| :: m_clients[c] != m_clients[d])
      && (forall o <- m_objects :: o !in Objects(m_rootfilesystem.m_nodes))
      && (forall c <- m_clients :: c !in Objects(m_rootfilesystem.m_nodes))
      && this !in Objects(m_rootfilesystem.m_nodes)
      && (forall d <- deleted :: d < |m_objects|)
    }

    ghost function HandleView(): (v: seq<Option<nat>>)
      reads this, m_objects
      ensures |v| == |m_objects|
    {
      seq(|m_objects|, h requires 0 <= h < |m_objects| reads this, m_objects =>
        if h in deleted then None else Some(m_objects[h].id))
    }

    ghost function ClientView(): (v: seq<S.Conn>)
      reads this, m_clients
      ensures |v| == |m_clients|
    {
      seq(|m_clients|, c requires 0 <= c < |m_clients| reads this, m_clients =>
        S.Conn(m_clients[c].m_fids, m_clients[c].m_queue))
    }

    ghost function View(): S.Srv
      reads this, m_rootfilesystem, Repr()
    {
      S.Srv(m_rootfilesystem.View(), HandleView(), ClientView(), m_maxmessagesize)
    }

    constructor (fs: XVirtualFileSystem, msize: nat)
      requires fs.WellFormed()
      ensures Valid() && m_rootfilesystem == fs && m_clients == []
      ensures View() == S.Srv(fs.View(), [], [], msize)
    {
      m_rootfilesystem, m_clients, m_maxmessagesize := fs, [], msize;
      m_objects, deleted := [], {};
    }

    method Answer(c: nat, tag: Tag, reply: Reply)
      requires Valid() && c < |m_clients|
      modifies m_clients[c]
      ensures Valid() && View() == S.Respond(old(View()), c, tag, reply)
      ensures unchanged(this)
    {
      var cl := m_clients[c];
      cl.m_queue := cl.m_queue + [Response(tag, reply)];
      assert HandleView() == old(HandleView());
      assert ClientView() == old(ClientView())[c := S.Conn(cl.m_fids, cl.m_queue)];
    }

    method SetFids(c: nat, fids: map<Fid, nat>)
      requires Valid() && c < |m_clients|
      modifies m_clients[c]
      ensures Valid() && View() == S.SetFids(old(View()), c, fids)
      ensures unchanged(this) && (forall o <- m_objects :: unchanged(o))
    {
      var cl := m_clients[c];
      cl.m_fids := fids;
      assert HandleView() == old(HandleView());
      assert ClientView() == old(ClientView())[c := S.Conn(cl.m_fids, cl.m_queue)];
    }

    /** A new handle object, not yet bound to a fid. */
    method NewHandle() returns (hnd: Handle)
      requires Valid()
      modifies this
      ensures Valid() && fresh(hnd) && hnd.id == XHID_UNINITIALIZED && m_objects == old(m_objects) + [hnd] && m_clients == old(m_clients)
      ensures deleted == old(deleted) && |old(m_objects)| !in deleted
      ensures View() == old(View()).(hnds := old(View()).hnds + [Some(XHID_UNINITIALIZED)])
    {
      hnd := new Handle();
      m_objects := m_objects + [hnd];
      assert HandleView() == old(HandleView()) + [Some(XHID_UNINITIALIZED)];
      assert ClientView() == old(ClientView());
    }

    /** Server state after a filesystem call that concerned handle object h. */
    ghost function After(srv: S.Srv, h: nat, out: Outcome): S.Srv
      requires h < |srv.hnds|
    {
      srv.(fs := out.fs, hnds := srv.hnds[h := Some(out.id)])
    }

    /** The handle object behind a fid the filesystem may be asked about. */
    ghost predicate Usable(h: nat)
      reads this
    {
      h < |m_objects| && h !in deleted
    }

    method CallAttach(h: nat) returns (reply: Reply)
      requires Valid() && Usable(h) && Inv(m_rootfilesystem.View())
      requires Safe(m_rootfilesystem.View(), OpAttach(m_objects[h].id))
      requires IdsKnown(m_rootfilesystem.View(), OpAttach(m_objects[h].id))
      modifies m_rootfilesystem, m_objects[h]
      ensures
        var out := DoAttach(old(m_rootfilesystem.View()), old(m_objects[h].id));
        Valid() && View() == After(old(View()), h, out) && reply == out.reply
    {
      m_rootfilesystem.InvSuffices(m_objects[h].id);
      ghost var out := DoAttach(m_rootfilesystem.View(), m_objects[h].id);
      reply := m_rootfilesystem.Tattach(m_objects[h]);
      assert HandleView() == old(HandleView())[h := Some(out.id)];
      assert ClientView() == old(ClientView());
    }

    method CallOpen(h: nat, mode: OpenMode) returns (reply: Reply)
      requires Valid() && Usable(h) && Inv(m_rootfilesystem.View())
      requires Safe(m_rootfilesystem.View(), OpOpen(m_objects[h].id, mode))
      modifies m_rootfilesystem
      ensures
        var out := DoOpen(old(m_rootfilesystem.View()), old(m_objects[h].id), mode);
        Valid() && View() == After(old(View()), h, out) && reply == out.reply
    {
      m_rootfilesystem.InvSuffices(m_objects[h].id);
      ghost var out := DoOpen(m_rootfilesystem.View(), m_objects[h].id, mode);
      reply := m_rootfilesystem.Topen(m_objects[h], mode);
      assert HandleView() == old(HandleView())[h := Some(out.id)];
      assert ClientView() == old(ClientView());
    }

    method CallCreate(h: nat, name: Name, isDir: bool, mode: OpenMode) returns (reply: Reply)
      requires Valid() && Usable(h) && Inv(m_rootfilesystem.View())
      requires Safe(m_rootfilesystem.View(), OpCreate(m_objects[h].id, name, isDir, mode))
      modifies m_rootfilesystem, Objects(m_rootfilesystem.m_nodes)
      ensures
        var out := DoCreate(old(m_rootfilesystem.View()), old(m_objects[h].id), name, isDir, mode);
        Valid() && View() == After(old(View()), h, out) && reply == out.reply
    {
      m_rootfilesystem.InvSuffices(m_objects[h].id);
      ghost var out := DoCreate(m_rootfilesystem.View(), m_objects[h].id, name, isDir, mode);
      reply := m_rootfilesystem.Tcreate(m_objects[h], name, isDir, mode);
      assert HandleView() == old(HandleView())[h := Some(out.id)];
      assert ClientView() == old(ClientView());
    }

    method CallRead(h: nat, offset: nat, count: nat, listing: seq<Record>) returns (reply: Reply)
      requires Valid() && Usable(h) && Inv(m_rootfilesystem.View())
      requires Safe(m_rootfilesystem.View(), OpRead(m_objects[h].id, offset, count, listing))
      ensures
        var out := DoRead(old(m_rootfilesystem.View()), old(m_objects[h].id), offset, count, listing);
        Valid() && View() == After(old(View()), h, out) && reply == out.reply
    {
      m_rootfilesystem.InvSuffices(m_objects[h].id);
      ghost var out := DoRead(m_rootfilesystem.View(), m_objects[h].id, offset, count, listing);
      reply := m_rootfilesystem.Tread(m_objects[h], offset, count, listing);
      assert HandleView() == old(HandleView())[h := Some(out.id)];
      assert ClientView() == old(ClientView());
    }

    method CallWrite(h: nat, offset: nat, data: seq<byte>) returns (reply: Reply)
      requires Valid() && Usable(h) && Inv(m_rootfilesystem.View())
      requires Safe(m_rootfilesystem.View(), OpWrite(m_objects[h].id, offset, data))
      modifies Objects(m_rootfilesystem.m_nodes)
      ensures
        var out := DoWrite(old(m_rootfilesystem.View()), old(m_objects[h].id), offset, data);
        Valid() && View() == After(old(View()), h, out) && reply == out.reply
    {
      m_rootfilesystem.InvSuffices(m_objects[h].id);
      ghost var out := DoWrite(m_rootfilesystem.View(), m_objects[h].id, offset, data);
      reply := m_rootfilesystem.Twrite(m_objects[h], offset, data);
      assert HandleView() == old(HandleView())[h := Some(out.id)];
      assert ClientView() == old(ClientView());
    }

    method CallWstat(h: nat, name: Name) returns (reply: Reply)
      requires Valid() && Usable(h) && Inv(m_rootfilesystem.View())
      requires Safe(m_rootfilesystem.View(), OpRename(m_objects[h].id, name))
      modifies m_rootfilesystem, Objects(m_rootfilesystem.m_nodes)
      ensures
        var out := DoRename(old(m_rootfilesystem.View()), old(m_objects[h].id), name);
        Valid() && View() == After(old(View()), h, out) && reply == out.reply
    {
      m_rootfilesystem.InvSuffices(m_objects[h].id);
      ghost var out := DoRename(m_rootfilesystem.View(), m_objects[h].id, name);
      reply := m_rootfilesystem.Twstat(m_objects[h], name);
      assert HandleView() == old(HandleView())[h := Some(out.id)];
      assert ClientView() == old(ClientView());
    }

    method CallClunk(h: nat) returns (reply: Reply)
      requires Valid() && Usable(h) && Inv(m_rootfilesystem.View())
      requires Safe(m_rootfilesystem.View(), OpClunk(m_objects[h].id))
      modifies m_rootfilesystem, m_objects[h], Objects(m_rootfilesystem.m_nodes)
      ensures
        var out := DoClunk(old(m_rootfilesystem.View()), old(m_objects[h].id));
        Valid() && View() == After(old(View()), h, out) && reply == out.reply
    {
      m_rootfilesystem.InvSuffices(m_objects[h].id);
      ghost var out := DoClunk(m_rootfilesystem.View(), m_objects[h].id);
      reply := m_rootfilesystem.Tclunk(m_objects[h]);
      assert HandleView() == old(HandleView())[h := Some(out.id)];
      assert ClientView() == old(ClientView());
    }

    method CallRemove(h: nat) returns (reply: Reply)
      requires Valid() && Usable(h) && Inv(m_rootfilesystem.View())
      requires Safe(m_rootfilesystem.View(), OpRemove(m_objects[h].id))
      modifies m_rootfilesystem, m_objects[h], Objects(m_rootfilesystem.m_nodes)
      ensures
        var out := DoRemove(old(m_rootfilesystem.View()), old(m_objects[h].id));
        Valid() && View() == After(old(View()), h, out) && reply == out.reply
    {
      m_rootfilesystem.InvSuffices(m_objects[h].id);
      ghost var out := DoRemove(m_rootfilesystem.View(), m_objects[h].id);
      reply := m_rootfilesystem.Tremove(m_objects[h]);
      assert HandleView() == old(HandleView())[h := Some(out.id)];
      assert ClientView() == old(ClientView());
    }

    /** from may be h itself, for a walk in place. */
    method CallWalk(from: nat, h: nat, names: seq<Name>) returns (reply: Reply)
      requires Valid() && Usable(h) && Usable(from) && Inv(m_rootfilesystem.View())
      requires Safe(m_rootfilesystem.View(), OpWalk(m_objects[from].id, m_objects[h].id, names))
      requires IdsKnown(m_rootfilesystem.View(), OpWalk(m_objects[from].id, m_objects[h].id, names))
      modifies m_rootfilesystem, m_objects[h]
      ensures
        var out := DoWalk(old(m_rootfilesystem.View()), old(m_objects[from].id), old(m_objects[h].id), names);
        Valid() && View() == After(old(View()), h, out) && reply == out.reply
    {
      m_rootfilesystem.InvSuffices(m_objects[from].id);
      ghost var out := DoWalk(m_rootfilesystem.View(), m_objects[from].id, m_objects[h].id, names);
      reply := m_rootfilesystem.Twalk(m_objects[from], m_objects[h], names);
      assert HandleView() == old(HandleView())[h := Some(out.id)];
      assert ClientView() == old(ClientView());
    }

    // ------------------------------------------------- the cases of the dispatch

    /** GetXHND: the handle object of a fid, or an error response. */
    method GetXHND(c: nat, fid: Fid, tag: Tag) returns (h: Option<nat>)
      requires Valid() && c < |m_clients| && S.FidsMatch(View())
      modifies m_clients[c]
      ensures Valid()
      ensures h.Some? <==> fid in old(View()).conns[c].fids
      ensures h.Some? ==> View() == old(View()) && Usable(h.value) && h.value == View().conns[c].fids[fid]
      ensures h.Some? ==> View().hnds[h.value] == Some(m_objects[h.value].id)
      ensures h.None? ==> View() == S.Respond(old(View()), c, tag, RError(FidDne))
    {
      var fids := m_clients[c].m_fids;
      if fid !in fids {
        Answer(c, tag, RError(FidDne));
        return None;
      }
      assert S.Bound(View(), c, fid, fids[fid]);
      return Some(fids[fid]);
    }

    method Delete(h: nat)
      requires Valid() && h < |m_objects|
      modifies this`deleted
      ensures Valid() && View() == old(View()).(hnds := old(View()).hnds[h := None])
    {
      deleted := deleted + {h};
      assert HandleView() == old(HandleView())[h := None];
      assert ClientView() == old(ClientView());
    }

    /** What the cases below need of the state and the request. */
    ghost predicate Ready(c: nat, m: Request, listing: seq<Record>)
      reads this, m_rootfilesystem, Repr()
    {
      && Valid() && c < |m_clients| && Inv(m_rootfilesystem.View()) && S.FidsMatch(View())
      && var op := S.FsRequest(View(), c, m.body, listing);
         op.Some? ==> Allowed(m_rootfilesystem.View(), op.value)
    }

    method OnAttach(c: nat, m: Request, listing: seq<Record>)
      requires Ready(c, m, listing) && m.body.TAttach?
      modifies Repr()
      ensures Valid() && View() == S.Dispatch(old(View()), c, m, listing)
    {
      hide S.Dispatch, S.FidsMatch, Inv, Step, DoAttach, Safe, IdsKnown;
      S.DispatchAttach(View(), c, m, listing);
      var fid, n := m.body.fid, |m_objects|;
      var hnd := NewHandle();
      var fids := m_clients[c].m_fids;
      SetFids(c, if fid in fids then fids else fids[fid := n]);
      var reply := CallAttach(n);
      Answer(c, m.tag, reply);
    }

    method OnWalk(c: nat, m: Request, listing: seq<Record>)
      requires Ready(c, m, listing) && m.body.TWalk?
      modifies Repr()
      ensures Valid() && View() == S.Dispatch(old(View()), c, m, listing)
    {
      hide S.Dispatch, S.FidsMatch, Inv, Step, DoWalk, Safe, IdsKnown;
      S.DispatchRefused(View(), c, m, listing);
      if |m.body.names| > TWALK_MAXELEM {
        Answer(c, m.tag, RError(WalkTooFar));
        return;
      }
      var h := GetXHND(c, m.body.fid, m.tag);
      if h.None? { return; }
      if m.body.newfid == m.body.fid {
        WalkInPlace(c, m, listing, h.value);
      } else if m.body.newfid in m_clients[c].m_fids {
        Answer(c, m.tag, RError(FidUsed));
      } else {
        WalkToNew(c, m, listing, h.value);
      }
    }

    method WalkInPlace(c: nat, m: Request, listing: seq<Record>, h: nat)
      requires Ready(c, m, listing) && m.body.TWalk? && S.Refusal(View(), c, m.body).None?
      requires m.body.newfid == m.body.fid && Usable(h) && h == View().conns[c].fids[m.body.fid]
      modifies Repr()
      ensures Valid() && View() == S.Dispatch(old(View()), c, m, listing)
    {
      hide S.Dispatch, S.FidsMatch, Inv, Step, DoWalk, Safe, IdsKnown;
      S.DispatchWalk(View(), c, m, listing);
      assert View().hnds[h] == Some(m_objects[h].id);
      S.WalkKeepsId(View().fs, m_objects[h].id, m.body.names);
      var reply := CallWalk(h, h, m.body.names);
      Answer(c, m.tag, reply);
    }

    /** A walk to a fid not in use, through a handle object made for it. */
    method WalkToNew(c: nat, m: Request, listing: seq<Record>, from: nat)
      requires Ready(c, m, listing) && m.body.TWalk? && S.Refusal(View(), c, m.body).None?
      requires m.body.newfid != m.body.fid && Usable(from) && from == View().conns[c].fids[m.body.fid]
      modifies Repr()
      ensures Valid() && View() == S.Dispatch(old(View()), c, m, listing)
    {
      hide S.Dispatch, S.FidsMatch, Inv, Step, DoWalk, Safe, IdsKnown;
      S.DispatchWalk(View(), c, m, listing);
      assert View().hnds[from] == Some(m_objects[from].id);
      ghost var srv := View();
      hide S.FsRequest, S.FidId, S.Refusal;
      var n := |m_objects|;
      var hnd := NewHandle();
      SetFids(c, m_clients[c].m_fids[m.body.newfid := n]);
      assert View().fs == srv.fs && m_objects[n].id == XHID_UNINITIALIZED;
      var reply := CallWalk(from, n, m.body.names);
      Answer(c, m.tag, reply);
    }

    /** Clunk and remove: the fid entry goes first, then the filesystem is
        told, then the handle object is deleted. */
    method OnRelease(c: nat, m: Request, listing: seq<Record>)
      requires Ready(c, m, listing) && (m.body.TClunk? || m.body.TRemove?)
      modifies Repr()
      ensures Valid() && View() == S.Dispatch(old(View()), c, m, listing)
    {
      hide S.Dispatch, S.FidsMatch, Inv, Step, DoClunk, DoRemove, Safe, IdsKnown;
      S.DispatchRefused(View(), c, m, listing);
      var h := GetXHND(c, m.body.fid, m.tag);
      if h.None? { return; }
      ReleaseBound(c, m, listing, h.value);
    }

    method ReleaseBound(c: nat, m: Request, listing: seq<Record>, h: nat)
      requires Ready(c, m, listing) && (m.body.TClunk? || m.body.TRemove?) && m.body.fid in View().conns[c].fids
      requires Usable(h) && h == View().conns[c].fids[m.body.fid]
      modifies Repr()
      ensures Valid() && View() == S.Dispatch(old(View()), c, m, listing)
    {
      hide S.Dispatch, S.FidsMatch, Inv, Step, DoClunk, DoRemove, Safe, IdsKnown;
      S.DispatchRelease(View(), c, m, listing);
      assert View().hnds[h] == Some(m_objects[h].id);
      ghost var srv, id := View(), m_objects[h].id;
      hide S.FsRequest, S.FidId, S.Refusal;
      SetFids(c, m_clients[c].m_fids - {m.body.fid});
      assert View() == S.SetFids(srv, c, srv.conns[c].fids - {m.body.fid}) && m_objects[h].id == id;
      var reply := CallRelease(h, m.body.TClunk?);
      Answer(c, m.tag, reply);
    }

    method CallRelease(h: nat, clunk: bool) returns (reply: Reply)
      requires Valid() && Usable(h) && Inv(m_rootfilesystem.View())
      requires Safe(m_rootfilesystem.View(), if clunk then OpClunk(m_objects[h].id) else OpRemove(m_objects[h].id))
      modifies this`deleted, m_rootfilesystem, m_objects[h], Objects(m_rootfilesystem.m_nodes)
      ensures
        var fs, id := old(m_rootfilesystem.View()), old(m_objects[h].id);
        var out := if clunk then DoClunk(fs, id) else DoRemove(fs, id);
        && Valid() && reply == out.reply
        && View() == old(View()).(fs := out.fs, hnds := old(View()).hnds[h := None])
    {
      if clunk {
        reply := CallClunk(h);
      } else {
        reply := CallRemove(h);
      }
      Delete(h);
    }

    /** Open, create, read, write and wstat leave the fid table alone. */
    method OnOther(c: nat, m: Request, listing: seq<Record>)
      requires Ready(c, m, listing) && S.Other(m.body)
      modifies Repr()
      ensures Valid() && View() == S.Dispatch(old(View()), c, m, listing)
    {
      hide S.Dispatch, S.FidsMatch, Inv, Step;
      S.DispatchRefused(View(), c, m, listing);
      var h := GetXHND(c, m.body.fid, m.tag);
      if h.None? { return; }
      if m.body.TCreate? && (m.body.name == [46, 46] || m.body.name == [46]) {
        Answer(c, m.tag, RError(if m.body.name == [46, 46] then FilenameDotDot else FilenameDot));
        return;
      }
      OtherBound(c, m, listing, h.value);
    }

    method OtherBound(c: nat, m: Request, listing: seq<Record>, h: nat)
      requires Ready(c, m, listing) && S.Other(m.body) && S.Refusal(View(), c, m.body).None?
      requires Usable(h) && h == View().conns[c].fids[m.body.fid]
      modifies Repr()
      ensures Valid() && View() == S.Dispatch(old(View()), c, m, listing)
    {
      hide S.Dispatch, S.FidsMatch, Inv, Step, Safe, IdsKnown;
      S.DispatchOther(View(), c, m, listing);
      assert View().hnds[h] == Some(m_objects[h].id);
      var reply := CallOther(h, m.body, listing);
      Answer(c, m.tag, reply);
    }

    method CallOther(h: nat, b: Body, listing: seq<Record>) returns (reply: Reply)
      requires Valid() && Usable(h) && Inv(m_rootfilesystem.View()) && S.Other(b)
      requires Safe(m_rootfilesystem.View(), S.FsOpOf(b, m_objects[h].id, XHID_UNINITIALIZED, listing))
      modifies m_rootfilesystem, Objects(m_rootfilesystem.m_nodes)
      ensures
        var op := S.FsOpOf(b, old(m_objects[h].id), XHID_UNINITIALIZED, listing);
        var out := Step(old(m_rootfilesystem.View()), op);
        Valid() && View() == After(old(View()), h, out) && reply == out.reply
    {
      hide Inv, DoOpen, DoCreate, DoRead, DoWrite, DoRename;
      if b.TRead? || b.TWrite? {
        reply := CallTransfer(h, b, listing);
      } else if b.TOpen? {
        reply := CallOpen(h, b.mode & OPEN_PROTOCOL_MASK);
      } else if b.TCreate? {
        reply := CallCreate(h, b.name, b.isDir, b.mode & OPEN_PROTOCOL_MASK);
      } else {
        reply := CallWstat(h, b.name);
      }
    }

    method CallTransfer(h: nat, b: Body, listing: seq<Record>) returns (reply: Reply)
      requires Valid() && Usable(h) && Inv(m_rootfilesystem.View()) && (b.TRead? || b.TWrite?)
      requires Safe(m_rootfilesystem.View(), S.FsOpOf(b, m_objects[h].id, XHID_UNINITIALIZED, listing))
      modifies Objects(m_rootfilesystem.m_nodes)
      ensures
        var op := S.FsOpOf(b, old(m_objects[h].id), XHID_UNINITIALIZED, listing);
        var out := Step(old(m_rootfilesystem.View()), op);
        Valid() && View() == After(old(View()), h, out) && reply == out.reply
    {
      hide Inv, DoRead, DoWrite;
      if b.TRead? {
        reply := CallRead(h, b.offset, b.count, listing);
      } else {
        reply := CallWrite(h, b.offset, b.data);
      }
    }

    /** One connection taken from the listener. */
    method AcceptConnection()
      requires Valid()
      modifies this`m_clients
      ensures Valid() && View() == S.Accept(old(View()))
      ensures old(S.SrvInv(View())) ==> S.SrvInv(View())
    {
      hide S.SrvInv;
      ghost var srv := View();
      var cl := new Connection();
      m_clients := m_clients + [cl];
      assert HandleView() == old(HandleView());
      assert ClientView() == old(ClientView()) + [S.Conn(map[], [])];
      if S.SrvInv(srv) { S.AcceptInv(srv); }
    }

    /** ok[i] says whether the socket takes the i-th response; those it does
        not take stay queued. */
    method FlushResponses(c: nat, ok: seq<bool>)
      requires Valid() && c < |m_clients| && |ok| == |m_clients[c].m_queue|
      modifies m_clients[c]
      ensures Valid() && View() == S.Send(old(View()), c, ok)
    {
      var cl := m_clients[c];
      var unsent := SendAll(cl.m_queue, ok);
      cl.m_queue := unsent;
      assert HandleView() == old(HandleView());
      assert ClientView() == old(ClientView())[c := S.Conn(cl.m_fids, cl.m_queue)];
    }

    static method SendAll(q: seq<Response>, ok: seq<bool>) returns (unsent: seq<Response>)
      requires |q| == |ok|
      ensures unsent == S.Kept(q, ok)
    {
      hide S.Kept;
      unsent := [];
      assert q[0..] == q && ok[0..] == ok && [] + S.Kept(q, ok) == S.Kept(q, ok);
      for i := 0 to |q|
        invariant unsent + S.Kept(q[i..], ok[i..]) == S.Kept(q, ok)
      {
        S.KeptNext(q, ok, i);
        Assoc(unsent, if ok[i] then [] else [q[i]], S.Kept(q[i + 1..], ok[i + 1..]));
        if ok[i] {
          assert unsent + [] == unsent;
        } else {
          unsent := unsent + [q[i]];
        }
      }
      S.KeptNone();
      assert q[|q|..] == [] && ok[|q|..] == [] && unsent + [] == unsent;
    }

    /** One request received on connection c. */
    method Process(c: nat, m: Request, listing: seq<Record>)
      requires Valid() && c < |m_clients| && S.SrvInv(View()) && S.Fine(View(), c, m, listing)
      modifies Repr()
      ensures Valid() && View() == S.Dispatch(old(View()), c, m, listing)
      ensures S.SrvInv(View())
    {
      S.DispatchKeepsInv(View(), c, m, listing);
      if m.body.TVersion? {
        var msize := if m.body.msize > m_maxmessagesize then m_maxmessagesize else m.body.msize;
        Answer(c, m.tag, RVersion(msize));
        return;
      }
      if S.FsRequest(View(), c, m.body, listing).Some? {
        S.IdsAreKnown(View(), c, m.body, listing);
      }
      if m.body.TAttach? {
        OnAttach(c, m, listing);
      } else if m.body.TWalk? {
        OnWalk(c, m, listing);
      } else if m.body.TClunk? || m.body.TRemove? {
        OnRelease(c, m, listing);
      } else {
        OnOther(c, m, listing);
      }
    }
  }
}
