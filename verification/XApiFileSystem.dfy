/** The per-user handle tables of src/XApiFileSystem.cpp over nodes that the
    API provides and that all users share: what requests do to both, and how
    far users can notice each other. */
module XApiFileSystemModel {
  import opened X9PProtocol

  /** Where a handle stands: a node of the API, its directory, its qid path. */
  datatype Place = Place(node: nat, parent: nat, path: nat)

  datatype ApiHandle = ApiHandle(mode: OpenMode, at: Place)

  datatype User = User(hidserial: nat, handles: map<nat, ApiHandle>)

  datatype Made = NotMade(error: Error) | MadeNothing | Made(at: Place)

  /** Whatever the nodes are made of. */
  type Memory = seq<byte>

  /** What the nodes answer the user asking, from the place asked through, and
      what the calls that act on them make of their memory. The root is node 0.
      hook stands for the whole of hooking: it changes nothing where the node is
      no mount. */
  datatype Api = Api(
    isDir: (Memory, nat) -> bool,
    find: (Memory, nat, Place, Name) -> Option<Place>,
    qid: (Memory, nat, Place) -> Qid,
    canOpen: (Memory, nat, Place, nat, OpenMode) -> bool,
    hook: (Memory, nat, Place) -> (Memory, Option<Error>),
    open: (Memory, nat, Place, nat, OpenMode) -> Memory,
    create: (Memory, nat, Place, Name) -> (Memory, Made),
    read: (Memory, nat, Place, nat, nat) -> (Memory, Reply),
    write: (Memory, nat, Place, nat, seq<byte>) -> (Memory, Reply),
    clunk: (Memory, nat, Place) -> Memory,
    remove: (Memory, nat, Place) -> (Memory, Option<Error>))

  const ROOT := Place(0, 0, 0)

  // ------------------------------------------------------------- specification

  /** The place a name leads to; a dot leads nowhere else. */
  function Follow(api: Api, s: Memory, user: nat, at: Place, name: Name): Option<Place> {
    if !api.isDir(s, at.node) then None
    else if name == [46] then Some(at)
    else api.find(s, user, at, name)
  }

  /** Where the names lead and the qids passed, up to the first that fails. */
  function WalkFrom(api: Api, s: Memory, user: nat, at: Place, names: seq<Name>): (r: (Place, seq<Qid>))
    ensures |r.1| <= |names|
    decreases |names|
  {
    if names == [] then (at, [])
    else
      match Follow(api, s, user, at, names[0])
      case None => (at, [])
      case Some(next) =>
        var (end, qids) := WalkFrom(api, s, user, next, names[1..]);
        (end, [api.qid(s, user, next)] + qids)
  }

  function Of(us: map<nat, User>, user: nat): User {
    if user in us then us[user] else User(0, map[])
  }

  predicate Tracked(u: User, id: nat) {
    id != XHID_UNINITIALIZED && id in u.handles
  }

  datatype Op =
    | Attach(id: nat)
    | Walk(id: nat, newid: nat, names: seq<Name>)
    | Open(id: nat, mode: OpenMode)
    | Create(id: nat, name: Name, mode: OpenMode)
    | Read(id: nat, offset: nat, count: nat)
    | Write(id: nat, offset: nat, data: seq<byte>)
    | Clunk(id: nat)
    | Remove(id: nat)

  /** The nodes, the user's table, and the id of the handle concerned. */
  datatype Answer = Answer(nodes: Memory, user: User, id: nat, reply: Reply)

  /** A new handle takes the user's next serial. */
  function Tagged(u: User, at: Place): User {
    User(u.hidserial + 1, u.handles[u.hidserial := ApiHandle(OPEN_EX_INVALID, at)])
  }

  function Untagged(u: User, id: nat): User {
    u.(handles := u.handles - {id})
  }

  function Set(u: User, id: nat, h: ApiHandle): User {
    u.(handles := u.handles[id := h])
  }

  predicate NotOpen(h: ApiHandle) { h.mode & OPEN_EX_INVALID != 0 }

  function DoAttach(api: Api, s: Memory, user: nat, u: User, id: nat): Answer {
    if id != XHID_UNINITIALIZED then Answer(s, u, id, RError(FidUsed))
    else Answer(s, Tagged(u, ROOT), u.hidserial, RAttach(api.qid(s, user, ROOT)))
  }

  function DoWalk(api: Api, s: Memory, user: nat, u: User, id: nat, newid: nat, names: seq<Name>): Answer {
    if |names| > TWALK_MAXELEM then Answer(s, u, newid, RError(WalkTooFar))
    else if !Tracked(u, id) then Answer(s, u, newid, RError(XhndInvalid))
    else if id != newid && Tracked(u, newid) then Answer(s, u, newid, RError(FidUsed))
    else
      var (end, qids) := WalkFrom(api, s, user, u.handles[id].at, names);
      if id == newid then Answer(s, Set(u, id, ApiHandle(OPEN_EX_INVALID, end)), id, RWalk(qids))
      else Answer(s, Tagged(u, end), u.hidserial, RWalk(qids))
  }

  function DoOpen(api: Api, s: Memory, user: nat, u: User, id: nat, mode: OpenMode): Answer {
    if !Tracked(u, id) then Answer(s, u, id, RError(XhndInvalid))
    else
      var h := u.handles[id];
      if !NotOpen(h) then Answer(s, u, id, RError(AlreadyOpen))
      else if h.at.node == 0 && h.at.parent == 0 && mode & OPEN_CLOSE != 0 then Answer(s, u, id, RError(NoPerm))
      else if !api.canOpen(s, user, h.at, h.at.node, mode) then Answer(s, u, id, RError(NoPerm))
      else
        var (hooked, err) := api.hook(s, user, h.at);
        if err.Some? then Answer(hooked, u, id, RError(err.value))
        else
          var after := api.open(hooked, user, h.at, h.at.node, mode);
          Answer(after, Set(u, id, h.(mode := mode)), id, ROpen(api.qid(after, user, h.at)))
  }

  /** The open that follows a creation is the directory's. */
  function DoCreate(api: Api, s: Memory, user: nat, u: User, id: nat, name: Name, mode: OpenMode): Answer {
    if !Tracked(u, id) then Answer(s, u, id, RError(XhndInvalid))
    else
      var at := u.handles[id].at;
      if !api.isDir(s, at.node) then Answer(s, u, id, RError(NotDir))
      else if !api.canOpen(s, user, at, at.node, OPEN_WRITE) then Answer(s, u, id, RError(NoPerm))
      else
        var (made, out) := api.create(s, user, at, name);
        match out
        case NotMade(e) => Answer(made, u, id, RError(e))
        case MadeNothing => Answer(made, u, id, RError(CannotCreate))
        case Made(child) =>
          var after := api.open(made, user, child, at.node, mode);
          Answer(after, Set(u, id, ApiHandle(mode, child)), id, RCreate(api.qid(after, user, child)))
  }

  function DoRead(api: Api, s: Memory, user: nat, u: User, id: nat, offset: nat, count: nat): Answer {
    if !Tracked(u, id) then Answer(s, u, id, RError(XhndInvalid))
    else if NotOpen(u.handles[id]) then Answer(s, u, id, RError(MustOpenFirst))
    else
      var (after, reply) := api.read(s, user, u.handles[id].at, offset, count);
      Answer(after, u, id, reply)
  }

  function DoWrite(api: Api, s: Memory, user: nat, u: User, id: nat, offset: nat, data: seq<byte>): Answer {
    if !Tracked(u, id) then Answer(s, u, id, RError(XhndInvalid))
    else if NotOpen(u.handles[id]) then Answer(s, u, id, RError(MustOpenFirst))
    else if api.isDir(s, u.handles[id].at.node) then Answer(s, u, id, RError(NotFile))
    else
      var (after, reply) := api.write(s, user, u.handles[id].at, offset, data);
      Answer(after, u, id, reply)
  }

  function DoClunk(api: Api, s: Memory, user: nat, u: User, id: nat): Answer {
    if !Tracked(u, id) then Answer(s, u, id, RError(XhndInvalid))
    else
      var h := u.handles[id];
      var clunked := api.clunk(s, user, h.at);
      var (after, err) := if h.mode & OPEN_CLOSE != 0 then api.remove(clunked, user, h.at) else (clunked, None);
      Answer(after, Untagged(u, id), XHID_UNINITIALIZED, if err.Some? then RError(err.value) else RClunk)
  }

  /** Whatever the directory says of it, the reply is an error. */
  function DoRemove(api: Api, s: Memory, user: nat, u: User, id: nat): Answer {
    if !Tracked(u, id) then Answer(s, u, id, RError(XhndInvalid))
    else
      var at := u.handles[id].at;
      var after :=
        if at.node == 0 && at.parent == 0 then s
        else if api.canOpen(s, user, at, at.parent, OPEN_WRITE) then api.remove(s, user, at).0
        else s;
      Answer(after, Untagged(u, id), id, RError(NoPerm))
  }

  function Do(api: Api, s: Memory, user: nat, u: User, op: Op): Answer {
    match op
    case Attach(id) => DoAttach(api, s, user, u, id)
    case Walk(id, newid, names) => DoWalk(api, s, user, u, id, newid, names)
    case Open(id, mode) => DoOpen(api, s, user, u, id, mode)
    case Create(id, name, mode) => DoCreate(api, s, user, u, id, name, mode)
    case Read(id, offset, count) => DoRead(api, s, user, u, id, offset, count)
    case Write(id, offset, data) => DoWrite(api, s, user, u, id, offset, data)
    case Clunk(id) => DoClunk(api, s, user, u, id)
    case Remove(id) => DoRemove(api, s, user, u, id)
  }

  /** Ids are below the serial that the next one takes. */
  ghost predicate SerialAbove(u: User) {
    forall id <- u.handles :: id < u.hidserial
  }

  /** A handle to be tagged carries no id or one in use, and ids are left. */
  predicate Allowed(u: User, op: Op) {
    match op
    case Attach(_) => u.hidserial < XHID_UNINITIALIZED
    case Walk(id, newid, _) =>
      u.hidserial < XHID_UNINITIALIZED && (newid == XHID_UNINITIALIZED || newid == id || newid in u.handles)
    case _ => true
  }

  /** Nodes and tables together. */
  datatype Fs = Fs(nodes: Memory, users: map<nat, User>)

  datatype Event = Asked(user: nat, op: Op) | Disconnected(user: nat)

  function After(api: Api, fs: Fs, e: Event): Fs {
    match e
    case Asked(user, op) =>
      var d := Do(api, fs.nodes, user, Of(fs.users, user), op);
      Fs(d.nodes, fs.users[user := d.user])
    case Disconnected(user) => fs.(users := fs.users - {user})
  }

  // ---------------------------------------------------------- implementation

  class XApiFileSystem {
    const api: Api
    var m_nodes: Memory
    var m_userhandles: map<nat, User>

    ghost predicate Valid()
      reads this
    {
      forall user <- m_userhandles :: SerialAbove(m_userhandles[user])
    }

    ghost function View(): Fs
      reads this
    {
      Fs(m_nodes, m_userhandles)
    }

    constructor (a: Api, nodes: Memory)
      ensures Valid() && api == a && View() == Fs(nodes, map[])
    {
      api, m_nodes, m_userhandles := a, nodes, map[];
    }

    /** The user's own table only. */
    method GetHnd(user: nat, id: nat) returns (h: Option<ApiHandle>)
      ensures h == if Tracked(Of(m_userhandles, user), id) then Some(Of(m_userhandles, user).handles[id]) else None
      ensures h.Some? ==> user in m_userhandles
    {
      if id == XHID_UNINITIALIZED { return None; }
      if user !in m_userhandles { return None; }
      if id !in m_userhandles[user].handles { return None; }
      return Some(m_userhandles[user].handles[id]);
    }

    /** The loop never runs twice: no id has reached the serial. */
    method TagHnd(user: nat, id: nat, at: Place) returns (newid: nat)
      requires Valid() && id == XHID_UNINITIALIZED && user in m_userhandles
      requires m_userhandles[user].hidserial < XHID_UNINITIALIZED
      modifies `m_userhandles
      ensures Valid() && newid == old(m_userhandles)[user].hidserial
      ensures m_userhandles == old(m_userhandles)[user := Tagged(old(m_userhandles)[user], at)]
    {
      var u := m_userhandles[user];
      var serial := u.hidserial;
      newid := id;
      var taken := true;
      while taken
        invariant if taken then serial == u.hidserial else newid == u.hidserial && serial == newid + 1
        decreases taken
      {
        newid := serial;
        serial := serial + 1;
        taken := newid in u.handles;
      }
      m_userhandles := m_userhandles[user := User(serial, u.handles[newid := ApiHandle(OPEN_EX_INVALID, at)])];
    }

    method UntagHnd(user: nat, id: nat)
      requires Valid() && user in m_userhandles
      modifies `m_userhandles
      ensures Valid() && m_userhandles == old(m_userhandles)[user := Untagged(old(m_userhandles)[user], id)]
    {
      var u := m_userhandles[user];
      m_userhandles := m_userhandles[user := u.(handles := u.handles - {id})];
    }

    /** Writes through the pointer GetHnd handed out. */
    method SetHnd(user: nat, id: nat, h: ApiHandle)
      requires Valid() && user in m_userhandles && id in m_userhandles[user].handles
      modifies `m_userhandles
      ensures Valid() && m_userhandles == old(m_userhandles)[user := Set(old(m_userhandles)[user], id, h)]
    {
      var u := m_userhandles[user];
      m_userhandles := m_userhandles[user := u.(handles := u.handles[id := h])];
    }

    /** Nodes, table of the user and reply are those of d; the other tables
        stay. */
    ghost predicate Did(was: Fs, user: nat, d: Answer, reply: Reply)
      reads this
    {
      && m_nodes == d.nodes && Of(m_userhandles, user) == d.user && reply == d.reply
      && forall other | other != user :: Of(m_userhandles, other) == Of(was.users, other)
    }

    method Tattach(user: nat, id: nat) returns (newid: nat, reply: Reply)
      requires Valid() && Allowed(Of(m_userhandles, user), Attach(id))
      modifies this
      ensures Valid()
      ensures var d := Do(api, old(m_nodes), user, Of(old(m_userhandles), user), Attach(id));
              Did(old(View()), user, d, reply) && newid == d.id
    {
      if user !in m_userhandles { m_userhandles := m_userhandles[user := User(0, map[])]; }
      if id != XHID_UNINITIALIZED { return id, RError(FidUsed); }
      newid := TagHnd(user, id, ROOT);
      reply := RAttach(api.qid(m_nodes, user, ROOT));
    }

    /** Resolves the names one by one, stopping at a file or a missing name. */
    method WalkNames(user: nat, at: Place, names: seq<Name>) returns (end: Place, wqid: seq<Qid>)
      ensures (end, wqid) == WalkFrom(api, m_nodes, user, at, names)
    {
      end, wqid := at, [];
      var nwalked := 0;
      assert [] + WalkFrom(api, m_nodes, user, at, names).1 == WalkFrom(api, m_nodes, user, at, names).1;
      while nwalked < |names|
        invariant nwalked <= |names|
        invariant
          var (to, qids) := WalkFrom(api, m_nodes, user, end, names[nwalked..]);
          WalkFrom(api, m_nodes, user, at, names) == (to, wqid + qids)
      {
        var name := names[nwalked];
        if !api.isDir(m_nodes, end.node) { break; }
        var next := end;
        if name != [46] {
          var found := api.find(m_nodes, user, end, name);
          if found.None? { break; }
          next := found.value;
        }
        OneStep(api, m_nodes, user, end, next, names, nwalked, wqid);
        end, wqid := next, wqid + [api.qid(m_nodes, user, next)];
        nwalked := nwalked + 1;
      }
      Stopped(api, m_nodes, user, end, names, nwalked);
      assert wqid + [] == wqid;
    }

    method Twalk(user: nat, id: nat, newid: nat, names: seq<Name>) returns (id': nat, reply: Reply)
      requires Valid() && Allowed(Of(m_userhandles, user), Walk(id, newid, names))
      modifies this
      ensures Valid()
      ensures var d := Do(api, old(m_nodes), user, Of(old(m_userhandles), user), Walk(id, newid, names));
              Did(old(View()), user, d, reply) && id' == d.id
    {
      id' := newid;
      if |names| > TWALK_MAXELEM { return id', RError(WalkTooFar); }
      var start := GetHnd(user, id);
      if start.None? { return id', RError(XhndInvalid); }
      if id != newid {
        var used := GetHnd(user, newid);
        if used.Some? { return id', RError(FidUsed); }
      }
      var end, wqid := WalkNames(user, start.value.at, names);
      if newid == id {
        SetHnd(user, id, ApiHandle(OPEN_EX_INVALID, end));
      } else {
        id' := TagHnd(user, newid, end);
      }
      reply := RWalk(wqid);
    }

    method Topen(user: nat, id: nat, mode: OpenMode) returns (reply: Reply)
      requires Valid()
      modifies this
      ensures Valid()
      ensures Did(old(View()), user, Do(api, old(m_nodes), user, Of(old(m_userhandles), user), Open(id, mode)), reply)
    {
      var h := GetHnd(user, id);
      if h.None? { return RError(XhndInvalid); }
      var ndh := h.value;
      if ndh.mode & OPEN_EX_INVALID == 0 { return RError(AlreadyOpen); }
      if ndh.at.node == ROOT.node && ndh.at.parent == ROOT.node && mode & OPEN_CLOSE != 0 { return RError(NoPerm); }
      if !api.canOpen(m_nodes, user, ndh.at, ndh.at.node, mode) { return RError(NoPerm); }
      var hooked := api.hook(m_nodes, user, ndh.at);
      m_nodes := hooked.0;
      if hooked.1.Some? { return RError(hooked.1.value); }
      SetHnd(user, id, ndh.(mode := mode));
      m_nodes := api.open(m_nodes, user, ndh.at, ndh.at.node, mode);
      reply := ROpen(api.qid(m_nodes, user, ndh.at));
    }

    method Tcreate(user: nat, id: nat, name: Name, mode: OpenMode) returns (reply: Reply)
      requires Valid()
      modifies this
      ensures Valid()
      ensures Did(old(View()), user, Do(api, old(m_nodes), user, Of(old(m_userhandles), user), Create(id, name, mode)), reply)
    {
      var h := GetHnd(user, id);
      if h.None? { return RError(XhndInvalid); }
      var at := h.value.at;
      if !api.isDir(m_nodes, at.node) { return RError(NotDir); }
      if !api.canOpen(m_nodes, user, at, at.node, OPEN_WRITE) { return RError(NoPerm); }
      var made := api.create(m_nodes, user, at, name);
      m_nodes := made.0;
      if made.1.NotMade? { return RError(made.1.error); }
      if made.1.MadeNothing? { return RError(CannotCreate); }
      SetHnd(user, id, ApiHandle(mode, made.1.at));
      m_nodes := api.open(m_nodes, user, made.1.at, at.node, mode);
      reply := RCreate(api.qid(m_nodes, user, made.1.at));
    }

    method Tread(user: nat, id: nat, offset: nat, count: nat) returns (reply: Reply)
      requires Valid()
      modifies `m_nodes
      ensures Did(old(View()), user, Do(api, old(m_nodes), user, Of(old(m_userhandles), user), Read(id, offset, count)), reply)
    {
      var h := GetHnd(user, id);
      if h.None? { return RError(XhndInvalid); }
      if h.value.mode & OPEN_EX_INVALID != 0 { return RError(MustOpenFirst); }
      var done := api.read(m_nodes, user, h.value.at, offset, count);
      m_nodes := done.0;
      reply := done.1;
    }

    method Twrite(user: nat, id: nat, offset: nat, data: seq<byte>) returns (reply: Reply)
      requires Valid()
      modifies `m_nodes
      ensures Did(old(View()), user, Do(api, old(m_nodes), user, Of(old(m_userhandles), user), Write(id, offset, data)), reply)
    {
      var h := GetHnd(user, id);
      if h.None? { return RError(XhndInvalid); }
      if h.value.mode & OPEN_EX_INVALID != 0 { return RError(MustOpenFirst); }
      if api.isDir(m_nodes, h.value.at.node) { return RError(NotFile); }
      var done := api.write(m_nodes, user, h.value.at, offset, data);
      m_nodes := done.0;
      reply := done.1;
    }

    /** Clunk forgets the handle's id; remove leaves it in the caller's hands
        and always reports an error. */
    method Tclunk(user: nat, id: nat) returns (id': nat, reply: Reply)
      requires Valid()
      modifies this
      ensures Valid()
      ensures var d := Do(api, old(m_nodes), user, Of(old(m_userhandles), user), Clunk(id));
              Did(old(View()), user, d, reply) && id' == d.id
    {
      var h := GetHnd(user, id);
      if h.None? { return id, RError(XhndInvalid); }
      var err: Option<Error> := None;
      m_nodes := api.clunk(m_nodes, user, h.value.at);
      if h.value.mode & OPEN_CLOSE != 0 {
        var removed := api.remove(m_nodes, user, h.value.at);
        m_nodes := removed.0;
        err := removed.1;
      }
      UntagHnd(user, id);
      id' := XHID_UNINITIALIZED;
      reply := if err.Some? then RError(err.value) else RClunk;
    }

    method Tremove(user: nat, id: nat) returns (reply: Reply)
      requires Valid()
      modifies this
      ensures Valid()
      ensures Did(old(View()), user, Do(api, old(m_nodes), user, Of(old(m_userhandles), user), Remove(id)), reply)
    {
      var h := GetHnd(user, id);
      if h.None? { return RError(XhndInvalid); }
      var at := h.value.at;
      if at.node == ROOT.node && at.parent == ROOT.node {
        UntagHnd(user, id);
        return RError(NoPerm);
      }
      if api.canOpen(m_nodes, user, at, at.parent, OPEN_WRITE) {
        var removed := api.remove(m_nodes, user, at);
        m_nodes := removed.0;
      }
      UntagHnd(user, id);
      reply := RError(NoPerm);
    }

    method Disconnect(user: nat)
      requires Valid()
      modifies `m_userhandles
      ensures Valid() && View() == After(api, old(View()), Disconnected(user))
    {
      m_userhandles := m_userhandles - {user};
    }
  }

  lemma OneStep(api: Api, s: Memory, user: nat, end: Place, next: Place, names: seq<Name>, k: nat, wqid: seq<Qid>)
    requires k < |names| && Follow(api, s, user, end, names[k]) == Some(next)
    ensures
      var (to, qids) := WalkFrom(api, s, user, next, names[k + 1..]);
      && WalkFrom(api, s, user, end, names[k..]).0 == to
      && wqid + WalkFrom(api, s, user, end, names[k..]).1 == (wqid + [api.qid(s, user, next)]) + qids
  {
    assert names[k..][1..] == names[k + 1..];
  }

  lemma Stopped(api: Api, s: Memory, user: nat, end: Place, names: seq<Name>, k: nat)
    requires k <= |names| && (k < |names| ==> Follow(api, s, user, end, names[k]).None?)
    ensures WalkFrom(api, s, user, end, names[k..]) == (end, [])
  {
  }
}
