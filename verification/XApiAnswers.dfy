/** What a request to the API filesystem asks of the nodes, where, and what it
    is answered with. */
module XApiAnswers {
  import opened X9PProtocol
  import opened XApiFileSystemModel

  // ------------------------------------------------------------------ walks

  /** One name further: a directory is asked for it where the walk has come to,
      and a dot stays there. */
  predicate Leads(api: Api, s: Memory, user: nat, at: Place, name: Name, next: Place) {
    api.isDir(s, at.node) && if name == [46] then next == at else api.find(s, user, at, name) == Some(next)
  }

  predicate LeadsOn(api: Api, s: Memory, user: nat, es: seq<Place>, names: seq<Name>) {
    |es| == |names| + 1 && forall i | 0 <= i < |names| :: Leads(api, s, user, es[i], names[i], es[i + 1])
  }

  /** A walk goes from place to place, each name being looked up in the
      directory reached by the names before it, and reports the qid of each
      place entered; it stops only at a node that is no directory or does not
      have the name. */
  lemma {:induction false} WalkGoesOn(api: Api, s: Memory, user: nat, at: Place, names: seq<Name>)
    returns (es: seq<Place>)
    ensures
      var (end, qids) := WalkFrom(api, s, user, at, names);
      && LeadsOn(api, s, user, es, names[..|qids|]) && es[0] == at && end == es[|qids|]
      && (forall i | 0 <= i < |qids| :: qids[i] == api.qid(s, user, es[i + 1]))
      && (|qids| < |names| ==>
            !api.isDir(s, end.node) || (names[|qids|] != [46] && api.find(s, user, end, names[|qids|]) == None))
    decreases |names|
  {
    if names == [] || Follow(api, s, user, at, names[0]).None? {
      es := [at];
    } else {
      var next := Follow(api, s, user, at, names[0]).value;
      var rest := WalkGoesOn(api, s, user, next, names[1..]);
      es := [at] + rest;
      var qids, more := WalkFrom(api, s, user, at, names).1, WalkFrom(api, s, user, next, names[1..]).1;
      assert qids == [api.qid(s, user, next)] + more;
      hide WalkFrom, Leads;
      var k := |qids|;
      assert names[..k] == [names[0]] + names[1..][..k - 1];
      assert Leads(api, s, user, at, names[0], next) by { OneStepLeads(api, s, user, at, names[0]); }
      GoesOnward(api, s, user, at, names[0], names[1..][..k - 1], rest);
      forall i | 0 <= i < k ensures qids[i] == api.qid(s, user, es[i + 1]) {
        assert es[i + 1] == rest[i];
        if i > 0 { assert qids[i] == more[i - 1]; }
      }
      assert es[k] == rest[k - 1] && (k < |names| ==> names[k] == names[1..][k - 1]);
    }
  }

  lemma OneStepLeads(api: Api, s: Memory, user: nat, at: Place, name: Name)
    requires Follow(api, s, user, at, name).Some?
    ensures Leads(api, s, user, at, name, Follow(api, s, user, at, name).value)
  {
  }

  lemma GoesOnward(api: Api, s: Memory, user: nat, at: Place, name: Name, names: seq<Name>, es: seq<Place>)
    requires LeadsOn(api, s, user, es, names) && Leads(api, s, user, at, name, es[0])
    ensures LeadsOn(api, s, user, [at] + es, [name] + names)
  {
    hide Leads;
    var path, all := [at] + es, [name] + names;
    forall i | 0 <= i < |all| ensures Leads(api, s, user, path[i], all[i], path[i + 1]) {
      if i > 0 { assert all[i] == names[i - 1] && path[i] == es[i - 1] && path[i + 1] == es[i]; }
    }
  }

  /** Nodes that are a root holding a directory "d" holding a file "f". */
  const D: Name := [100]
  const F: Name := [102]

  function Nested(): Api {
    Api(
      (s: Memory, n: nat) => n <= 1,
      (s: Memory, user: nat, at: Place, name: Name) =>
        if at.node == 0 && name == D then Some(Place(1, 0, 1))
        else if at.node == 1 && name == F then Some(Place(2, 1, 2))
        else None,
      (s: Memory, user: nat, at: Place) => Qid(at.node <= 1, 0, at.path),
      (s: Memory, user: nat, at: Place, n: nat, mode: OpenMode) => true,
      (s: Memory, user: nat, at: Place) => (s, None),
      (s: Memory, user: nat, at: Place, n: nat, mode: OpenMode) => s,
      (s: Memory, user: nat, at: Place, name: Name) => (s, MadeNothing),
      (s: Memory, user: nat, at: Place, offset: nat, count: nat) => (s, RRead([])),
      (s: Memory, user: nat, at: Place, offset: nat, data: seq<byte>) => (s, RWrite(|data|)),
      (s: Memory, user: nat, at: Place) => s,
      (s: Memory, user: nat, at: Place) => (s, None))
  }

  lemma NestedWalk(s: Memory, user: nat)
    ensures WalkFrom(Nested(), s, user, ROOT, [D, F]) == (Place(2, 1, 2), [Qid(true, 0, 1), Qid(false, 0, 2)])
    ensures WalkFrom(Nested(), s, user, ROOT, [D, D]) == (Place(1, 0, 1), [Qid(true, 0, 1)])
  {
    var api := Nested();
    assert [D, F][1..] == [F] && [D, D][1..] == [D] && [F][1..] == [];
    var d, f := Place(1, 0, 1), Place(2, 1, 2);
    var qd, qf := Qid(true, 0, 1), Qid(false, 0, 2);
    assert WalkFrom(api, s, user, f, []) == (f, []) && [qf] + [] == [qf];
    assert WalkFrom(api, s, user, d, [F]) == (f, [qf]);
    assert WalkFrom(api, s, user, d, [D]) == (d, []) && [qd] + [] == [qd] && [qd] + [qf] == [qd, qf];
  }

  // --------------------------------------------------- what nodes are asked to do

  datatype Deed =
    | Hooking(at: Place)
    | Opening(at: Place, node: nat, mode: OpenMode)
    | Creating(at: Place, name: Name)
    | Reading(at: Place, offset: nat, count: nat)
    | Writing(at: Place, offset: nat, data: seq<byte>)
    | Clunking(at: Place)
    | Removing(at: Place)

  function Perform(api: Api, s: Memory, user: nat, d: Deed): Memory {
    match d
    case Hooking(at) => api.hook(s, user, at).0
    case Opening(at, node, mode) => api.open(s, user, at, node, mode)
    case Creating(at, name) => api.create(s, user, at, name).0
    case Reading(at, offset, count) => api.read(s, user, at, offset, count).0
    case Writing(at, offset, data) => api.write(s, user, at, offset, data).0
    case Clunking(at) => api.clunk(s, user, at)
    case Removing(at) => api.remove(s, user, at).0
  }

  function PerformAll(api: Api, s: Memory, user: nat, ds: seq<Deed>): Memory
    decreases |ds|
  {
    if ds == [] then s else PerformAll(api, Perform(api, s, user, ds[0]), user, ds[1..])
  }

  predicate Unopened(h: ApiHandle) { h.mode & 0x80 != 0 }

  predicate TheRoot(at: Place) { at.node == 0 && at.parent == 0 }

  /** The open a handle is granted: it is not open yet, the root is not to be
      removed on close, and the node permits the mode. */
  predicate Granted(api: Api, s: Memory, user: nat, h: ApiHandle, mode: OpenMode) {
    Unopened(h) && !(TheRoot(h.at) && mode & 0x40 != 0) && api.canOpen(s, user, h.at, h.at.node, mode)
  }

  /** What the nodes are asked to do in the course of a request through a known
      handle, in order. */
  function Deeds(api: Api, s: Memory, user: nat, h: ApiHandle, op: Op): seq<Deed> {
    var at := h.at;
    match op
    case Attach(_) => []
    case Walk(_, _, _) => []
    case Open(_, mode) =>
      if !Granted(api, s, user, h, mode) then []
      else [Hooking(at)] + if api.hook(s, user, at).1.Some? then [] else [Opening(at, at.node, mode)]
    case Create(_, name, mode) =>
      if !api.isDir(s, at.node) || !api.canOpen(s, user, at, at.node, 1) then []
      else
        var out := api.create(s, user, at, name).1;
        [Creating(at, name)] + if out.Made? then [Opening(out.at, at.node, mode)] else []
    case Read(_, offset, count) => if Unopened(h) then [] else [Reading(at, offset, count)]
    case Write(_, offset, data) => if Unopened(h) || api.isDir(s, at.node) then [] else [Writing(at, offset, data)]
    case Clunk(_) => [Clunking(at)] + if h.mode & 0x40 != 0 then [Removing(at)] else []
    case Remove(_) => if TheRoot(at) || !api.canOpen(s, user, at, at.parent, 1) then [] else [Removing(at)]
  }

  lemma NoDeed(api: Api, s: Memory, user: nat)
    ensures PerformAll(api, s, user, []) == s
  {
  }

  lemma OneDeed(api: Api, s: Memory, user: nat, d: Deed)
    ensures PerformAll(api, s, user, [d]) == Perform(api, s, user, d)
    ensures PerformAll(api, s, user, [d] + []) == Perform(api, s, user, d)
  {
    hide Perform;
    assert [d] + [] == [d] && [d][1..] == [];
  }

  lemma TwoDeeds(api: Api, s: Memory, user: nat, d: Deed, e: Deed)
    ensures PerformAll(api, s, user, [d] + [e]) == Perform(api, Perform(api, s, user, d), user, e)
  {
    hide Perform;
    OneDeed(api, Perform(api, s, user, d), user, e);
    assert ([d] + [e])[0] == d && ([d] + [e])[1..] == [e];
  }

  /** The nodes after a request through a known handle are what those deeds make
      of them, all at the handle's place but for the open of what was created;
      a request through an unknown one leaves them alone. */
  lemma NodesAreAsked(api: Api, s: Memory, user: nat, u: User, op: Op)
    requires !op.Attach? && !op.Walk?
    ensures Do(api, s, user, u, op).nodes ==
            if Tracked(u, op.id) then PerformAll(api, s, user, Deeds(api, s, user, u.handles[op.id], op)) else s
  {
    if Tracked(u, op.id) {
      var h := u.handles[op.id];
      var ds := Deeds(api, s, user, h, op);
      NoDeed(api, s, user);
      if |ds| > 0 { OneDeed(api, s, user, ds[0]); }
      if |ds| > 1 {
        assert ds == [ds[0]] + [ds[1]];
        TwoDeeds(api, s, user, ds[0], ds[1]);
      } else if |ds| == 1 {
        assert ds == [ds[0]];
      }
      hide PerformAll;
    }
  }

  /** And what the user is told and has: the mode and place a successful open or
      creation gives, the qid of that place in the state the deeds left, the
      node's own answer to a read, a write or a removal. */
  lemma UserIsTold(api: Api, s: Memory, user: nat, u: User, op: Op)
    requires !op.Attach? && !op.Walk? && Tracked(u, op.id)
    ensures
      var d, h := Do(api, s, user, u, op), u.handles[op.id];
      match op
      case Open(id, mode) =>
        if Granted(api, s, user, h, mode) && api.hook(s, user, h.at).1.None? then
          d.reply == ROpen(api.qid(d.nodes, user, h.at)) && d.user == u.(handles := u.handles[id := ApiHandle(mode, h.at)])
        else
          && d.user == u
          && d.reply == RError(if !Unopened(h) then AlreadyOpen
                               else if !Granted(api, s, user, h, mode) then NoPerm
                               else api.hook(s, user, h.at).1.value)
      case Create(id, name, mode) =>
        if api.isDir(s, h.at.node) && api.canOpen(s, user, h.at, h.at.node, 1) && api.create(s, user, h.at, name).1.Made? then
          var child := api.create(s, user, h.at, name).1.at;
          d.reply == RCreate(api.qid(d.nodes, user, child)) && d.user == u.(handles := u.handles[id := ApiHandle(mode, child)])
        else
          && d.user == u
          && d.reply == RError(if !api.isDir(s, h.at.node) then NotDir
                               else if !api.canOpen(s, user, h.at, h.at.node, 1) then NoPerm
                               else if api.create(s, user, h.at, name).1.NotMade? then api.create(s, user, h.at, name).1.error
                               else CannotCreate)
      case Read(_, offset, count) =>
        d.user == u && d.reply == if Unopened(h) then RError(MustOpenFirst) else api.read(s, user, h.at, offset, count).1
      case Write(_, offset, data) =>
        d.user == u && d.reply == if Unopened(h) then RError(MustOpenFirst)
                                  else if api.isDir(s, h.at.node) then RError(NotFile)
                                  else api.write(s, user, h.at, offset, data).1
      case Clunk(id) =>
        && d.user == u.(handles := u.handles - {id})
        && var err := api.remove(api.clunk(s, user, h.at), user, h.at).1;
           d.reply == if h.mode & 0x40 != 0 && err.Some? then RError(err.value) else RClunk
      case Remove(id) => d.user == u.(handles := u.handles - {id}) && d.reply == RError(NoPerm)
      case _ => true
  {
  }

  /** An attach gives a handle at the root, a walk one where it has led or the
      handle it was made on, neither open. */
  lemma HandlesStand(api: Api, s: Memory, user: nat, u: User, id: nat, newid: nat, names: seq<Name>)
    ensures
      var d := Do(api, s, user, u, Attach(id));
      d.nodes == s &&
      if id == XHID_UNINITIALIZED then
        && d.reply == RAttach(api.qid(s, user, Place(0, 0, 0)))
        && d.user == User(u.hidserial + 1, u.handles[u.hidserial := ApiHandle(0x80, Place(0, 0, 0))])
      else d.reply == RError(FidUsed) && d.user == u
    ensures
      var d := Do(api, s, user, u, Walk(id, newid, names));
      d.nodes == s &&
      if |names| <= 16 && Tracked(u, id) && !(id != newid && Tracked(u, newid)) then
        var (end, qids) := WalkFrom(api, s, user, u.handles[id].at, names);
        && d.reply == RWalk(qids)
        && d.user == if id == newid then u.(handles := u.handles[id := ApiHandle(0x80, end)])
                     else User(u.hidserial + 1, u.handles[u.hidserial := ApiHandle(0x80, end)])
      else
        && d.user == u
        && d.reply == RError(if |names| > 16 then WalkTooFar else if !Tracked(u, id) then XhndInvalid else FidUsed)
  {
  }
}
