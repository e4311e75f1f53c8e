/** When users of an API filesystem cannot notice each other: which requests
    leave the nodes as they are, and what follows for whole runs. */
module XApiQuiet {
  import opened X9PProtocol
  import opened XApiFileSystemModel
  import opened XApiRuns

  predicate AtRoot(h: ApiHandle) { h.at.node == 0 && h.at.parent == 0 }

  /** No node is asked to do anything, whatever the nodes are: the request is
      an attach or a walk, or the handle table or the open in force refuses
      it. */
  predicate Harmless(u: User, op: Op) {
    Refusal(ShapeOf(u), op).Some? ||
    match op
    case Attach(_) => true
    case Walk(_, _, _) => true
    case Open(id, mode) => !NotOpen(u.handles[id]) || (AtRoot(u.handles[id]) && mode & OPEN_CLOSE != 0)
    case Read(id, _, _) => NotOpen(u.handles[id])
    case Write(id, _, _) => NotOpen(u.handles[id])
    case Remove(id) => AtRoot(u.handles[id])
    case _ => false
  }

  /** With these nodes nothing is done: the request is harmless, is refused for
      permission or for the kind of node, or is a clunk or remove without
      effect. */
  predicate Sparing(api: Api, s: Memory, user: nat, u: User, op: Op) {
    Harmless(u, op) ||
    (!op.Attach? && !op.Walk? &&
     var h := u.handles[op.id];
     match op
     case Open(_, mode) => !api.canOpen(s, user, h.at, h.at.node, mode)
     case Create(_, _, _) => !api.isDir(s, h.at.node) || !api.canOpen(s, user, h.at, h.at.node, OPEN_WRITE)
     case Write(_, _, _) => api.isDir(s, h.at.node)
     case Clunk(_) =>
       api.clunk(s, user, h.at) == s && (h.mode & OPEN_CLOSE != 0 ==> api.remove(s, user, h.at).0 == s)
     case Remove(_) => !api.canOpen(s, user, h.at, h.at.parent, OPEN_WRITE) || api.remove(s, user, h.at).0 == s
     case _ => false)
  }

  lemma SparingLeavesNodes(api: Api, s: Memory, user: nat, u: User, op: Op)
    requires Sparing(api, s, user, u, op)
    ensures Do(api, s, user, u, op).nodes == s
  {
  }

  // ----------------------------------------------------------- one request

  /** Nodes that remember any call that acts on them, permit everything, and
      show it in the version of their qids. */
  function Meddler(dirs: bool): Api {
    Api(
      (s: Memory, n: nat) => dirs,
      (s: Memory, user: nat, at: Place, name: Name) => None,
      (s: Memory, user: nat, at: Place) => Qid(dirs, |s|, 0),
      (s: Memory, user: nat, at: Place, n: nat, mode: OpenMode) => true,
      (s: Memory, user: nat, at: Place) => ([1], None),
      (s: Memory, user: nat, at: Place, n: nat, mode: OpenMode) => [1],
      (s: Memory, user: nat, at: Place, name: Name) => ([1], MadeNothing),
      (s: Memory, user: nat, at: Place, offset: nat, count: nat) => ([1], RRead([])),
      (s: Memory, user: nat, at: Place, offset: nat, data: seq<byte>) => ([1], RWrite(|data|)),
      (s: Memory, user: nat, at: Place) => [1],
      (s: Memory, user: nat, at: Place) => ([1], None))
  }

  lemma HarmDone(user: nat, u: User, op: Op)
    requires !Harmless(u, op)
    ensures Do(Meddler(!op.Write?), [], user, u, op).nodes == [1]
  {
  }

  /** What user b is answered to a request made when the nodes are so. */
  function Met(api: Api, s: Memory, b: nat, v: User, next: Op): (nat, Reply) {
    var d := Do(api, s, b, v, next);
    (d.id, d.reply)
  }

  /** A user's request can go unnoticed by everybody else on all nodes, in
      every state they can be in, if and only if it is harmless. */
  lemma NoticedIfHarmful(user: nat, u: User, op: Op)
    ensures
      (forall api: Api, s: Memory, b: nat, v: User, next: Op | b != user ::
         Met(api, Do(api, s, user, u, op).nodes, b, v, next) == Met(api, s, b, v, next))
      <==> Harmless(u, op)
  {
    if Harmless(u, op) {
      forall api: Api, s: Memory, b: nat, v: User, next: Op | b != user
        ensures Met(api, Do(api, s, user, u, op).nodes, b, v, next) == Met(api, s, b, v, next)
      {
        SparingLeavesNodes(api, s, user, u, op);
      }
    } else {
      var api, v, next := Meddler(!op.Write?), User(0, map[]), Attach(XHID_UNINITIALIZED);
      HarmDone(user, u, op);
      assert Met(api, [1], user + 1, v, next).1 == RAttach(Qid(!op.Write?, 1, 0));
      assert Met(api, [], user + 1, v, next).1 == RAttach(Qid(!op.Write?, 0, 0));
      assert Met(api, Do(api, [], user, u, op).nodes, user + 1, v, next) != Met(api, [], user + 1, v, next);
    }
  }

  // ------------------------------------------------------------------- runs

  /** Nothing that users other than b do changes the nodes. */
  predicate Quiet(api: Api, fs: Fs, es: seq<Event>, b: nat) {
    forall k | 0 <= k < |es| && es[k].user != b ::
      Reached(api, fs, es[..k + 1]).nodes == Reached(api, fs, es[..k]).nodes
  }

  /** Each request of the others is sparing in the state it finds. */
  predicate SparingOthers(api: Api, fs: Fs, es: seq<Event>, b: nat) {
    forall k | 0 <= k < |es| && es[k].user != b && es[k].Asked? ::
      var now := Reached(api, fs, es[..k]);
      Sparing(api, now.nodes, es[k].user, Of(now.users, es[k].user), es[k].op)
  }

  lemma QuietBefore(api: Api, fs: Fs, es: seq<Event>, b: nat)
    requires es != [] && Quiet(api, fs, es, b)
    ensures Quiet(api, fs, es[..|es| - 1], b)
    ensures es[|es| - 1].user != b ==> Reached(api, fs, es).nodes == Reached(api, fs, es[..|es| - 1]).nodes
  {
    hide Reached;
    var n := |es| - 1;
    forall k | 0 <= k < n && es[..n][k].user != b
      ensures Reached(api, fs, es[..n][..k + 1]).nodes == Reached(api, fs, es[..n][..k]).nodes
    {
      assert es[..n][..k + 1] == es[..k + 1] && es[..n][..k] == es[..k] && es[..n][k] == es[k];
    }
    assert es[..n + 1] == es;
  }

  /** Where the others leave the nodes alone b is answered, and the nodes fare,
      as if they had never asked for anything. */
  lemma {:induction false} ApartWhenQuiet(api: Api, fs: Fs, es: seq<Event>, b: nat)
    requires Quiet(api, fs, es, b)
    ensures AnswersTo(api, fs, es, b) == AnswersTo(api, fs, Own(es, b), b)
    ensures
      var all, own := Reached(api, fs, es), Reached(api, fs, Own(es, b));
      all.nodes == own.nodes && Of(all.users, b) == Of(own.users, b)
  {
    hide Quiet, Do;
    if es != [] {
      QuietBefore(api, fs, es, b);
      ApartWhenQuiet(api, fs, es[..|es| - 1], b);
      OwnLast(es, b);
    }
  }

  /** So it is whenever every request of the others is an attach or a walk, is
      refused, by the handle table, for the open in force or for permission, or
      is a clunk or remove without effect. */
  lemma ApartWhenSparing(api: Api, fs: Fs, es: seq<Event>, b: nat)
    requires SparingOthers(api, fs, es, b)
    ensures AnswersTo(api, fs, es, b) == AnswersTo(api, fs, Own(es, b), b)
    ensures
      var all, own := Reached(api, fs, es), Reached(api, fs, Own(es, b));
      all.nodes == own.nodes && Of(all.users, b) == Of(own.users, b)
  {
    hide Sparing, Do;
    forall k | 0 <= k < |es| && es[k].user != b
      ensures Reached(api, fs, es[..k + 1]).nodes == Reached(api, fs, es[..k]).nodes
    {
      var now := Reached(api, fs, es[..k]);
      assert es[..k + 1][..k] == es[..k];
      if es[k].Asked? {
        SparingLeavesNodes(api, now.nodes, es[k].user, Of(now.users, es[k].user), es[k].op);
      }
    }
    ApartWhenQuiet(api, fs, es, b);
  }
}
