/** Runs of requests by all users of an API filesystem: what a handle may be
    used for, and what one user can learn of the others. The nodes are shared
    and change under requests, so users do notice each other through them; the
    handle tables keep them apart in everything else. */
module XApiRuns {
  import opened X9PProtocol
  import opened XApiFileSystemModel

  function Reached(api: Api, fs: Fs, es: seq<Event>): Fs {
    if es == [] then fs else After(api, Reached(api, fs, es[..|es| - 1]), es[|es| - 1])
  }

  /** What a user's request does to the state it finds. */
  function Outcome(api: Api, fs: Fs, e: Event): Answer
    requires e.Asked?
  {
    Do(api, fs.nodes, e.user, Of(fs.users, e.user), e.op)
  }

  /** The events of user b alone. */
  function Own(es: seq<Event>, b: nat): seq<Event> {
    if es == [] then []
    else Own(es[..|es| - 1], b) + (if es[|es| - 1].user == b then [es[|es| - 1]] else [])
  }

  lemma OwnLast(es: seq<Event>, b: nat)
    requires es != []
    ensures
      var init, e, own := es[..|es| - 1], es[|es| - 1], Own(es, b);
      if e.user == b then own != [] && own[..|own| - 1] == Own(init, b) && own[|own| - 1] == e else own == Own(init, b)
  {
  }

  predicate RequestOf(e: Event, b: nat) {
    e.Asked? && e.user == b
  }

  // ------------------------------------------------------------------ walks

  /** A walk of a ++ b is a walk of a and then, only if all of a resolved, a
      walk of b from where it led. */
  lemma {:induction false} WalkInTwo(api: Api, s: Memory, user: nat, at: Place, a: seq<Name>, b: seq<Name>)
    ensures
      var (mid, first) := WalkFrom(api, s, user, at, a);
      var (end, second) := WalkFrom(api, s, user, mid, b);
      WalkFrom(api, s, user, at, a + b) == if |first| == |a| then (end, first + second) else (mid, first)
    decreases |a|
  {
    if a == [] {
      assert a + b == b && [] + WalkFrom(api, s, user, at, b).1 == WalkFrom(api, s, user, at, b).1;
    } else {
      assert (a + b)[0] == a[0] && (a + b)[1..] == a[1..] + b;
      var next := Follow(api, s, user, at, a[0]);
      if next.Some? {
        WalkInTwo(api, s, user, next.value, a[1..], b);
        var q, first := [api.qid(s, user, next.value)], WalkFrom(api, s, user, next.value, a[1..]).1;
        var second := WalkFrom(api, s, user, WalkFrom(api, s, user, next.value, a[1..]).0, b).1;
        assert q + (first + second) == (q + first) + second;
      }
    }
  }

  /** A walk is answered with an error if and only if it has too many names,
      comes through no known handle or goes to one already known; never for a
      name that leads nowhere. If the first does not, the handle walked to
      stands where the other does, and is not open. */
  lemma UnresolvableWalk(api: Api, s: Memory, user: nat, u: User, id: nat, newid: nat, names: seq<Name>)
    ensures
      var d := Do(api, s, user, u, Walk(id, newid, names));
      && d.nodes == s
      && (d.reply.RError? <==> |names| > TWALK_MAXELEM || !Tracked(u, id) || (id != newid && Tracked(u, newid)))
      && (!d.reply.RError? && names != [] && Follow(api, s, user, u.handles[id].at, names[0]).None? ==>
            && d.reply == RWalk([])
            && d.id in d.user.handles && d.user.handles[d.id] == ApiHandle(OPEN_EX_INVALID, u.handles[id].at))
  {
  }

  // ---------------------------------------------------------------- serials

  ghost predicate AllSerialsAbove(us: map<nat, User>) {
    forall user <- us :: SerialAbove(us[user])
  }

  lemma StepSerials(api: Api, s: Memory, user: nat, u: User, op: Op)
    requires SerialAbove(u)
    ensures SerialAbove(Do(api, s, user, u, op).user)
  {
    DoShape(api, s, user, u, op);
    hide Do;
    var sh := ShapeOf(u);
    assert forall id <- Do(api, s, user, u, op).user.handles :: id in Reshape(sh, op).ids;
  }

  /** In every run every id of every user stays below that user's serial, so a
      handle tagged next never takes an id in use. */
  lemma {:induction false} SerialsStayAbove(api: Api, fs: Fs, es: seq<Event>)
    requires AllSerialsAbove(fs.users)
    ensures AllSerialsAbove(Reached(api, fs, es).users)
    ensures forall user :: var u := Of(Reached(api, fs, es).users, user); u.hidserial !in u.handles
  {
    if es != [] {
      var init, e := es[..|es| - 1], es[|es| - 1];
      SerialsStayAbove(api, fs, init);
      if e.Asked? {
        var now := Reached(api, fs, init);
        StepSerials(api, now.nodes, e.user, Of(now.users, e.user), e.op);
      }
    }
  }

  // ------------------------------------------------------------------ opens

  predicate Places(op: Op, reply: Reply) {
    (op.Attach? && reply.RAttach?) || (op.Walk? && reply.RWalk?)
  }

  predicate Opens(op: Op, reply: Reply) {
    (op.Open? && reply.ROpen?) || (op.Create? && reply.RCreate?)
  }

  /** The mode of the user's last successful open or creation through handle
      id, unless an attach or a walk gave the handle its place later. */
  function OpenedBy(api: Api, fs: Fs, es: seq<Event>, b: nat, id: nat): Option<OpenMode> {
    if es == [] then None
    else
      var init, e := es[..|es| - 1], es[|es| - 1];
      if e.user != b then OpenedBy(api, fs, init, b, id)
      else if e.Disconnected? then None
      else
        var d := Outcome(api, Reached(api, fs, init), e);
        if Places(e.op, d.reply) && d.id == id then None
        else if Opens(e.op, d.reply) && e.op.id == id then Some(e.op.mode)
        else OpenedBy(api, fs, init, b, id)
  }

  function Stored(mode: Option<OpenMode>): OpenMode {
    if mode.Some? then mode.value else OPEN_EX_INVALID
  }

  lemma {:induction false} ModeInForce(api: Api, fs: Fs, es: seq<Event>, b: nat, id: nat)
    requires Of(fs.users, b).handles == map[]
    ensures
      var u := Of(Reached(api, fs, es).users, b);
      id in u.handles ==> u.handles[id].mode == Stored(OpenedBy(api, fs, es, b, id))
  {
    if es != [] {
      var init, e := es[..|es| - 1], es[|es| - 1];
      ModeInForce(api, fs, init, b, id);
      if e.user == b && e.Asked? {
        var now := Reached(api, fs, init);
        StepMode(api, now.nodes, b, Of(now.users, b), e.op, id, Stored(OpenedBy(api, fs, init, b, id)));
      }
    }
  }

  /** The mode of handle id after a request answered so, given the one before. */
  predicate ModeAfter(d: Answer, op: Op, id: nat, before: OpenMode) {
    id in d.user.handles ==>
      d.user.handles[id].mode ==
      if Places(op, d.reply) && d.id == id then OPEN_EX_INVALID
      else if Opens(op, d.reply) && op.id == id then op.mode
      else before
  }

  lemma AttachMode(api: Api, s: Memory, user: nat, u: User, op: Op, id: nat, before: OpenMode)
    requires op.Attach?
    requires id in u.handles ==> u.handles[id].mode == before
    ensures ModeAfter(Do(api, s, user, u, op), op, id, before)
  {
  }

  lemma WalkMode(api: Api, s: Memory, user: nat, u: User, op: Op, id: nat, before: OpenMode)
    requires op.Walk?
    requires id in u.handles ==> u.handles[id].mode == before
    ensures ModeAfter(Do(api, s, user, u, op), op, id, before)
  {
  }

  lemma OpeningMode(api: Api, s: Memory, user: nat, u: User, op: Op, id: nat, before: OpenMode)
    requires op.Open?
    requires id in u.handles ==> u.handles[id].mode == before
    ensures ModeAfter(Do(api, s, user, u, op), op, id, before)
  {
  }

  lemma CreatingMode(api: Api, s: Memory, user: nat, u: User, op: Op, id: nat, before: OpenMode)
    requires op.Create?
    requires id in u.handles ==> u.handles[id].mode == before
    ensures ModeAfter(Do(api, s, user, u, op), op, id, before)
  {
  }

  lemma TransferMode(api: Api, s: Memory, user: nat, u: User, op: Op, id: nat, before: OpenMode)
    requires op.Read? || op.Write?
    requires id in u.handles ==> u.handles[id].mode == before
    ensures ModeAfter(Do(api, s, user, u, op), op, id, before)
  {
  }

  lemma DropMode(api: Api, s: Memory, user: nat, u: User, op: Op, id: nat, before: OpenMode)
    requires op.Clunk? || op.Remove?
    requires id in u.handles ==> u.handles[id].mode == before
    ensures ModeAfter(Do(api, s, user, u, op), op, id, before)
  {
  }

  lemma StepMode(api: Api, s: Memory, user: nat, u: User, op: Op, id: nat, before: OpenMode)
    requires id in u.handles ==> u.handles[id].mode == before
    ensures ModeAfter(Do(api, s, user, u, op), op, id, before)
  {
    hide Do, ModeAfter;
    match op
    case Attach(_) => AttachMode(api, s, user, u, op, id, before);
    case Walk(_, _, _) => WalkMode(api, s, user, u, op, id, before);
    case Open(_, _) => OpeningMode(api, s, user, u, op, id, before);
    case Create(_, _, _) => CreatingMode(api, s, user, u, op, id, before);
    case Read(_, _, _) => TransferMode(api, s, user, u, op, id, before);
    case Write(_, _, _) => TransferMode(api, s, user, u, op, id, before);
    case Clunk(_) => DropMode(api, s, user, u, op, id, before);
    case Remove(_) => DropMode(api, s, user, u, op, id, before);
  }

  predicate InForce(mode: Option<OpenMode>) {
    mode.Some? && mode.value & OPEN_EX_INVALID == 0
  }

  /** Over every run from a user's first request on, while an open is in force
      on a handle a further open is refused as such and changes nothing, and
      reads reach the node; without one a read or a write is refused and
      changes nothing, and an open is decided by the node. Only an attach or a
      walk onto the handle takes an open out of force. */
  lemma OpenOnce(api: Api, fs: Fs, es: seq<Event>, b: nat, id: nat, mode: OpenMode, offset: nat, count: nat,
                    data: seq<byte>)
    requires Of(fs.users, b).handles == map[]
    requires Tracked(Of(Reached(api, fs, es).users, b), id)
    ensures
      var now := Reached(api, fs, es);
      var u := Of(now.users, b);
      var at := u.handles[id].at;
      var again := Do(api, now.nodes, b, u, Open(id, mode));
      var read, written := Do(api, now.nodes, b, u, Read(id, offset, count)), Do(api, now.nodes, b, u, Write(id, offset, data));
      if InForce(OpenedBy(api, fs, es, b, id)) then
        && again == Answer(now.nodes, u, id, RError(AlreadyOpen))
        && read == Answer(api.read(now.nodes, b, at, offset, count).0, u, id, api.read(now.nodes, b, at, offset, count).1)
      else
        && read == written == Answer(now.nodes, u, id, RError(MustOpenFirst))
        && (again.reply.ROpen? ==> again.user.handles[id].mode == mode)
        && (!again.reply.ROpen? ==> again.user == u)
  {
    ModeInForce(api, fs, es, b, id);
  }

  // ---------------------------------------------------- users apart: tables

  /** What the handle tables alone decide. */
  datatype Shape = Shape(hidserial: nat, ids: set<nat>)

  function ShapeOf(u: User): Shape { Shape(u.hidserial, u.handles.Keys) }

  predicate Has(sh: Shape, id: nat) { id != XHID_UNINITIALIZED && id in sh.ids }

  /** The refusals that no node has a say in. */
  function Refusal(sh: Shape, op: Op): Option<Error> {
    match op
    case Attach(id) => if id != XHID_UNINITIALIZED then Some(FidUsed) else None
    case Walk(id, newid, names) =>
      if |names| > TWALK_MAXELEM then Some(WalkTooFar)
      else if !Has(sh, id) then Some(XhndInvalid)
      else if id != newid && Has(sh, newid) then Some(FidUsed)
      else None
    case _ => if Has(sh, op.id) then None else Some(XhndInvalid)
  }

  function IdAfter(sh: Shape, op: Op): nat {
    if Refusal(sh, op).Some? then (if op.Walk? then op.newid else op.id)
    else if op.Attach? || (op.Walk? && op.id != op.newid) then sh.hidserial
    else if op.Clunk? then XHID_UNINITIALIZED
    else op.id
  }

  function Reshape(sh: Shape, op: Op): Shape {
    if Refusal(sh, op).Some? then sh
    else if op.Attach? || (op.Walk? && op.id != op.newid) then Shape(sh.hidserial + 1, sh.ids + {sh.hidserial})
    else if op.Clunk? || op.Remove? then Shape(sh.hidserial, sh.ids - {op.id})
    else sh
  }

  lemma DoShape(api: Api, s: Memory, user: nat, u: User, op: Op)
    ensures
      var d, sh := Do(api, s, user, u, op), ShapeOf(u);
      && ShapeOf(d.user) == Reshape(sh, op) && d.id == IdAfter(sh, op)
      && (Refusal(sh, op).Some? ==> d == Answer(s, u, d.id, RError(Refusal(sh, op).value)))
  {
    var d := Do(api, s, user, u, op);
    assert ShapeOf(d.user).ids == Reshape(ShapeOf(u), op).ids;
  }

  /** The id and the refusal by the tables, if any, of each request of b. */
  function IdsGiven(api: Api, fs: Fs, es: seq<Event>, b: nat): seq<(nat, Option<Error>)> {
    if es == [] then []
    else
      var init, e := es[..|es| - 1], es[|es| - 1];
      var now := Reached(api, fs, init);
      IdsGiven(api, fs, init, b)
      + if RequestOf(e, b) then [(Outcome(api, now, e).id, Refusal(ShapeOf(Of(now.users, b)), e.op))] else []
  }

  /** Whatever the nodes are and however they change: the ids a user is given,
      and which of the user's requests are refused for the handles they name,
      are those the user would have met alone, on any other nodes. */
  lemma {:induction false} IdsAreApart(api: Api, fs: Fs, other: Api, gs: Fs, es: seq<Event>, b: nat)
    requires ShapeOf(Of(fs.users, b)) == ShapeOf(Of(gs.users, b))
    ensures IdsGiven(api, fs, es, b) == IdsGiven(other, gs, Own(es, b), b)
    ensures ShapeOf(Of(Reached(api, fs, es).users, b)) == ShapeOf(Of(Reached(other, gs, Own(es, b)).users, b))
  {
    if es != [] {
      var init, e := es[..|es| - 1], es[|es| - 1];
      IdsAreApart(api, fs, other, gs, init, b);
      OwnLast(es, b);
      if e.user == b {
        if e.Asked? {
          var f, g := Reached(api, fs, init), Reached(other, gs, Own(init, b));
          DoShape(api, f.nodes, b, Of(f.users, b), e.op);
          DoShape(other, g.nodes, b, Of(g.users, b), e.op);
        }
      }
    }
  }

  // ----------------------------------------------------- users apart: nodes

  datatype Said =
    | SaidYes(yes: bool) | SaidPlace(place: Option<Place>) | SaidQid(qid: Qid)
    | SaidError(error: Option<Error>) | SaidMade(made: Made) | SaidReply(reply: Reply)

  function WalkHeard(api: Api, s: Memory, user: nat, at: Place, names: seq<Name>): seq<Said>
    decreases |names|
  {
    if names == [] then []
    else
      var next := Follow(api, s, user, at, names[0]);
      [SaidPlace(next)] +
      if next.None? then [] else [SaidQid(api.qid(s, user, next.value))] + WalkHeard(api, s, user, next.value, names[1..])
  }

  /** What the nodes say in the course of one request, in order. */
  function Heard(api: Api, s: Memory, user: nat, u: User, op: Op): seq<Said> {
    if Refusal(ShapeOf(u), op).Some? then []
    else if op.Attach? then [SaidQid(api.qid(s, user, ROOT))]
    else
      var h := u.handles[op.id];
      match op
      case Walk(_, _, names) => WalkHeard(api, s, user, h.at, names)
      case Open(_, mode) => OpenHeard(api, s, user, h, mode)
      case Create(_, name, mode) => CreateHeard(api, s, user, h, name, mode)
      case Read(_, offset, count) => if NotOpen(h) then [] else [SaidReply(api.read(s, user, h.at, offset, count).1)]
      case Write(_, offset, data) =>
        if NotOpen(h) then []
        else if api.isDir(s, h.at.node) then [SaidYes(true)]
        else [SaidYes(false), SaidReply(api.write(s, user, h.at, offset, data).1)]
      case Clunk(_) =>
        if h.mode & OPEN_CLOSE == 0 then [] else [SaidError(api.remove(api.clunk(s, user, h.at), user, h.at).1)]
      case _ => []
  }

  function OpenHeard(api: Api, s: Memory, user: nat, h: ApiHandle, mode: OpenMode): seq<Said> {
    if !NotOpen(h) || (h.at.node == 0 && h.at.parent == 0 && mode & OPEN_CLOSE != 0) then []
    else if !api.canOpen(s, user, h.at, h.at.node, mode) then [SaidYes(false)]
    else
      var (hooked, err) := api.hook(s, user, h.at);
      if err.Some? then [SaidYes(true), SaidError(err)]
      else [SaidYes(true), SaidError(None), SaidQid(api.qid(api.open(hooked, user, h.at, h.at.node, mode), user, h.at))]
  }

  function CreateHeard(api: Api, s: Memory, user: nat, h: ApiHandle, name: Name, mode: OpenMode): seq<Said> {
    if !api.isDir(s, h.at.node) then [SaidYes(false)]
    else if !api.canOpen(s, user, h.at, h.at.node, OPEN_WRITE) then [SaidYes(true), SaidYes(false)]
    else
      var (made, out) := api.create(s, user, h.at, name);
      if !out.Made? then [SaidYes(true), SaidYes(true), SaidMade(out)]
      else
        [SaidYes(true), SaidYes(true), SaidMade(out),
         SaidQid(api.qid(api.open(made, user, out.at, h.at.node, mode), user, out.at))]
  }

  lemma {:induction false} SameWalk(api: Api, s: Memory, other: Api, t: Memory, user: nat, at: Place, names: seq<Name>)
    requires WalkHeard(api, s, user, at, names) == WalkHeard(other, t, user, at, names)
    ensures WalkFrom(api, s, user, at, names) == WalkFrom(other, t, user, at, names)
    decreases |names|
  {
    if names != [] {
      var next, next' := Follow(api, s, user, at, names[0]), Follow(other, t, user, at, names[0]);
      assert WalkHeard(api, s, user, at, names)[0] == SaidPlace(next);
      assert WalkHeard(other, t, user, at, names)[0] == SaidPlace(next');
      if next.Some? {
        hide WalkHeard;
        var rest, rest' := WalkHeard(api, s, user, next.value, names[1..]), WalkHeard(other, t, user, next.value, names[1..]);
        StepHeard(api, s, user, at, names);
        StepHeard(other, t, user, at, names);
        SameTwo(SaidPlace(next), SaidQid(api.qid(s, user, next.value)), rest,
                SaidPlace(next'), SaidQid(other.qid(t, user, next.value)), rest');
        SameWalk(api, s, other, t, user, next.value, names[1..]);
      }
    }
  }

  lemma StepHeard(api: Api, s: Memory, user: nat, at: Place, names: seq<Name>)
    requires names != [] && Follow(api, s, user, at, names[0]).Some?
    ensures
      var next := Follow(api, s, user, at, names[0]);
      WalkHeard(api, s, user, at, names) ==
      [SaidPlace(next), SaidQid(api.qid(s, user, next.value))] + WalkHeard(api, s, user, next.value, names[1..])
  {
  }

  lemma SameTwo(a: Said, b: Said, rest: seq<Said>, a': Said, b': Said, rest': seq<Said>)
    requires [a, b] + rest == [a', b'] + rest'
    ensures a == a' && b == b' && rest == rest'
  {
    assert ([a, b] + rest)[0] == a && ([a, b] + rest)[1] == b && ([a, b] + rest)[2..] == rest;
    assert ([a', b'] + rest')[0] == a' && ([a', b'] + rest')[1] == b' && ([a', b'] + rest')[2..] == rest';
  }

  lemma SameOpen(api: Api, s: Memory, other: Api, t: Memory, user: nat, u: User, op: Op)
    requires op.Open? && Refusal(ShapeOf(u), op).None?
    requires Heard(api, s, user, u, op) == Heard(other, t, user, u, op)
    ensures
      var d, e := Do(api, s, user, u, op), Do(other, t, user, u, op);
      d.user == e.user && d.id == e.id && d.reply == e.reply
  {
    SameThree(Heard(api, s, user, u, op), Heard(other, t, user, u, op));
  }

  lemma SameCreate(api: Api, s: Memory, other: Api, t: Memory, user: nat, u: User, op: Op)
    requires op.Create? && Refusal(ShapeOf(u), op).None?
    requires Heard(api, s, user, u, op) == Heard(other, t, user, u, op)
    ensures
      var d, e := Do(api, s, user, u, op), Do(other, t, user, u, op);
      d.user == e.user && d.id == e.id && d.reply == e.reply
  {
    SameThree(Heard(api, s, user, u, op), Heard(other, t, user, u, op));
  }

  /** The answer to a request is a matter of the user's own table and of what
      the nodes say while it is handled. */
  lemma {:induction false} SameAnswer(api: Api, s: Memory, other: Api, t: Memory, user: nat, u: User, op: Op)
    requires Heard(api, s, user, u, op) == Heard(other, t, user, u, op)
    ensures
      var d, e := Do(api, s, user, u, op), Do(other, t, user, u, op);
      d.user == e.user && d.id == e.id && d.reply == e.reply
  {
    var said, heard := Heard(api, s, user, u, op), Heard(other, t, user, u, op);
    if Refusal(ShapeOf(u), op).None? {
      match op
      case Attach(_) => assert said[0] == heard[0];
      case Walk(id, _, names) => SameWalk(api, s, other, t, user, u.handles[id].at, names);
      case Open(_, _) => SameOpen(api, s, other, t, user, u, op);
      case Create(_, _, _) => SameCreate(api, s, other, t, user, u, op);
      case Read(_, _, _) => SameThree(said, heard);
      case Write(_, _, _) => SameThree(said, heard);
      case Clunk(_) => SameThree(said, heard);
      case Remove(_) =>
    }
  }

  lemma SameThree(said: seq<Said>, heard: seq<Said>)
    requires said == heard
    ensures |said| == |heard|
    ensures forall i | 0 <= i < |said| :: said[i] == heard[i]
    ensures |said| > 0 ==> said[0] == heard[0]
    ensures |said| > 1 ==> said[1] == heard[1]
    ensures |said| > 2 ==> said[2] == heard[2]
    ensures |said| > 3 ==> said[3] == heard[3]
  {
  }

  /** What the nodes say in the course of each request of b. */
  function HeardBy(api: Api, fs: Fs, es: seq<Event>, b: nat): seq<seq<Said>> {
    if es == [] then []
    else
      var init, e := es[..|es| - 1], es[|es| - 1];
      var now := Reached(api, fs, init);
      HeardBy(api, fs, init, b)
      + if RequestOf(e, b) then [Heard(api, now.nodes, b, Of(now.users, b), e.op)] else []
  }

  /** The ids and replies user b gets over a run of everybody's requests. */
  function AnswersTo(api: Api, fs: Fs, es: seq<Event>, b: nat): seq<(nat, Reply)> {
    if es == [] then []
    else
      var init, e := es[..|es| - 1], es[|es| - 1];
      var now := Reached(api, fs, init);
      AnswersTo(api, fs, init, b)
      + if RequestOf(e, b) then [(Outcome(api, now, e).id, Outcome(api, now, e).reply)] else []
  }

  lemma SnocEqual<T>(a: seq<T>, x: T, b: seq<T>, y: T)
    requires a + [x] == b + [y]
    ensures a == b && x == y
  {
    assert (a + [x])[..|a|] == a && (b + [y])[..|b|] == b;
    assert (a + [x])[|a|] == x && (b + [y])[|b|] == y;
  }

  /** Users notice each other through the nodes only: whenever the nodes say
      the same in the course of b's own requests, b is answered as if the
      others had never asked for anything. */
  lemma {:induction false} UsersAreApart(api: Api, fs: Fs, gs: Fs, es: seq<Event>, b: nat)
    requires Of(fs.users, b) == Of(gs.users, b)
    requires HeardBy(api, fs, es, b) == HeardBy(api, gs, Own(es, b), b)
    ensures AnswersTo(api, fs, es, b) == AnswersTo(api, gs, Own(es, b), b)
    ensures Of(Reached(api, fs, es).users, b) == Of(Reached(api, gs, Own(es, b)).users, b)
  {
    if es != [] {
      var init, e := es[..|es| - 1], es[|es| - 1];
      var mine := Own(init, b);
      OwnLast(es, b);
      if e.user != b {
        assert HeardBy(api, fs, es, b) == HeardBy(api, fs, init, b);
        UsersAreApart(api, fs, gs, init, b);
        assert AnswersTo(api, fs, es, b) == AnswersTo(api, fs, init, b);
      } else {
        var f, g := Reached(api, fs, init), Reached(api, gs, mine);
        if e.Asked? {
          SnocEqual(HeardBy(api, fs, init, b), Heard(api, f.nodes, b, Of(f.users, b), e.op),
                    HeardBy(api, gs, mine, b), Heard(api, g.nodes, b, Of(g.users, b), e.op));
        } else {
          assert HeardBy(api, fs, es, b) == HeardBy(api, fs, init, b);
          assert HeardBy(api, gs, Own(es, b), b) == HeardBy(api, gs, mine, b);
        }
        UsersAreApart(api, fs, gs, init, b);
        if e.Asked? { SameAnswer(api, f.nodes, api, g.nodes, b, Of(f.users, b), e.op); }
      }
    }
  }

  // ------------------------------------------ users notice each other: a case

  /** Nodes that are a root and, while their memory is not empty, one file in
      it. */
  const FILE := Place(1, 0, 1)
  const NAME: Name := [102]

  function OneFile(): Api {
    Api(
      (s: Memory, n: nat) => n == 0,
      (s: Memory, user: nat, at: Place, name: Name) => if s != [] && name == NAME then Some(FILE) else None,
      (s: Memory, user: nat, at: Place) => Qid(at.node == 0, 0, at.path),
      (s: Memory, user: nat, at: Place, n: nat, mode: OpenMode) => true,
      (s: Memory, user: nat, at: Place) => (s, None),
      (s: Memory, user: nat, at: Place, n: nat, mode: OpenMode) => s,
      (s: Memory, user: nat, at: Place, name: Name) => (s, MadeNothing),
      (s: Memory, user: nat, at: Place, offset: nat, count: nat) => (s, RRead([])),
      (s: Memory, user: nat, at: Place, offset: nat, data: seq<byte>) => (s, RWrite(|data|)),
      (s: Memory, user: nat, at: Place) => s,
      (s: Memory, user: nat, at: Place) => ([], None))
  }

  lemma Snoc(api: Api, fs: Fs, es: seq<Event>, e: Event, b: nat)
    ensures
      var now := Reached(api, fs, es);
      && Reached(api, fs, es + [e]) == After(api, now, e)
      && AnswersTo(api, fs, es + [e], b) ==
         AnswersTo(api, fs, es, b)
         + (if RequestOf(e, b) then [(Outcome(api, now, e).id, Outcome(api, now, e).reply)] else [])
      && Own(es + [e], b) == Own(es, b) + (if e.user == b then [e] else [])
  {
    assert (es + [e])[..|es|] == es;
  }

  lemma OneFileWalk(s: Memory, user: nat)
    ensures WalkFrom(OneFile(), s, user, ROOT, [NAME]) == if s != [] then (FILE, [Qid(false, 0, 1)]) else (ROOT, [])
  {
    assert [NAME][1..] == [] && WalkFrom(OneFile(), s, user, FILE, []) == (FILE, []);
    assert [Qid(false, 0, 1)] + [] == [Qid(false, 0, 1)];
  }

  function Removal(): seq<Event> {
    [Asked(1, Attach(XHID_UNINITIALIZED)), Asked(1, Walk(0, XHID_UNINITIALIZED, [NAME])),
     Asked(1, Open(1, OPEN_CLOSE)), Asked(1, Clunk(1))]
  }

  function LookUp(): seq<Event> {
    [Asked(2, Attach(XHID_UNINITIALIZED)), Asked(2, Walk(0, XHID_UNINITIALIZED, [NAME]))]
  }

  /** User 1 walks to the file, opens it to be removed on close and clunks it;
      user 2 then walks to it in vain, and would have found it alone. */
  lemma RemovalIsNoticed()
    ensures
      var api, start := OneFile(), Fs([1], map[]);
      && Own(Removal() + LookUp(), 2) == LookUp()
      && AnswersTo(api, start, Removal() + LookUp(), 2) == [(0, RAttach(Qid(true, 0, 0))), (1, RWalk([]))]
      && AnswersTo(api, start, LookUp(), 2) == [(0, RAttach(Qid(true, 0, 0))), (1, RWalk([Qid(false, 0, 1)]))]
  {
    var start := Fs([1], map[]);
    RemovalReached(start);
    LooksUp(start, Removal());
    LooksUp(start, []);
    assert [] + LookUp() == LookUp();
  }

  /** User 1 with the root and perhaps the file. */
  function One(file: Option<OpenMode>): map<nat, User> {
    var root := map[0 := ApiHandle(OPEN_EX_INVALID, ROOT)];
    map[1 := if file.None? then User(1, root) else User(2, root[1 := ApiHandle(file.value, FILE)])]
  }

  lemma OneAttaches()
    ensures After(OneFile(), Fs([1], map[]), Asked(1, Attach(XHID_UNINITIALIZED))) == Fs([1], One(None))
  {
  }

  lemma OneWalks()
    ensures After(OneFile(), Fs([1], One(None)), Asked(1, Walk(0, XHID_UNINITIALIZED, [NAME]))) ==
            Fs([1], One(Some(OPEN_EX_INVALID)))
  {
    OneFileWalk([1], 1);
    hide WalkFrom;
  }

  lemma OneOpens()
    ensures After(OneFile(), Fs([1], One(Some(OPEN_EX_INVALID))), Asked(1, Open(1, OPEN_CLOSE))) ==
            Fs([1], One(Some(OPEN_CLOSE)))
  {
    var u, v := One(Some(OPEN_EX_INVALID))[1], One(Some(OPEN_CLOSE))[1];
    assert Do(OneFile(), [1], 1, u, Open(1, OPEN_CLOSE)).user == v by {
      assert u.handles[1 := ApiHandle(OPEN_CLOSE, FILE)] == v.handles;
    }
    assert One(Some(OPEN_EX_INVALID))[1 := v] == One(Some(OPEN_CLOSE));
  }

  lemma OneRemoves()
    ensures
      var end := After(OneFile(), Fs([1], One(Some(OPEN_CLOSE))), Asked(1, Clunk(1)));
      end.nodes == [] && 2 !in end.users
  {
  }

  lemma RemovalReached(start: Fs)
    requires start == Fs([1], map[])
    ensures
      var end := Reached(OneFile(), start, Removal());
      && end.nodes == [] && 2 !in end.users
      && AnswersTo(OneFile(), start, Removal(), 2) == [] && Own(Removal(), 2) == []
  {
    OneAttaches();
    OneWalks();
    OneOpens();
    OneRemoves();
    var api, es := OneFile(), Removal();
    Snoc(api, start, [], es[0], 2);
    Snoc(api, start, [es[0]], es[1], 2);
    Snoc(api, start, [es[0], es[1]], es[2], 2);
    Snoc(api, start, [es[0], es[1], es[2]], es[3], 2);
    hide OneFile, After, One, Outcome;
    assert [] + [es[0]] == [es[0]] && [es[0]] + [es[1]] == [es[0], es[1]];
    assert [es[0], es[1]] + [es[2]] == [es[0], es[1], es[2]] && [es[0], es[1], es[2]] + [es[3]] == es;
  }

  lemma LooksUp(start: Fs, before: seq<Event>)
    requires 2 !in Reached(OneFile(), start, before).users
    requires AnswersTo(OneFile(), start, before, 2) == [] && Own(before, 2) == []
    ensures
      var s := Reached(OneFile(), start, before).nodes;
      AnswersTo(OneFile(), start, before + LookUp(), 2) ==
      [(0, RAttach(Qid(true, 0, 0))), (1, RWalk(if s != [] then [Qid(false, 0, 1)] else []))]
    ensures Own(before + LookUp(), 2) == LookUp()
  {
    var api, es := OneFile(), LookUp();
    Snoc(api, start, before, es[0], 2);
    Snoc(api, start, before + [es[0]], es[1], 2);
    OneFileWalk(Reached(api, start, before).nodes, 2);
    assert before + [es[0]] + [es[1]] == before + es;
  }

  /** A remove is answered with an error always, even where the directory has
      removed the node. */
  lemma RemoveReportsError(api: Api, s: Memory, user: nat, u: User, id: nat)
    ensures Do(api, s, user, u, Remove(id)).reply.RError?
    ensures
      var mine := User(1, map[0 := ApiHandle(OPEN_EX_INVALID, FILE)]);
      var d := Do(OneFile(), [1], user, mine, Remove(0));
      && Follow(OneFile(), [1], user, ROOT, NAME) == Some(FILE) && Follow(OneFile(), d.nodes, user, ROOT, NAME) == None
      && d.reply == RError(NoPerm)
  {
  }
}
