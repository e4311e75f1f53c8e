/** Requests carry the calls they were made for, and answers come back to them:
    what is in the messages of a session, and whose callback is handed which
    reply. */
module ClientCalls {
  import opened X9PProtocol
  import opened ClientProtocol
  import opened Session
  import opened SessionTags

  /** The message says what the call said. */
  predicate Carries(call: Call, b: Body) {
    match call
    case CallVersion(msize, version) => b.TVersion? && b.msize == msize && b.version == version
    case CallAttach(hnd, uname, aname) =>
      b.TAttach? && b.uname == uname && b.aname == aname && (hnd.Some? ==> b.fid == hnd.value)
    case CallWalk(from, to, names) =>
      b.TWalk? && from == Some(b.fid) && b.names == names && (to.Some? ==> b.newfid == to.value)
    case Call(body) => b == body
  }

  // ------------------------------------------------------------------ one call

  /** Bytes of the names of a walk, each with its length. */
  function Packed(names: seq<Name>): nat {
    if names == [] then 0 else Packed(names[..|names| - 1]) + 2 + |names[|names| - 1]|
  }

  lemma {:induction false} PackedConcat(a: seq<Name>, b: seq<Name>)
    ensures Packed(a + b) == Packed(a) + Packed(b)
  {
    if b == [] {
      assert a + b == a;
    } else {
      assert (a + b)[..|a + b| - 1] == a + b[..|b| - 1];
      PackedConcat(a, b[..|b| - 1]);
    }
  }

  lemma {:induction false} PackedIsSize(names: seq<Name>)
    ensures StrsSize(names) == Packed(names)
  {
    if names != [] {
      PackedIsSize(names[1..]);
      var first := [names[0]];
      PackedConcat(first, names[1..]);
      assert first + names[1..] == names && first[..0] == [];
      assert Packed(first) == Packed([]) + 2 + |names[0]|;
    }
  }

  /** What a message takes on the wire. */
  lemma WireSizes(b: Body)
    ensures match b
            case TVersion(_, version) => Size(b) == 4 + 1 + 2 + 4 + 2 + |version|
            case TAttach(_, uname, aname) => Size(b) == 4 + 1 + 2 + 4 + 4 + 2 + |uname| + 2 + |aname|
            case TWalk(_, _, names) => Size(b) == 4 + 1 + 2 + 4 + 4 + 2 + Packed(names)
            case TOpen(_, _) => Size(b) == 4 + 1 + 2 + 4 + 1
            case TCreate(_, name, _, _) => Size(b) == 4 + 1 + 2 + 4 + 2 + |name| + 4 + 1
            case TRead(_, _, _) => Size(b) == 4 + 1 + 2 + 4 + 8 + 4
            case TWrite(_, _, data) => Size(b) == 4 + 1 + 2 + 4 + 8 + 4 + |data|
            case TClunk(_) => Size(b) == 4 + 1 + 2 + 4
            case TRemove(_) => Size(b) == 4 + 1 + 2 + 4
            case TWstat(_, _) => true
  {
    if b.TWalk? { PackedIsSize(b.names); }
  }

  /** Type codes on the wire; a response has the next number. */
  lemma WireTypes(b: Body, r: Reply)
    ensures match b
            case TVersion(_, _) => TypeOf(b) == 100
            case TAttach(_, _, _) => TypeOf(b) == 104
            case TWalk(_, _, _) => TypeOf(b) == 110
            case TOpen(_, _) => TypeOf(b) == 112
            case TCreate(_, _, _, _) => TypeOf(b) == 114
            case TRead(_, _, _) => TypeOf(b) == 116
            case TWrite(_, _, _) => TypeOf(b) == 118
            case TClunk(_) => TypeOf(b) == 120
            case TRemove(_) => TypeOf(b) == 122
            case TWstat(_, _) => TypeOf(b) == 126
    ensures Answers(TypeOf(b), r) <==>
            match r
            case RError(_) => true
            case RVersion(_) => b.TVersion?
            case RAttach(_) => b.TAttach?
            case RWalk(_) => b.TWalk?
            case ROpen(_) => b.TOpen?
            case RCreate(_) => b.TCreate?
            case RRead(_) => b.TRead?
            case RWrite(_) => b.TWrite?
            case RClunk => b.TClunk?
            case RRemove => b.TRemove?
            case RWstat => b.TWstat?
  {
  }

  /** A call that becomes a message is in it, whole; a fid of the client's own
      choosing is one it had not in use. */
  lemma ComposedCarries(c: Client, call: Call)
    requires CanQueue(c, call) && Compose(c, call).Composed?
    ensures Carries(call, Compose(c, call).body)
    ensures match call
            case CallAttach(None, _, _) => Compose(c, call).body.fid !in c.fids
            case CallWalk(_, None, _) => Compose(c, call).body.newfid !in c.fids
            case _ => true
  {
    hide LeastFree;
    FidAvailable(c.fids);
  }

  /** It becomes none if it is too large, walks from a handle that has no fid or
      by more than 16 names, and only then. */
  lemma RejectedIff(c: Client, call: Call)
    requires CanQueue(c, call)
    ensures Compose(c, call).Rejected? <==>
            match call
            case CallVersion(_, version) => 13 + |version| > c.msize
            case CallAttach(_, uname, aname) => 19 + |uname| + |aname| > c.msize
            case CallWalk(from, _, names) => from.None? || |names| > 16 || 17 + Packed(names) > c.msize
            case Call(b) => b.TWrite? && 23 + |b.data| > c.msize
  {
    hide LeastFree;
    if call.CallWalk? { PackedIsSize(call.names); }
  }

  // ------------------------------------------------------------ whole sessions

  /** The calls a step makes, those of callbacks included. */
  function CallsOf(a: Action): seq<Call> {
    match a
    case DoIssue(call) => [call]
    case DoDeliver(calls) => calls
    case _ => []
  }

  /** All calls of a session in the order they were made: the position of a call
      is the number of its callback. */
  function CallLog(acts: seq<Action>): seq<Call> {
    if acts == [] then [] else CallsOf(acts[0]) + CallLog(acts[1..])
  }

  /** The callback of the i-th message on its way to the server. */
  function CallbackUp(s: System, i: nat): nat
    requires i < |s.up| <= |s.sent|
  {
    s.sent[|s.sent| - |s.up| + i]
  }

  /** Every message queued, and every one on its way, carries the call its
      callback was given to, and the entry its tag finds has that callback. */
  ghost predicate Carried(s: System, log: seq<Call>) {
    && |log| == s.next && |s.up| <= |s.sent|
    && (forall q <- s.client.queue :: q.callback < |log| && Carries(log[q.callback], q.msg.body))
    && forall i | 0 <= i < |s.up| ::
         var cb := CallbackUp(s, i);
         && cb < |log| && Carries(log[cb], s.up[i].body)
         && s.up[i].tag in s.client.requests && s.client.requests[s.up[i].tag].callback == Some(cb)
  }

  lemma IssueCarried(s: System, call: Call, log: seq<Call>)
    requires CanIssue(s.client, call) && Carried(s, log)
    ensures Carried(IssueStep(s, call), log + [call])
  {
    hide Carries, Compose, IssueStep, LeastFree;
    IssueShape(s, call);
    var s', more := IssueStep(s, call), log + [call];
    forall i | 0 <= i < |s.up| ensures CallbackUp(s', i) == CallbackUp(s, i) {}
    if Compose(s.client, call).Composed? {
      ComposedCarries(s.client, call);
      IssueQueues(s, call);
      assert more[s.next] == call;
    } else {
      IssueRejects(s, call);
    }
    forall q <- s'.client.queue ensures q.callback < |more| && Carries(more[q.callback], q.msg.body) {
      if q in s.client.queue { assert more[q.callback] == log[q.callback]; }
    }
  }

  lemma IssueRejects(s: System, call: Call)
    requires CanQueue(s.client, call) && Compose(s.client, call).Rejected?
    ensures IssueStep(s, call).client == s.client
  {
    hide LeastFree, Compose, CanQueue;
  }

  lemma IssueQueues(s: System, call: Call)
    requires CanQueue(s.client, call) && Compose(s.client, call).Composed?
    ensures IssueStep(s, call).client.queue ==
            s.client.queue + [Queued(Request(TagFor(s.client, call), Compose(s.client, call).body), s.next)]
  {
    hide LeastFree, Compose, CanQueue;
  }

  lemma {:induction false} IssueAllCarried(s: System, calls: seq<Call>, log: seq<Call>)
    requires CanIssueAll(s, calls) && Carried(s, log)
    ensures Carried(IssueAll(s, calls), log + calls)
    decreases |calls|
  {
    hide Carried, CanQueue, Compose;
    if calls == [] {
      assert log + calls == log;
    } else {
      IssueCarried(s, calls[0], log);
      IssueAllCarried(IssueStep(s, calls[0]), calls[1..], log + [calls[0]]);
      assert log + [calls[0]] + calls[1..] == log + calls;
    }
  }

  lemma SendCarried(s: System, i: nat, log: seq<Call>)
    requires i < |s.client.queue| && Carried(s, log) && TagsConserved(s)
    ensures Carried(SendStep(s, i), log)
  {
    hide Carries;
    var s', q := SendStep(s, i), s.client.queue[i];
    assert QueueTags(s.client.queue)[i] == q.msg.tag && q.msg.tag in QueueTags(s.client.queue);
    forall k | 0 <= k < |s'.up|
      ensures CallbackUp(s', k) == if k < |s.up| then CallbackUp(s, k) else q.callback {}
    forall p <- s'.client.queue ensures p in s.client.queue {}
  }

  lemma {:induction false} FlushCarried(s: System, i: nat, ok: seq<bool>, log: seq<Call>)
    requires i + |ok| == |s.client.queue| && Carried(s, log) && Inv(s)
    ensures Carried(FlushClient(s, i, ok), log)
    decreases |ok|
  {
    hide Carried, Inv, SendStep;
    if ok != [] {
      if ok[0] {
        SendInv(s, i);
        SendCarried(s, i, log) by { InvHasTags(s); }
        SendShortens(s, i);
        FlushCarried(SendStep(s, i), i, ok[1..], log);
      } else {
        FlushCarried(s, i + 1, ok[1..], log);
      }
    }
  }

  lemma InvHasTags(s: System)
    requires Inv(s)
    ensures TagsConserved(s)
  {
  }

  lemma SendShortens(s: System, i: nat)
    requires i < |s.client.queue|
    ensures |SendStep(s, i).client.queue| == |s.client.queue| - 1
  {
  }

  lemma ServeCarried(s: System, reply: Reply, log: seq<Call>)
    requires s.up != [] && Carried(s, log)
    ensures Carried(ServeStep(s, reply), log)
  {
    hide Carries;
    var s' := ServeStep(s, reply);
    forall i | 0 <= i < |s'.up| ensures s'.up[i] == s.up[i + 1] && CallbackUp(s', i) == CallbackUp(s, i + 1) {}
  }

  lemma {:induction false} FlushServerKeeps(s: System, i: nat, ok: seq<bool>)
    requires i + |ok| == |s.server.queue|
    ensures
      var s' := FlushServer(s, i, ok);
      s' == s.(server := s'.server, down := s'.down)
    decreases |ok|
  {
    if ok != [] {
      if ok[0] { FlushServerKeeps(RespondStep(s, i), i, ok[1..]); } else { FlushServerKeeps(s, i + 1, ok[1..]); }
    }
  }

  /** Delivering the oldest response drops its tag, which no message on its way
      to the server has. */
  lemma RetireShape(s: System) returns (t: Tag)
    requires Inv(s) && s.down != []
    ensures t == s.down[0].tag && t in s.client.requests && s.client.requests[t].callback.Some?
    ensures forall i | 0 <= i < |s.up| :: s.up[i].tag != t
    ensures
      var s' := Retire(s);
      && s'.client.queue == s.client.queue && s'.client.requests == s.client.requests - {t}
      && s'.up == s.up && s'.sent == s.sent && s'.next == s.next
  {
    hide Inv, TagsConserved;
    InvHasTags(s);
    var rest;
    t, rest := RetireTags(s);
    TagsOfUp(s.up, t, rest);
  }

  lemma TagsOfUp(up: seq<Request>, t: Tag, rest: seq<Tag>)
    requires t !in rest && forall u <- RequestTags(up) :: u in rest
    ensures forall i | 0 <= i < |up| :: up[i].tag != t
  {
    forall i | 0 <= i < |up| ensures up[i].tag != t { assert RequestTags(up)[i] in RequestTags(up); }
  }

  lemma RetireCarried(s: System, log: seq<Call>)
    requires Inv(s) && s.down != [] && Carried(s, log)
    ensures s.down[0].tag in s.client.requests && s.client.requests[s.down[0].tag].callback.Some?
    ensures Carried(Retire(s), log)
  {
    hide Carries, Inv, Retire;
    var t := RetireShape(s);
    forall i | 0 <= i < |s.up| ensures CallbackUp(Retire(s), i) == CallbackUp(s, i) {}
  }

  lemma DeliverIsRetire(s: System, calls: seq<Call>)
    requires Inv(s) && Enabled(s, DoDeliver(calls))
    ensures CanIssueAll(s, calls) && Inv(IssueAll(s, calls))
    ensures IssueAll(s, calls).down == s.down && s.down[0].tag in IssueAll(s, calls).client.requests
    ensures IssueAll(s, calls).client.requests == s.client.requests
    ensures IssueAll(s, calls).client.requests[s.down[0].tag].callback.Some?
    ensures Step(s, DoDeliver(calls)) == Retire(IssueAll(s, calls))
  {
    ResponseFindsRequest(s);
    assert s.(client := Touch(s.client, s.down[0].tag)) == s;
    IssueAllInv(s, calls);
  }

  lemma StepCarried(s: System, a: Action, log: seq<Call>)
    requires Inv(s) && Enabled(s, a) && Carried(s, log)
    ensures Carried(Step(s, a), log + CallsOf(a))
  {
    hide Inv, Carries;
    assert log + [] == log;
    match a
    case DoIssue(call) => IssueCarried(s, call, log);
    case DoFlushClient(ok) => FlushCarried(s, 0, ok, log);
    case DoServe(reply) => ServeCarried(s, reply, log);
    case DoFlushServer(ok) =>
      FlushServerKeeps(s, 0, ok);
      SameUp(s, FlushServer(s, 0, ok));
    case DoDeliver(calls) =>
      DeliverIsRetire(s, calls);
      IssueAllCarried(s, calls, log);
      RetireCarried(IssueAll(s, calls), log + calls);
  }

  lemma SameUp(s: System, s': System)
    requires s'.up == s.up && s'.sent == s.sent && |s.up| <= |s.sent|
    ensures forall i | 0 <= i < |s.up| :: CallbackUp(s', i) == CallbackUp(s, i)
  {
  }

  lemma {:induction false} ExecCarried(s: System, acts: seq<Action>, log: seq<Call>)
    requires Inv(s) && EnabledAll(s, acts) && Carried(s, log)
    ensures Carried(Exec(s, acts), log + CallLog(acts))
    decreases |acts|
  {
    hide Inv, Carried, Enabled, Step;
    if acts == [] {
      assert log + CallLog(acts) == log;
    } else {
      StepInv(s, acts[0]);
      StepCarried(s, acts[0], log);
      ExecCarried(Step(s, acts[0]), acts[1..], log + CallsOf(acts[0]));
      assert log + CallsOf(acts[0]) + CallLog(acts[1..]) == log + CallLog(acts);
    }
  }

  /** In every state a session reaches, however sends fail: the messages on their
      way to the server, in the order they were sent, and those still queued are
      the calls made for them, word for word. */
  lemma SentAsCalled(msize: nat, acts: seq<Action>)
    requires EnabledAll(Start(msize), acts)
    ensures Carried(Exec(Start(msize), acts), CallLog(acts))
  {
    var s := Start(msize);
    assert Inv(s) by { StartIsInv(msize); }
    assert [] + CallLog(acts) == CallLog(acts);
    ExecCarried(s, acts, []);
  }

  lemma StartIsInv(msize: nat)
    ensures Inv(Start(msize))
  {
    TagConservation(msize, []);
  }

  // ------------------------------------------------------- answers and callbacks

  /** The server gave reply to a request with body, whose callback is cb. */
  datatype Served = Served(cb: nat, body: Body, reply: Reply)

  function ServedIn(s: System, a: Action): seq<Served> {
    if a.DoServe? && s.up != [] then [Served(CallbackOf(s.client.requests, s.up[0].tag), s.up[0].body, a.reply)] else []
  }

  function ServedOver(s: System, acts: seq<Action>): seq<Served>
    requires EnabledAll(s, acts)
    decreases |acts|
  {
    if acts == [] then [] else ServedIn(s, acts[0]) + ServedOver(Step(s, acts[0]), acts[1..])
  }

  /** The callback a delivery runs and the reply it is handed. */
  function HandedIn(s: System, a: Action): seq<(nat, Reply)> {
    if a.DoDeliver? && s.down != [] then [(CallbackOf(s.client.requests, s.down[0].tag), s.down[0].reply)] else []
  }

  function HandedOver(s: System, acts: seq<Action>): seq<(nat, Reply)>
    requires EnabledAll(s, acts)
    decreases |acts|
  {
    if acts == [] then [] else HandedIn(s, acts[0]) + HandedOver(Step(s, acts[0]), acts[1..])
  }

  ghost predicate Gave(served: seq<Served>, cb: nat, reply: Reply) {
    exists v <- served :: v.cb == cb && v.reply == reply
  }

  /** Responses on their way are replies the server gave to the requests their
      tags stand for. */
  ghost predicate Given(rs: seq<Response>, table: map<Tag, Sent>, served: seq<Served>) {
    forall r <- rs :: r.tag in table && Gave(served, CallbackOf(table, r.tag), r.reply)
  }

  ghost predicate AllGiven(s: System, served: seq<Served>) {
    Given(s.server.queue, s.client.requests, served) && Given(s.down, s.client.requests, served)
  }

  lemma GaveMore(served: seq<Served>, more: seq<Served>, cb: nat, reply: Reply)
    requires Gave(served, cb, reply)
    ensures Gave(served + more, cb, reply)
  {
    var v :| v in served && v.cb == cb && v.reply == reply;
    assert v in served + more;
  }

  lemma GivenMore(rs: seq<Response>, table: map<Tag, Sent>, served: seq<Served>, more: seq<Served>)
    requires Given(rs, table, served)
    ensures Given(rs, table, served + more)
  {
    forall r <- rs ensures Gave(served + more, CallbackOf(table, r.tag), r.reply) {
      GaveMore(served, more, CallbackOf(table, r.tag), r.reply);
    }
  }

  lemma {:induction false} FlushGiven(s: System, i: nat, ok: seq<bool>, served: seq<Served>)
    requires i + |ok| == |s.client.queue| && Inv(s) && AllGiven(s, served)
    ensures AllGiven(FlushClient(s, i, ok), served)
    decreases |ok|
  {
    hide Inv, AllGiven, SendStep;
    if ok != [] {
      if ok[0] {
        SendInv(s, i);
        SendGiven(s, i, served) by { InvHasTags(s); }
        SendShortens(s, i);
        FlushGiven(SendStep(s, i), i, ok[1..], served);
      } else {
        FlushGiven(s, i + 1, ok[1..], served);
      }
    }
  }

  lemma SendGiven(s: System, i: nat, served: seq<Served>)
    requires i < |s.client.queue| && TagsConserved(s) && AllGiven(s, served)
    ensures AllGiven(SendStep(s, i), served)
  {
    hide Gave;
    var t := s.client.queue[i].msg.tag;
    assert QueueTags(s.client.queue)[i] == t && t in QueueTags(s.client.queue);
  }

  lemma ServeGiven(s: System, reply: Reply, served: seq<Served>)
    requires s.up != [] && AllGiven(s, served) && s.up[0].tag in s.client.requests
    ensures AllGiven(ServeStep(s, reply), served + ServedIn(s, DoServe(reply)))
  {
    var more := ServedIn(s, DoServe(reply));
    GivenMore(s.server.queue, s.client.requests, served, more);
    GivenMore(s.down, s.client.requests, served, more);
    assert more[0] in served + more;
    assert Gave(served + more, CallbackOf(s.client.requests, s.up[0].tag), reply);
  }

  lemma {:induction false} FlushServerGiven(s: System, i: nat, ok: seq<bool>, served: seq<Served>)
    requires i + |ok| == |s.server.queue| && AllGiven(s, served)
    ensures AllGiven(FlushServer(s, i, ok), served)
    decreases |ok|
  {
    hide Gave;
    if ok != [] {
      if ok[0] {
        var t := RespondStep(s, i);
        assert s.server.queue[i] in s.server.queue;
        assert forall r <- t.server.queue :: r in s.server.queue;
        FlushServerGiven(t, i, ok[1..], served);
      } else {
        FlushServerGiven(s, i + 1, ok[1..], served);
      }
    }
  }

  lemma RetireGiven(s: System, served: seq<Served>)
    requires Inv(s) && s.down != [] && AllGiven(s, served)
    ensures s.down[0].tag in s.client.requests && s.client.requests[s.down[0].tag].callback.Some?
    ensures AllGiven(Retire(s), served)
  {
    var t, rest := RetireTags(s);
    RetireKinds(s, t, rest) by { assert KindsMatch(s); }
    hide Gave, Inv;
    var s' := Retire(s);
    forall r <- s'.server.queue + s'.down ensures r.tag in s'.client.requests {}
  }

  lemma StepGiven(s: System, a: Action, served: seq<Served>)
    requires Inv(s) && Enabled(s, a) && AllGiven(s, served)
    ensures AllGiven(Step(s, a), served + ServedIn(s, a))
    ensures forall h <- HandedIn(s, a) :: Gave(served, h.0, h.1)
  {
    hide Inv, Gave;
    assert served + [] == served;
    match a
    case DoIssue(call) => IssueShape(s, call);
    case DoFlushClient(ok) => FlushGiven(s, 0, ok, served);
    case DoServe(reply) =>
      FirstFindsEntry(s);
      ServeGiven(s, reply, served);
    case DoFlushServer(ok) => FlushServerGiven(s, 0, ok, served);
    case DoDeliver(calls) =>
      assert s.down[0] in s.down;
      DeliverIsRetire(s, calls);
      IssueAllGiven(s, calls, served);
      RetireGiven(IssueAll(s, calls), served);
  }

  lemma FirstFindsEntry(s: System)
    requires Inv(s) && s.up != []
    ensures s.up[0].tag in s.client.requests
  {
    assert s.up[0] in s.up;
  }

  lemma IssueAllGiven(s: System, calls: seq<Call>, served: seq<Served>)
    requires Inv(s) && CanIssueAll(s, calls) && AllGiven(s, served)
    ensures AllGiven(IssueAll(s, calls), served)
  {
    IssueAllInv(s, calls);
    hide Inv, Gave, IssueAll, CanIssueAll;
  }

  lemma {:induction false} ExecGiven(s: System, acts: seq<Action>, served: seq<Served>)
    requires Inv(s) && EnabledAll(s, acts) && AllGiven(s, served)
    ensures forall h <- HandedOver(s, acts) :: Gave(served + ServedOver(s, acts), h.0, h.1)
    decreases |acts|
  {
    hide Inv, AllGiven, Enabled, Step, Gave, ServedIn, HandedIn;
    if acts != [] {
      StepInv(s, acts[0]);
      StepGiven(s, acts[0], served);
      var now := served + ServedIn(s, acts[0]);
      var rest := ServedOver(Step(s, acts[0]), acts[1..]);
      ExecGiven(Step(s, acts[0]), acts[1..], now);
      assert now + rest == served + ServedOver(s, acts);
      forall h <- HandedIn(s, acts[0]) ensures Gave(served + ServedOver(s, acts), h.0, h.1) {
        GaveMore(served, ServedOver(s, acts), h.0, h.1);
      }
    }
  }

  /** What was served was the call of its callback. */
  lemma {:induction false} ServedCarry(s: System, acts: seq<Action>, log: seq<Call>)
    requires Inv(s) && EnabledAll(s, acts) && Carried(s, log)
    ensures forall v <- ServedOver(s, acts) ::
              v.cb < |log + CallLog(acts)| && Carries((log + CallLog(acts))[v.cb], v.body)
    decreases |acts|
  {
    hide Inv, Carried, Enabled, Step, Carries, ServedIn;
    if acts != [] {
      StepInv(s, acts[0]);
      StepCarried(s, acts[0], log);
      ServedCarry(Step(s, acts[0]), acts[1..], log + CallsOf(acts[0]));
      assert log + CallsOf(acts[0]) + CallLog(acts[1..]) == log + CallLog(acts);
      ServedNow(s, acts[0], log);
    }
  }

  lemma ServedNow(s: System, a: Action, log: seq<Call>)
    requires Enabled(s, a) && Carried(s, log)
    ensures forall v <- ServedIn(s, a) :: v.cb < |log| && Carries(log[v.cb], v.body)
  {
    hide Carries;
    if a.DoServe? { assert CallbackUp(s, 0) == s.sent[|s.sent| - |s.up|]; }
  }

  /** In every session: whenever a callback is handed a reply, the server gave
      that reply to a request that carried the very call the callback was
      given to. */
  lemma AnsweredAsCalled(msize: nat, acts: seq<Action>)
    requires EnabledAll(Start(msize), acts)
    ensures
      var log, served := CallLog(acts), ServedOver(Start(msize), acts);
      forall h <- HandedOver(Start(msize), acts) ::
        exists v <- served :: v.cb == h.0 < |log| && v.reply == h.1 && Carries(log[v.cb], v.body)
  {
    var s := Start(msize);
    var log, served := CallLog(acts), ServedOver(s, acts);
    hide Carries, Inv, EnabledAll, Exec, CallLog, ServedOver, HandedOver;
    assert Inv(s) by { StartIsInv(msize); }
    assert [] + log == log && [] + served == served;
    ExecGiven(s, acts, []);
    ServedCarry(s, acts, []);
    forall h <- HandedOver(s, acts)
      ensures exists v <- served :: v.cb == h.0 < |log| && v.reply == h.1 && Carries(log[v.cb], v.body)
    {
      assert Gave(served, h.0, h.1);
      var v :| v in served && v.cb == h.0 && v.reply == h.1;
    }
  }
}
