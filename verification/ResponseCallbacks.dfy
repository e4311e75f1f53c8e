/** How often a callback is called: the handlers of responses at the end of
    src/X9PClient.cpp check sizes, and the one for Rread goes on after a
    response too small for it. */
module ResponseCallbacks {
  import opened X9PProtocol
  import W = WalkMessage
  import opened ClientProtocol
  import opened Session
  import opened SessionTags
  import opened SessionFids
  import opened SessionLead

  const SIZEOF_RREAD := 11

  // -------------------------------------------------------------- one response

  datatype ReadCall = ServerError | TooSmall | CountTooLarge | Got(data: seq<byte>)

  /** Calls made by the handler of a response, to a request of this kind, that
      is an error or not and declares this size. Every handler but that of
      Rread ends in an else. */
  function Calls(kind: nat, error: bool, size: nat): nat {
    if kind == TREAD && !error && size < SIZEOF_RREAD then 2 else 1
  }

  /** The calls the handler of Rread makes for what is in the receive buffer,
      in order: two exactly for a response that is no error and declares less
      than its own header, and data only within the declared size. */
  method Rread(recv: seq<byte>) returns (calls: seq<ReadCall>)
    requires |recv| >= SIZEOF_RREAD && W.FromLittleEndian(recv[..4]) <= |recv|
    ensures |calls| == Calls(TREAD, recv[4] == RERROR, W.FromLittleEndian(recv[..4]))
    ensures recv[4] == RERROR ==> calls == [ServerError]
    ensures |calls| == 2 ==> calls == [TooSmall, CountTooLarge]
    ensures forall d | Got(d) in calls ::
              && calls == [Got(d)] && recv[4] != RERROR
              && |d| == W.FromLittleEndian(recv[7..11]) && SIZEOF_RREAD + |d| <= W.FromLittleEndian(recv[..4])
              && d == recv[SIZEOF_RREAD..SIZEOF_RREAD + |d|]
  {
    var size, count := W.FromLittleEndian(recv[..4]), W.FromLittleEndian(recv[7..11]);
    if recv[4] == RERROR { return [ServerError]; }
    calls := [];
    if size < SIZEOF_RREAD { calls := calls + [TooSmall]; }
    if count + SIZEOF_RREAD > size {
      calls := calls + [CountTooLarge];
    } else {
      calls := calls + [Got(recv[SIZEOF_RREAD..SIZEOF_RREAD + count])];
    }
  }

  // --------------------------------------------------------------- whole runs

  /** What the dispatch of the oldest response finds under its tag. */
  function Found(s: System): Sent
    requires s.down != []
  {
    Touch(s.client, s.down[0].tag).requests[s.down[0].tag]
  }

  predicate DeliversTo(s: System, a: Action, cb: nat) {
    a.DoDeliver? && s.down != [] && Found(s).callback == Some(cb)
  }

  /** The response delivered, if any, is an Rread that declares less than its
      header. */
  predicate DeliversShort(s: System, a: Action, sizes: Response -> nat) {
    a.DoDeliver? && s.down != [] && Found(s).kind == TREAD && !s.down[0].reply.RError? && sizes(s.down[0]) < SIZEOF_RREAD
  }

  /** Calls of callback cb in one step: of requests rejected at once, and by
      the handler of the response delivered, of the size received. */
  function CallsIn(s: System, a: Action, sizes: Response -> nat, cb: nat): int
    requires Enabled(s, a)
  {
    multiset(Step(s, a).rejected)[cb] - multiset(s.rejected)[cb]
    + if DeliversTo(s, a, cb) then Calls(Found(s).kind, s.down[0].reply.RError?, sizes(s.down[0])) else 0
  }

  function CallsOver(s: System, acts: seq<Action>, sizes: Response -> nat, cb: nat): int
    requires EnabledAll(s, acts)
    decreases |acts|
  {
    if acts == [] then 0 else CallsIn(s, acts[0], sizes, cb) + CallsOver(Step(s, acts[0]), acts[1..], sizes, cb)
  }

  function ShortOver(s: System, acts: seq<Action>, sizes: Response -> nat, cb: nat): nat
    requires EnabledAll(s, acts)
    decreases |acts|
  {
    if acts == [] then 0
    else
      (if DeliversTo(s, acts[0], cb) && DeliversShort(s, acts[0], sizes) then 1 else 0)
      + ShortOver(Step(s, acts[0]), acts[1..], sizes, cb)
  }

  /** Every Rread delivered in the run declares at least its header. */
  predicate HeadersWhole(s: System, acts: seq<Action>, sizes: Response -> nat)
    requires EnabledAll(s, acts)
    decreases |acts|
  {
    acts == [] || (!DeliversShort(s, acts[0], sizes) && HeadersWhole(Step(s, acts[0]), acts[1..], sizes))
  }

  /** Runs of a callback that the session logs. */
  function Ran(s: System, cb: nat): nat { multiset(s.rejected)[cb] + multiset(s.delivered)[cb] }

  lemma {:induction false} FlushDelivers(s: System, i: nat, ok: seq<bool>)
    requires i + |ok| == |s.client.queue|
    ensures FlushClient(s, i, ok).delivered == s.delivered
    decreases |ok|
  {
    if ok != [] {
      if ok[0] { FlushDelivers(SendStep(s, i), i, ok[1..]); } else { FlushDelivers(s, i + 1, ok[1..]); }
    }
  }

  lemma {:induction false} FlushServerDelivers(s: System, i: nat, ok: seq<bool>)
    requires i + |ok| == |s.server.queue|
    ensures FlushServer(s, i, ok).delivered == s.delivered
    decreases |ok|
  {
    if ok != [] {
      if ok[0] { FlushServerDelivers(RespondStep(s, i), i, ok[1..]); } else { FlushServerDelivers(s, i + 1, ok[1..]); }
    }
  }

  /** What a step adds to the log of deliveries. */
  lemma StepDelivers(s: System, a: Action)
    requires Inv(s) && Enabled(s, a)
    ensures a.DoDeliver? ==> Found(s).callback.Some?
    ensures Step(s, a).delivered == s.delivered + if a.DoDeliver? then [Found(s).callback.value] else []
  {
    hide Inv;
    match a
    case DoIssue(call) => IssueShape(s, call);
    case DoFlushClient(ok) => FlushDelivers(s, 0, ok);
    case DoServe(_) =>
    case DoFlushServer(ok) => FlushServerDelivers(s, 0, ok);
    case DoDeliver(calls) =>
      ResponseFindsRequest(s);
      DeliverInv(s, calls);
  }

  lemma StepCalls(s: System, a: Action, sizes: Response -> nat, cb: nat)
    requires Inv(s) && Enabled(s, a)
    ensures
      var s', short := Step(s, a), if DeliversTo(s, a, cb) && DeliversShort(s, a, sizes) then 1 else 0;
      && CallsIn(s, a, sizes, cb) == Ran(s', cb) - Ran(s, cb) + short
      && multiset(s.delivered)[cb] + short <= multiset(s'.delivered)[cb]
  {
    StepDelivers(s, a);
    hide Inv, Step, Found;
    if a.DoDeliver? {
      assert multiset(Step(s, a).delivered) == multiset(s.delivered) + multiset{Found(s).callback.value};
    } else {
      assert Step(s, a).delivered == s.delivered;
    }
  }

  lemma {:induction false} CallsCount(s: System, acts: seq<Action>, sizes: Response -> nat, cb: nat)
    requires Inv(s) && EnabledAll(s, acts)
    ensures CallsOver(s, acts, sizes, cb) == Ran(Exec(s, acts), cb) - Ran(s, cb) + ShortOver(s, acts, sizes, cb)
    ensures multiset(s.delivered)[cb] + ShortOver(s, acts, sizes, cb) <= multiset(Exec(s, acts).delivered)[cb]
    decreases |acts|
  {
    hide Inv, Enabled, Step, Found, DeliversTo, DeliversShort, CallsIn, Ran;
    if acts != [] {
      StepInv(s, acts[0]);
      StepCalls(s, acts[0], sizes, cb);
      CallsCount(Step(s, acts[0]), acts[1..], sizes, cb);
    }
  }

  lemma {:induction false} ShortOfNone(s: System, acts: seq<Action>, sizes: Response -> nat)
    requires Inv(s) && EnabledAll(s, acts)
    ensures HeadersWhole(s, acts, sizes) ==> forall cb: nat :: ShortOver(s, acts, sizes, cb) == 0
    ensures !HeadersWhole(s, acts, sizes) ==> exists cb: nat :: ShortOver(s, acts, sizes, cb) > 0
    decreases |acts|
  {
    hide Inv, Enabled, Step, Found;
    if acts != [] {
      StepInv(s, acts[0]);
      StepDelivers(s, acts[0]);
      ShortOfNone(Step(s, acts[0]), acts[1..], sizes);
      if DeliversShort(s, acts[0], sizes) {
        assert ShortOver(s, acts, sizes, Found(s).callback.value) > 0;
      } else if !HeadersWhole(s, acts, sizes) {
        var cb: nat :| ShortOver(Step(s, acts[0]), acts[1..], sizes, cb) > 0;
        assert ShortOver(s, acts, sizes, cb) > 0;
      }
    }
  }

  // ------------------------------------------------------------ main results

  /** In every run, whatever sizes the responses arrive with: a callback is
      called as often as the session logs, and once more if what it was
      delivered is an Rread shorter than its header. So no callback is called
      twice if and only if none is delivered. */
  lemma CalledOnce(msize: nat, acts: seq<Action>, sizes: Response -> nat)
    requires EnabledAll(Start(msize), acts)
    ensures forall cb: nat ::
              CallsOver(Start(msize), acts, sizes, cb) ==
              Ran(Exec(Start(msize), acts), cb) + ShortOver(Start(msize), acts, sizes, cb)
    ensures (forall cb: nat :: CallsOver(Start(msize), acts, sizes, cb) <= 1) <==> HeadersWhole(Start(msize), acts, sizes)
  {
    hide EnabledAll, Exec, CallsOver, ShortOver, HeadersWhole;
    var s := Start(msize);
    assert Inv(s) by { TagConservation(msize, []); StartIsExec(msize); }
    forall cb: nat
      ensures CallsOver(s, acts, sizes, cb) == Ran(Exec(s, acts), cb) + ShortOver(s, acts, sizes, cb)
      ensures CallsOver(s, acts, sizes, cb) <= 1 <==> ShortOver(s, acts, sizes, cb) == 0
    {
      CallsCount(s, acts, sizes, cb);
      CallbacksRunOnce(msize, acts, cb);
    }
    ShortOfNone(s, acts, sizes);
  }

  lemma StartIsExec(msize: nat)
    ensures EnabledAll(Start(msize), []) && Exec(Start(msize), []) == Start(msize)
  {
  }

  /** Responses as the server composes them; an error carries its text. */
  predicate FromServer(r: Response, size: nat) {
    match r.reply
    case RError(_) => size >= 9
    case RVersion(_) => size == 19
    case RAttach(_) => size == 20
    case RWalk(qids) => size == 9 + 13 * |qids|
    case ROpen(_) => size == 24
    case RCreate(_) => size == 24
    case RRead(data) => size == SIZEOF_RREAD + |data|
    case RWrite(_) => size == 11
    case RClunk => size == 7
    case RRemove => size == 7
    case RWstat => size == 7
  }

  lemma {:induction false} ServerHeadersWhole(s: System, acts: seq<Action>, sizes: Response -> nat)
    requires Inv(s) && EnabledAll(s, acts)
    requires forall r: Response :: FromServer(r, sizes(r))
    ensures HeadersWhole(s, acts, sizes)
    decreases |acts|
  {
    hide Inv, Enabled, Step;
    if acts != [] {
      StepInv(s, acts[0]);
      ServerHeadersWhole(Step(s, acts[0]), acts[1..], sizes);
      if acts[0].DoDeliver? && s.down != [] {
        ResponseFindsRequest(s);
        assert FromServer(s.down[0], sizes(s.down[0]));
      }
    }
  }

  /** With responses of the sizes the server gives them none is. */
  lemma ServerCallsOnce(msize: nat, acts: seq<Action>, sizes: Response -> nat, cb: nat)
    requires EnabledAll(Start(msize), acts)
    requires forall r: Response :: FromServer(r, sizes(r))
    ensures CallsOver(Start(msize), acts, sizes, cb) == Ran(Exec(Start(msize), acts), cb) <= 1
  {
    assert Inv(Start(msize)) by { TagConservation(msize, []); StartIsExec(msize); }
    ServerHeadersWhole(Start(msize), acts, sizes);
    CalledOnce(msize, acts, sizes);
    ShortOfNone(Start(msize), acts, sizes);
  }

  // ------------------------------------------------------------------- a case

  const READ := TRead(0, 0, 1)
  const DATA := Response(0, RRead([]))

  function Asked(msize: nat): System {
    S8(msize).(client := Client([Queued(Request(0, READ), 2)], map[], BOTH, msize), next := 3,
               issued := [Accepted, Accepted, Accepted])
  }

  function Flown(msize: nat): System {
    Asked(msize).(client := Client([], map[0 := Sent(TREAD, 0, Some(2))], BOTH, msize), up := [Request(0, READ)],
                  sent := [0, 1, 2])
  }

  function Replied(msize: nat): System {
    Flown(msize).(up := [], server := Connection(BOTH, [DATA]), served := [Accepted, Accepted, Accepted])
  }

  function Landed(msize: nat): System {
    Replied(msize).(server := Connection(BOTH, []), down := [DATA])
  }

  lemma ToAsked(msize: nat)
    requires msize >= 24
    ensures Leads(S8(msize), DoIssue(Call(READ)), Asked(msize))
  {
    hide LeastFree, FlushClient;
    var c := S8(msize).client;
    FirstFids();
    assert QueueTags(c.queue) == [];
    FreshTag(c, {}, 0);
    assert [] + [Queued(Request(0, READ), 2)] == [Queued(Request(0, READ), 2)];
  }

  lemma ToFlown(msize: nat)
    ensures Leads(Asked(msize), DoFlushClient([true]), Flown(msize))
  {
    hide Check, Effect, Enabled, Orderly;
    var s := Asked(msize);
    Unconditional(s, DoFlushClient([true]));
    var t := SendStep(s, 0);
    assert [true][1..] == [] && t.client.queue == [] && [0, 1] + [2] == [0, 1, 2];
    assert FlushClient(t, 0, []) == t == Flown(msize) && FlushClient(s, 0, [true]) == t;
  }

  lemma ToReplied(msize: nat)
    ensures Leads(Flown(msize), DoServe(RRead([])), Replied(msize))
  {
    hide CanQueue, Compose;
    assert [Request(0, READ)][1..] == [] && [] + [DATA] == [DATA];
  }

  lemma ToLanded(msize: nat)
    ensures Leads(Replied(msize), DoFlushServer([true]), Landed(msize))
  {
    hide CanQueue, Compose, Effect, Check, Answers;
    var s := Replied(msize);
    var t := RespondStep(s, 0);
    assert s.server.queue == [DATA] && [] + [DATA] == [DATA];
    assert [true][1..] == [] && t.server.queue == [] && FlushServer(t, 0, []) == t == Landed(msize);
    assert FlushServer(s, 0, [true]) == t;
  }

  lemma {:induction false} ShortLast(s: System, acts: seq<Action>, a: Action, sizes: Response -> nat, cb: nat)
    requires EnabledAll(s, acts) && Enabled(Exec(s, acts), a)
    ensures EnabledAll(s, acts + [a])
    ensures
      var last := Exec(s, acts);
      ShortOver(s, acts + [a], sizes, cb) ==
      ShortOver(s, acts, sizes, cb) + if DeliversTo(last, a, cb) && DeliversShort(last, a, sizes) then 1 else 0
    decreases |acts|
  {
    hide Enabled, Step, DeliversTo, DeliversShort;
    if acts == [] {
      assert [] + [a] == [a] && [a][1..] == [];
    } else {
      assert (acts + [a])[0] == acts[0] && (acts + [a])[1..] == acts[1..] + [a];
      ShortLast(Step(s, acts[0]), acts[1..], a, sizes, cb);
    }
  }

  lemma LandedReached(msize: nat) returns (acts: seq<Action>)
    requires msize >= 24
    ensures Reaches(msize, acts, Landed(msize))
  {
    hide Leads, S8, Asked, Flown, Replied, Landed, Reaches, Settled;
    var start := Settled();
    SettledReaches(msize);
    ToAsked(msize);
    ToFlown(msize);
    ToReplied(msize);
    ToLanded(msize);
    var a, b, c, d := DoIssue(Call(READ)), DoFlushClient([true]), DoServe(RRead([])), DoFlushServer([true]);
    OneMore(msize, start, S8(msize), a, Asked(msize));
    OneMore(msize, start + [a], Asked(msize), b, Flown(msize));
    OneMore(msize, start + [a] + [b], Flown(msize), c, Replied(msize));
    OneMore(msize, start + [a] + [b] + [c], Replied(msize), d, Landed(msize));
    acts := start + [a] + [b] + [c] + [d];
  }

  function Seven(r: Response): nat { 7 }

  /** A session at whose end one Rread is delivered that declares 7 bytes: its
      callback is called twice. */
  lemma CalledTwice(msize: nat) returns (acts: seq<Action>)
    requires msize >= 24
    ensures EnabledAll(Start(msize), acts) && CallsOver(Start(msize), acts, Seven, 2) >= 2
  {
    var most := LandedReached(msize);
    ReachesIs(msize, most, Landed(msize));
    LastLands(msize, Seven);
    hide Landed, Reaches, Enabled, EnabledAll, Exec, CallsOver, ShortOver, DeliversTo, DeliversShort, Found;
    acts := most + [LAND];
    ShortLast(Start(msize), most, LAND, Seven, 2);
    CalledAgain(msize, acts, Seven, 2);
  }

  lemma ReachesIs(msize: nat, acts: seq<Action>, s: System)
    requires Reaches(msize, acts, s)
    ensures EnabledAll(Start(msize), acts) && Exec(Start(msize), acts) == s
  {
  }

  lemma LastLands(msize: nat, sizes: Response -> nat)
    requires sizes(DATA) < SIZEOF_RREAD
    ensures Enabled(Landed(msize), LAND) && DeliversTo(Landed(msize), LAND, 2) && DeliversShort(Landed(msize), LAND, sizes)
  {
  }

  lemma CalledAgain(msize: nat, acts: seq<Action>, sizes: Response -> nat, cb: nat)
    requires EnabledAll(Start(msize), acts) && ShortOver(Start(msize), acts, sizes, cb) > 0
    ensures CallsOver(Start(msize), acts, sizes, cb) >= 2
  {
    hide EnabledAll, Exec, CallsOver, ShortOver;
    assert Inv(Start(msize)) by { TagConservation(msize, []); StartIsExec(msize); }
    CallsCount(Start(msize), acts, sizes, cb);
  }
}
