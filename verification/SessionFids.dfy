/** Agreement of the client's and the server's fid tables, and the order in
    which callbacks run, over every run whose flushes fail only from some
    message on. */
module SessionFids {
  import opened X9PProtocol
  import opened ClientProtocol
  import opened Session
  import opened SessionTags

  /** Requests the server has yet to handle, in the order they were made. */
  function Pending(s: System): seq<Request> {
    s.up + Messages(s.client.queue)
  }

  /** The fid effects of everything pending turn the server's table into the
      client's, and the server will reach the verdicts the client logged. */
  ghost predicate FidsAgree(s: System) {
    && Effects(s.server.fids, Pending(s)) == s.client.fids
    && s.served + Checks(s.server.fids, Pending(s)) == s.issued
  }

  /** A call whose effect on both tables is the same: it names no dead fid
      that the server would bring to life, and walks to a new fid only from a
      live one. */
  predicate Balanced(fids: set<Fid>, call: Call) {
    match call
    case CallAttach(hnd, _, _) => hnd.Some? ==> hnd.value in fids
    case CallWalk(from, to, _) =>
      from.Some? ==> if to.Some? then from.value in fids ==> to.value in fids else from.value in fids
    case _ => true
  }

  predicate BalancedAll(s: System, calls: seq<Call>)
    requires CanIssueAll(s, calls)
    decreases |calls|
  {
    calls == [] ||
    (Balanced(s.client.fids, calls[0]) && BalancedAll(IssueStep(s, calls[0]), calls[1..]))
  }

  /** Sends fail only from some message on. */
  predicate FailuresAtEnd(ok: seq<bool>) {
    forall i, j | 0 <= i < j < |ok| :: ok[j] ==> ok[i]
  }

  // ------------------------------------------------------------- sequences

  lemma {:induction false} EffectsAppend(fids: set<Fid>, ms: seq<Request>, m: Request)
    ensures Effects(fids, ms + [m]) == Effect(Effects(fids, ms), m.body)
    ensures Checks(fids, ms + [m]) == Checks(fids, ms) + [Check(Effects(fids, ms), m.body)]
    decreases |ms|
  {
    if ms != [] {
      assert (ms + [m])[1..] == ms[1..] + [m];
      EffectsAppend(Effect(fids, ms[0].body), ms[1..], m);
    } else {
      assert ms + [m] == [m];
    }
  }

  lemma MessagesAppend(q: seq<Queued>, x: Queued)
    ensures Messages(q + [x]) == Messages(q) + [x.msg]
  {
  }

  // ----------------------------------------------------------------- steps

  /** What issuing does to the pending requests and the client's fids. */
  lemma IssuePending(s: System, call: Call)
    requires CanIssue(s.client, call)
    ensures
      var s' := IssueStep(s, call);
      match Compose(s.client, call)
      case Rejected(_) => Pending(s') == Pending(s) && s'.client.fids == s.client.fids && s'.issued == s.issued
      case Composed(b, _) =>
        && Pending(s') == Pending(s) + [Request(TagFor(s.client, call), b)]
        && s'.issued == s.issued + [Check(s.client.fids, b)]
  {
    var m := Compose(s.client, call);
    if m.Composed? {
      MessagesAppend(s.client.queue, Queued(Request(TagFor(s.client, call), m.body), s.next));
    }
  }

  /** A queued call keeps the tables in agreement exactly when it is balanced. */
  lemma IssueAgrees(s: System, call: Call)
    requires FidsAgree(s) && CanIssue(s.client, call)
    ensures Compose(s.client, call).Composed? ==>
              (FidsAgree(IssueStep(s, call)) <==> Balanced(s.client.fids, call))
    ensures Compose(s.client, call).Rejected? ==> FidsAgree(IssueStep(s, call))
  {
    IssuePending(s, call);
    var m := Compose(s.client, call);
    if m.Composed? {
      EffectsAppend(s.server.fids, Pending(s), Request(TagFor(s.client, call), m.body));
      ComposeEffect(s.client, call);
    }
  }

  lemma ComposeEffect(c: Client, call: Call)
    requires CanIssue(c, call) && Compose(c, call).Composed?
    ensures Effect(c.fids, Compose(c, call).body) == FidsAfter(c.fids, Compose(c, call))
            <==> Balanced(c.fids, call)
  {
    hide Size;
    match call
    case CallAttach(hnd, _, _) => AttachEffect(c, call);
    case CallWalk(_, _, _) => WalkEffect(c, call);
    case _ =>
  }

  lemma AttachEffect(c: Client, call: Call)
    requires call.CallAttach? && CanIssue(c, call) && Compose(c, call).Composed?
    ensures Effect(c.fids, Compose(c, call).body) == FidsAfter(c.fids, Compose(c, call))
            <==> Balanced(c.fids, call)
  {
    hide Size, LeastFree;
    if call.hnd.Some? { Absorbs(c.fids, call.hnd.value); }
  }

  lemma WalkEffect(c: Client, call: Call)
    requires call.CallWalk? && CanIssue(c, call) && Compose(c, call).Composed?
    ensures Effect(c.fids, Compose(c, call).body) == FidsAfter(c.fids, Compose(c, call))
            <==> Balanced(c.fids, call)
  {
    hide Size, LeastFree;
    var to := if call.to.Some? then call.to.value else NewFid(c.fids);
    FidAvailable(c.fids);
    Absorbs(c.fids, to);
    assert Compose(c, call).body == TWalk(call.from.value, to, call.names) && |call.names| <= TWALK_MAXELEM;
    hide CanIssue, NewFid;
  }

  lemma Absorbs(fids: set<Fid>, f: Fid)
    ensures fids + {f} == fids <==> f in fids
  {
    assert f in fids + {f};
  }

  lemma {:induction false} IssueAllAgrees(s: System, calls: seq<Call>)
    requires FidsAgree(s) && CanIssueAll(s, calls) && BalancedAll(s, calls)
    ensures FidsAgree(IssueAll(s, calls))
    decreases |calls|
  {
    if calls != [] {
      IssueAgrees(s, calls[0]);
      IssueAllAgrees(IssueStep(s, calls[0]), calls[1..]);
    }
  }

  /** Sending the head of the queue leaves the pending requests as they are. */
  lemma SendFirst(s: System)
    requires s.client.queue != []
    ensures Pending(SendStep(s, 0)) == Pending(s)
  {
  }

  lemma {:induction false} FlushNone(s: System, i: nat, ok: seq<bool>)
    requires i + |ok| == |s.client.queue| && forall k | 0 <= k < |ok| :: !ok[k]
    ensures FlushClient(s, i, ok) == s
    decreases |ok|
  {
    if ok != [] { FlushNone(s, i + 1, ok[1..]); }
  }

  lemma {:induction false} FlushKeepsOrder(s: System, ok: seq<bool>)
    requires |ok| == |s.client.queue| && FailuresAtEnd(ok)
    ensures
      var s' := FlushClient(s, 0, ok);
      && Pending(s') == Pending(s) && s'.client.fids == s.client.fids
      && s'.server == s.server && s'.issued == s.issued && s'.served == s.served
    decreases |ok|
  {
    if ok != [] {
      if ok[0] {
        SendFirst(s);
        FlushKeepsOrder(SendStep(s, 0), ok[1..]);
      } else {
        FlushNone(s, 0, ok);
      }
    }
  }

  /** Once a message has been held back, the next one sent jumps the queue. */
  lemma {:induction false} NextSent(s: System, i: nat, ok: seq<bool>) returns (j: nat)
    requires i + |ok| == |s.client.queue| && exists k | 0 <= k < |ok| :: ok[k]
    ensures i <= j < |s.client.queue|
    ensures s.up + [s.client.queue[j].msg] <= FlushClient(s, i, ok).up
    decreases |ok|
  {
    if ok[0] {
      j := i;
      FlushExtends(SendStep(s, i), i, ok[1..]);
    } else {
      var k :| 0 <= k < |ok| && ok[k];
      assert ok[1..][k - 1];
      j := NextSent(s, i + 1, ok[1..]);
    }
  }

  lemma {:induction false} FlushExtends(s: System, i: nat, ok: seq<bool>)
    requires i + |ok| == |s.client.queue|
    ensures s.up <= FlushClient(s, i, ok).up
    decreases |ok|
  {
    if ok != [] {
      if ok[0] {
        FlushExtends(SendStep(s, i), i, ok[1..]);
      } else {
        FlushExtends(s, i + 1, ok[1..]);
      }
    }
  }

  /** A flush keeps the order of requests exactly when its failures form a
      suffix of the queue. */
  lemma {:induction false} FlushOrder(s: System, ok: seq<bool>)
    requires |ok| == |s.client.queue| && Distinct(QueueTags(s.client.queue))
    ensures Pending(FlushClient(s, 0, ok)) == Pending(s) <==> FailuresAtEnd(ok)
    decreases |ok|
  {
    if FailuresAtEnd(ok) {
      FlushKeepsOrder(s, ok);
    } else if ok[0] {
      SendFirst(s);
      assert !FailuresAtEnd(ok[1..]) by {
        var i, j :| 0 <= i < j < |ok| && ok[j] && !ok[i];
        assert ok[1..][j - 1] && !ok[1..][i - 1];
      }
      QueueWithout(s.client.queue, 0);
      assert SendStep(s, 0).client.queue == Without(s.client.queue, 0);
      DistinctWithout(QueueTags(s.client.queue), 0);
      FlushOrder(SendStep(s, 0), ok[1..]);
    } else {
      var i, k :| 0 <= i < k < |ok| && ok[k] && !ok[i];
      assert ok[1..][k - 1];
      var j := NextSent(s, 1, ok[1..]);
      var s' := FlushClient(s, 0, ok);
      var n := |s.up|;
      assert s'.up[n] == s.client.queue[j].msg;
      assert Pending(s')[n] == s.client.queue[j].msg;
      assert Pending(s)[n] == s.client.queue[0].msg;
      assert QueueTags(s.client.queue)[0] != QueueTags(s.client.queue)[j];
    }
  }

  lemma ServeAgrees(s: System, reply: Reply)
    requires FidsAgree(s) && s.up != []
    ensures FidsAgree(ServeStep(s, reply))
    ensures ServeStep(s, reply).served == s.issued[..|s.served| + 1]
  {
    var s' := ServeStep(s, reply);
    assert Pending(s)[1..] == Pending(s') && Pending(s)[0] == s.up[0];
    assert Checks(s.server.fids, Pending(s)) ==
           [Check(s.server.fids, s.up[0].body)] + Checks(s'.server.fids, Pending(s'));
  }

  lemma {:induction false} FlushServerKeepsFids(s: System, i: nat, ok: seq<bool>)
    requires i + |ok| == |s.server.queue|
    ensures
      var s' := FlushServer(s, i, ok);
      && s'.client == s.client && s'.up == s.up && s'.server.fids == s.server.fids
      && s'.issued == s.issued && s'.served == s.served && s'.sent == s.sent && s'.delivered == s.delivered
    decreases |ok|
  {
    if ok != [] {
      if ok[0] {
        FlushServerKeepsFids(RespondStep(s, i), i, ok[1..]);
      } else {
        FlushServerKeepsFids(s, i + 1, ok[1..]);
      }
    }
  }

  /** The discipline under which agreement is promised. */
  predicate Orderly(s: System, a: Action)
    requires Enabled(s, a)
  {
    match a
    case DoIssue(call) => Balanced(s.client.fids, call)
    case DoFlushClient(ok) => FailuresAtEnd(ok)
    case DoDeliver(calls) => BalancedAll(s.(client := Touch(s.client, s.down[0].tag)), calls)
    case _ => true
  }

  predicate OrderlyAll(s: System, acts: seq<Action>)
    requires EnabledAll(s, acts)
    decreases |acts|
  {
    acts == [] || (Orderly(s, acts[0]) && OrderlyAll(Step(s, acts[0]), acts[1..]))
  }

  lemma StepAgrees(s: System, a: Action)
    requires FidsAgree(s) && Enabled(s, a) && Orderly(s, a)
    ensures FidsAgree(Step(s, a))
  {
    match a
    case DoIssue(call) => IssueAgrees(s, call);
    case DoFlushClient(ok) => FlushKeepsOrder(s, ok);
    case DoServe(reply) => ServeAgrees(s, reply);
    case DoFlushServer(ok) => FlushServerKeepsFids(s, 0, ok);
    case DoDeliver(calls) =>
      var t := s.(client := Touch(s.client, s.down[0].tag));
      assert FidsAgree(t) by { assert Pending(t) == Pending(s); }
      IssueAllAgrees(t, calls);
      assert Pending(DeliverStep(s, calls)) == Pending(IssueAll(t, calls));
  }

  lemma {:induction false} ExecAgrees(s: System, acts: seq<Action>)
    requires FidsAgree(s) && EnabledAll(s, acts) && OrderlyAll(s, acts)
    ensures FidsAgree(Exec(s, acts))
    decreases |acts|
  {
    if acts != [] {
      StepAgrees(s, acts[0]);
      ExecAgrees(Step(s, acts[0]), acts[1..]);
    }
  }

  /** One more action at the end of a run. */
  lemma {:induction false} Append(s: System, acts: seq<Action>, a: Action)
    requires EnabledAll(s, acts) && Enabled(Exec(s, acts), a)
    ensures EnabledAll(s, acts + [a]) && Exec(s, acts + [a]) == Step(Exec(s, acts), a)
    ensures OrderlyAll(s, acts) && Orderly(Exec(s, acts), a) ==> OrderlyAll(s, acts + [a])
    decreases |acts|
  {
    hide Enabled, Step, Orderly;
    if acts == [] {
      assert [] + [a] == [a] && [a][1..] == [];
    } else {
      assert (acts + [a])[0] == acts[0] && (acts + [a])[1..] == acts[1..] + [a];
      Append(Step(s, acts[0]), acts[1..], a);
    }
  }

  // ------------------------------------------------------------ main results

  /** In every orderly run the pending requests carry the server's fid table
      to the client's, so with nothing pending the two are equal; and the k-th
      request served met the very verdict the client's own table gave when that
      request was made, as will the next one. */
  lemma FidAgreement(msize: nat, acts: seq<Action>)
    requires EnabledAll(Start(msize), acts) && OrderlyAll(Start(msize), acts)
    ensures
      var s := Exec(Start(msize), acts);
      && Effects(s.server.fids, s.up + Messages(s.client.queue)) == s.client.fids
      && (s.up == [] && s.client.queue == [] ==> s.server.fids == s.client.fids)
      && s.served <= s.issued
      && (s.up != [] ==> |s.served| < |s.issued| && Check(s.server.fids, s.up[0].body) == s.issued[|s.served|])
  {
    assert Pending(Start(msize)) == [];
    ExecAgrees(Start(msize), acts);
    var s := Exec(Start(msize), acts);
    if s.up != [] { ServeAgrees(s, RError(NoPerm)); }
  }

  /** A call through live fids, walking in place or to a fid of its own
      choosing, is balanced and accepted by the client's table. */
  lemma LiveCallsAccepted(c: Client, call: Call)
    requires CanIssue(c, call) && Compose(c, call).Composed?
    requires match call
             case CallVersion(_, _) => true
             case CallAttach(hnd, _, _) => hnd.Some? ==> hnd.value in c.fids
             case CallWalk(from, to, _) => from.value in c.fids && (to.None? || to == from)
             case Call(b) => b.fid in c.fids
    ensures Balanced(c.fids, call)
    ensures Check(c.fids, Compose(c, call).body) == Accepted
  {
    FidAvailable(c.fids);
  }

  /** So the server refuses a fid, as unknown or as in use, exactly where the
      client's own table did when the request was made: never, even when the
      client reuses a fid right after clunking it, if and only if the client's
      table accepted all of it. */
  lemma NeverRefused(msize: nat, acts: seq<Action>)
    requires EnabledAll(Start(msize), acts) && OrderlyAll(Start(msize), acts)
    ensures
      var s := Exec(Start(msize), acts);
      && |s.served| <= |s.issued|
      && ((forall v <- s.served :: v.Accepted?) <==> forall v <- s.issued[..|s.served|] :: v.Accepted?)
      && ((forall v <- s.issued :: v.Accepted?) && s.up != [] ==> Check(s.server.fids, s.up[0].body) == Accepted)
  {
    FidAgreement(msize, acts);
    hide EnabledAll, OrderlyAll, Exec, Effects, Check;
    var s := Exec(Start(msize), acts);
    SameVerdicts(s.served, s.issued);
    if (forall v <- s.issued :: v.Accepted?) && s.up != [] { assert s.issued[|s.served|] in s.issued; }
  }

  lemma SameVerdicts(served: seq<Verdict>, issued: seq<Verdict>)
    requires served <= issued
    ensures (forall v <- served :: v.Accepted?) <==> forall v <- issued[..|served|] :: v.Accepted?
  {
    assert served == issued[..|served|];
  }

  /** Without the discipline on failures this breaks: a clunk that is held
      back, while the walk that reuses its fid goes out, is met with FID_USED
      although in queue order both would be accepted. */
  lemma HeldBackClunk(s: System, f: Fid, g: Fid, clunk: Queued, walk: Queued)
    requires f != g && f in s.server.fids && g in s.server.fids
    requires s.up == [] && s.client.queue == [clunk, walk]
    requires clunk.msg.body == TClunk(f) && walk.msg.body == TWalk(g, f, [])
    ensures Checks(s.server.fids, Pending(s)) == [Accepted, Accepted]
    ensures
      var s' := FlushClient(s, 0, [false, true]);
      s'.up == [walk.msg] && Check(s'.server.fids, s'.up[0].body) == Refused(FidUsed)
  {
    assert Pending(s) == [clunk.msg, walk.msg];
    assert [clunk.msg, walk.msg][1..] == [walk.msg] && [walk.msg][1..] == [];
    var fids := s.server.fids - {f};
    assert Checks(fids, [walk.msg]) == [Check(fids, walk.msg.body)] + Checks(Effect(fids, walk.msg.body), []);
    assert [false, true][1..] == [true];
    var s' := SendStep(s, 1);
    assert FlushClient(s, 1, [true]) == FlushClient(s', 1, []) == s';
  }

  // ------------------------------------------------------------ callback order

  /** Callbacks of sent requests in sending order: those run, then those that
      wait in flight. */
  ghost predicate InOrder(s: System) {
    s.sent == s.delivered + Waiting(InFlight(s), s.client.requests)
  }

  lemma {:induction false} FlushServerOrder(s: System, ok: seq<bool>)
    requires |ok| == |s.server.queue| && FailuresAtEnd(ok)
    ensures InFlight(FlushServer(s, 0, ok)) == InFlight(s)
    decreases |ok|
  {
    if ok != [] {
      if ok[0] {
        RespondFirst(s);
        FlushServerOrder(RespondStep(s, 0), ok[1..]);
      } else {
        RespondNone(s, 0, ok);
      }
    }
  }

  lemma RespondFirst(s: System)
    requires s.server.queue != []
    ensures InFlight(RespondStep(s, 0)) == InFlight(s)
  {
  }

  lemma {:induction false} RespondNone(s: System, i: nat, ok: seq<bool>)
    requires i + |ok| == |s.server.queue| && forall k | 0 <= k < |ok| :: !ok[k]
    ensures FlushServer(s, i, ok) == s
    decreases |ok|
  {
    if ok != [] { RespondNone(s, i + 1, ok[1..]); }
  }

  lemma SendInOrder(s: System, i: nat)
    requires Inv(s) && InOrder(s) && i < |s.client.queue|
    ensures InOrder(SendStep(s, i))
  {
    var s' := SendStep(s, i);
    var q := s.client.queue[i];
    assert InFlight(s') == InFlight(s) + [q.msg.tag];
    assert QueueTags(s.client.queue)[i] == q.msg.tag;
    assert q.msg.tag in QueueTags(s.client.queue);
    assert Waiting(InFlight(s'), s'.client.requests) ==
           Waiting(InFlight(s), s.client.requests) + [q.callback];
  }

  lemma {:induction false} FlushInOrder(s: System, i: nat, ok: seq<bool>)
    requires Inv(s) && InOrder(s) && i + |ok| == |s.client.queue|
    ensures InOrder(FlushClient(s, i, ok))
    decreases |ok|
  {
    if ok != [] {
      if ok[0] {
        SendInv(s, i);
        SendInOrder(s, i);
        var s1 := SendStep(s, i);
        assert FlushClient(s, i, ok) == FlushClient(s1, i, ok[1..]);
        FlushInOrder(s1, i, ok[1..]);
      } else {
        FlushInOrder(s, i + 1, ok[1..]);
      }
    }
  }

  lemma DeliverInOrder(s: System, calls: seq<Call>)
    requires Inv(s) && InOrder(s) && s.down != []
    requires CanIssueAll(s.(client := Touch(s.client, s.down[0].tag)), calls)
    ensures InOrder(DeliverStep(s, calls))
  {
    hide Size, Compose, CanQueue, LeastFree, InOrder;
    ResponseFindsRequest(s);
    assert s.(client := Touch(s.client, s.down[0].tag)) == s;
    IssueAllInv(s, calls);
    var s1 := IssueAll(s, calls);
    IssuedInOrder(s, s1);
    RetireInOrder(s1);
    assert DeliverStep(s, calls) == Retire(s1);
  }

  /** Issuing only touches the queue and the fids. */
  lemma IssuedInOrder(s: System, s1: System)
    requires InOrder(s)
    requires s1.up == s.up && s1.down == s.down && s1.server.queue == s.server.queue
    requires s1.sent == s.sent && s1.delivered == s.delivered && s1.client.requests == s.client.requests
    ensures InOrder(s1)
  {
    assert InFlight(s1) == InFlight(s);
  }

  lemma RetireInOrder(s: System)
    requires TagsConserved(s) && InOrder(s) && s.down != []
    requires s.down[0].tag in s.client.requests && s.client.requests[s.down[0].tag].callback.Some?
    ensures InOrder(Retire(s))
  {
    var t, rest := RetireTags(s);
    RetireWaiting(t, rest, s.client.requests);
  }

  predicate ServerInOrder(acts: seq<Action>) {
    forall a <- acts :: a.DoFlushServer? ==> FailuresAtEnd(a.ok)
  }

  lemma {:induction false} ExecInOrder(s: System, acts: seq<Action>)
    requires Inv(s) && InOrder(s) && EnabledAll(s, acts) && ServerInOrder(acts)
    ensures InOrder(Exec(s, acts))
    decreases |acts|
  {
    if acts != [] {
      StepInOrder(s, acts[0]);
      StepInv(s, acts[0]);
      ExecInOrder(Step(s, acts[0]), acts[1..]);
    }
  }

  lemma StepInOrder(s: System, a: Action)
    requires Inv(s) && InOrder(s) && Enabled(s, a)
    requires a.DoFlushServer? ==> FailuresAtEnd(a.ok)
    ensures InOrder(Step(s, a))
  {
    match a
    case DoIssue(call) =>
      IssueShape(s, call);
      assert InFlight(IssueStep(s, call)) == InFlight(s);
    case DoFlushClient(ok) => FlushInOrder(s, 0, ok);
    case DoServe(reply) => ServeInFlight(s, reply);
    case DoFlushServer(ok) =>
      FlushServerOrder(s, ok);
      FlushServerKeepsFids(s, 0, ok);
    case DoDeliver(calls) => DeliverInOrder(s, calls);
  }

  /** Callbacks run in the order their requests went out, as long as the
      server's own flushes fail only from some response on. */
  lemma CallbackOrder(msize: nat, acts: seq<Action>)
    requires EnabledAll(Start(msize), acts) && ServerInOrder(acts)
    ensures var s := Exec(Start(msize), acts); s.delivered <= s.sent
  {
    assert Inv(Start(msize)) && InOrder(Start(msize));
    ExecInOrder(Start(msize), acts);
  }
}
