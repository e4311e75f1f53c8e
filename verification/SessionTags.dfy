/** Conservation of tags and callbacks over every run of a session, however
    many sends fail. */
module SessionTags {
  import opened X9PProtocol
  import opened ClientProtocol
  import opened Session

  function RequestTags(ms: seq<Request>): (t: seq<Tag>)
    ensures |t| == |ms|
  {
    seq(|ms|, i requires 0 <= i < |ms| => ms[i].tag)
  }

  function ResponseTags(rs: seq<Response>): (t: seq<Tag>)
    ensures |t| == |rs|
  {
    seq(|rs|, i requires 0 <= i < |rs| => rs[i].tag)
  }

  function Callbacks(q: seq<Queued>): (c: seq<nat>)
    ensures |c| == |q|
  {
    seq(|q|, i requires 0 <= i < |q| => q[i].callback)
  }

  /** Tags on their way, oldest first. */
  function InFlight(s: System): seq<Tag> {
    ResponseTags(s.down) + ResponseTags(s.server.queue) + RequestTags(s.up)
  }

  function CallbackOf(table: map<Tag, Sent>, t: Tag): nat {
    if t in table && table[t].callback.Some? then table[t].callback.value else 0
  }

  /** Callbacks that wait for the tags given. */
  function Waiting(tags: seq<Tag>, table: map<Tag, Sent>): (c: seq<nat>)
    ensures |c| == |tags|
  {
    seq(|tags|, i requires 0 <= i < |tags| => CallbackOf(table, tags[i]))
  }

  /** The callbacks 0 .. n-1, each once. */
  ghost function Allocated(n: nat): multiset<nat> {
    if n == 0 then multiset{} else Allocated(n - 1) + multiset{n - 1}
  }

  ghost predicate Distinct<T>(s: seq<T>) {
    forall i, j | 0 <= i < j < |s| :: s[i] != s[j]
  }

  /** Outstanding entries are well formed and keyed by their own tag. */
  ghost predicate TableOk(table: map<Tag, Sent>) {
    forall t <- table :: table[t].tag == t && table[t].callback.Some?
  }

  /** The outstanding tags are exactly the tags in flight, each once; queued
      tags are distinct and none of them is outstanding. */
  ghost predicate Conserved(queued: seq<Tag>, flying: seq<Tag>, table: map<Tag, Sent>) {
    && TableOk(table)
    && Distinct(flying)
    && (forall t :: t in flying <==> t in table)
    && Distinct(queued)
    && (forall t <- queued :: t !in table)
  }

  ghost predicate TagsConserved(s: System) {
    Conserved(QueueTags(s.client.queue), InFlight(s), s.client.requests)
  }

  ghost predicate RequestKinds(ms: seq<Request>, table: map<Tag, Sent>) {
    forall m <- ms :: m.tag in table && table[m.tag].kind == TypeOf(m.body)
  }

  ghost predicate ResponseKinds(rs: seq<Response>, table: map<Tag, Sent>) {
    forall r <- rs :: r.tag in table && Answers(table[r.tag].kind, r.reply)
  }

  /** Every message in flight agrees with the entry its tag finds. */
  ghost predicate KindsMatch(s: System) {
    && RequestKinds(s.up, s.client.requests)
    && ResponseKinds(s.server.queue, s.client.requests)
    && ResponseKinds(s.down, s.client.requests)
  }

  /** Every callback ever allocated was rejected at once, is queued, or was
      sent; and every one sent has been delivered or waits in flight. */
  ghost predicate CallbacksConserved(s: System) {
    && multiset(s.rejected) + multiset(Callbacks(s.client.queue)) + multiset(s.sent) == Allocated(s.next)
    && multiset(s.sent) == multiset(s.delivered) + multiset(Waiting(InFlight(s), s.client.requests))
  }

  ghost predicate Inv(s: System) {
    TagsConserved(s) && KindsMatch(s) && CallbacksConserved(s)
  }

  // -------------------------------------------------------- sequence facts

  function Without<T>(s: seq<T>, i: nat): (r: seq<T>)
    requires i < |s|
    ensures |r| == |s| - 1
  {
    s[..i] + s[i + 1..]
  }

  lemma WithoutElements<T>(s: seq<T>, i: nat, x: T)
    requires i < |s|
    ensures x in s <==> x in Without(s, i) || x == s[i]
    ensures multiset(s) == multiset(Without(s, i)) + multiset{s[i]}
  {
    assert s == s[..i] + [s[i]] + s[i + 1..];
  }

  lemma DistinctWithout<T>(s: seq<T>, i: nat)
    requires i < |s| && Distinct(s)
    ensures Distinct(Without(s, i)) && s[i] !in Without(s, i)
  {
  }

  lemma DistinctConcat<T>(a: seq<T>, b: seq<T>)
    ensures Distinct(a + b) <==> Distinct(a) && Distinct(b) && forall x <- a :: x !in b
  {
    if Distinct(a + b) {
      forall i, j | 0 <= i < j < |a| ensures a[i] != a[j] {
        assert (a + b)[i] == a[i] && (a + b)[j] == a[j];
      }
      forall i, j | 0 <= i < j < |b| ensures b[i] != b[j] {
        assert (a + b)[|a| + i] == b[i] && (a + b)[|a| + j] == b[j];
      }
      forall i, j | 0 <= i < |a| && 0 <= j < |b| ensures a[i] != b[j] {
        assert (a + b)[i] == a[i] && (a + b)[|a| + j] == b[j];
      }
    }
    if forall x <- a :: x !in b {
      forall i, j | 0 <= i < |a| && 0 <= j < |b| ensures a[i] != b[j] {
        assert a[i] in a;
      }
    }
  }

  lemma QueueAppend(q: seq<Queued>, x: Queued)
    ensures QueueTags(q + [x]) == QueueTags(q) + [x.msg.tag]
    ensures Callbacks(q + [x]) == Callbacks(q) + [x.callback]
  {
  }

  lemma QueueWithout(q: seq<Queued>, i: nat)
    requires i < |q|
    ensures QueueTags(Without(q, i)) == Without(QueueTags(q), i)
    ensures Callbacks(Without(q, i)) == Without(Callbacks(q), i)
  {
  }

  lemma ResponsesWithout(q: seq<Response>, i: nat)
    requires i < |q|
    ensures ResponseTags(Without(q, i)) == Without(ResponseTags(q), i)
  {
  }

  // ------------------------------------------------------------------ steps

  lemma IssueTags(s: System, call: Call)
    requires TagsConserved(s) && CanIssue(s.client, call)
    ensures TagsConserved(IssueStep(s, call))
  {
    var m := Compose(s.client, call);
    var s' := IssueStep(s, call);
    assert InFlight(s') == InFlight(s);
    if m.Composed? {
      QueueAppend(s.client.queue, Queued(Request(TagFor(s.client, call), m.body), s.next));
      assert TagFor(s.client, call) !in TagsInUse(s.client);
    }
  }

  /** A call that gets queued keeps the tags in order exactly when it is not a
      second version request beside one still under way. */
  lemma VersionAlone(s: System, call: Call)
    requires TagsConserved(s) && CanQueue(s.client, call) && Compose(s.client, call).Composed?
    ensures TagsConserved(IssueStep(s, call)) <==> CanIssue(s.client, call)
  {
    if CanIssue(s.client, call) {
      IssueTags(s, call);
    } else {
      var q := s.client.queue;
      QueueAppend(q, Queued(Request(NOTAG, Compose(s.client, call).body), s.next));
      var tags := QueueTags(IssueStep(s, call).client.queue);
      assert tags == QueueTags(q) + [NOTAG];
      assert tags[|q|] == NOTAG && NOTAG in tags;
      if NOTAG in QueueTags(q) {
        var i :| 0 <= i < |q| && QueueTags(q)[i] == NOTAG;
        assert tags[i] == tags[|q|];
      }
    }
  }

  /** The shape of an issued call, without the detail of composing it. */
  lemma IssueShape(s: System, call: Call)
    requires CanQueue(s.client, call)
    ensures
      var s' := IssueStep(s, call);
      && s'.client.requests == s.client.requests
      && s'.up == s.up && s'.down == s.down && s'.server == s.server
      && s'.sent == s.sent && s'.delivered == s.delivered && s'.served == s.served
      && s'.next == s.next + 1
      && ((s'.rejected == s.rejected + [s.next] && s'.client == s.client)
          || (s'.rejected == s.rejected && |s'.client.queue| == |s.client.queue| + 1
              && Callbacks(s'.client.queue) == Callbacks(s.client.queue) + [s.next]))
  {
    var m := Compose(s.client, call);
    if m.Composed? {
      QueueAppend(s.client.queue, Queued(Request(TagFor(s.client, call), m.body), s.next));
    }
  }

  lemma IssueCallbacks(s: System, call: Call)
    requires CanIssue(s.client, call) && CallbacksConserved(s)
    ensures CallbacksConserved(IssueStep(s, call))
  {
    IssueShape(s, call);
    hide IssueStep, CanIssue, CallbacksConserved, Callbacks;
    CallbacksGrow(s, IssueStep(s, call));
  }

  lemma CallbacksGrow(s: System, s': System)
    requires CallbacksConserved(s) && s'.next == s.next + 1
    requires s'.client.requests == s.client.requests && s'.sent == s.sent && s'.delivered == s.delivered
    requires s'.up == s.up && s'.down == s.down && s'.server == s.server
    requires
      var cbs, cbs' := Callbacks(s.client.queue), Callbacks(s'.client.queue);
      || (s'.rejected == s.rejected + [s.next] && cbs' == cbs)
      || (s'.rejected == s.rejected && cbs' == cbs + [s.next])
    ensures CallbacksConserved(s')
  {
    hide Callbacks, Waiting, ResponseTags, RequestTags, Allocated;
    OneMoreCallback(s.rejected, Callbacks(s.client.queue), s'.rejected, Callbacks(s'.client.queue), multiset(s.sent), s.next);
  }

  lemma OneMoreCallback(rejected: seq<nat>, queued: seq<nat>, rejected': seq<nat>, queued': seq<nat>, sent: multiset<nat>,
                        n: nat)
    requires multiset(rejected) + multiset(queued) + sent == Allocated(n)
    requires (rejected' == rejected + [n] && queued' == queued) || (rejected' == rejected && queued' == queued + [n])
    ensures multiset(rejected') + multiset(queued') + sent == Allocated(n + 1)
  {
    Grow(multiset(rejected), multiset(queued), sent, n);
    hide Allocated;
  }

  lemma Grow(a: multiset<nat>, b: multiset<nat>, c: multiset<nat>, n: nat)
    requires a + b + c == Allocated(n)
    ensures (a + multiset{n}) + b + c == Allocated(n + 1)
    ensures a + (b + multiset{n}) + c == Allocated(n + 1)
  {
  }

  lemma IssueInv(s: System, call: Call)
    requires Inv(s) && CanIssue(s.client, call)
    ensures Inv(IssueStep(s, call))
  {
    IssueTags(s, call);
    IssueShape(s, call);
    IssueCallbacks(s, call);
  }

  /** A queued tag takes off. */
  lemma TakeOff(queued: seq<Tag>, i: nat, flying: seq<Tag>, table: map<Tag, Sent>, e: Sent)
    requires i < |queued| && Conserved(queued, flying, table)
    requires e.tag == queued[i] && e.callback.Some?
    ensures queued[i] !in table
    ensures Conserved(Without(queued, i), flying + [queued[i]], table[queued[i] := e])
  {
    var t := queued[i];
    DistinctWithout(queued, i);
    DistinctConcat(flying, [t]);
    forall u ensures u in Without(queued, i) ==> u in queued { WithoutElements(queued, i, u); }
  }

  lemma SendInv(s: System, i: nat)
    requires Inv(s) && i < |s.client.queue|
    ensures Inv(SendStep(s, i))
  {
    var s' := SendStep(s, i);
    var q := s.client.queue[i];
    var t, table := q.msg.tag, s.client.requests;
    assert InFlight(s') == InFlight(s) + [t];
    QueueWithout(s.client.queue, i);
    assert s'.client.queue == Without(s.client.queue, i);
    TakeOff(QueueTags(s.client.queue), i, InFlight(s), table, Sent(TypeOf(q.msg.body), t, Some(q.callback)));
    WithoutElements(Callbacks(s.client.queue), i, q.callback);
    SendWaiting(InFlight(s), t, table, q);
  }

  lemma SendWaiting(flying: seq<Tag>, t: Tag, table: map<Tag, Sent>, q: Queued)
    requires t !in table && t == q.msg.tag && forall u <- flying :: u in table
    ensures
      Waiting(flying + [t], table[t := Sent(TypeOf(q.msg.body), t, Some(q.callback))]) ==
      Waiting(flying, table) + [q.callback]
  {
    forall i | 0 <= i < |flying| ensures flying[i] != t { assert flying[i] in flying; }
  }

  lemma ServeInv(s: System, reply: Reply)
    requires Inv(s) && s.up != []
    requires Responds(Check(s.server.fids, s.up[0].body), s.up[0].body, reply)
    ensures Inv(ServeStep(s, reply))
  {
    var s' := ServeStep(s, reply);
    ServeInFlight(s, reply);
    assert RequestKinds(s'.up, s.client.requests);
    assert ResponseKinds(s'.server.queue, s.client.requests);
  }

  /** Answering a request moves its tag one place along the pipeline. */
  lemma ServeInFlight(s: System, reply: Reply)
    requires s.up != []
    ensures InFlight(ServeStep(s, reply)) == InFlight(s)
  {
  }

  lemma RespondInv(s: System, i: nat)
    requires Inv(s) && i < |s.server.queue|
    ensures Inv(RespondStep(s, i))
  {
    var s' := RespondStep(s, i);
    var q, table := s.server.queue, s.client.requests;
    assert s'.server.queue == Without(q, i);
    ResponsesWithout(q, i);
    var d, k, u := ResponseTags(s.down), ResponseTags(q), RequestTags(s.up);
    assert ResponseTags(s'.down) == d + [k[i]];
    Landing(d, k, i, u);
    LandingCallbacks(d, k, i, u, table);
    forall r ensures r in Without(q, i) ==> r in q { WithoutElements(q, i, r); }
  }

  /** Sending the i-th response permutes the tags in flight. */
  lemma Landing(d: seq<Tag>, k: seq<Tag>, i: nat, u: seq<Tag>)
    requires i < |k| && Distinct(d + k + u)
    ensures Distinct((d + [k[i]]) + Without(k, i) + u)
    ensures forall t :: t in (d + [k[i]]) + Without(k, i) + u <==> t in d + k + u
  {
    var r := Without(k, i);
    forall t ensures t in k <==> t in r || t == k[i] { WithoutElements(k, i, t); }
    DistinctConcat(d + k, u);
    DistinctConcat(d, k);
    DistinctWithout(k, i);
    DistinctConcat(d, [k[i]]);
    DistinctConcat(d + [k[i]], r);
    DistinctConcat((d + [k[i]]) + r, u);
  }

  lemma LandingCallbacks(d: seq<Tag>, k: seq<Tag>, i: nat, u: seq<Tag>, table: map<Tag, Sent>)
    requires i < |k|
    ensures multiset(Waiting((d + [k[i]]) + Without(k, i) + u, table)) == multiset(Waiting(d + k + u, table))
  {
    var wd, wk, wu := Waiting(d, table), Waiting(k, table), Waiting(u, table);
    assert Waiting(d + k + u, table) == wd + wk + wu;
    assert Waiting((d + [k[i]]) + Without(k, i) + u, table) == (wd + [wk[i]]) + Without(wk, i) + wu;
    MoveOne(wd, wk, i, wu);
  }

  lemma MoveOne<T>(a: seq<T>, b: seq<T>, i: nat, c: seq<T>)
    requires i < |b|
    ensures multiset((a + [b[i]]) + Without(b, i) + c) == multiset(a + b + c)
  {
    WithoutElements(b, i, b[i]);
  }

  /** The callbacks of one response may make any number of calls first. */
  lemma {:induction false} IssueAllInv(s: System, calls: seq<Call>)
    requires Inv(s) && CanIssueAll(s, calls)
    ensures Inv(IssueAll(s, calls))
    ensures
      var s' := IssueAll(s, calls);
      && s'.client.requests == s.client.requests
      && s'.up == s.up && s'.down == s.down && s'.server == s.server
      && s'.sent == s.sent && s'.delivered == s.delivered && s'.served == s.served
    decreases |calls|
  {
    if calls != [] {
      IssueInv(s, calls[0]);
      IssueShape(s, calls[0]);
      IssueAllInv(IssueStep(s, calls[0]), calls[1..]);
    }
  }

  /** The oldest response always finds its request: the entry is there, holds
      a callback and that callback is of the response's kind. */
  lemma ResponseFindsRequest(s: System)
    requires Inv(s) && s.down != []
    ensures s.down[0].tag in s.client.requests
    ensures
      var e := s.client.requests[s.down[0].tag];
      e.tag == s.down[0].tag && e.callback.Some? && Answers(e.kind, s.down[0].reply)
    ensures Touch(s.client, s.down[0].tag) == s.client
  {
    assert s.down[0] in s.down;
  }

  /** Landing the oldest response: its tag leaves the table and the flight. */
  lemma RetireTag(queued: seq<Tag>, t: Tag, rest: seq<Tag>, table: map<Tag, Sent>)
    requires Conserved(queued, [t] + rest, table)
    ensures Conserved(queued, rest, table - {t}) && t !in rest
    ensures t in table
  {
    DistinctConcat([t], rest);
    assert t in [t] + rest;
    forall u ensures u in [t] + rest <==> u == t || u in rest {}
  }

  /** The oldest response leaves with its table entry, its callback run. */
  function Retire(s: System): System
    requires s.down != [] && s.down[0].tag in s.client.requests
    requires s.client.requests[s.down[0].tag].callback.Some?
  {
    var t := s.down[0].tag;
    s.(client := Forget(s.client, t), down := s.down[1..],
       delivered := s.delivered + [s.client.requests[t].callback.value])
  }

  lemma RetireTags(s: System) returns (t: Tag, rest: seq<Tag>)
    requires TagsConserved(s) && s.down != []
    ensures t == s.down[0].tag && InFlight(s) == [t] + rest && t !in rest
    ensures t in s.client.requests && s.client.requests[t].callback.Some?
    ensures InFlight(Retire(s)) == rest && TagsConserved(Retire(s))
    ensures rest == ResponseTags(s.down[1..]) + ResponseTags(s.server.queue) + RequestTags(s.up)
  {
    t := s.down[0].tag;
    rest := ResponseTags(s.down[1..]) + ResponseTags(s.server.queue) + RequestTags(s.up);
    assert InFlight(s) == [t] + rest;
    RetireTag(QueueTags(s.client.queue), t, rest, s.client.requests);
  }

  lemma RetireWaiting(t: Tag, rest: seq<Tag>, table: map<Tag, Sent>)
    requires t !in rest
    ensures Waiting([t] + rest, table) == [CallbackOf(table, t)] + Waiting(rest, table - {t})
  {
    forall i | 0 <= i < |rest| ensures rest[i] != t { assert rest[i] in rest; }
  }

  lemma RetireInv(s: System)
    requires Inv(s) && s.down != []
    ensures s.down[0].tag in s.client.requests && s.client.requests[s.down[0].tag].callback.Some?
    ensures Inv(Retire(s))
  {
    var t, rest := RetireTags(s);
    RetireWaiting(t, rest, s.client.requests);
    RetireKinds(s, t, rest);
  }

  lemma RetireKinds(s: System, t: Tag, rest: seq<Tag>)
    requires KindsMatch(s) && s.down != [] && t !in rest
    requires rest == ResponseTags(s.down[1..]) + ResponseTags(s.server.queue) + RequestTags(s.up)
    ensures RequestKinds(s.up, s.client.requests - {t})
    ensures ResponseKinds(s.server.queue, s.client.requests - {t})
    ensures ResponseKinds(s.down[1..], s.client.requests - {t})
  {
    forall m <- s.up ensures m.tag != t {
      var i :| 0 <= i < |s.up| && s.up[i] == m;
      assert RequestTags(s.up)[i] == m.tag;
      assert m.tag in RequestTags(s.up);
    }
    forall r <- s.server.queue ensures r.tag != t {
      var i :| 0 <= i < |s.server.queue| && s.server.queue[i] == r;
      assert ResponseTags(s.server.queue)[i] == r.tag;
      assert r.tag in ResponseTags(s.server.queue);
    }
    forall r <- s.down[1..] ensures r.tag != t {
      var i :| 0 <= i < |s.down[1..]| && s.down[1..][i] == r;
      assert ResponseTags(s.down[1..])[i] == r.tag;
      assert r.tag in ResponseTags(s.down[1..]);
    }
  }

  lemma DeliverInv(s: System, calls: seq<Call>)
    requires Inv(s) && s.down != []
    requires CanIssueAll(s.(client := Touch(s.client, s.down[0].tag)), calls)
    ensures Inv(DeliverStep(s, calls))
    ensures DeliverStep(s, calls).delivered ==
            s.delivered + [s.client.requests[s.down[0].tag].callback.value]
  {
    ResponseFindsRequest(s);
    assert s.(client := Touch(s.client, s.down[0].tag)) == s;
    IssueAllInv(s, calls);
    RetireInv(IssueAll(s, calls));
  }

  lemma {:induction false} FlushClientInv(s: System, i: nat, ok: seq<bool>)
    requires Inv(s) && i + |ok| == |s.client.queue|
    ensures Inv(FlushClient(s, i, ok))
    decreases |ok|
  {
    if ok != [] {
      if ok[0] {
        SendInv(s, i);
        FlushClientInv(SendStep(s, i), i, ok[1..]);
      } else {
        FlushClientInv(s, i + 1, ok[1..]);
      }
    }
  }

  lemma {:induction false} FlushServerInv(s: System, i: nat, ok: seq<bool>)
    requires Inv(s) && i + |ok| == |s.server.queue|
    ensures Inv(FlushServer(s, i, ok))
    decreases |ok|
  {
    if ok != [] {
      if ok[0] {
        RespondInv(s, i);
        var s1 := RespondStep(s, i);
        assert FlushServer(s, i, ok) == FlushServer(s1, i, ok[1..]);
        FlushServerInv(s1, i, ok[1..]);
      } else {
        FlushServerInv(s, i + 1, ok[1..]);
      }
    }
  }

  lemma {:induction false} StepInv(s: System, a: Action)
    requires Inv(s) && Enabled(s, a)
    ensures Inv(Step(s, a))
  {
    match a
    case DoIssue(call) => IssueInv(s, call);
    case DoFlushClient(ok) => FlushClientInv(s, 0, ok);
    case DoServe(reply) => ServeInv(s, reply);
    case DoFlushServer(ok) => FlushServerInv(s, 0, ok);
    case DoDeliver(calls) => DeliverInv(s, calls);
  }

  lemma {:induction false} ExecInv(s: System, acts: seq<Action>)
    requires Inv(s) && EnabledAll(s, acts)
    ensures Inv(Exec(s, acts))
    decreases |acts|
  {
    if acts != [] {
      StepInv(s, acts[0]);
      ExecInv(Step(s, acts[0]), acts[1..]);
    }
  }

  // ------------------------------------------------------------ main results

  /** In every reachable state, however many sends failed on either side, tags,
      message kinds and callbacks are conserved. */
  lemma TagConservation(msize: nat, acts: seq<Action>)
    requires EnabledAll(Start(msize), acts)
    ensures Inv(Exec(Start(msize), acts))
  {
    assert Inv(Start(msize));
    ExecInv(Start(msize), acts);
  }

  lemma {:induction false} AllocatedOnce(n: nat, k: nat)
    ensures Allocated(n)[k] == if k < n then 1 else 0
  {
    if n > 0 { AllocatedOnce(n - 1, k); }
  }

  /** In every run no callback runs twice, and once nothing is queued or in
      flight every callback ever allocated has run exactly once. */
  lemma CallbacksRunOnce(msize: nat, acts: seq<Action>, cb: nat)
    requires EnabledAll(Start(msize), acts)
    ensures
      var s := Exec(Start(msize), acts);
      var runs := multiset(s.rejected)[cb] + multiset(s.delivered)[cb];
      && runs <= (if cb < s.next then 1 else 0)
      && (s.client.queue == [] && s.client.requests == map[] ==> runs == if cb < s.next then 1 else 0)
  {
    TagConservation(msize, acts);
    var s := Exec(Start(msize), acts);
    AllocatedOnce(s.next, cb);
    var total := multiset(s.rejected) + multiset(Callbacks(s.client.queue)) + multiset(s.sent);
    assert total[cb] == multiset(s.rejected)[cb] + multiset(Callbacks(s.client.queue))[cb] + multiset(s.sent)[cb];
    if s.client.requests == map[] {
      assert forall t :: t !in InFlight(s);
      assert InFlight(s) == [];
    }
  }
}
