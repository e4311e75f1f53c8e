/** What failed sends do to the agreement of the fid tables: exactly which
    patterns of failure keep it in the states a session reaches, and a run in
    which it is lost. */
module SessionFlush {
  import opened X9PProtocol
  import opened ClientProtocol
  import opened Session
  import opened SessionTags
  import opened SessionFids
  import opened SessionLead

  /** Messages of the queue whose send fared as v says, in order. */
  function Picked(q: seq<Queued>, ok: seq<bool>, v: bool): seq<Request>
    requires |q| == |ok|
  {
    if q == [] then []
    else (if ok[0] == v then [q[0].msg] else []) + Picked(q[1..], ok[1..], v)
  }

  lemma {:induction false} PickedFrom(q: seq<Queued>, ok: seq<bool>, v: bool)
    requires |q| == |ok|
    ensures forall m <- Picked(q, ok, v) :: exists k :: 0 <= k < |q| && ok[k] == v && q[k].msg == m
    ensures forall k | 0 <= k < |q| && ok[k] == v :: q[k].msg in Picked(q, ok, v)
  {
    if q != [] {
      PickedFrom(q[1..], ok[1..], v);
      var head, rest := if ok[0] == v then [q[0].msg] else [], Picked(q[1..], ok[1..], v);
      forall m | m in head + rest ensures exists k :: 0 <= k < |q| && ok[k] == v && q[k].msg == m {
        if m in rest {
          var k :| 0 <= k < |q[1..]| && ok[1..][k] == v && q[1..][k].msg == m;
          assert ok[k + 1] == v && q[k + 1].msg == m;
        } else {
          assert ok[0] == v && q[0].msg == m;
        }
      }
      forall k | 0 <= k < |q| && ok[k] == v ensures q[k].msg in head + rest {
        if k > 0 { assert q[1..][k - 1].msg in rest by { assert ok[1..][k - 1] == v; } }
      }
    }
  }

  lemma Sends(s: System, i: nat)
    requires i < |s.client.queue|
    ensures
      var t, q := SendStep(s, i), s.client.queue;
      && t.client.queue[..i] == q[..i] && t.client.queue[i..] == q[i + 1..] && |t.client.queue| == |q| - 1
      && t.client.fids == s.client.fids
  {
  }

  /** A flush puts the messages that could be sent on the wire and keeps the
      others, in order, and touches nothing else that agreement is about. */
  lemma {:induction false} FlushSplits(s: System, i: nat, ok: seq<bool>)
    requires i + |ok| == |s.client.queue|
    ensures
      var s', q := FlushClient(s, i, ok), s.client.queue;
      && s'.up == s.up + Picked(q[i..], ok, true)
      && Messages(s'.client.queue) == Messages(q[..i]) + Picked(q[i..], ok, false)
      && s'.client.fids == s.client.fids && s'.server == s.server && s'.issued == s.issued && s'.served == s.served
    decreases |ok|
  {
    hide Messages, SendAt;
    var q := s.client.queue;
    if ok == [] {
      assert q[..i] == q && q[i..] == [] && Messages(q[..i]) + [] == Messages(q);
    } else {
      assert q[i..][1..] == q[i + 1..] && q[i..][0] == q[i];
      if ok[0] {
        var t := SendStep(s, i);
        Sends(s, i);
        FlushSplits(t, i, ok[1..]);
        assert s.up + [q[i].msg] + Picked(q[i + 1..], ok[1..], true) == s.up + Picked(q[i..], ok, true);
      } else {
        FlushSplits(s, i + 1, ok[1..]);
        assert q[..i + 1] == q[..i] + [q[i]];
        MessagesAppend(q[..i], q[i]);
        assert Messages(q[..i]) + [q[i].msg] + Picked(q[i + 1..], ok[1..], false)
            == Messages(q[..i]) + Picked(q[i..], ok, false);
      }
    }
  }

  lemma {:induction false} EffectsConcat(fids: set<Fid>, a: seq<Request>, b: seq<Request>)
    ensures Effects(fids, a + b) == Effects(Effects(fids, a), b)
    decreases |a|
  {
    if a == [] {
      assert a + b == b;
    } else {
      assert (a + b)[0] == a[0] && (a + b)[1..] == a[1..] + b;
      EffectsConcat(Effect(fids, a[0].body), a[1..], b);
    }
  }

  // ------------------------------------------------------ the failing family

  const CLUNK := TClunk(1)
  const VERSION := TVersion(0, [])
  const OPEN := TOpen(0, OPEN_READ)

  /** Requests without effect on fids. */
  predicate Idle(b: Body) { b.TVersion? || b.TOpen? }

  /** A clunk of fid 1 is queued at i and a walk from 0 to 1 at j, among
      requests without effect. */
  predicate Tearable(q: seq<Queued>, i: nat, j: nat) {
    && i < j < |q| && q[i].msg.body == CLUNK && q[j].msg.body == WALK
    && forall k | 0 <= k < |q| && k != i && k != j :: Idle(q[k].msg.body)
  }

  lemma {:induction false} EffectsFull(ms: seq<Request>)
    requires forall m <- ms :: Idle(m.body) || m.body == WALK
    ensures Effects(BOTH, ms) == BOTH
    decreases |ms|
  {
    if ms != [] {
      assert ms[0] in ms && forall m <- ms[1..] :: m in ms;
      EffectsFull(ms[1..]);
    }
  }

  lemma {:induction false} EffectsClunked(fids: set<Fid>, ms: seq<Request>)
    requires forall m <- ms :: Idle(m.body) || m.body == CLUNK
    ensures Effects(fids, ms) == if exists m <- ms :: m.body == CLUNK then fids - {1} else fids
    decreases |ms|
  {
    if ms != [] {
      assert ms[0] in ms && forall m <- ms[1..] :: m in ms;
      EffectsClunked(Effect(fids, ms[0].body), ms[1..]);
      assert fids - {1} - {1} == fids - {1};
      if m :| m in ms && m.body == CLUNK {
        assert m == ms[0] || m in ms[1..];
      }
    }
  }

  lemma ClunkLast(sent: seq<Request>, held: seq<Request>)
    requires forall m <- sent :: Idle(m.body) || m.body == WALK
    requires (forall m <- held :: Idle(m.body) || m.body == CLUNK) && exists m <- held :: m.body == CLUNK
    ensures Effects(BOTH, sent + held) == BOTH - {1}
  {
    EffectsFull(sent);
    EffectsClunked(BOTH, held);
    EffectsConcat(BOTH, sent, held);
  }

  /** With the clunk held back and the walk sent the tables no longer agree: the
      walk is refused, and then the clunk takes the fid away. */
  lemma TornDisagrees(s: System, ok: seq<bool>, i: nat, j: nat)
    requires s.up == [] && s.server.fids == s.client.fids == BOTH && Tearable(s.client.queue, i, j)
    requires |ok| == |s.client.queue| && !ok[i] && ok[j]
    ensures !FidsAgree(FlushClient(s, 0, ok))
  {
    hide Check, Effect, Effects, Checks, FlushClient, Picked;
    var q := s.client.queue;
    FlushSplits(s, 0, ok);
    assert q[0..] == q && q[..0] == [];
    PickedFrom(q, ok, true);
    PickedFrom(q, ok, false);
    var sent, held := Picked(q, ok, true), Picked(q, ok, false);
    assert q[i].msg in held && q[i].msg.body == CLUNK;
    ClunkLast(sent, held);
    assert s.up + sent == sent && Messages(q[..0]) + held == held;
    assert 1 in BOTH && 1 !in BOTH - {1};
  }

  // -------------------------------------------------- it is reached by sessions

  /** Where the one version request goes, so that a queue may take all tags. */
  function Spare(i: nat, j: nat): nat {
    if i != 0 then 0 else if j != 1 then 1 else 2
  }

  function BodyAt(k: nat, i: nat, j: nat): Body {
    if k == i then CLUNK else if k == j then WALK else if k == Spare(i, j) then VERSION else OPEN
  }

  function CallAt(k: nat, i: nat, j: nat): Call {
    if k == i then Call(CLUNK)
    else if k == j then NEWFID
    else if k == Spare(i, j) then CallVersion(0, [])
    else Call(OPEN)
  }

  /** The session has settled but for k requests queued. */
  ghost predicate Filled(s: System, msize: nat, k: nat, i: nat, j: nat) {
    && s.up == [] && s.server == Connection(BOTH, [])
    && s.client.requests == map[] && s.client.msize == msize
    && s.client.fids == (if i < k <= j then {0} else BOTH)
    && |s.client.queue| == k && (forall p | 0 <= p < k :: s.client.queue[p].msg.body == BodyAt(p, i, j))
    && (NOTAG in QueueTags(s.client.queue) <==> Spare(i, j) < k)
    && forall v <- s.issued :: v == Accepted
  }

  function TagSet(tags: seq<Tag>): set<Tag> { set t | t in tags }

  lemma {:induction false} FewTags(tags: seq<Tag>)
    ensures |TagSet(tags)| <= |tags|
  {
    if tags != [] {
      FewTags(tags[1..]);
      assert TagSet(tags) == {tags[0]} + TagSet(tags[1..]);
    }
  }

  /** Fewer than 65536 tags in use, NOTAG being one of them once any number are,
      leave one to give. */
  lemma TagLeft(s: System, msize: nat, k: nat, i: nat, j: nat)
    requires Filled(s, msize, k, i, j) && k < 0x1_0000
    ensures NewTag(s.client) < NOTAG
    ensures NOTAG in TagsInUse(s.client) <==> Spare(i, j) < k
  {
    hide LeastFree, QueueTags, NewTag;
    FewTags(QueueTags(s.client.queue));
    TagsQueued(s.client);
    TagAvailable(s.client);
  }

  lemma TagsQueued(c: Client)
    requires c.requests == map[]
    ensures TagsInUse(c) == TagSet(QueueTags(c.queue))
  {
    hide LeastFree;
  }

  lemma CallFits(s: System, msize: nat, k: nat, i: nat, j: nat)
    requires msize >= 20 && i < j && Filled(s, msize, k, i, j) && k < 0x1_0000
    ensures
      var c, call := s.client, CallAt(k, i, j);
      && CanIssue(c, call) && Balanced(c.fids, call)
      && Compose(c, call) == Composed(BodyAt(k, i, j), if k == j then Some(1) else None)
      && (TagFor(c, call) == NOTAG <==> k == Spare(i, j))
  {
    hide LeastFree, QueueTags;
    TagLeft(s, msize, k, i, j);
    FirstFids();
  }

  lemma FillStep(s: System, msize: nat, k: nat, i: nat, j: nat)
    requires msize >= 20 && i < j && Filled(s, msize, k, i, j) && k < 0x1_0000
    ensures
      var a := DoIssue(CallAt(k, i, j));
      Enabled(s, a) && Orderly(s, a) && Filled(Step(s, a), msize, k + 1, i, j)
  {
    var c, call := s.client, CallAt(k, i, j);
    CallFits(s, msize, k, i, j);
    hide CanQueue, Compose, TagsInUse, Balanced;
    var item := Queued(Request(TagFor(c, call), BodyAt(k, i, j)), s.next);
    QueueAppend(c.queue, item);
    FidsFilled(k, i, j);
    assert Step(s, DoIssue(call)).client.queue == c.queue + [item];
    assert NOTAG in QueueTags(c.queue + [item]) <==> NOTAG in QueueTags(c.queue) || item.msg.tag == NOTAG;
  }

  lemma FidsFilled(k: nat, i: nat, j: nat)
    requires i < j
    ensures
      var before, after := if i < k <= j then {0} else BOTH, if i < k + 1 <= j then {0} else BOTH;
      && Check(before, BodyAt(k, i, j)) == Accepted
      && FidsAfter(before, Composed(BodyAt(k, i, j), if k == j then Some(1) else None)) == after
  {
    assert BOTH - {1} == {0} && {0} + {1} == BOTH;
  }

  /** A session comes to have any number of requests queued up to the number of
      tags, with the clunk and the walk wherever they are wanted. */
  lemma {:induction false} QueueFills(msize: nat, k: nat, i: nat, j: nat) returns (acts: seq<Action>, s: System)
    requires msize >= 20 && i < j && k <= 0x1_0000
    ensures Reaches(msize, acts, s) && Filled(s, msize, k, i, j)
  {
    hide Reaches;
    if k == 0 {
      SettledReaches(msize);
      acts, s := Settled(), S8(msize);
    } else {
      var init, t := QueueFills(msize, k - 1, i, j);
      FillStep(t, msize, k - 1, i, j);
      hide Filled, Enabled, Orderly, Step;
      var a := DoIssue(CallAt(k - 1, i, j));
      acts, s := init + [a], Step(t, a);
      assert Leads(t, a, s);
      OneMore(msize, init, t, a, s);
    }
  }

  /** No more can be queued. */
  lemma {:induction false} DistinctBelow(tags: seq<nat>, m: nat)
    requires Distinct(tags) && forall t <- tags :: t < m
    ensures |tags| <= m
  {
    if tags != [] {
      assert tags[0] in tags;
      if m - 1 in tags {
        var p :| 0 <= p < |tags| && tags[p] == m - 1;
        DistinctWithout(tags, p);
        var rest := Without(tags, p);
        forall t <- rest ensures t < m - 1 { WithoutElements(tags, p, t); }
        DistinctBelow(rest, m - 1);
      } else {
        DistinctBelow(tags, m - 1);
      }
    }
  }

  // ------------------------------------------------------------ main results

  /** The flush keeps agreement in whatever state an orderly session has come to
      with as many requests queued. */
  ghost predicate KeepsAgreement(msize: nat, ok: seq<bool>) {
    forall acts: seq<Action>, s: System | Reaches(msize, acts, s) && |s.client.queue| == |ok| ::
      FidsAgree(FlushClient(s, 0, ok))
  }

  /** A pattern of failures keeps the fid tables in agreement in every state an
      orderly session reaches if and only if it is a suffix of the queue, or
      longer than any queue, there being 65536 tags. (With messages of less
      than 20 bytes no fid can come about.) */
  lemma AgreementNeedsSuffix(msize: nat, ok: seq<bool>)
    requires msize >= 20
    ensures KeepsAgreement(msize, ok) <==> FailuresAtEnd(ok) || |ok| > 0x1_0000
  {
    hide Exec, EnabledAll, OrderlyAll;
    if FailuresAtEnd(ok) || |ok| > 0x1_0000 {
      forall acts: seq<Action>, s: System | Reaches(msize, acts, s) && |s.client.queue| == |ok|
        ensures FidsAgree(FlushClient(s, 0, ok))
      {
        StaysInOrder(msize, acts, s, ok);
      }
    } else {
      var i: nat, j: nat :| i < j < |ok| && ok[j] && !ok[i];
      var acts, s := QueueFills(msize, |ok|, i, j);
      TornDisagrees(s, ok, i, j);
    }
  }

  lemma StaysInOrder(msize: nat, acts: seq<Action>, s: System, ok: seq<bool>)
    requires Reaches(msize, acts, s) && |s.client.queue| == |ok| && (FailuresAtEnd(ok) || |ok| > 0x1_0000)
    ensures FidsAgree(FlushClient(s, 0, ok))
  {
    TagConservation(msize, acts);
    DistinctBelow(QueueTags(s.client.queue), 0x1_0000);
    assert Pending(Start(msize)) == [];
    ExecAgrees(Start(msize), acts);
    FlushKeepsOrder(s, ok);
  }

  /** A run in which a fid the client may use again is refused: every call goes
      through live fids and is accepted by the client's own table, and all is
      orderly but for the last flush, in which the clunk fails and the walk
      behind it does not. */
  lemma ReuseRefused(msize: nat) returns (acts: seq<Action>, s: System)
    requires msize >= 20
    ensures Reaches(msize, acts, s) && Enabled(s, DoFlushClient([false, true]))
    ensures forall v <- s.issued :: v == Accepted
    ensures
      var s' := Step(s, DoFlushClient([false, true]));
      s'.up != [] && Check(s'.server.fids, s'.up[0].body) == Refused(FidUsed)
  {
    acts, s := QueueFills(msize, 2, 0, 1);
    var q := s.client.queue;
    assert q == [q[0], q[1]];
    HeldBackClunk(s, 1, 0, q[0], q[1]);
  }
}
