/** A session that gets going: the client attaches, walks to a second fid, and
    has both answers, state by state. */
module SessionLead {
  import opened X9PProtocol
  import opened ClientProtocol
  import opened Session
  import opened SessionTags
  import opened SessionFids

  const BOTH: set<Fid> := {0, 1}
  const ATTACH := TAttach(0, [], [])
  const WALK := TWalk(0, 1, [])
  const NEWFID := CallWalk(Some(0), None, [])

  const A0 := DoIssue(CallAttach(None, [], []))
  const A1 := DoIssue(NEWFID)
  const A2 := DoFlushClient([true, true])
  const A3 := DoServe(RAttach(Qid(true, 0, 0)))
  const A4 := DoServe(RWalk([]))
  const A5 := DoFlushServer([true, true])
  const LAND := DoDeliver([])

  function Item(n: Tag, b: Body): Queued { Queued(Request(n, b), n) }

  // The states the run passes through.

  function S1(msize: nat): System {
    Start(msize).(client := Client([Item(0, ATTACH)], map[], {0}, msize), next := 1, issued := [Accepted])
  }

  function S2(msize: nat): System {
    Start(msize).(client := Client([Item(0, ATTACH), Item(1, WALK)], map[], BOTH, msize), next := 2,
                  issued := [Accepted, Accepted])
  }

  const TABLE: map<Tag, Sent> := map[0 := Sent(TATTACH, 0, Some(0)), 1 := Sent(TWALK, 1, Some(1))]
  const R0 := Response(0, RAttach(Qid(true, 0, 0)))
  const R1 := Response(1, RWalk([]))

  function S3(msize: nat): System {
    S2(msize).(client := Client([], TABLE, BOTH, msize), up := [Request(0, ATTACH), Request(1, WALK)], sent := [0, 1])
  }

  function S4(msize: nat): System {
    S3(msize).(up := [Request(1, WALK)], server := Connection({0}, [R0]), served := [Accepted])
  }

  function S5(msize: nat): System {
    S3(msize).(up := [], server := Connection(BOTH, [R0, R1]), served := [Accepted, Accepted])
  }

  /** The responses are sent and delivered one by one. */
  function S6(msize: nat): System {
    S5(msize).(server := Connection(BOTH, []), down := [R0, R1])
  }

  function S7(msize: nat): System {
    S6(msize).(client := Client([], map[1 := Sent(TWALK, 1, Some(1))], BOTH, msize), down := [R1], delivered := [0])
  }

  function S8(msize: nat): System {
    S6(msize).(client := Client([], map[], BOTH, msize), down := [], delivered := [0, 1])
  }

  /** a leads from s to s' and is orderly. */
  predicate Leads(s: System, a: Action, s': System) {
    Enabled(s, a) && Orderly(s, a) && Step(s, a) == s'
  }

  lemma FirstFids()
    ensures NewFid({}) == 0 && NewFid({0}) == 1 && NewFid(BOTH) < 100
  {
    assert LeastFree({0}, 1) == 1;
    FidAvailable(BOTH);
    assert |BOTH| == 2;
  }

  lemma FreshTag(c: Client, used: set<nat>, n: nat)
    requires TagsInUse(c) == used && n !in used && forall t: nat | t < n :: t in used
    ensures NewTag(c) == n
  {
    TagAvailable(c);
    if NewTag(c) > n { LeastFreeIsLeast(TagsInUse(c), 0, n); }
  }

  lemma ToS1(msize: nat)
    requires msize >= 20
    ensures Leads(Start(msize), A0, S1(msize))
  {
    FirstFids();
    FreshTag(Start(msize).client, {}, 0);
    assert [] + [Item(0, ATTACH)] == [Item(0, ATTACH)];
  }

  lemma ToS2(msize: nat)
    requires msize >= 20
    ensures Leads(S1(msize), A1, S2(msize))
  {
    hide Step, FlushClient, CanIssue, Compose, LeastFree;
    var c := S1(msize).client;
    FirstFids();
    assert QueueTags(c.queue) == [0];
    FreshTag(c, {0}, 1);
    FirstWalkIssued(msize);
  }

  lemma FirstWalkIssued(msize: nat)
    requires msize >= 20 && NewFid({0}) == 1 && NewTag(S1(msize).client) == 1
    ensures CanIssue(S1(msize).client, NEWFID) && Step(S1(msize), A1) == S2(msize)
  {
    hide LeastFree, Effect, FlushClient;
    assert [Item(0, ATTACH)] + [Item(1, WALK)] == [Item(0, ATTACH), Item(1, WALK)];
    assert {0} + {1} == BOTH;
  }

  lemma ToS3(msize: nat)
    ensures Leads(S2(msize), A2, S3(msize))
  {
    hide Enabled, Orderly, Check, Effect, FlushClient;
    var s := S2(msize);
    FlushTwo(s);
    var t := SendStep(s, 0);
    assert t.client.queue == [Item(1, WALK)];
    var u := SendStep(t, 0);
    assert u.client.queue == [] && u.up == [Request(0, ATTACH), Request(1, WALK)] && u.sent == [0, 1];
    Unconditional(s, A2);
  }

  lemma Unconditional(s: System, a: Action)
    requires a.DoFlushClient? && |a.ok| == |s.client.queue| && FailuresAtEnd(a.ok)
    ensures Enabled(s, a) && Orderly(s, a)
  {
  }

  lemma ToS4(msize: nat)
    ensures Leads(S3(msize), A3, S4(msize))
  {
    hide CanQueue, Compose;
    assert [Request(0, ATTACH), Request(1, WALK)][1..] == [Request(1, WALK)];
    var none: set<Fid> := {};
    assert none + {0} == {0} && [] + [R0] == [R0];
  }

  lemma ToS5(msize: nat)
    ensures Leads(S4(msize), A4, S5(msize))
  {
    hide CanQueue, Compose;
    assert [Request(1, WALK)][1..] == [];
    assert {0} + {1} == BOTH && [R0] + [R1] == [R0, R1];
  }

  lemma ToS6(msize: nat)
    ensures Leads(S5(msize), A5, S6(msize))
  {
    hide CanQueue, Compose, FlushServer;
    var s := S5(msize);
    FlushServerTwo(s);
    var t := RespondStep(s, 0);
    assert t.server.queue == [R1] && t.down == [R0];
    var u := RespondStep(t, 0);
    assert u.server.queue == [] && u.down == [R0, R1];
  }

  lemma ToS7(msize: nat)
    ensures Leads(S6(msize), LAND, S7(msize))
  {
    hide CanQueue, Compose;
    assert [R0, R1][1..] == [R1] && [] + [0] == [0];
    assert TABLE - {0} == map[1 := Sent(TWALK, 1, Some(1))];
  }

  lemma ToS8(msize: nat)
    ensures Leads(S7(msize), LAND, S8(msize))
  {
    hide CanQueue, Compose;
    assert [R1][1..] == [] && [0] + [1] == [0, 1];
    assert map[1 := Sent(TWALK, 1, Some(1))] - {1} == map[];
  }

  /** Attach and walk to a new fid, both served. */
  function Served(): seq<Action> { [A0, A1, A2, A3, A4] }

  /** And both answers delivered. */
  function Settled(): seq<Action> { Served() + [A5] + [LAND] + [LAND] }

  ghost predicate Reaches(msize: nat, acts: seq<Action>, s: System) {
    EnabledAll(Start(msize), acts) && OrderlyAll(Start(msize), acts) && Exec(Start(msize), acts) == s
  }

  lemma OneMore(msize: nat, acts: seq<Action>, s: System, a: Action, s': System)
    requires Reaches(msize, acts, s) && Leads(s, a, s')
    ensures Reaches(msize, acts + [a], s')
  {
    hide Enabled, Step, Orderly, Start;
    Append(Start(msize), acts, a);
  }

  lemma ServedReaches(msize: nat)
    requires msize >= 20
    ensures Reaches(msize, Served(), S5(msize))
  {
    hide Leads, S1, S2, S3, S4, S5;
    assert Reaches(msize, [], Start(msize));
    hide Reaches;
    ToS1(msize);
    OneMore(msize, [], Start(msize), A0, S1(msize));
    ToS2(msize);
    OneMore(msize, [] + [A0], S1(msize), A1, S2(msize));
    ToS3(msize);
    OneMore(msize, [] + [A0] + [A1], S2(msize), A2, S3(msize));
    ToS4(msize);
    OneMore(msize, [] + [A0] + [A1] + [A2], S3(msize), A3, S4(msize));
    ToS5(msize);
    OneMore(msize, [] + [A0] + [A1] + [A2] + [A3], S4(msize), A4, S5(msize));
    assert [] + [A0] + [A1] + [A2] + [A3] + [A4] == Served();
  }

  lemma SettledReaches(msize: nat)
    requires msize >= 20
    ensures Reaches(msize, Settled(), S8(msize))
  {
    hide Leads, S5, S6, S7, S8, Reaches;
    ServedReaches(msize);
    ToS6(msize);
    OneMore(msize, Served(), S5(msize), A5, S6(msize));
    ToS7(msize);
    OneMore(msize, Served() + [A5], S6(msize), LAND, S7(msize));
    ToS8(msize);
    OneMore(msize, Served() + [A5] + [LAND], S7(msize), LAND, S8(msize));
  }
}
