/** Two version requests under way at once: a session that gets there, and what
    becomes of the second. */
module SessionVersion {
  import opened X9PProtocol
  import opened ClientProtocol
  import opened Session
  import opened SessionTags

  const BODY := TVersion(0, [])
  const CALL := CallVersion(0, [])
  const ANSWER := Response(NOTAG, RVersion(0))
  const MESSAGE := Request(NOTAG, BODY)

  /** One is queued, as in any session. */
  function One(msize: nat): System {
    Start(msize).(client := Client([Queued(MESSAGE, 0)], map[], {}, msize), next := 1, issued := [Accepted])
  }

  function Two(msize: nat): System {
    One(msize).(client := Client([Queued(MESSAGE, 0), Queued(MESSAGE, 1)], map[], {}, msize), next := 2,
                issued := [Accepted, Accepted])
  }

  /** Both are on their way, with one entry between them. */
  function Flying(msize: nat): System {
    Two(msize).(client := Client([], map[NOTAG := Sent(TVERSION, NOTAG, Some(0))], {}, msize),
                up := [MESSAGE, MESSAGE], sent := [0, 1])
  }

  function Served(msize: nat): System {
    Flying(msize).(up := [], server := Connection({}, [ANSWER, ANSWER]), served := [Accepted, Accepted])
  }

  function Answered(msize: nat): System {
    Served(msize).(server := Connection({}, []), down := [ANSWER, ANSWER])
  }

  lemma Reaches(msize: nat)
    requires msize >= 14
    ensures Enabled(Start(msize), DoIssue(CALL)) && Step(Start(msize), DoIssue(CALL)) == One(msize)
  {
    hide LeastFree;
    FidAvailable({});
    assert [] + [Queued(MESSAGE, 0)] == [Queued(MESSAGE, 0)];
  }

  lemma Queues(msize: nat)
    requires msize >= 14
    ensures CanQueue(One(msize).client, CALL) && !CanIssue(One(msize).client, CALL)
    ensures IssueStep(One(msize), CALL) == Two(msize)
  {
    hide LeastFree;
    FidAvailable({});
    var c := One(msize).client;
    assert QueueTags(c.queue) == [NOTAG] && NOTAG in QueueTags(c.queue);
    assert [Queued(MESSAGE, 0)] + [Queued(MESSAGE, 1)] == Two(msize).client.queue;
  }

  lemma Flies(msize: nat)
    ensures FlushClient(Two(msize), 0, [true, true]) == Flying(msize)
  {
    hide FlushClient;
    var s := Two(msize);
    FlushTwo(s);
    var t := SendStep(s, 0);
    assert t.client.queue == [Queued(MESSAGE, 1)];
    var u := SendStep(t, 0);
    assert u.client.queue == [] && u.up == [MESSAGE, MESSAGE] && u.sent == [0, 1];
  }

  lemma IsServed(msize: nat)
    ensures
      var s := Flying(msize);
      && Enabled(s, DoServe(RVersion(0)))
      && var t := Step(s, DoServe(RVersion(0)));
         Enabled(t, DoServe(RVersion(0))) && Step(t, DoServe(RVersion(0))) == Served(msize)
  {
    hide FlushServer, FlushClient, CanQueue;
    assert [MESSAGE, MESSAGE][1..] == [MESSAGE] && [MESSAGE][1..] == [];
    var t := ServeStep(Flying(msize), RVersion(0));
    assert t.up == [MESSAGE] && t.server.queue == [ANSWER] && t.served == [Accepted];
    var u := ServeStep(t, RVersion(0));
    assert u.up == [] && u.server.queue == [ANSWER, ANSWER] && u.served == [Accepted, Accepted];
  }

  lemma IsAnswered(msize: nat)
    ensures
      var s := Served(msize);
      Enabled(s, DoFlushServer([true, true])) && Step(s, DoFlushServer([true, true])) == Answered(msize)
  {
    hide FlushServer, FlushClient, CanQueue;
    var s := Served(msize);
    FlushServerTwo(s);
    var v := RespondStep(s, 0);
    assert v.server.queue == [ANSWER] && v.down == [ANSWER];
    var w := RespondStep(v, 0);
    assert w.server.queue == [] && w.down == [ANSWER, ANSWER];
  }

  lemma Lands(msize: nat)
    ensures
      var s := Answered(msize);
      && Enabled(s, DoDeliver([]))
      && var t := Step(s, DoDeliver([]));
         && Enabled(t, DoDeliver([])) && t.delivered == [0] && t.client.requests == map[]
         && var u := Step(t, DoDeliver([]));
            && u.delivered == [0] && u.client.requests == map[NOTAG := DEFAULT_SENT]
            && u.down == [] && u.next == 2 && u.rejected == [] && u.client.queue == [] && u.up == [] && u.server.queue == []
  {
    var s := Answered(msize);
    assert [ANSWER, ANSWER][1..] == [ANSWER] && [ANSWER][1..] == [];
    var t := DeliverStep(s, []);
    assert t.client.requests == map[] && t.down == [ANSWER];
    var u := DeliverStep(t, []);
    assert u.client.requests == map[NOTAG := DEFAULT_SENT] - {0} == map[NOTAG := DEFAULT_SENT];
  }

  /** A response whose tag is not outstanding inserts a null entry under that tag,
      takes away the one under tag 0, if there is one, and runs no callback. */
  lemma UnknownTag(s: System)
    requires s.down != [] && s.down[0].tag !in s.client.requests
    ensures
      var t, now := s.down[0].tag, DeliverStep(s, []);
      && now.client.requests.Keys == s.client.requests.Keys + {t} - {0}
      && (t != 0 ==> now.client.requests[t].callback == None)
      && (forall k <- s.client.requests | k != 0 :: now.client.requests[k] == s.client.requests[k])
      && now.delivered == s.delivered && now.down == s.down[1..]
  {
  }

  /** From the start of a session: with one version request queued a second can
      be queued too, and tags are conserved no longer. When both have been sent
      and answered the first answer has used up their one entry; the second
      finds none, inserts a null entry that stays behind, and its callback
      never runs. */
  lemma SecondVersionLost(msize: nat) returns (s: System)
    requires msize >= 14
    ensures EnabledAll(Start(msize), [DoIssue(CALL)]) && Exec(Start(msize), [DoIssue(CALL)]) == One(msize)
    ensures CanQueue(One(msize).client, CALL) && !TagsConserved(IssueStep(One(msize), CALL))
    ensures
      var both := FlushClient(IssueStep(One(msize), CALL), 0, [true, true]);
      && both.up == [MESSAGE, MESSAGE]
      && EnabledAll(both, Rest()) && s == Exec(both, Rest())
    ensures s.next == 2 && s.delivered == [0] && s.rejected == []
    ensures s.client.queue == [] && s.up == [] && s.server.queue == [] && s.down == []
    ensures s.client.requests == map[NOTAG := DEFAULT_SENT]
  {
    assert Flying(msize).up == [MESSAGE, MESSAGE];
    Reaches(msize);
    Queues(msize);
    Flies(msize);
    hide One, Two, Flying, Enabled, Step, TagsConserved, EnabledAll, Exec;
    Nothing(One(msize));
    First(Start(msize), DoIssue(CALL), []);
    assert [DoIssue(CALL)] + [] == [DoIssue(CALL)];
    TagConservation(msize, [DoIssue(CALL)]);
    VersionAlone(One(msize), CALL);
    s := Ends(msize);
  }

  /** Both are served, both answers sent and delivered. */
  function Rest(): seq<Action> {
    [DoServe(RVersion(0)), DoServe(RVersion(0)), DoFlushServer([true, true]), DoDeliver([]), DoDeliver([])]
  }

  lemma First(s: System, a: Action, rest: seq<Action>)
    requires Enabled(s, a) && EnabledAll(Step(s, a), rest)
    ensures EnabledAll(s, [a] + rest) && Exec(s, [a] + rest) == Exec(Step(s, a), rest)
  {
    assert ([a] + rest)[0] == a && ([a] + rest)[1..] == rest;
  }

  lemma Nothing(s: System)
    ensures EnabledAll(s, []) && Exec(s, []) == s
  {
  }

  lemma Ends(msize: nat) returns (s: System)
    ensures EnabledAll(Flying(msize), Rest()) && s == Exec(Flying(msize), Rest())
    ensures s.next == 2 && s.delivered == [0] && s.rejected == []
    ensures s.client.queue == [] && s.up == [] && s.server.queue == [] && s.down == []
    ensures s.client.requests == map[NOTAG := DEFAULT_SENT]
  {
    IsServed(msize);
    IsAnswered(msize);
    Lands(msize);
    hide Flying, Served, Answered, Enabled, Step, EnabledAll, Exec;
    var f, serve, land := Flying(msize), DoServe(RVersion(0)), DoDeliver([]);
    var t := Step(f, serve);
    var u := Served(msize);
    var v := Step(Answered(msize), land);
    s := Step(v, land);
    Nothing(s);
    First(v, land, []);
    First(Answered(msize), land, [land] + []);
    First(u, DoFlushServer([true, true]), [land] + ([land] + []));
    First(t, serve, [DoFlushServer([true, true])] + ([land] + ([land] + [])));
    First(f, serve, [serve] + ([DoFlushServer([true, true])] + ([land] + ([land] + []))));
    assert Rest() == [serve] + ([serve] + ([DoFlushServer([true, true])] + ([land] + ([land] + []))));
  }
}
