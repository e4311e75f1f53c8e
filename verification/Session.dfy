/** One client, one server connection and the two loss-free channels between
    them as a state machine. The server half keeps what the protocol can see of
    a connection: its fid table and its response queue. */
module Session {
  import opened X9PProtocol
  import opened ClientProtocol

  /** What the server's fid checks say about a request. */
  datatype Verdict = Accepted | Refused(error: Error)

  /** Server connection: the fids it knows and the responses not yet sent. */
  datatype Connection = Connection(fids: set<Fid>, queue: seq<Response>)

  /** next counts the callbacks allocated; rejected, sent and delivered log
      their fates; issued and served log the fid verdicts that the client's own
      table gave when a request was queued and that the server gave later. */
  datatype System = System(
    client: Client,
    up: seq<Request>,
    server: Connection,
    down: seq<Response>,
    next: nat,
    rejected: seq<nat>,
    sent: seq<nat>,
    delivered: seq<nat>,
    issued: seq<Verdict>,
    served: seq<Verdict>)

  // ------------------------------------------------------------ fid tables

  /** The fid checks of the request dispatch. */
  function Check(fids: set<Fid>, b: Body): Verdict {
    match b
    case TVersion(_, _) => Accepted
    case TAttach(_, _, _) => Accepted
    case TWalk(fid, newfid, names) =>
      if |names| > TWALK_MAXELEM then Refused(WalkTooFar)
      else if fid !in fids then Refused(FidDne)
      else if newfid != fid && newfid in fids then Refused(FidUsed)
      else Accepted
    case _ => if b.fid in fids then Accepted else Refused(FidDne)
  }

  /** The server's fid table after a request, whatever the filesystem says. */
  function Effect(fids: set<Fid>, b: Body): set<Fid> {
    match b
    case TAttach(fid, _, _) => fids + {fid}
    case TWalk(_, newfid, _) => if Check(fids, b).Accepted? then fids + {newfid} else fids
    case TClunk(fid) => fids - {fid}
    case TRemove(fid) => fids - {fid}
    case _ => fids
  }

  function Effects(fids: set<Fid>, ms: seq<Request>): set<Fid>
    decreases |ms|
  {
    if ms == [] then fids else Effects(Effect(fids, ms[0].body), ms[1..])
  }

  /** The verdicts a run of requests will meet. */
  function Checks(fids: set<Fid>, ms: seq<Request>): seq<Verdict>
    decreases |ms|
  {
    if ms == [] then []
    else [Check(fids, ms[0].body)] + Checks(Effect(fids, ms[0].body), ms[1..])
  }

  // ----------------------------------------------------------------- steps

  function Messages(q: seq<Queued>): (ms: seq<Request>)
    ensures |ms| == |q|
  {
    seq(|q|, i requires 0 <= i < |q| => q[i].msg)
  }

  function IssueStep(s: System, call: Call): System
    requires CanQueue(s.client, call)
  {
    var m := Compose(s.client, call);
    var t := s.(client := Issue(s.client, call, s.next), next := s.next + 1);
    if m.Rejected? then t.(rejected := s.rejected + [s.next])
    else t.(issued := s.issued + [Check(s.client.fids, m.body)])
  }

  predicate CanIssueAll(s: System, calls: seq<Call>)
    decreases |calls|
  {
    calls == [] || (CanIssue(s.client, calls[0]) && CanIssueAll(IssueStep(s, calls[0]), calls[1..]))
  }

  function IssueAll(s: System, calls: seq<Call>): System
    requires CanIssueAll(s, calls)
    decreases |calls|
  {
    if calls == [] then s else IssueAll(IssueStep(s, calls[0]), calls[1..])
  }

  function SendStep(s: System, i: nat): System
    requires i < |s.client.queue|
  {
    s.(client := SendAt(s.client, i),
       up := s.up + [s.client.queue[i].msg],
       sent := s.sent + [s.client.queue[i].callback])
  }

  /** The client's flush as single sends. */
  function FlushClient(s: System, i: nat, ok: seq<bool>): System
    requires i + |ok| == |s.client.queue|
    decreases |ok|
  {
    if ok == [] then s
    else if ok[0] then FlushClient(SendStep(s, i), i, ok[1..])
    else FlushClient(s, i + 1, ok[1..])
  }

  /** A response the server may queue for a request its fid table judges so. */
  predicate Responds(v: Verdict, b: Body, r: Reply) {
    match v
    case Accepted => Answers(TypeOf(b), r)
    case Refused(e) => r == RError(e)
  }

  function ServeStep(s: System, reply: Reply): System
    requires s.up != []
  {
    var m := s.up[0];
    s.(up := s.up[1..],
       server := Connection(Effect(s.server.fids, m.body),
                            s.server.queue + [Response(m.tag, reply)]),
       served := s.served + [Check(s.server.fids, m.body)])
  }

  function RespondStep(s: System, i: nat): System
    requires i < |s.server.queue|
  {
    var q := s.server.queue;
    s.(server := s.server.(queue := q[..i] + q[i + 1..]), down := s.down + [q[i]])
  }

  function FlushServer(s: System, i: nat, ok: seq<bool>): System
    requires i + |ok| == |s.server.queue|
    decreases |ok|
  {
    if ok == [] then s
    else if ok[0] then FlushServer(RespondStep(s, i), i, ok[1..])
    else FlushServer(s, i + 1, ok[1..])
  }

  /** The client takes the oldest response; its callback runs, and makes the
      given calls, while the tag is still in the table. */
  function DeliverStep(s: System, calls: seq<Call>): System
    requires s.down != []
    requires CanIssueAll(s.(client := Touch(s.client, s.down[0].tag)), calls)
  {
    var t := s.down[0].tag;
    var c := Touch(s.client, t);
    var entry := c.requests[t];
    var s' := IssueAll(s.(client := c), calls);
    s'.(client := Forget(s'.client, entry.tag),
        down := s.down[1..],
        delivered := if entry.callback.Some? then s'.delivered + [entry.callback.value]
                     else s'.delivered)
  }

  datatype Action =
    | DoIssue(call: Call)
    | DoFlushClient(ok: seq<bool>)
    | DoServe(reply: Reply)
    | DoFlushServer(ok: seq<bool>)
    | DoDeliver(calls: seq<Call>)

  predicate Enabled(s: System, a: Action) {
    match a
    case DoIssue(call) => CanIssue(s.client, call)
    case DoFlushClient(ok) => |ok| == |s.client.queue|
    case DoServe(reply) =>
      s.up != [] && Responds(Check(s.server.fids, s.up[0].body), s.up[0].body, reply)
    case DoFlushServer(ok) => |ok| == |s.server.queue|
    case DoDeliver(calls) =>
      s.down != [] && CanIssueAll(s.(client := Touch(s.client, s.down[0].tag)), calls)
  }

  function Step(s: System, a: Action): System
    requires Enabled(s, a)
  {
    match a
    case DoIssue(call) => IssueStep(s, call)
    case DoFlushClient(ok) => FlushClient(s, 0, ok)
    case DoServe(reply) => ServeStep(s, reply)
    case DoFlushServer(ok) => FlushServer(s, 0, ok)
    case DoDeliver(calls) => DeliverStep(s, calls)
  }

  predicate EnabledAll(s: System, acts: seq<Action>)
    decreases |acts|
  {
    acts == [] || (Enabled(s, acts[0]) && EnabledAll(Step(s, acts[0]), acts[1..]))
  }

  function Exec(s: System, acts: seq<Action>): System
    requires EnabledAll(s, acts)
    decreases |acts|
  {
    if acts == [] then s else Exec(Step(s, acts[0]), acts[1..])
  }

  /** Nothing sent yet; the client and the server agree on no fids. */
  function Start(msize: nat): System {
    System(Client([], map[], {}, msize), [], Connection({}, []), [], 0, [], [], [], [], [])
  }

  /** Flushes of two messages that both get through. */
  lemma FlushTwo(s: System)
    requires |s.client.queue| == 2
    ensures |SendStep(s, 0).client.queue| == 1
    ensures FlushClient(s, 0, [true, true]) == SendStep(SendStep(s, 0), 0)
  {
    var t := SendStep(s, 0);
    assert [true, true][1..] == [true] && [true][1..] == [];
    assert FlushClient(SendStep(t, 0), 0, []) == SendStep(t, 0);
    assert FlushClient(t, 0, [true]) == FlushClient(SendStep(t, 0), 0, []);
  }

  lemma FlushServerTwo(s: System)
    requires |s.server.queue| == 2
    ensures |RespondStep(s, 0).server.queue| == 1
    ensures FlushServer(s, 0, [true, true]) == RespondStep(RespondStep(s, 0), 0)
  {
    var t := RespondStep(s, 0);
    assert [true, true][1..] == [true] && [true][1..] == [];
    assert FlushServer(RespondStep(t, 0), 0, []) == RespondStep(t, 0);
    assert FlushServer(t, 0, [true]) == FlushServer(RespondStep(t, 0), 0, []);
  }

  /** The client object's FlushRequests is this flush: same queue and table
      afterwards, and the messages it put on the wire are the ones that joined
      the channel. */
  lemma {:induction false} FlushRefines(s: System, i: nat, ok: seq<bool>, wire: seq<Request>)
    requires i + |ok| == |s.client.queue|
    ensures
      var (c, w) := Flush(s.client, i, ok, wire);
      var s' := FlushClient(s, i, ok);
      s'.client == c && wire <= w && s'.up == s.up + w[|wire|..]
    decreases |ok|
  {
    if ok != [] {
      if ok[0] {
        FlushRefines(SendStep(s, i), i, ok[1..], wire + [s.client.queue[i].msg]);
      } else {
        FlushRefines(s, i + 1, ok[1..], wire);
      }
    }
  }
}
