/** A client, its channels and the real server together, other clients of that
    server included: every run of them is a run of the session, so what the
    session keeps is kept with this server at the other end. */
module Composition {
  import opened X9PProtocol
  import opened DirectoryRead
  import opened ClientProtocol
  import opened Session
  import opened SessionTags
  import opened SessionFids
  import S = Server

  /** The session of the client, and the server whose connection c it is on. */
  datatype Joint = Joint(s: System, srv: S.Srv)

  /** Local is whatever a session does that is not the server's; Handle is the
      server taking the client's oldest request; Answer is a flush of its
      responses to the client; Elsewhere is anything that happens at the server
      on other connections. */
  datatype Move =
    | Local(act: Action)
    | Handle(listing: seq<Record>)
    | Answer(ok: seq<bool>)
    | Elsewhere(a: S.Arrival)

  /** The session sees its connection as it is at the server. */
  ghost predicate Joined(j: Joint, c: nat) {
    S.SrvInv(j.srv) && c < |j.srv.conns| && j.s.server == S.Seen(j.srv, c)
  }

  predicate CanMove(j: Joint, c: nat, m: Move) {
    match m
    case Local(a) => !a.DoServe? && !a.DoFlushServer? && Enabled(j.s, a)
    case Handle(listing) => j.s.up != [] && S.Possible(j.srv, S.Arrival(c, j.s.up[0], listing))
    case Answer(ok) => |ok| == |j.s.server.queue| && S.Possible(j.srv, S.Sent(c, ok))
    case Elsewhere(a) => S.Possible(j.srv, a) && (a.Accepted? || a.conn != c)
  }

  /** The last response queued on connection c. */
  function LastReply(srv: S.Srv, c: nat): Reply
    requires c < |srv.conns|
  {
    var q := srv.conns[c].queue;
    if q == [] then RClunk else q[|q| - 1].reply
  }

  ghost function Next(j: Joint, c: nat, m: Move): Joint
    requires Joined(j, c) && CanMove(j, c, m)
  {
    match m
    case Local(a) => Joint(Step(j.s, a), j.srv)
    case Handle(listing) =>
      var srv' := S.After(j.srv, S.Arrival(c, j.s.up[0], listing));
      Joint(j.s.(up := j.s.up[1..], server := S.Seen(srv', c),
                 served := j.s.served + [Check(j.s.server.fids, j.s.up[0].body)]), srv')
    case Answer(ok) =>
      var srv' := S.After(j.srv, S.Sent(c, ok));
      Joint(j.s.(server := S.Seen(srv', c), down := j.s.down + Taken(j.s.server.queue, ok)), srv')
    case Elsewhere(a) => Joint(j.s, S.After(j.srv, a))
  }

  /** The responses whose send succeeded, in order. */
  function Taken(q: seq<Response>, ok: seq<bool>): seq<Response>
    requires |q| == |ok|
  {
    if q == [] then [] else (if ok[0] then [q[0]] else []) + Taken(q[1..], ok[1..])
  }

  /** The move as an action of the session, if it is one. */
  ghost function ActionOf(j: Joint, c: nat, m: Move): seq<Action>
    requires Joined(j, c) && CanMove(j, c, m)
  {
    match m
    case Local(a) => [a]
    case Handle(listing) => [DoServe(LastReply(S.After(j.srv, S.Arrival(c, j.s.up[0], listing)), c))]
    case Answer(ok) => [DoFlushServer(ok)]
    case Elsewhere(_) => []
  }

  // ------------------------------------------------------------------ lemmas

  lemma {:induction false} ServerFlushes(s: System, i: nat, ok: seq<bool>)
    requires i + |ok| == |s.server.queue|
    ensures
      var s', q := FlushServer(s, i, ok), s.server.queue;
      && s'.down == s.down + Taken(q[i..], ok)
      && s'.server.queue == q[..i] + S.Kept(q[i..], ok)
      && s' == s.(down := s'.down, server := s.server.(queue := s'.server.queue))
    decreases |ok|
  {
    var q := s.server.queue;
    if ok == [] {
      assert q[..i] == q && q[i..] == [];
    } else if ok[0] {
      FirstGoes(q, i, ok);
      ServerFlushes(RespondStep(s, i), i, ok[1..]);
    } else {
      FirstStays(q, i, ok);
      ServerFlushes(s, i + 1, ok[1..]);
    }
  }

  lemma FirstGoes(q: seq<Response>, i: nat, ok: seq<bool>)
    requires i + |ok| == |q| && ok != [] && ok[0]
    ensures
      var left := q[..i] + q[i + 1..];
      && left[..i] == q[..i] && left[i..] == q[i + 1..]
      && forall down: seq<Response> :: down + [q[i]] + Taken(left[i..], ok[1..]) == down + Taken(q[i..], ok)
    ensures S.Kept((q[..i] + q[i + 1..])[i..], ok[1..]) == S.Kept(q[i..], ok)
  {
    assert q[i..][1..] == q[i + 1..] && (q[..i] + q[i + 1..])[i..] == q[i + 1..];
    assert Taken(q[i..], ok) == [q[i]] + Taken(q[i + 1..], ok[1..]);
  }

  lemma FirstStays(q: seq<Response>, i: nat, ok: seq<bool>)
    requires i + |ok| == |q| && ok != [] && !ok[0]
    ensures Taken(q[i + 1..], ok[1..]) == Taken(q[i..], ok)
    ensures q[..i + 1] + S.Kept(q[i + 1..], ok[1..]) == q[..i] + S.Kept(q[i..], ok)
  {
    assert q[i..][1..] == q[i + 1..] && q[..i + 1] == q[..i] + [q[i]];
    assert S.Kept(q[i..], ok) == [q[i]] + S.Kept(q[i + 1..], ok[1..]);
  }

  lemma AnswerIsFlush(j: Joint, c: nat, ok: seq<bool>)
    requires Joined(j, c) && CanMove(j, c, Answer(ok))
    ensures Next(j, c, Answer(ok)).s == Step(j.s, DoFlushServer(ok))
  {
    var q := j.s.server.queue;
    ServerFlushes(j.s, 0, ok);
    assert q[0..] == q && q[..0] + S.Kept(q, ok) == S.Kept(q, ok);
  }

  lemma HandleIsServe(j: Joint, c: nat, listing: seq<Record>)
    requires Joined(j, c) && CanMove(j, c, Handle(listing))
    ensures
      var m := Handle(listing);
      Enabled(j.s, ActionOf(j, c, m)[0]) && Next(j, c, m).s == Step(j.s, ActionOf(j, c, m)[0])
  {
    hide S.Dispatch, S.Fine, S.HandlesMatch, S.FidsMatch;
    S.DispatchRefinesSession(j.srv, c, j.s.up[0], listing);
    var reply := S.DispatchIsServeStep(j.srv, c, j.s, listing);
    var srv' := S.Dispatch(j.srv, c, j.s.up[0], listing);
    assert srv'.conns[c].queue == j.s.server.queue + [Response(j.s.up[0].tag, reply)];
    assert LastReply(srv', c) == reply;
  }

  /** Nothing that happens on other connections shows on connection c. */
  lemma ElsewhereUnseen(srv: S.Srv, c: nat, a: S.Arrival)
    requires S.SrvInv(srv) && S.Possible(srv, a) && c < |srv.conns| && (a.Accepted? || a.conn != c)
    ensures S.SrvInv(S.After(srv, a)) && c < |S.After(srv, a).conns| && S.Seen(S.After(srv, a), c) == S.Seen(srv, c)
  {
    S.AfterKeepsInv(srv, a);
    hide S.Dispatch, S.Fine, S.HandlesMatch, S.FidsMatch;
    if a.Arrival? { S.DispatchRefinesSession(srv, a.conn, a.msg, a.listing); }
  }

  /** A move keeps client and server joined, and is an action of the session or
      leaves it alone. */
  lemma MoveIsAction(j: Joint, c: nat, m: Move)
    requires Joined(j, c) && CanMove(j, c, m)
    ensures Joined(Next(j, c, m), c)
    ensures
      var acts := ActionOf(j, c, m);
      && |acts| <= 1
      && (acts == [] ==> Next(j, c, m).s == j.s)
      && (acts != [] ==> Enabled(j.s, acts[0]) && Next(j, c, m).s == Step(j.s, acts[0]))
  {
    match m
    case Local(a) => LocalIsClients(j.s, a);
    case Handle(listing) =>
      HandleIsServe(j, c, listing);
      S.AfterKeepsInv(j.srv, S.Arrival(c, j.s.up[0], listing));
    case Answer(ok) =>
      AnswerIsFlush(j, c, ok);
      S.AfterKeepsInv(j.srv, S.Sent(c, ok));
    case Elsewhere(a) => ElsewhereUnseen(j.srv, c, a);
  }

  lemma LocalIsClients(s: System, a: Action)
    requires !a.DoServe? && !a.DoFlushServer? && Enabled(s, a)
    ensures Step(s, a).server == s.server
  {
    hide CanQueue, Compose;
    match a
    case DoIssue(_) =>
    case DoFlushClient(ok) => FlushLeavesServer(s, 0, ok);
    case DoDeliver(calls) => IssuesLeaveServer(s.(client := Touch(s.client, s.down[0].tag)), calls);
  }

  lemma {:induction false} FlushLeavesServer(s: System, i: nat, ok: seq<bool>)
    requires i + |ok| == |s.client.queue|
    ensures FlushClient(s, i, ok).server == s.server
    decreases |ok|
  {
    if ok != [] {
      if ok[0] { FlushLeavesServer(SendStep(s, i), i, ok[1..]); } else { FlushLeavesServer(s, i + 1, ok[1..]); }
    }
  }

  lemma {:induction false} IssuesLeaveServer(s: System, calls: seq<Call>)
    requires CanIssueAll(s, calls)
    ensures IssueAll(s, calls).server == s.server
    decreases |calls|
  {
    if calls != [] { IssuesLeaveServer(IssueStep(s, calls[0]), calls[1..]); }
  }

  // ------------------------------------------------------------------- runs

  /** js[i+1] is js[i] after move i. */
  ghost predicate Run(js: seq<Joint>, c: nat, moves: seq<Move>) {
    && |js| == |moves| + 1 && Joined(js[0], c)
    && forall i | 0 <= i < |moves| :: Moves(js[i], c, moves[i], js[i + 1])
  }

  ghost predicate Moves(j: Joint, c: nat, m: Move, j': Joint) {
    Joined(j, c) ==> CanMove(j, c, m) && j' == Next(j, c, m)
  }

  /** The client keeps to balanced calls, and its flushes fail only from some
      message on. */
  ghost predicate OrderlyClient(js: seq<Joint>, moves: seq<Move>)
    requires |js| == |moves| + 1
  {
    forall i | 0 <= i < |moves| :: moves[i].Local? && Enabled(js[i].s, moves[i].act) ==> Orderly(js[i].s, moves[i].act)
  }

  /** Every run of the client with the real server is a run of the session,
      and an orderly one if the client is; the server keeps its invariant. */
  lemma {:induction false} RunIsSession(js: seq<Joint>, c: nat, moves: seq<Move>, n: nat) returns (acts: seq<Action>)
    requires Run(js, c, moves) && n <= |moves|
    ensures Joined(js[n], c)
    ensures EnabledAll(js[0].s, acts) && Exec(js[0].s, acts) == js[n].s
    ensures OrderlyClient(js, moves) ==> OrderlyAll(js[0].s, acts)
  {
    hide Joined, Next, ActionOf, Enabled, Step, Orderly;
    if n == 0 {
      acts := [];
    } else {
      var init := RunIsSession(js, c, moves, n - 1);
      var j, m := js[n - 1], moves[n - 1];
      assert Moves(j, c, m, js[n - 1 + 1]);
      MoveIsAction(j, c, m);
      var more := ActionOf(j, c, m);
      if more == [] {
        acts := init;
      } else {
        MoveOrderly(j, c, m);
        Append(js[0].s, init, more[0]);
        acts := init + [more[0]];
      }
    }
  }

  lemma MoveOrderly(j: Joint, c: nat, m: Move)
    requires Joined(j, c) && CanMove(j, c, m) && ActionOf(j, c, m) != [] && Enabled(j.s, ActionOf(j, c, m)[0])
    ensures m.Local? ==> ActionOf(j, c, m)[0] == m.act
    ensures !m.Local? ==> Orderly(j.s, ActionOf(j, c, m)[0])
  {
  }

  /** A client on a connection just accepted. */
  ghost predicate Fresh(j: Joint, c: nat, msize: nat) {
    Joined(j, c) && j.s == Start(msize)
  }

  lemma FreshConnection(srv: S.Srv, msize: nat)
    requires S.SrvInv(srv)
    ensures Fresh(Joint(Start(msize), S.Accept(srv)), |srv.conns|, msize)
  {
    S.AcceptInv(srv);
  }

  // ------------------------------------------------------------ main results

  /** With the real server at the other end, whatever its other clients do:
      tags, message kinds and callbacks are conserved on the connection. */
  lemma TagsAtServer(js: seq<Joint>, c: nat, moves: seq<Move>, msize: nat, n: nat)
    requires Run(js, c, moves) && Fresh(js[0], c, msize) && n <= |moves|
    ensures SessionTags.Inv(js[n].s) && S.SrvInv(js[n].srv)
  {
    var acts := RunIsSession(js, c, moves, n);
    TagConservation(msize, acts);
  }

  /** And if the client is orderly, what is pending turns the fids of the real
      connection into the client's, and the next request meets the verdict the
      client's own table gave. */
  lemma FidsAtServer(js: seq<Joint>, c: nat, moves: seq<Move>, msize: nat, n: nat)
    requires Run(js, c, moves) && Fresh(js[0], c, msize) && n <= |moves| && OrderlyClient(js, moves)
    ensures Joined(js[n], c)
    ensures
      var s, fids := js[n].s, js[n].srv.conns[c].fids.Keys;
      && Effects(fids, s.up + Messages(s.client.queue)) == s.client.fids
      && (s.up == [] && s.client.queue == [] ==> fids == s.client.fids)
      && (s.up != [] ==> |s.served| < |s.issued| && Check(fids, s.up[0].body) == s.issued[|s.served|])
  {
    var acts := RunIsSession(js, c, moves, n);
    FidAgreement(msize, acts);
  }

  /** All of this holds of every connection from the moment it is accepted, in
      whatever state the server is then. */
  lemma FromAcceptance(srv: S.Srv, msize: nat, js: seq<Joint>, moves: seq<Move>, n: nat)
    requires S.SrvInv(srv) && |js| == |moves| + 1 && n <= |moves|
    requires js[0] == Joint(Start(msize), S.Accept(srv))
    requires forall i | 0 <= i < |moves| :: Moves(js[i], |srv.conns|, moves[i], js[i + 1])
    ensures Joined(js[n], |srv.conns|) && SessionTags.Inv(js[n].s)
    ensures OrderlyClient(js, moves) ==>
              Effects(js[n].srv.conns[|srv.conns|].fids.Keys, Pending(js[n].s)) == js[n].s.client.fids
  {
    hide Joined, Moves, OrderlyClient, SessionTags.Inv;
    FreshConnection(srv, msize);
    IsRun(js, |srv.conns|, moves, msize);
    TagsAtServer(js, |srv.conns|, moves, msize, n);
    var acts := RunIsSession(js, |srv.conns|, moves, n);
    if OrderlyClient(js, moves) { FidsAtServer(js, |srv.conns|, moves, msize, n); }
  }

  lemma IsRun(js: seq<Joint>, c: nat, moves: seq<Move>, msize: nat)
    requires |js| == |moves| + 1 && Fresh(js[0], c, msize)
    requires forall i | 0 <= i < |moves| :: Moves(js[i], c, moves[i], js[i + 1])
    ensures Run(js, c, moves)
  {
  }
}
