/** The XFile objects of src/XIO.cpp over one client, their operations and the
    loop of Await; what they do to the counters is what module XIO reasons
    about. */
module XFileModel {
  import opened X9PProtocol
  import opened ClientProtocol
  import opened SessionTags
  import opened XIO
  import Session

  // ------------------------------------------------------------- specification

  /** The client, the file each callback was made for, the counters. */
  datatype Books = Books(client: Client, owners: seq<nat>, counts: seq<int>)

  function BooksOf(w: World): Books {
    Books(w.s.client, w.owners, w.counts)
  }

  /** One operation of a file. */
  datatype Use = Use(file: nat, body: Body)

  predicate CanOperate(b: Books, u: Use) {
    u.file < |b.counts| && FidOnly(u.body) && CanIssue(b.client, Call(u.body))
  }

  /** Only a request that got queued stays counted. */
  function Operated(b: Books, u: Use): Books
    requires CanOperate(b, u)
  {
    Books(Issue(b.client, Call(u.body), |b.owners|), b.owners + [u.file],
          if Compose(b.client, Call(u.body)).Rejected? then b.counts else Bump(b.counts, u.file, 1))
  }

  predicate CanOperateAll(b: Books, us: seq<Use>)
    decreases |us|
  {
    us == [] || (CanOperate(b, us[0]) && CanOperateAll(Operated(b, us[0]), us[1..]))
  }

  function OperatedAll(b: Books, us: seq<Use>): Books
    requires CanOperateAll(b, us)
    decreases |us|
  {
    if us == [] then b else OperatedAll(Operated(b, us[0]), us[1..])
  }

  /** A response, and the operations its callback performs. */
  datatype Got = Got(response: Response, uses: seq<Use>)

  /** The callback of a tag, looked up the way operator[] does, has lowered its
      file's counter. */
  function CalledBack(b: Books, t: Tag): Books {
    var c := Touch(b.client, t);
    var callback := c.requests[t].callback;
    var known := callback.Some? && Owned(b, callback.value);
    Books(c, b.owners, if known then Bump(b.counts, b.owners[callback.value], -1) else b.counts)
  }

  predicate Owned(b: Books, cb: nat) {
    cb < |b.owners| && b.owners[cb] < |b.counts|
  }

  predicate CanDispatch(b: Books, g: Got) {
    CanOperateAll(CalledBack(b, g.response.tag), g.uses)
  }

  function Dispatched(b: Books, g: Got): Books
    requires CanDispatch(b, g)
  {
    var t := g.response.tag;
    var done := OperatedAll(CalledBack(b, t), g.uses);
    done.(client := Forget(done.client, Touch(b.client, t).requests[t].tag))
  }

  predicate CanDispatchAll(b: Books, gs: seq<Got>)
    decreases |gs|
  {
    gs == [] || (CanDispatch(b, gs[0]) && CanDispatchAll(Dispatched(b, gs[0]), gs[1..]))
  }

  function DispatchedAll(b: Books, gs: seq<Got>): Books
    requires CanDispatchAll(b, gs)
    decreases |gs|
  {
    if gs == [] then b else DispatchedAll(Dispatched(b, gs[0]), gs[1..])
  }

  /** One pass of ProcessPackets: a flush whose sends fare as the socket says,
      then the responses received until a receive would block or fails. */
  datatype Pass = Pass(sends: nat -> bool, received: seq<Got>)

  function Flushed(b: Books, sends: nat -> bool): Books {
    b.(client := Flush(b.client, 0, seq(|b.client.queue|, sends), []).0)
  }

  predicate CanPass(b: Books, p: Pass) {
    CanDispatchAll(Flushed(b, p.sends), p.received)
  }

  function Passed(b: Books, p: Pass): Books
    requires CanPass(b, p)
  {
    DispatchedAll(Flushed(b, p.sends), p.received)
  }

  predicate CanPassAll(b: Books, ps: seq<Pass>)
    decreases |ps|, 0
  {
    ps == [] || (CanPassAll(b, ps[..|ps| - 1]) && CanPass(PassedAll(b, ps[..|ps| - 1]), ps[|ps| - 1]))
  }

  function PassedAll(b: Books, ps: seq<Pass>): Books
    requires CanPassAll(b, ps)
    decreases |ps|, 1
  {
    if ps == [] then b else Passed(PassedAll(b, ps[..|ps| - 1]), ps[|ps| - 1])
  }

  function Outstanding(b: Books, f: nat): int {
    if f < |b.counts| then b.counts[f] else 0
  }

  /** The passes can take place one after the other for as long as the file
      has something outstanding. */
  predicate CanAwait(b: Books, f: nat, ps: seq<Pass>)
    decreases |ps|
  {
    ps == [] || Outstanding(b, f) <= 0 || (CanPass(b, ps[0]) && CanAwait(Passed(b, ps[0]), f, ps[1..]))
  }

  // ------------------------------------------------------------------ lemmas

  /** The operations as the events of the run model. */
  function EventsOf(us: seq<Use>): seq<Event> {
    if us == [] then [] else [Enter(us[0].file, Call(us[0].body)), Leave] + EventsOf(us[1..])
  }

  /** The object's operations are the enter and leave events of the run model. */
  lemma {:induction false} OperationsAreEvents(w: World, us: seq<Use>)
    requires CanOperateAll(BooksOf(w), us) && |w.owners| == w.s.next
    ensures CanDoAll(w, EventsOf(us))
    ensures
      var w' := DoAll(w, EventsOf(us));
      && BooksOf(w') == OperatedAll(BooksOf(w), us)
      && w'.entered == w.entered && w'.s.down == w.s.down && |w'.owners| == w'.s.next
    decreases |us|
  {
    if us != [] {
      var es := EventsOf(us);
      var w1 := Do(w, es[0]);
      assert es[1..] == [Leave] + EventsOf(us[1..]) && es[1..][1..] == EventsOf(us[1..]);
      OneOperation(w, us[0]);
      OperationsAreEvents(Do(w1, Leave), us[1..]);
    }
  }

  lemma OneOperation(w: World, u: Use)
    requires CanOperate(BooksOf(w), u) && |w.owners| == w.s.next
    ensures
      && CanDo(w, Enter(u.file, Call(u.body)))
      && var w1 := Do(w, Enter(u.file, Call(u.body)));
         && CanDo(w1, Leave)
         && var w2 := Do(w1, Leave);
            && BooksOf(w2) == Operated(BooksOf(w), u)
            && w2.entered == w.entered && w2.s.down == w.s.down && |w2.owners| == w2.s.next
  {
    hide CanQueue, Compose;
  }

  /** The object's dispatch, with all its callback does, is the delivery of the
      run model. */
  lemma DispatchIsDelivery(w: World, us: seq<Use>)
    requires FilesInv(w) && w.s.down != [] && CanDispatch(BooksOf(w), Got(w.s.down[0], us))
    ensures CanAct(w, Deliver(EventsOf(us)))
    ensures BooksOf(Next(w, Deliver(EventsOf(us)))) == Dispatched(BooksOf(w), Got(w.s.down[0], us))
  {
    ResponseFindsRequest(w.s);
    var _ := ReturnedCounts(w);
    assert BooksOf(Returned(w)) == CalledBack(BooksOf(w), w.s.down[0].tag);
    OperationsAreEvents(Returned(w), us);
  }

  /** The flush a pass begins with, and its dispatches, as acts of the run model. */
  function FlushOf(w: World, sends: nat -> bool): Act {
    Network(Session.DoFlushClient(seq(|w.s.client.queue|, sends)))
  }

  function DeliveriesOf(gs: seq<Got>): seq<Act> {
    if gs == [] then [] else [Deliver(EventsOf(gs[0].uses))] + DeliveriesOf(gs[1..])
  }

  lemma FlushIsAct(w: World, sends: nat -> bool)
    requires FilesInv(w)
    ensures CanAct(w, FlushOf(w, sends)) && FilesInv(Next(w, FlushOf(w, sends)))
    ensures
      var w' := Next(w, FlushOf(w, sends));
      BooksOf(w') == Flushed(BooksOf(w), sends) && w'.s.down == w.s.down && w'.entered == w.entered
  {
    var ok := seq(|w.s.client.queue|, sends);
    Session.FlushRefines(w.s, 0, ok, []);
    FlushKeeps(w.s, 0, ok);
    NetworkCounts(w, Session.DoFlushClient(ok));
    hide FilesInv;
  }

  /** What was received are the oldest responses on their way. */
  predicate Arrived(gs: seq<Got>, down: seq<Response>) {
    |gs| <= |down| && forall i | 0 <= i < |gs| :: gs[i].response == down[i]
  }

  lemma {:induction false} DispatchesAreDeliveries(w: World, gs: seq<Got>)
    requires FilesInv(w) && Arrived(gs, w.s.down) && CanDispatchAll(BooksOf(w), gs)
    ensures CanActAll(w, DeliveriesOf(gs))
    ensures
      var w' := ActAll(w, DeliveriesOf(gs));
      BooksOf(w') == DispatchedAll(BooksOf(w), gs) && w'.s.down == w.s.down[|gs|..] && FilesInv(w')
    decreases |gs|
  {
    hide FilesInv, CanDispatch, Dispatched, CanAct, Next;
    if gs != [] {
      var a := Deliver(EventsOf(gs[0].uses));
      assert gs[0] == Got(w.s.down[0], gs[0].uses);
      DispatchIsDelivery(w, gs[0].uses);
      DeliverCounts(w, EventsOf(gs[0].uses));
      DeliveryTakesOne(w, EventsOf(gs[0].uses));
      assert DeliveriesOf(gs)[0] == a && DeliveriesOf(gs)[1..] == DeliveriesOf(gs[1..]);
      DispatchesAreDeliveries(Next(w, a), gs[1..]);
      assert w.s.down[1..][|gs[1..]|..] == w.s.down[|gs|..];
    }
  }

  lemma DeliveryTakesOne(w: World, es: seq<Event>)
    requires FilesInv(w) && CanAct(w, Deliver(es))
    ensures Next(w, Deliver(es)).s.down == w.s.down[1..]
  {
    DeliveryIsStep(w, es);
    ResponseFindsRequest(w.s);
    IssueAllInv(w.s, CallsOf(es));
    hide FilesInv;
  }

  /** A pass of the object over the oldest responses on their way is a run of the
      model: one flush, in which the sends fare as they do, and the deliveries in
      order. So what holds over the model's runs holds of the object's counters. */
  lemma PassIsRun(w: World, p: Pass)
    requires FilesInv(w) && Arrived(p.received, w.s.down) && CanPass(BooksOf(w), p)
    ensures
      var acts := [FlushOf(w, p.sends)] + DeliveriesOf(p.received);
      && CanActAll(w, acts)
      && var w' := ActAll(w, acts);
         BooksOf(w') == Passed(BooksOf(w), p) && w'.s.down == w.s.down[|p.received|..] && FilesInv(w')
  {
    FlushIsAct(w, p.sends);
    hide FilesInv, FlushOf, CanAct, Next;
    var acts := [FlushOf(w, p.sends)] + DeliveriesOf(p.received);
    assert acts[0] == FlushOf(w, p.sends) && acts[1..] == DeliveriesOf(p.received);
    DispatchesAreDeliveries(Next(w, acts[0]), p.received);
  }

  class XFile {
    var m_outstanding: int

    constructor ()
      ensures m_outstanding == 0
    {
      m_outstanding := 0;
    }
  }

  /** A client and the files used over it; callbacks are numbered in the order
      they are allocated, and callback cb captures file m_captured[cb]. */
  class XFiles {
    const client: X9PClient
    const files: seq<XFile>
    var m_captured: seq<nat>

    ghost predicate Valid()
      reads this
    {
      && (forall i, j | 0 <= i < j < |files| :: files[i] != files[j])
      && Below(m_captured, |files|)
    }

    ghost function Counts(): (c: seq<int>)
      reads files
      ensures |c| == |files|
    {
      seq(|files|, i requires 0 <= i < |files| reads files => files[i].m_outstanding)
    }

    ghost function View(): Books
      reads this, client, files
    {
      Books(client.View(), m_captured, Counts())
    }

    constructor (c: X9PClient, fs: seq<XFile>)
      requires forall i, j | 0 <= i < j < |fs| :: fs[i] != fs[j]
      ensures Valid() && client == c && files == fs && m_captured == []
    {
      client, files, m_captured := c, fs, [];
    }

    method Count(f: nat, d: int)
      requires Valid() && f < |files|
      modifies files[f]
      ensures Counts() == Bump(old(Counts()), f, d)
    {
      files[f].m_outstanding := files[f].m_outstanding + d;
    }

    /** The lambda an operation hands the filesystem. */
    method Callback(cb: nat)
      requires Valid() && cb < |m_captured|
      modifies files[m_captured[cb]]
      ensures Counts() == Bump(old(Counts()), m_captured[cb], -1)
    {
      Count(m_captured[cb], -1);
    }

    /** A rejected request has called back before the counter goes up. */
    method Settle(f: nat, cb: nat, rejected: bool)
      requires Valid() && f < |files| && cb < |m_captured| && m_captured[cb] == f
      modifies files[f]
      ensures Counts() == if rejected then old(Counts()) else Bump(old(Counts()), f, 1)
    {
      if rejected { Callback(cb); }
      Count(f, 1);
      assert rejected ==> Counts() == old(Counts());
    }

    /** Open, Create, Read, Write, Remove and Clunk. */
    method Operation(f: nat, body: Body)
      requires Valid() && CanOperate(View(), Use(f, body))
      modifies this, client, files
      ensures Valid() && View() == Operated(old(View()), Use(f, body))
    {
      hide CanQueue, Compose, Issue;
      var cb := |m_captured|;
      m_captured := m_captured + [f];
      var err := client.SendFid(body, cb);
      Settle(f, cb, err.Some?);
    }

    method Operations(us: seq<Use>)
      requires Valid() && CanOperateAll(View(), us)
      modifies this, client, files
      ensures Valid() && View() == OperatedAll(old(View()), us)
    {
      hide CanOperate, Operated;
      ghost var goal := OperatedAll(View(), us);
      assert us[0..] == us;
      for i := 0 to |us|
        invariant Valid() && CanOperateAll(View(), us[i..]) && OperatedAll(View(), us[i..]) == goal
      {
        assert us[i..][1..] == us[i + 1..];
        Operation(us[i].file, us[i].body);
      }
    }

    /** One response, as ProcessPackets takes it; the tag is erased after the
        callback and the operations it performs. */
    method Dispatch(g: Got)
      requires Valid() && CanDispatch(View(), g)
      modifies this, client, files
      ensures Valid() && View() == Dispatched(old(View()), g)
    {
      var entry := client.BeginDispatch(g.response);
      if entry.callback.Some? && entry.callback.value < |m_captured| { Callback(entry.callback.value); }
      assert View() == CalledBack(old(View()), g.response.tag);
      Operations(g.uses);
      client.EndDispatch(entry);
    }

    method ProcessPackets(p: Pass)
      requires Valid() && CanPass(View(), p)
      modifies this, client, files
      ensures Valid() && View() == Passed(old(View()), p)
    {
      hide CanDispatch, Dispatched, Flush;
      ghost var goal := Passed(View(), p);
      var _ := client.FlushRequests(seq(|client.m_queue|, p.sends));
      var gs := p.received;
      assert gs[0..] == gs;
      for i := 0 to |gs|
        invariant Valid() && CanDispatchAll(View(), gs[i..]) && DispatchedAll(View(), gs[i..]) == goal
      {
        assert gs[i..][1..] == gs[i + 1..];
        Dispatch(gs[i]);
      }
    }

    /** passes are what the network does while Await spins; it stops at the
        first one after which the file has nothing outstanding. */
    method Await(f: nat, passes: seq<Pass>) returns (n: nat)
      requires Valid() && f < |files| && CanAwait(View(), f, passes)
      modifies this, client, files
      ensures Valid() && n <= |passes| && CanPassAll(old(View()), passes[..n])
      ensures View() == PassedAll(old(View()), passes[..n])
      ensures files[f].m_outstanding > 0 ==> n == |passes|
      ensures forall k | 0 <= k < n ::
                CanPassAll(old(View()), passes[..k]) && Outstanding(PassedAll(old(View()), passes[..k]), f) > 0
    {
      hide CanPass, Passed, CanPassAll, PassedAll, CanAwait;
      n := 0;
      ghost var b := View();
      NoPasses(b, passes);
      assert passes[0..] == passes;
      while n < |passes| && files[f].m_outstanding > 0
        invariant Valid() && n <= |passes| && CanPassAll(b, passes[..n]) && View() == PassedAll(b, passes[..n])
        invariant CanAwait(View(), f, passes[n..])
        invariant forall k | 0 <= k < n :: CanPassAll(b, passes[..k]) && Outstanding(PassedAll(b, passes[..k]), f) > 0
      {
        AwaitNext(View(), f, passes, n);
        OneMorePass(b, passes, n);
        ProcessPackets(passes[n]);
        n := n + 1;
      }
    }
  }

  lemma NoPasses(b: Books, ps: seq<Pass>)
    ensures CanPassAll(b, ps[..0]) && PassedAll(b, ps[..0]) == b
  {
  }

  lemma AwaitNext(b: Books, f: nat, ps: seq<Pass>, n: nat)
    requires n < |ps| && CanAwait(b, f, ps[n..]) && Outstanding(b, f) > 0
    ensures CanPass(b, ps[n]) && CanAwait(Passed(b, ps[n]), f, ps[n + 1..])
  {
    assert ps[n..][1..] == ps[n + 1..];
  }

  lemma OneMorePass(b: Books, ps: seq<Pass>, n: nat)
    requires n < |ps| && CanPassAll(b, ps[..n]) && CanPass(PassedAll(b, ps[..n]), ps[n])
    ensures CanPassAll(b, ps[..n + 1]) && PassedAll(b, ps[..n + 1]) == Passed(PassedAll(b, ps[..n]), ps[n])
  {
    assert ps[..n + 1][..n] == ps[..n];
  }
}
