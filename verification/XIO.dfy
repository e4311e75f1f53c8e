/** The outstanding-request counters of src/XIO.cpp. Every XFile operation
    hands the filesystem a callback that decrements the file's counter, and
    increments it once the filesystem call has returned; callbacks of rejected
    requests and of local filesystems run inside that call. */
module XIO {
  import opened X9PProtocol
  import opened ClientProtocol
  import opened Session
  import opened SessionTags

  /** What user code does, call by call: enter an operation of a file over the
      connection or on a local filesystem, and leave the innermost one. */
  datatype Event = Enter(file: nat, call: Call) | EnterLocal(file: nat) | Leave

  /** owners[cb] is the file whose operation allocated callback cb, counts[f]
      the m_outstanding of file f, entered the operations not yet returned. */
  datatype World = World(s: System, owners: seq<nat>, counts: seq<int>, entered: seq<nat>)

  // ------------------------------------------------------------- specification

  function Bump(counts: seq<int>, f: nat, d: int): (r: seq<int>)
    requires f < |counts|
    ensures |r| == |counts|
  {
    counts[f := counts[f] + d]
  }

  predicate CanDo(w: World, e: Event) {
    match e
    case Enter(f, call) => f < |w.counts| && CanIssue(w.s.client, call)
    case EnterLocal(f) => f < |w.counts|
    case Leave => w.entered != [] && w.entered[|w.entered| - 1] < |w.counts|
  }

  /** A rejected request and a local filesystem call back before returning. */
  function Do(w: World, e: Event): World
    requires CanDo(w, e)
  {
    match e
    case Enter(f, call) =>
      var rejected := Compose(w.s.client, call).Rejected?;
      World(IssueStep(w.s, call), w.owners + [f], if rejected then Bump(w.counts, f, -1) else w.counts, w.entered + [f])
    case EnterLocal(f) => w.(counts := Bump(w.counts, f, -1), entered := w.entered + [f])
    case Leave =>
      var n := |w.entered| - 1;
      w.(counts := Bump(w.counts, w.entered[n], 1), entered := w.entered[..n])
  }

  predicate CanDoAll(w: World, es: seq<Event>)
    decreases |es|
  {
    es == [] || (CanDo(w, es[0]) && CanDoAll(Do(w, es[0]), es[1..]))
  }

  function DoAll(w: World, es: seq<Event>): World
    requires CanDoAll(w, es)
    decreases |es|
  {
    if es == [] then w else DoAll(Do(w, es[0]), es[1..])
  }

  /** The calls user code makes on the connection, in order. */
  function CallsOf(es: seq<Event>): seq<Call> {
    if es == [] then []
    else (if es[0].Enter? then [es[0].call] else []) + CallsOf(es[1..])
  }

  /** The callback of the response delivered next, and its file's decrement,
      which comes before anything the user's own callback does. */
  function Called(w: World): Option<nat>
    requires w.s.down != []
  {
    var t := w.s.down[0].tag;
    if t in w.s.client.requests then w.s.client.requests[t].callback else None
  }

  function Returned(w: World): World
    requires w.s.down != []
  {
    var w' := w.(s := w.s.(client := Touch(w.s.client, w.s.down[0].tag)));
    match Called(w)
    case Some(cb) =>
      if cb < |w.owners| && w.owners[cb] < |w.counts| then w'.(counts := Bump(w.counts, w.owners[cb], -1)) else w'
    case None => w'
  }

  /** The end of a delivery: the tag is erased once the callback has run. */
  function Landed(s: System, t: Tag, callback: Option<nat>): System
    requires s.down != []
  {
    s.(client := Forget(s.client, t), down := s.down[1..],
       delivered := if callback.Some? then s.delivered + [callback.value] else s.delivered)
  }

  datatype Act = Run(es: seq<Event>) | Deliver(es: seq<Event>) | Network(a: Action)

  /** User code returns from every operation it enters. */
  predicate CanAct(w: World, a: Act) {
    match a
    case Run(es) => CanDoAll(w, es) && DoAll(w, es).entered == w.entered
    case Deliver(es) =>
      && w.s.down != [] && CanDoAll(Returned(w), es)
      && var w' := DoAll(Returned(w), es); w'.entered == w.entered && w'.s.down != []
    case Network(a) => !a.DoIssue? && !a.DoDeliver? && Enabled(w.s, a)
  }

  function Next(w: World, a: Act): World
    requires CanAct(w, a)
  {
    match a
    case Run(es) => DoAll(w, es)
    case Deliver(es) =>
      var w1 := DoAll(Returned(w), es);
      w1.(s := Landed(w1.s, w.s.down[0].tag, Called(w)))
    case Network(a) => w.(s := Step(w.s, a))
  }

  /** What user code does to the connection is issue its calls. */
  lemma {:induction false} Issues(w: World, es: seq<Event>)
    requires CanDoAll(w, es)
    ensures CanIssueAll(w.s, CallsOf(es)) && DoAll(w, es).s == IssueAll(w.s, CallsOf(es))
    decreases |es|
  {
    if es != [] {
      Issues(Do(w, es[0]), es[1..]);
      if es[0].Enter? {
        assert CallsOf(es)[1..] == CallsOf(es[1..]);
      } else {
        assert CallsOf(es) == CallsOf(es[1..]);
      }
    }
  }

  // ---------------------------------------------------------------- counting

  /** How often f occurs in s. */
  function Occurs(s: seq<nat>, f: nat): nat {
    if s == [] then 0 else Occurs(s[..|s| - 1], f) + (if s[|s| - 1] == f then 1 else 0)
  }

  /** How many of the given callbacks belong to file f. */
  function Of(cbs: seq<nat>, owners: seq<nat>, f: nat): nat {
    if cbs == [] then 0
    else Of(cbs[..|cbs| - 1], owners, f) + (if Owns(owners, f, cbs[|cbs| - 1]) then 1 else 0)
  }

  predicate Owns(owners: seq<nat>, f: nat, cb: nat) {
    cb < |owners| && owners[cb] == f
  }

  /** Operations of file f whose callback is not among those run. */
  function Unreturned(owners: seq<nat>, run: multiset<nat>, f: nat): nat {
    if owners == [] then 0
    else
      var n := |owners| - 1;
      Unreturned(owners[..n], run, f) + (if owners[n] == f && n !in run then 1 else 0)
  }

  predicate Below(s: seq<nat>, n: nat) {
    forall i | 0 <= i < |s| :: s[i] < n
  }

  /** With the callbacks in done run: a file's counter, and the operations it
      has entered but not left, make up its operations not called back. */
  ghost predicate Counted(w: World, done: seq<nat>) {
    && |w.owners| == w.s.next
    && Below(w.owners, |w.counts|) && Below(w.entered, |w.counts|)
    && Below(w.s.rejected, |w.owners|) && Below(done, |w.owners|)
    && forall f | 0 <= f < |w.counts| :: CountOk(w, done, f)
  }

  ghost predicate CountOk(w: World, done: seq<nat>, f: nat)
    requires f < |w.counts|
  {
    w.counts[f] + Occurs(w.entered, f) + Of(w.s.rejected, w.owners, f) + Of(done, w.owners, f) == Occurs(w.owners, f)
  }

  lemma Snoc(s: seq<nat>, x: nat, owners: seq<nat>, f: nat)
    ensures Occurs(s + [x], f) == Occurs(s, f) + (if x == f then 1 else 0)
    ensures Of(s + [x], owners, f) == Of(s, owners, f) + (if Owns(owners, f, x) then 1 else 0)
  {
    assert (s + [x])[..|s|] == s;
  }

  lemma {:induction false} OfGrows(cbs: seq<nat>, owners: seq<nat>, g: nat, f: nat)
    requires Below(cbs, |owners|)
    ensures Of(cbs, owners + [g], f) == Of(cbs, owners, f)
  {
    if cbs != [] {
      OfGrows(cbs[..|cbs| - 1], owners, g, f);
    }
  }

  lemma DoCounts(w: World, e: Event, done: seq<nat>)
    requires Counted(w, done) && CanDo(w, e)
    ensures Counted(Do(w, e), done)
  {
    DoBelow(w, e, done);
    hide CountOk, Do, CanDo;
    var w' := Do(w, e);
    forall f | 0 <= f < |w.counts| ensures CountOk(w', done, f) {
      match e
      case Enter(g, call) => EnterCounts(w, g, call, done, f);
      case EnterLocal(g) => LocalCounts(w, g, done, f);
      case Leave => LeaveCounts(w, done, f);
    }
  }

  lemma DoBelow(w: World, e: Event, done: seq<nat>)
    requires Counted(w, done) && CanDo(w, e)
    ensures
      var w' := Do(w, e);
      && |w'.owners| == w'.s.next && |w'.counts| == |w.counts|
      && Below(w'.owners, |w'.counts|) && Below(w'.entered, |w'.counts|)
      && Below(w'.s.rejected, |w'.owners|) && Below(done, |w'.owners|)
  {
    hide CanQueue, Compose, CountOk;
  }

  lemma LocalCounts(w: World, g: nat, done: seq<nat>, f: nat)
    requires Counted(w, done) && CanDo(w, EnterLocal(g)) && f < |w.counts|
    ensures CountOk(Do(w, EnterLocal(g)), done, f)
  {
    hide Of;
    assert CountOk(w, done, f);
    Snoc(w.entered, g, [], f);
  }

  lemma LeaveCounts(w: World, done: seq<nat>, f: nat)
    requires Counted(w, done) && CanDo(w, Leave) && f < |w.counts|
    ensures CountOk(Do(w, Leave), done, f)
  {
    hide Of;
    assert CountOk(w, done, f);
    var n := |w.entered| - 1;
    assert w.entered == w.entered[..n] + [w.entered[n]];
    Snoc(w.entered[..n], w.entered[n], [], f);
  }

  lemma EnterCounts(w: World, g: nat, call: Call, done: seq<nat>, f: nat)
    requires Counted(w, done) && CanDo(w, Enter(g, call)) && f < |w.counts|
    ensures CountOk(Do(w, Enter(g, call)), done, f)
  {
    hide CanQueue, Compose;
    assert CountOk(w, done, f);
    Snoc(w.entered, g, [], f);
    Snoc(w.owners, g, [], f);
    OfGrows(w.s.rejected, w.owners, g, f);
    OfGrows(done, w.owners, g, f);
    Snoc(w.s.rejected, w.s.next, w.owners + [g], f);
  }

  lemma {:induction false} DoAllCounts(w: World, es: seq<Event>, done: seq<nat>)
    requires Counted(w, done) && CanDoAll(w, es)
    ensures Counted(DoAll(w, es), done)
    decreases |es|
  {
    hide Counted, CanDo, Do;
    if es != [] {
      DoCounts(w, es[0], done);
      DoAllCounts(Do(w, es[0]), es[1..], done);
    }
  }

  // ------------------------------------------------------------------- steps

  ghost predicate FilesInv(w: World) {
    Inv(w.s) && Counted(w, w.s.delivered)
  }

  lemma {:induction false} AllocatedBelow(n: nat, m: multiset<nat>, k: nat)
    requires m <= Allocated(n) && k in m
    ensures k < n
  {
    AllocatedOnce(n, k);
  }

  /** A response finds the callback of an operation some file began. */
  lemma CalledKnown(s: System)
    requires Inv(s) && s.down != []
    ensures s.down[0].tag in s.client.requests && s.client.requests[s.down[0].tag].callback.Some?
    ensures s.client.requests[s.down[0].tag].callback.value < s.next
  {
    ResponseFindsRequest(s);
    var t := s.down[0].tag;
    var waiting := Waiting(InFlight(s), s.client.requests);
    assert InFlight(s)[0] == t && waiting[0] == CallbackOf(s.client.requests, t);
    assert waiting[0] in multiset(waiting);
    assert multiset(waiting) <= multiset(s.sent) <= Allocated(s.next);
    AllocatedBelow(s.next, multiset(waiting), waiting[0]);
  }

  lemma ReturnedCounts(w: World) returns (cb: nat)
    requires FilesInv(w) && w.s.down != []
    ensures Called(w) == Some(cb) && cb < |w.owners|
    ensures Returned(w).s == w.s && Counted(Returned(w), w.s.delivered + [cb])
  {
    CalledKnown(w.s);
    ResponseFindsRequest(w.s);
    cb := Called(w).value;
    var w' := Returned(w);
    assert w'.s == w.s && w'.counts == Bump(w.counts, w.owners[cb], -1);
    ReturnedOk(w, w', cb);
  }

  lemma ReturnedOk(w: World, w': World, cb: nat)
    requires Counted(w, w.s.delivered) && cb < |w.owners|
    requires w' == w.(counts := Bump(w.counts, w.owners[cb], -1))
    ensures Counted(w', w.s.delivered + [cb])
  {
    forall f | 0 <= f < |w.counts| ensures CountOk(w', w.s.delivered + [cb], f) {
      assert CountOk(w, w.s.delivered, f);
      Snoc(w.s.delivered, cb, w.owners, f);
    }
  }

  lemma DeliverCounts(w: World, es: seq<Event>)
    requires FilesInv(w) && CanAct(w, Deliver(es))
    ensures FilesInv(Next(w, Deliver(es)))
  {
    hide Counted, Inv, CountOk;
    var cb := ReturnedCounts(w);
    var w0 := Returned(w);
    DoAllCounts(w0, es, w.s.delivered + [cb]);
    DeliveryIsStep(w, es);
    DeliverInv(w.s, CallsOf(es));
    SameCounts(DoAll(w0, es), Next(w, Deliver(es)), w.s.delivered + [cb]);
  }

  /** For the connection it is the delivery of a session, during which the
      callback makes its calls. */
  lemma {:induction false} DeliveryIsStep(w: World, es: seq<Event>)
    requires FilesInv(w) && CanAct(w, Deliver(es))
    ensures
      && CanIssueAll(w.s.(client := Touch(w.s.client, w.s.down[0].tag)), CallsOf(es))
      && Next(w, Deliver(es)).s == DeliverStep(w.s, CallsOf(es))
      && Next(w, Deliver(es)).s.delivered == w.s.delivered + [w.s.client.requests[w.s.down[0].tag].callback.value]
  {
    hide Counted, Inv, CountOk;
    var cb := ReturnedCounts(w);
    ResponseFindsRequest(w.s);
    Issues(Returned(w), es);
    IssueAllInv(w.s, CallsOf(es));
  }

  /** The books are about the callbacks allocated, rejected and run. */
  lemma SameCounts(w: World, w': World, done: seq<nat>)
    requires Counted(w, done)
    requires w'.owners == w.owners && w'.counts == w.counts && w'.entered == w.entered
    requires w'.s.rejected == w.s.rejected && w'.s.next == w.s.next
    ensures Counted(w', done)
  {
    forall f | 0 <= f < |w.counts| ensures CountOk(w', done, f) {
      assert CountOk(w, done, f);
    }
  }

  lemma {:induction false} FlushKeeps(s: System, i: nat, ok: seq<bool>)
    requires i + |ok| == |s.client.queue|
    ensures
      var s' := FlushClient(s, i, ok);
      s'.rejected == s.rejected && s'.next == s.next && s'.delivered == s.delivered && s'.down == s.down
    decreases |ok|
  {
    if ok != [] {
      if ok[0] { FlushKeeps(SendStep(s, i), i, ok[1..]); } else { FlushKeeps(s, i + 1, ok[1..]); }
    }
  }

  lemma {:induction false} RespondKeeps(s: System, i: nat, ok: seq<bool>)
    requires i + |ok| == |s.server.queue|
    ensures var s' := FlushServer(s, i, ok); s'.rejected == s.rejected && s'.next == s.next && s'.delivered == s.delivered
    decreases |ok|
  {
    if ok != [] {
      if ok[0] { RespondKeeps(RespondStep(s, i), i, ok[1..]); } else { RespondKeeps(s, i + 1, ok[1..]); }
    }
  }

  lemma NetworkCounts(w: World, a: Action)
    requires FilesInv(w) && CanAct(w, Network(a))
    ensures FilesInv(Next(w, Network(a)))
  {
    hide Counted, Inv, CountOk, FlushClient, FlushServer;
    StepInv(w.s, a);
    if a.DoFlushClient? { FlushKeeps(w.s, 0, a.ok); }
    if a.DoFlushServer? { RespondKeeps(w.s, 0, a.ok); }
    SameCounts(w, Next(w, Network(a)), w.s.delivered);
  }

  lemma RunCounts(w: World, es: seq<Event>)
    requires FilesInv(w) && CanAct(w, Run(es))
    ensures FilesInv(Next(w, Run(es)))
  {
    hide Counted, Inv, CountOk;
    DoAllCounts(w, es, w.s.delivered);
    Issues(w, es);
    IssueAllInv(w.s, CallsOf(es));
  }

  predicate CanActAll(w: World, acts: seq<Act>)
    decreases |acts|
  {
    acts == [] || (CanAct(w, acts[0]) && CanActAll(Next(w, acts[0]), acts[1..]))
  }

  function ActAll(w: World, acts: seq<Act>): World
    requires CanActAll(w, acts)
    decreases |acts|
  {
    if acts == [] then w else ActAll(Next(w, acts[0]), acts[1..])
  }

  /** Files just constructed, on a connection just made. */
  function Begin(msize: nat, files: nat): World {
    World(Start(msize), [], seq(files, _ => 0), [])
  }

  lemma BeginInv(msize: nat, files: nat)
    ensures FilesInv(Begin(msize, files))
  {
    TagConservation(msize, []);
    var w := Begin(msize, files);
    forall f | 0 <= f < files ensures CountOk(w, [], f) {}
  }

  lemma {:induction false} SameFiles(w: World, es: seq<Event>)
    requires CanDoAll(w, es)
    ensures |DoAll(w, es).counts| == |w.counts|
    decreases |es|
  {
    if es != [] { SameFiles(Do(w, es[0]), es[1..]); }
  }

  lemma {:induction false} ActsInv(w: World, acts: seq<Act>)
    requires FilesInv(w) && w.entered == [] && CanActAll(w, acts)
    ensures FilesInv(ActAll(w, acts)) && ActAll(w, acts).entered == [] && |ActAll(w, acts).counts| == |w.counts|
    decreases |acts|
  {
    hide FilesInv, DoAll, CanDoAll, Enabled, Step;
    if acts != [] {
      match acts[0] {
        case Run(es) =>
          RunCounts(w, es);
          SameFiles(w, es);
        case Deliver(es) =>
          DeliverCounts(w, es);
          SameFiles(Returned(w), es);
        case Network(a) => NetworkCounts(w, a);
      }
      ActsInv(Next(w, acts[0]), acts[1..]);
    }
  }

  // ------------------------------------------------------------ main results

  lemma {:induction false} UnreturnedCount(owners: seq<nat>, m: multiset<nat>, f: nat)
    requires forall k :: m[k] <= 1
    ensures Unreturned(owners, m, f) + Tally(owners, m, f) == Occurs(owners, f)
  {
    if owners != [] { UnreturnedCount(owners[..|owners| - 1], m, f); }
  }

  function Tally(owners: seq<nat>, m: multiset<nat>, f: nat): nat {
    if owners == [] then 0
    else var n := |owners| - 1; Tally(owners[..n], m, f) + (if owners[n] == f then m[n] else 0)
  }

  lemma {:induction false} TallyOf(owners: seq<nat>, cbs: seq<nat>, f: nat)
    requires Below(cbs, |owners|)
    ensures Tally(owners, multiset(cbs), f) == Of(cbs, owners, f)
    decreases |cbs|
  {
    if cbs == [] {
      TallyNothing(owners, f);
    } else {
      var n := |cbs| - 1;
      TallyOf(owners, cbs[..n], f);
      assert cbs == cbs[..n] + [cbs[n]];
      assert multiset(cbs) == multiset(cbs[..n]) + multiset{cbs[n]};
      TallyOne(owners, multiset(cbs[..n]), cbs[n], f);
    }
  }

  lemma {:induction false} TallyNothing(owners: seq<nat>, f: nat)
    ensures Tally(owners, multiset{}, f) == 0
  {
    if owners != [] { TallyNothing(owners[..|owners| - 1], f); }
  }

  lemma {:induction false} TallyOne(owners: seq<nat>, m: multiset<nat>, cb: nat, f: nat)
    ensures Tally(owners, m + multiset{cb}, f) == Tally(owners, m, f) + (if Owns(owners, f, cb) then 1 else 0)
  {
    if owners != [] {
      var n := |owners| - 1;
      TallyOne(owners[..n], m, cb, f);
      assert (m + multiset{cb})[n] == m[n] + (if n == cb then 1 else 0);
    }
  }

  lemma {:induction false} TallySum(owners: seq<nat>, a: multiset<nat>, b: multiset<nat>, f: nat)
    ensures Tally(owners, a + b, f) == Tally(owners, a, f) + Tally(owners, b, f)
  {
    if owners != [] { TallySum(owners[..|owners| - 1], a, b, f); }
  }

  /** Callbacks that have run: rejections at once, the others on delivery. */
  ghost function RunSoFar(s: System): multiset<nat> {
    multiset(s.rejected) + multiset(s.delivered)
  }

  lemma RunsAtMostOnce(s: System)
    requires Inv(s)
    ensures forall cb :: RunSoFar(s)[cb] <= 1
  {
    forall cb ensures RunSoFar(s)[cb] <= 1 {
      AllocatedOnce(s.next, cb);
      assert RunSoFar(s) <= Allocated(s.next);
    }
  }

  /** In every run, between operations, a file's counter is the number of its
      operations on the connection whose callback has not run, whether
      callbacks run inside the call or on a later delivery. */
  lemma OutstandingIsUnreturned(msize: nat, files: nat, acts: seq<Act>, f: nat)
    requires CanActAll(Begin(msize, files), acts) && f < files
    ensures
      var w := ActAll(Begin(msize, files), acts);
      f < |w.counts| && w.counts[f] == Unreturned(w.owners, RunSoFar(w.s), f)
  {
    BeginInv(msize, files);
    ActsInv(Begin(msize, files), acts);
    Balance(ActAll(Begin(msize, files), acts), f);
  }

  lemma Balance(w: World, f: nat)
    requires FilesInv(w) && w.entered == [] && f < |w.counts|
    ensures w.counts[f] == Unreturned(w.owners, RunSoFar(w.s), f)
  {
    hide Inv;
    assert CountOk(w, w.s.delivered, f);
    RunsAtMostOnce(w.s);
    UnreturnedCount(w.owners, RunSoFar(w.s), f);
    TallySum(w.owners, multiset(w.s.rejected), multiset(w.s.delivered), f);
    TallyOf(w.owners, w.s.rejected, f);
    TallyOf(w.owners, w.s.delivered, f);
  }

  /** Nothing is unreturned exactly when every operation has been called back. */
  lemma {:induction false} NoneUnreturned(owners: seq<nat>, run: multiset<nat>, f: nat)
    ensures Unreturned(owners, run, f) == 0 <==> forall cb: nat | Owns(owners, f, cb) :: cb in run
  {
    if owners != [] {
      var n := |owners| - 1;
      NoneUnreturned(owners[..n], run, f);
      forall cb: nat ensures Owns(owners, f, cb) <==> Owns(owners[..n], f, cb) || (cb == n && owners[n] == f) {}
      assert Owns(owners, f, n) <==> owners[n] == f;
    }
  }

  /** So the loop of Await, which goes on while the counter is positive, ends
      exactly when all the file's operations have been called back; the counter
      is then zero, never below. */
  lemma AwaitEnds(msize: nat, files: nat, acts: seq<Act>, f: nat)
    requires CanActAll(Begin(msize, files), acts) && f < files
    ensures
      var w := ActAll(Begin(msize, files), acts);
      && f < |w.counts| && w.counts[f] >= 0
      && (!(w.counts[f] > 0) <==> forall cb: nat | Owns(w.owners, f, cb) :: cb in RunSoFar(w.s))
  {
    OutstandingIsUnreturned(msize, files, acts, f);
    var w := ActAll(Begin(msize, files), acts);
    NoneUnreturned(w.owners, RunSoFar(w.s), f);
  }

  /** How far the messages still under way have to go. */
  function Distance(s: System): nat {
    4 * |s.client.queue| + 3 * |s.up| + 2 * |s.server.queue| + |s.down|
  }

  lemma {:induction false} AllSent(s: System, ok: seq<bool>)
    requires |ok| == |s.client.queue| && forall k | 0 <= k < |ok| :: ok[k]
    ensures Distance(FlushClient(s, 0, ok)) == Distance(s) - |ok|
    decreases |ok|
  {
    if ok != [] { AllSent(SendStep(s, 0), ok[1..]); }
  }

  lemma {:induction false} AllAnswered(s: System, ok: seq<bool>)
    requires |ok| == |s.server.queue| && forall k | 0 <= k < |ok| :: ok[k]
    ensures Distance(FlushServer(s, 0, ok)) == Distance(s) - |ok|
    decreases |ok|
  {
    if ok != [] { AllAnswered(RespondStep(s, 0), ok[1..]); }
  }

  /** Some step of the network, or a delivery to a callback that makes no
      calls, brings the messages closer. */
  lemma Closer(w: World) returns (a: Act)
    requires FilesInv(w) && Distance(w.s) > 0
    ensures CanAct(w, a) && Distance(Next(w, a).s) < Distance(w.s)
    ensures Next(w, a).owners == w.owners && Next(w, a).entered == w.entered
  {
    if w.s.client.queue != [] {
      var ok := seq(|w.s.client.queue|, _ => true);
      AllSent(w.s, ok);
      a := Network(DoFlushClient(ok));
    } else if w.s.up != [] {
      var v := Check(w.s.server.fids, w.s.up[0].body);
      a := Network(DoServe(RError(if v.Refused? then v.error else FidDne)));
    } else if w.s.server.queue != [] {
      var ok := seq(|w.s.server.queue|, _ => true);
      AllAnswered(w.s, ok);
      a := Network(DoFlushServer(ok));
    } else {
      var _ := ReturnedCounts(w);
      a := Deliver([]);
    }
  }

  /** Awaiting is never in vain: from every state a run can reach there is a
      way to go on, with no further operations, that ends with every counter
      at zero. */
  lemma {:induction false} AwaitCanEnd(w: World) returns (acts: seq<Act>)
    requires FilesInv(w) && w.entered == []
    ensures CanActAll(w, acts)
    ensures
      var w' := ActAll(w, acts);
      w'.owners == w.owners && |w'.counts| == |w.counts| && forall f | 0 <= f < |w'.counts| :: w'.counts[f] == 0
    decreases Distance(w.s)
  {
    if Distance(w.s) == 0 {
      acts := [];
      AllHome(w);
    } else {
      var a := Closer(w);
      Stays(w, a);
      var rest := AwaitCanEnd(Next(w, a));
      acts := [a] + rest;
    }
  }

  lemma Stays(w: World, a: Act)
    requires FilesInv(w) && w.entered == [] && CanAct(w, a)
    ensures FilesInv(Next(w, a)) && |Next(w, a).counts| == |w.counts|
  {
    ActsInv(w, [a]);
    assert [a][1..] == [];
    assert ActAll(w, [a]) == ActAll(Next(w, a), []) == Next(w, a);
  }

  lemma AllHome(w: World)
    requires FilesInv(w) && w.entered == [] && Distance(w.s) == 0
    ensures forall f | 0 <= f < |w.counts| :: w.counts[f] == 0
  {
    assert InFlight(w.s) == [];
    assert multiset(w.s.sent) == multiset(w.s.delivered);
    assert RunSoFar(w.s) == Allocated(w.s.next);
    forall f | 0 <= f < |w.counts| ensures w.counts[f] == 0 {
      Balance(w, f);
      forall cb: nat | Owns(w.owners, f, cb) ensures cb in RunSoFar(w.s) { AllocatedOnce(w.s.next, cb); }
      NoneUnreturned(w.owners, RunSoFar(w.s), f);
    }
  }
}
