/** The client half of src/X9PClient.cpp: the request queue, the table of
    outstanding tags and the fid table. */
module ClientProtocol {
  import opened X9PProtocol

  /** A queued message with the identity of the callback allocated for it. */
  datatype Queued = Queued(msg: Request, callback: nat)

  /** Entry of the outstanding table; None is the null callback of an entry
      that operator[] inserted by default. */
  datatype Sent = Sent(kind: nat, tag: Tag, callback: Option<nat>)

  datatype Client = Client(
    queue: seq<Queued>,
    requests: map<Tag, Sent>,
    fids: set<Fid>,
    msize: nat)

  /** A call of the filesystem interface. A handle is None while its id is
      uninitialised. Call carries the requests that only pass a fid on. */
  datatype Call =
    | CallVersion(msize: nat, version: Name)
    | CallAttach(hnd: Option<Fid>, uname: Name, aname: Name)
    | CallWalk(from: Option<Fid>, to: Option<Fid>, names: seq<Name>)
    | Call(body: Body)

  datatype Composed = Rejected(error: Error) | Composed(body: Body, newFid: Option<Fid>)

  /** Twstat is not among them: the client stamps it with Tremove's type. */
  predicate FidOnly(b: Body) {
    !b.TVersion? && !b.TAttach? && !b.TWalk? && !b.TWstat?
  }

  // ---------------------------------------------------------------- numbers

  /** The 16-bit increment of the tag counter. */
  function Increment(t: Tag): Tag { if t == 0xFFFF then 0 else t + 1 }

  /** Least number from n on that is not used. */
  function LeastFree(used: set<nat>, n: nat): (r: nat)
    ensures n <= r <= n + |used|
    ensures r !in used
    decreases |used|
  {
    if n !in used then n else LeastFree(used - {n}, n + 1)
  }

  lemma {:induction false} LeastFreeIsLeast(used: set<nat>, n: nat, k: nat)
    requires n <= k < LeastFree(used, n)
    ensures k in used
    decreases |used|
  {
    if k != n { LeastFreeIsLeast(used - {n}, n + 1, k); }
  }

  function QueueTags(q: seq<Queued>): (tags: seq<Tag>)
    ensures |tags| == |q|
  {
    seq(|q|, i requires 0 <= i < |q| => q[i].msg.tag)
  }

  function TagsInUse(c: Client): set<Tag> {
    c.requests.Keys + set t | t in QueueTags(c.queue)
  }

  function NewTag(c: Client): nat { LeastFree(TagsInUse(c), 0) }

  function NewFid(fids: set<Fid>): nat { LeastFree(fids, |fids|) }

  /** A tag below NOTAG is free as long as fewer than 65535 are in use. */
  lemma TagAvailable(c: Client)
    ensures NewTag(c) <= |TagsInUse(c)|
    ensures NewTag(c) !in TagsInUse(c)
    ensures |TagsInUse(c)| < NOTAG ==> NewTag(c) < NOTAG
  {
  }

  /** Up to the least free tag, being in use is being below it. */
  lemma TagSearch(c: Client, t: nat)
    requires t <= NewTag(c)
    ensures t in TagsInUse(c) <==> t != NewTag(c)
  {
    if t < NewTag(c) { LeastFreeIsLeast(TagsInUse(c), 0, t); }
  }

  lemma FidSearch(fids: set<Fid>, f: nat)
    requires |fids| <= f <= NewFid(fids)
    ensures f in fids <==> f != NewFid(fids)
  {
    if f < NewFid(fids) { LeastFreeIsLeast(fids, |fids|, f); }
  }

  /** The fid search ends at a fresh fid no later than twice the table size. */
  lemma FidAvailable(fids: set<Fid>)
    ensures |fids| <= NewFid(fids) <= 2 * |fids| && NewFid(fids) !in fids
  {
  }

  // ------------------------------------------------------------- specification

  /** The message a call turns into, or the error its callback gets at once. */
  function Compose(c: Client, call: Call): Composed
    requires NewFid(c.fids) < 0x1_0000_0000
    requires call.Call? ==> FidOnly(call.body)
  {
    match call
    case CallVersion(m, version) =>
      var b := TVersion(m, version);
      if Size(b) > c.msize then Rejected(RequestTooLarge) else Composed(b, None)
    case CallAttach(hnd, uname, aname) =>
      var b := TAttach(if hnd.Some? then hnd.value else NewFid(c.fids), uname, aname);
      if Size(b) > c.msize then Rejected(RequestTooLarge)
      else Composed(b, if hnd.Some? then None else Some(b.fid))
    case CallWalk(from, to, names) =>
      if from.None? then Rejected(FidDne)
      else if |names| > TWALK_MAXELEM then Rejected(WalkTooManyNames)
      else
        var b := TWalk(from.value, if to.Some? then to.value else NewFid(c.fids), names);
        if Size(b) > c.msize then Rejected(RequestTooLarge)
        else Composed(b, if to.Some? then None else Some(b.newfid))
    case Call(b) =>
      if b.TWrite? && Size(b) > c.msize then Rejected(RequestTooLarge) else Composed(b, None)
  }

  /** What the source needs of a call: room in the numbering of fids and tags,
      a message below the negotiated size (asserted when it is queued), and a
      live fid for the two calls that delete its table entry. */
  predicate CanQueue(c: Client, call: Call) {
    && NewFid(c.fids) < 0x1_0000_0000
    && (call.Call? ==> FidOnly(call.body))
    && (!call.CallVersion? ==> NewTag(c) < NOTAG)
    && match Compose(c, call)
       case Rejected(_) => true
       case Composed(b, _) =>
         Size(b) < c.msize && (b.TClunk? || b.TRemove? ==> b.fid in c.fids)
  }

  /** What a session needs besides: no version request while another is under
      way, both being tagged NOTAG. */
  predicate CanIssue(c: Client, call: Call) {
    CanQueue(c, call) && (call.CallVersion? ==> NOTAG !in TagsInUse(c))
  }

  /** Client fid table after a composed message has been queued. */
  function FidsAfter(fids: set<Fid>, m: Composed): set<Fid>
    requires m.Composed?
  {
    if m.body.TClunk? || m.body.TRemove? then fids - {m.body.fid}
    else if m.newFid.Some? then fids + {m.newFid.value}
    else fids
  }

  function TagFor(c: Client, call: Call): Tag
    requires CanQueue(c, call)
  {
    if call.CallVersion? then NOTAG else NewTag(c)
  }

  function Issue(c: Client, call: Call, cb: nat): Client
    requires CanQueue(c, call)
  {
    var m := Compose(c, call);
    if m.Rejected? then c
    else c.(queue := c.queue + [Queued(Request(TagFor(c, call), m.body), cb)],
            fids := FidsAfter(c.fids, m))
  }

  /** Sending the i-th queued message; emplace keeps an entry already there. */
  function SendAt(c: Client, i: nat): Client
    requires i < |c.queue|
  {
    var q := c.queue[i];
    var t := q.msg.tag;
    c.(queue := c.queue[..i] + c.queue[i + 1..],
       requests := if t in c.requests then c.requests
                   else c.requests[t := Sent(TypeOf(q.msg.body), t, Some(q.callback))])
  }

  /** One pass over the queue from index i: ok says which sends succeed; the
      messages that made it are added to wire. */
  function Flush(c: Client, i: nat, ok: seq<bool>, wire: seq<Request>): (r: (Client, seq<Request>))
    requires i + |ok| == |c.queue|
    decreases |ok|
  {
    if ok == [] then (c, wire)
    else if ok[0] then Flush(SendAt(c, i), i, ok[1..], wire + [c.queue[i].msg])
    else Flush(c, i + 1, ok[1..], wire)
  }

  const DEFAULT_SENT := Sent(0, 0, None)

  /** operator[] on the outstanding table. */
  function Touch(c: Client, t: Tag): Client {
    if t in c.requests then c else c.(requests := c.requests[t := DEFAULT_SENT])
  }

  function Forget(c: Client, t: Tag): Client {
    c.(requests := c.requests - {t})
  }

  // -------------------------------------------------------------- implementation

  class X9PClient {
    var m_queue: seq<Queued>
    var m_requestmessages: map<Tag, Sent>
    var m_fiddata: set<Fid>
    var m_currentTag: Tag
    var m_maxmessagesize: nat

    ghost function View(): Client
      reads this
    {
      Client(m_queue, m_requestmessages, m_fiddata, m_maxmessagesize)
    }

    constructor ()
      ensures View() == Client([], map[], {}, 32)
    {
      m_queue, m_requestmessages, m_fiddata := [], map[], {};
      m_currentTag, m_maxmessagesize := 0, 32;
    }

    method CheckQueueForTag(tag: Tag) returns (found: bool)
      ensures found <==> tag in QueueTags(m_queue)
    {
      for i := 0 to |m_queue|
        invariant tag !in QueueTags(m_queue)[..i]
      {
        if m_queue[i].msg.tag == tag {
          assert QueueTags(m_queue)[i] == tag;
          return true;
        }
      }
      assert QueueTags(m_queue)[..|m_queue|] == QueueTags(m_queue);
      return false;
    }

    /** Terminates because some tag is free. */
    method FindTag() returns (tag: Tag)
      requires NewTag(View()) <= NOTAG
      modifies `m_currentTag
      ensures tag == NewTag(View())
    {
      ghost var c := View();
      ghost var goal := NewTag(c);
      tag := 0;
      m_currentTag := 1;
      var taken := IsTaken(tag, c);
      while taken
        invariant View() == c
        invariant tag <= goal && m_currentTag == Increment(tag)
        invariant taken <==> tag != goal
        decreases goal - tag
      {
        tag := m_currentTag;
        m_currentTag := Increment(tag);
        taken := IsTaken(tag, c);
      }
    }

    /** The guard of the search: in the outstanding table or still queued. */
    method IsTaken(tag: Tag, ghost c: Client) returns (taken: bool)
      requires c == View() && tag <= NewTag(c)
      ensures taken <==> tag != NewTag(c)
    {
      TagSearch(c, tag);
      var queued := CheckQueueForTag(tag);
      taken := tag in m_requestmessages || queued;
    }

    method AllocateFid() returns (fid: Fid)
      requires NewFid(m_fiddata) < 0x1_0000_0000
      modifies `m_fiddata
      ensures fid == NewFid(old(m_fiddata)) && m_fiddata == old(m_fiddata) + {fid}
    {
      ghost var goal := NewFid(m_fiddata);
      fid := |m_fiddata|;
      FidSearch(m_fiddata, fid);
      while fid in m_fiddata
        invariant m_fiddata == old(m_fiddata)
        invariant |m_fiddata| <= fid <= goal
        invariant fid in m_fiddata <==> fid != goal
        decreases goal - fid
      {
        fid := fid + 1;
        FidSearch(m_fiddata, fid);
      }
      m_fiddata := m_fiddata + {fid};
    }

    method QueueRequest(tag: Tag, body: Body, cb: nat)
      requires Size(body) < m_maxmessagesize
      modifies `m_queue
      ensures m_queue == old(m_queue) + [Queued(Request(tag, body), cb)]
    {
      m_queue := m_queue + [Queued(Request(tag, body), cb)];
    }

    method Tversion(msize: nat, version: Name, cb: nat) returns (err: Option<Error>)
      requires CanQueue(View(), CallVersion(msize, version))
      modifies this
      ensures View() == Issue(old(View()), CallVersion(msize, version), cb)
      ensures err.Some? <==> Compose(old(View()), CallVersion(msize, version)).Rejected?
    {
      var body := TVersion(msize, version);
      if Size(body) > m_maxmessagesize { return Some(RequestTooLarge); }
      QueueRequest(NOTAG, body, cb);
      return None;
    }

    method Tattach(hnd: Option<Fid>, uname: Name, aname: Name, cb: nat)
      returns (err: Option<Error>, id: Option<Fid>)
      requires CanQueue(View(), CallAttach(hnd, uname, aname))
      modifies this
      ensures View() == Issue(old(View()), CallAttach(hnd, uname, aname), cb)
      ensures match Compose(old(View()), CallAttach(hnd, uname, aname))
              case Rejected(e) => err == Some(e) && id == hnd
              case Composed(b, _) => err == None && id == Some(b.fid)
    {
      id := hnd;
      if SIZEOF_TATTACH + StrSize(uname) + StrSize(aname) > m_maxmessagesize {
        return Some(RequestTooLarge), id;
      }
      var tag := FindTag();
      if id.None? {
        var fid := AllocateFid();
        id := Some(fid);
      }
      QueueRequest(tag, TAttach(id.value, uname, aname), cb);
      err := None;
    }

    method Twalk(from: Option<Fid>, to: Option<Fid>, names: seq<Name>, cb: nat)
      returns (err: Option<Error>, id: Option<Fid>)
      requires CanQueue(View(), CallWalk(from, to, names))
      modifies this
      ensures View() == Issue(old(View()), CallWalk(from, to, names), cb)
      ensures match Compose(old(View()), CallWalk(from, to, names))
              case Rejected(e) => err == Some(e) && id == to
              case Composed(b, _) => err == None && id == Some(b.newfid)
    {
      id := to;
      if from.None? { return Some(FidDne), id; }
      if |names| > 16 { return Some(WalkTooManyNames), id; }
      if SIZEOF_TWALK + StrsSize(names) > m_maxmessagesize {
        return Some(RequestTooLarge), id;
      }
      var tag := FindTag();
      if id.None? {
        var fid := AllocateFid();
        id := Some(fid);
      }
      QueueRequest(tag, TWalk(from.value, id.value, names), cb);
      err := None;
    }

    /** Topen, Tcreate, Tread, Twrite, Tclunk and Tremove: compose, queue, and
        drop the fid entry at once for the last two. */
    method SendFid(body: Body, cb: nat) returns (err: Option<Error>)
      requires FidOnly(body) && CanQueue(View(), Call(body))
      modifies this
      ensures View() == Issue(old(View()), Call(body), cb)
      ensures err.Some? <==> Compose(old(View()), Call(body)).Rejected?
    {
      if body.TWrite? && Size(body) > m_maxmessagesize { return Some(RequestTooLarge); }
      var tag := FindTag();
      QueueRequest(tag, body, cb);
      if body.TClunk? || body.TRemove? {
        m_fiddata := m_fiddata - {body.fid};
      }
      return None;
    }

    /** ok[i] says whether the socket accepts the i-th queued message. */
    method FlushRequests(ok: seq<bool>) returns (wire: seq<Request>)
      requires |ok| == |m_queue|
      modifies this
      ensures (View(), wire) == Flush(old(View()), 0, ok, [])
    {
      var unsent: seq<Queued> := [];
      wire := [];
      ghost var c0 := View();
      assert unsent + m_queue[0..] == m_queue && ok[0..] == ok;
      for i := 0 to |m_queue|
        invariant View() == c0.(requests := m_requestmessages)
        invariant |unsent| <= i
        invariant Flush(c0.(queue := unsent + m_queue[i..], requests := m_requestmessages),
                        |unsent|, ok[i..], wire) == Flush(c0, 0, ok, [])
      {
        var q := m_queue[i];
        ghost var rest := unsent + m_queue[i..];
        assert rest[|unsent|] == q && ok[i..][1..] == ok[i + 1..];
        assert m_queue[i..][1..] == m_queue[i + 1..];
        if !ok[i] {
          unsent := unsent + [q];
          assert unsent + m_queue[i + 1..] == rest;
        } else {
          assert rest[..|unsent|] + rest[|unsent| + 1..] == unsent + m_queue[i + 1..];
          if q.msg.tag !in m_requestmessages {
            m_requestmessages :=
              m_requestmessages[q.msg.tag := Sent(TypeOf(q.msg.body), q.msg.tag, Some(q.callback))];
          }
          wire := wire + [q.msg];
        }
      }
      assert unsent + m_queue[|m_queue|..] == unsent;
      m_queue := unsent;
    }

    /** Looks the response's tag up the way operator[] does and hands back the
        entry whose callback is to run. */
    method BeginDispatch(response: Response) returns (entry: Sent)
      modifies `m_requestmessages
      ensures View() == Touch(old(View()), response.tag)
      ensures entry == m_requestmessages[response.tag]
    {
      if response.tag !in m_requestmessages {
        m_requestmessages := m_requestmessages[response.tag := DEFAULT_SENT];
      }
      entry := m_requestmessages[response.tag];
    }

    method EndDispatch(entry: Sent)
      modifies `m_requestmessages
      ensures View() == Forget(old(View()), entry.tag)
    {
      m_requestmessages := m_requestmessages - {entry.tag};
    }
  }
}
