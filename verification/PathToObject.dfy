/** From a path typed at the client to the object it leads to at the server. */
module PathToObject {
  import opened X9PProtocol
  import opened XStringWalk
  import opened VirtualFs
  import opened VirtualFsTree
  import opened VirtualFsWalk
  import W = WalkMessage
  import C = ClientProtocol

  lemma {:induction false} NamesTransmitted(ps: seq<seq<byte>>)
    ensures forall n <- Names(ps) :: Transmitted(n)
  {
    if ps != [] { NamesTransmitted(ps[1..]); }
  }

  /** Names without a "." meet the assertion of the walk loop. */
  lemma {:induction false} NoDotAmong(nodes: seq<Node>, e: DirEntry, names: seq<Name>)
    requires forall n <- names :: n != [46]
    ensures NoDot(nodes, e, names)
    decreases |names|
  {
    if names != [] {
      assert names[0] in names;
    }
    if names != [] && HasChild(nodes, e.node, names[0]) {
      forall n <- names[1..] ensures n != [46] { assert n in names; }
      NoDotAmong(nodes, Child(nodes, e.node, names[0]), names[1..]);
    }
  }

  /** One message with this body has joined the queue. */
  predicate QueuedOne(was: seq<C.Queued>, now: seq<C.Queued>, cb: nat, body: Body) {
    |now| == |was| + 1 && now[..|was|] == was && now[|was|].callback == cb && now[|was|].msg.body == body
  }

  /** The bytes of a walk are at the front of the buffer. */
  predicate InBuffer(send: seq<byte>, tag: Tag, fid: Fid, newfid: Fid, names: seq<Name>) {
    && (forall n <- names :: |n| <= XSTRLEN_MAX)
    && W.WalkSize(names) <= |send| && send[..W.WalkSize(names)] == W.EncodeWalk(tag, fid, newfid, names)
  }

  /** XFile::Walk on the client object: the path typed becomes a walk call, the
      call one queued message, the message bytes, and the server reads out of
      them the names the call was given: the path's components. */
  method TypeWalk(client: C.X9PClient, from: Option<Fid>, to: Option<Fid>, path: seq<byte>, cb: nat, send: array<byte>)
    returns (err: Option<Error>, id: Option<Fid>, looked: seq<Name>)
    requires 0 !in path && |Components(path)| < TWALK_MAXELEM
    requires C.CanQueue(client.View(), C.CallWalk(from, to, Components(path)))
    requires send.Length == client.m_maxmessagesize >= SIZEOF_TWALK
    modifies client, send
    ensures err.Some? <==> from.None? || W.WalkSize(Components(path)) > send.Length
    ensures err.Some? ==> client.m_queue == old(client.m_queue) && client.m_fiddata == old(client.m_fiddata)
    ensures err.None? ==> id.Some? && looked == Components(path)
    ensures err.None? ==>
              && QueuedOne(old(client.m_queue), client.m_queue, cb, TWalk(from.value, id.value, looked))
              && InBuffer(send[..], client.m_queue[|client.m_queue| - 1].msg.tag, from.value, id.value, looked)
    ensures err.None? ==> if to.Some? then id == to else id.value !in old(client.m_fiddata)
  {
    hide W.EncodeWalk, Pieces, Names, QueuedOne;
    err, id := CallWalk(client, from, to, Components(path), cb);
    looked := [];
    if err.None? {
      HasLast(client, old(client.m_queue), cb, TWalk(from.value, id.value, Components(path)));
      var sent, end;
      sent, looked, end := W.PathToServer(path, send, client.m_queue[|client.m_queue| - 1].msg.tag, from.value, id.value);
    }
  }

  lemma HasLast(client: C.X9PClient, was: seq<C.Queued>, cb: nat, body: Body)
    requires QueuedOne(was, client.m_queue, cb, body)
    ensures client.m_queue != []
  {
  }

  /** The call alone: the names in the message queued are those of the call. */
  method CallWalk(client: C.X9PClient, from: Option<Fid>, to: Option<Fid>, names: seq<Name>, cb: nat)
    returns (err: Option<Error>, id: Option<Fid>)
    requires C.CanQueue(client.View(), C.CallWalk(from, to, names))
    modifies client
    ensures err.Some? <==> from.None? || |names| > 16 || W.WalkSize(names) > old(client.m_maxmessagesize)
    ensures err.Some? ==> client.m_queue == old(client.m_queue) && client.m_fiddata == old(client.m_fiddata)
    ensures err.None? ==>
              id.Some? && QueuedOne(old(client.m_queue), client.m_queue, cb, TWalk(from.value, id.value, names))
    ensures err.None? ==> W.WalkSize(names) < old(client.m_maxmessagesize)
    ensures err.None? ==> if to.Some? then id == to else id.value !in old(client.m_fiddata)
  {
    hide C.LeastFree;
    C.FidAvailable(client.m_fiddata);
    err, id := client.Twalk(from, to, names, cb);
  }

  /** The path typed, sent as a walk and looked up by the server in its
      filesystem. Whenever the walk is queued, the source's assertion on "." is
      met, and the handle reached stands at the end of the longest prefix of the
      path's components that resolves from where the walk starts. */
  method WalkPath(path: seq<byte>, send: array<byte>, tag: Tag, fid: Fid, newfid: Fid, fs: Fs, id: nat, newid: nat)
    returns (sent: W.Sent, out: Outcome, ghost es: seq<DirEntry>)
    requires 0 !in path && send.Length >= SIZEOF_TWALK
    requires Inv(fs) && fs.hidserial < XHID_UNINITIALIZED && Known(fs, id) && NotStale(fs, id)
    requires id == newid || !Known(fs, newid)
    modifies send
    ensures sent.Queued? <==> |Components(path)| < TWALK_MAXELEM && W.WalkSize(Components(path)) < send.Length
    ensures sent.Queued? ==>
              && Safe(fs, OpWalk(id, newid, Components(path)))
              && out == DoWalk(fs, id, newid, Components(path))
              && out.reply.RWalk? && out.id in out.fs.handles
    ensures sent.Queued? ==>
              var names, k := Components(path), |out.reply.qids|;
              && k <= |names| && PathTo(fs.nodes, fs.handles[id].entry, names[..k], es)
              && out.fs.handles[out.id].entry == es[k]
              && (k < |names| ==> !HasChild(fs.nodes, es[k].node, names[k]))
  {
    var names, end;
    sent, names, end := W.PathToServer(path, send, tag, fid, newfid);
    out, es := Outcome(fs, id, RError(WalkTooFar)), [];
    if sent.Queued? {
      NamesTransmitted(Pieces(path));
      NoDotAmong(fs.nodes, fs.handles[id].entry, names);
      out := DoWalk(fs, id, newid, names);
      es := WalkIsLongestPrefix(fs.nodes, fs.handles[id].entry, names);
    }
  }

  /** Where a walk from the root leads that resolves completely. */
  ghost predicate LeadsTo(nodes: seq<Node>, path: seq<byte>, n: nat)
    requires EntriesOk(nodes)
  {
    var (e, qids) := Walk(nodes, ROOT_ENTRY, Components(path));
    |qids| == |Components(path)| && e.node == n
  }

  /** Two paths typed lead to one object if and only if they have the same
      components; how they are separated does not matter. */
  lemma SameObjectSameComponents(nodes: seq<Node>, p: seq<byte>, q: seq<byte>, n: nat)
    requires Tree(nodes) && LeadsTo(nodes, p, n)
    ensures LeadsTo(nodes, q, n) <==> Components(p) == Components(q)
  {
    if LeadsTo(nodes, q, n) {
      var a, b := Components(p), Components(q);
      var es := WalkIsLongestPrefix(nodes, ROOT_ENTRY, a);
      var fs := WalkIsLongestPrefix(nodes, ROOT_ENTRY, b);
      assert a[..|a|] == a && b[..|b|] == b;
      UniquePath(nodes, a, es, b, fs);
    }
  }
}
