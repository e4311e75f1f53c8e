/** Walking the tree: the longest resolvable prefix, composition of walks, and
    uniqueness of paths. */
module VirtualFsWalk {
  import opened X9PProtocol
  import opened VirtualFs

  /** es are the entries passed when names resolve one by one from e. */
  ghost predicate PathTo(nodes: seq<Node>, e: DirEntry, names: seq<Name>, es: seq<DirEntry>) {
    && |es| == |names| + 1
    && es[0] == e
    && forall i | 0 <= i < |names| ::
         HasChild(nodes, es[i].node, names[i]) && Child(nodes, es[i].node, names[i]) == es[i + 1]
  }

  /** A walk resolves a prefix of the names, reports one qid per entry passed,
      ends at the last of them, and stopped only where the next name has no
      entry. */
  lemma {:induction false} WalkIsLongestPrefix(nodes: seq<Node>, e: DirEntry, names: seq<Name>)
    returns (es: seq<DirEntry>)
    requires EntriesOk(nodes)
    ensures PathTo(nodes, e, names[..|Walk(nodes, e, names).1|], es)
    ensures Walk(nodes, e, names).0 == es[|Walk(nodes, e, names).1|]
    ensures forall i | 0 <= i < |Walk(nodes, e, names).1| ::
              es[i + 1].node < |nodes| && Walk(nodes, e, names).1[i] == QidOf(nodes, es[i + 1].node)
    ensures
      var k := |Walk(nodes, e, names).1|;
      k < |names| ==> !HasChild(nodes, es[k].node, names[k])
    decreases |names|
  {
    if names == [] || !HasChild(nodes, e.node, names[0]) {
      es := [e];
    } else {
      var c := Child(nodes, e.node, names[0]);
      var rest := WalkIsLongestPrefix(nodes, c, names[1..]);
      es := [e] + rest;
      var qids, more := Walk(nodes, e, names).1, Walk(nodes, c, names[1..]).1;
      var k := |qids|;
      assert qids == [QidOf(nodes, c.node)] + more;
      hide Walk;
      assert names[..k] == [names[0]] + names[1..][..k - 1];
      PathOnward(nodes, e, names[0], names[1..][..k - 1], rest);
      forall i | 0 <= i < k ensures es[i + 1].node < |nodes| && qids[i] == QidOf(nodes, es[i + 1].node) {
        assert es[i + 1] == rest[i];
        if i > 0 { assert qids[i] == more[i - 1]; }
      }
      assert k < |names| ==> names[k] == names[1..][k - 1] && es[k] == rest[k - 1];
    }
  }

  lemma PathOnward(nodes: seq<Node>, e: DirEntry, name: Name, names: seq<Name>, es: seq<DirEntry>)
    requires HasChild(nodes, e.node, name) && PathTo(nodes, Child(nodes, e.node, name), names, es)
    ensures PathTo(nodes, e, [name] + names, [e] + es)
  {
    var all, path := [name] + names, [e] + es;
    forall i | 0 <= i < |all|
      ensures HasChild(nodes, path[i].node, all[i]) && Child(nodes, path[i].node, all[i]) == path[i + 1]
    {
      if i > 0 { assert all[i] == names[i - 1] && path[i] == es[i - 1] && path[i + 1] == es[i]; }
    }
  }

  /** Walking a ++ b is walking a and, if all of it resolved, walking b from
      there; otherwise b is never looked at. */
  lemma {:induction false} WalkConcat(nodes: seq<Node>, e: DirEntry, a: seq<Name>, b: seq<Name>)
    requires EntriesOk(nodes)
    ensures
      var (m, qs) := Walk(nodes, e, a);
      Walk(nodes, e, a + b) ==
      if |qs| == |a| then (Walk(nodes, m, b).0, qs + Walk(nodes, m, b).1) else (m, qs)
    decreases |a|
  {
    if a == [] {
      assert a + b == b;
      assert [] + Walk(nodes, e, b).1 == Walk(nodes, e, b).1;
    } else {
      assert (a + b)[1..] == a[1..] + b;
      if HasChild(nodes, e.node, a[0]) {
        var c := Child(nodes, e.node, a[0]);
        WalkConcat(nodes, c, a[1..], b);
        var q := QidOf(nodes, c.node);
        var (m, qs) := Walk(nodes, c, a[1..]);
        assert [q] + (qs + Walk(nodes, m, b).1) == ([q] + qs) + Walk(nodes, m, b).1;
      }
    }
  }

  /** Two Twalks, the second in place on the handle the first made, leave the
      same filesystem and together the same qids as one Twalk of all the names,
      when the first resolves fully and the names number at most 16. */
  lemma WalkTwice(fs: Fs, id: nat, a: seq<Name>, b: seq<Name>)
    requires Inv(fs) && fs.hidserial < XHID_UNINITIALIZED && Known(fs, id)
    requires |a| + |b| <= TWALK_MAXELEM
    requires |Walk(fs.nodes, fs.handles[id].entry, a).1| == |a|
    ensures
      var first := DoWalk(fs, id, XHID_UNINITIALIZED, a);
      var second := DoWalk(first.fs, first.id, first.id, b);
      var whole := DoWalk(fs, id, XHID_UNINITIALIZED, a + b);
      && first.reply.RWalk? && second.reply.RWalk? && whole.reply.RWalk?
      && first.reply.qids + second.reply.qids == whole.reply.qids
      && second.fs == whole.fs && second.id == whole.id
  {
    WalkConcat(fs.nodes, fs.handles[id].entry, a, b);
    var first := DoWalk(fs, id, XHID_UNINITIALIZED, a);
    var second := DoWalk(first.fs, first.id, first.id, b);
    var whole := DoWalk(fs, id, XHID_UNINITIALIZED, a + b);
    assert second.fs.handles == whole.fs.handles;
  }

  /** The first name there is has no entry where the handle stands: walk(5)
      wants an error then. */
  predicate Unresolvable(fs: Fs, id: nat, names: seq<Name>)
    requires Known(fs, id)
  {
    names != [] && !HasChild(fs.nodes, fs.handles[id].entry.node, names[0])
  }

  /** A walk is answered with an error if and only if it has too many names,
      comes through no known handle or goes to one already known; never for a
      name without an entry. If none resolves, an in-place walk only takes away
      the open in force, and any other makes a second handle at the same
      place. */
  lemma UnresolvableWalk(fs: Fs, id: nat, newid: nat, names: seq<Name>)
    requires Inv(fs)
    ensures
      var out := DoWalk(fs, id, newid, names);
      && (out.reply.RError? <==>
            |names| > TWALK_MAXELEM || !Known(fs, id) || (id != newid && Known(fs, newid)))
      && (!out.reply.RError? && Unresolvable(fs, id, names) ==>
            && out.reply == RWalk([])
            && out.fs.nodes == fs.nodes
            && out.id in out.fs.handles && out.fs.handles[out.id] == VHandle(fs.handles[id].entry, OPEN_EX_INVALID)
            && (out.fs == fs <==> id == newid && fs.handles[id].open == OPEN_EX_INVALID))
  {
    var out := DoWalk(fs, id, newid, names);
    if !out.reply.RError? && Unresolvable(fs, id, names) {
      assert Walk(fs.nodes, fs.handles[id].entry, names) == (fs.handles[id].entry, []);
      if id == newid && fs.handles[id].open == OPEN_EX_INVALID {
        assert fs.handles[id := fs.handles[id]] == fs.handles;
      }
    }
  }

  /** Along any path objects were allocated later and later: no cycles. */
  lemma {:induction false} PathsGoDown(nodes: seq<Node>, e: DirEntry, names: seq<Name>, es: seq<DirEntry>)
    requires Tree(nodes) && PathTo(nodes, e, names, es) && names != []
    ensures e.node < es[|names|].node
  {
    var k := |names|;
    if k > 1 {
      PathsGoDown(nodes, e, names[..k - 1], es[..k]);
    }
  }

  /** An object has at most one path from the root. */
  lemma {:induction false} UniquePath(nodes: seq<Node>,
                                      p: seq<Name>, es: seq<DirEntry>, q: seq<Name>, fs: seq<DirEntry>)
    requires Tree(nodes)
    requires PathTo(nodes, ROOT_ENTRY, p, es) && PathTo(nodes, ROOT_ENTRY, q, fs)
    requires es[|p|].node == fs[|q|].node
    ensures p == q && es == fs
  {
    if p == [] {
      if q != [] { PathsGoDown(nodes, ROOT_ENTRY, q, fs); }
    } else if q == [] {
      PathsGoDown(nodes, ROOT_ENTRY, p, es);
    } else {
      var i, j := |p| - 1, |q| - 1;
      assert es[i].node == fs[j].node && p[i] == q[j];
      UniquePath(nodes, p[..i], es[..i + 1], q[..j], fs[..j + 1]);
      assert p == p[..i] + [p[i]] && q == q[..j] + [q[j]];
      assert es == es[..i + 1] + [es[i + 1]] && fs == fs[..j + 1] + [fs[j + 1]];
    }
  }
}
