/** What the requests of the in-memory filesystem see of each other: lemmas
    about two requests in a row, and the frames of single requests they rest
    on. */
module VirtualFsEffects {
  import opened X9PProtocol
  import opened VirtualFile
  import opened VirtualFs
  import opened VirtualFsTree
  import opened VirtualFsWalk

  /** Directories agree on every name but those in directory d listed. */
  ghost predicate SameNamesBut(a: seq<Node>, b: seq<Node>, d: nat, names: set<Name>) {
    forall p: nat, n: Name | !(p == d && n in names) ::
      (HasChild(b, p, n) <==> HasChild(a, p, n)) && (HasChild(a, p, n) ==> Child(b, p, n) == Child(a, p, n))
  }

  /** A create succeeds exactly in a directory that lacks the name. It then
      makes one object, empty and of the kind asked for, under that one name,
      and moves the handle there; every other name, object content and handle
      stays. */
  lemma CreateMakesOneName(fs: Fs, id: nat, name: Name, isDir: bool, mode: OpenMode)
    requires Inv(fs) && Allowed(fs, OpCreate(id, name, isDir, mode))
    ensures
      var out := Step(fs, OpCreate(id, name, isDir, mode));
      && (out.reply.RCreate? <==>
            Known(fs, id) && fs.nodes[fs.handles[id].entry.node].Directory? &&
            !HasChild(fs.nodes, fs.handles[id].entry.node, name))
      && (!out.reply.RCreate? ==> out.fs == fs)
      && (out.reply.RCreate? ==>
            var d, n := fs.handles[id].entry.node, |fs.nodes|;
            && |out.fs.nodes| == n + 1
            && out.fs.nodes[n] == (if isDir then Directory(map[], 0) else File([], 0))
            && out.reply.qid == QidOf(out.fs.nodes, n)
            && HasChild(out.fs.nodes, d, name) && Child(out.fs.nodes, d, name).node == n
            && SameNamesBut(fs.nodes, out.fs.nodes, d, {name})
            && (forall k | 0 <= k < n && fs.nodes[k].File? :: out.fs.nodes[k] == fs.nodes[k])
            && out.fs.handles.Keys == fs.handles.Keys
            && out.fs.handles[id].entry == Child(out.fs.nodes, d, name)
            && (forall i <- fs.handles | i != id :: out.fs.handles[i] == fs.handles[i]))
  {
    var out := Step(fs, OpCreate(id, name, isDir, mode));
    if out.reply.RCreate? {
      var d := fs.handles[id].entry.node;
      var e := DirEntry(fs.entries, name, d, |fs.nodes|);
      AddChildHas(fs.nodes, d, e);
      AppendHas(AddChild(fs.nodes, d, e), if isDir then Directory(map[], 0) else File([], 0));
    }
  }

  /** A remove, or a clunk of a handle opened to remove on close, takes away
      one name, and the handle; another clunk takes away only the handle. */
  lemma RemoveTakesOneName(fs: Fs, id: nat, clunk: bool)
    requires Inv(fs) && Known(fs, id)
    ensures
      var e, out := fs.handles[id].entry, Step(fs, if clunk then OpClunk(id) else OpRemove(id));
      var removing := !clunk || fs.handles[id].open & OPEN_CLOSE != 0;
      && out.fs.handles == fs.handles - {id} && out.id == XHID_UNINITIALIZED
      && out.reply == (if clunk then RClunk else RRemove)
      && (if removing then
            !HasChild(out.fs.nodes, e.parent, e.name) && SameNamesBut(fs.nodes, out.fs.nodes, e.parent, {e.name})
          else out.fs.nodes == fs.nodes)
      && |out.fs.nodes| == |fs.nodes|
      && (forall k | 0 <= k < |fs.nodes| && fs.nodes[k].File? :: out.fs.nodes[k] == fs.nodes[k])
  {
    var e := fs.handles[id].entry;
    RemoveChildHas(fs.nodes, e.parent, e.name);
  }

  lemma CreatedLives(fs: Fs, id: nat, name: Name, isDir: bool, mode: OpenMode)
    requires Inv(fs) && Allowed(fs, OpCreate(id, name, isDir, mode))
    requires Step(fs, OpCreate(id, name, isDir, mode)).reply.RCreate?
    ensures
      var made := Step(fs, OpCreate(id, name, isDir, mode)).fs;
      Known(made, id) && Live(made.nodes, made.handles[id].entry)
  {
    CreateMakesOneName(fs, id, name, isDir, mode);
  }

  /** Removing what a create made restores every name; the handle is gone. */
  lemma CreateThenRemove(fs: Fs, id: nat, name: Name, isDir: bool, mode: OpenMode)
    requires Inv(fs) && Allowed(fs, OpCreate(id, name, isDir, mode))
    requires Step(fs, OpCreate(id, name, isDir, mode)).reply.RCreate?
    ensures
      var made := Step(fs, OpCreate(id, name, isDir, mode)).fs;
      && Inv(made) && Known(made, id) && Allowed(made, OpRemove(id))
      && var after := Step(made, OpRemove(id)).fs;
         SameNamesBut(fs.nodes, after.nodes, 0, {}) && after.handles == fs.handles - {id}
  {
    hide Inv, Live;
    CreateMakesOneName(fs, id, name, isDir, mode);
    StepKeepsInv(fs, OpCreate(id, name, isDir, mode));
    var made := Step(fs, OpCreate(id, name, isDir, mode)).fs;
    CreatedLives(fs, id, name, isDir, mode);
    hide Step, SameNamesBut;
    RemoveTakesOneName(made, id, false);
    Restored(fs.nodes, made.nodes, Step(made, OpRemove(id)).fs.nodes, fs.handles[id].entry.node, name);
    assert made.handles - {id} == fs.handles - {id};
  }

  lemma Restored(a: seq<Node>, b: seq<Node>, c: seq<Node>, d: nat, name: Name)
    requires !HasChild(a, d, name) && !HasChild(c, d, name)
    requires SameNamesBut(a, b, d, {name}) && SameNamesBut(b, c, d, {name})
    ensures SameNamesBut(a, c, 0, {})
  {
    forall p: nat, n: Name
      ensures (HasChild(c, p, n) <==> HasChild(a, p, n)) && (HasChild(a, p, n) ==> Child(c, p, n) == Child(a, p, n))
    {
      if !(p == d && n in {name}) {
        assert HasChild(b, p, n) <==> HasChild(a, p, n);
      }
    }
  }

  /** Walking to a name just created finds the object the create reported. */
  lemma CreatedIsFound(fs: Fs, id: nat, name: Name, isDir: bool, mode: OpenMode)
    requires Inv(fs) && Allowed(fs, OpCreate(id, name, isDir, mode))
    requires Step(fs, OpCreate(id, name, isDir, mode)).reply.RCreate?
    ensures
      var out := Step(fs, OpCreate(id, name, isDir, mode));
      && Inv(out.fs)
      && Walk(out.fs.nodes, fs.handles[id].entry, [name]) == (out.fs.handles[id].entry, [out.reply.qid])
  {
    CreateMakesOneName(fs, id, name, isDir, mode);
    StepKeepsInv(fs, OpCreate(id, name, isDir, mode));
    var out := Step(fs, OpCreate(id, name, isDir, mode));
    OneName(out.fs.nodes, fs.handles[id].entry, name);
  }

  lemma OneName(nodes: seq<Node>, e: DirEntry, name: Name)
    requires EntriesOk(nodes) && HasChild(nodes, e.node, name)
    ensures Child(nodes, e.node, name).node < |nodes|
    ensures Walk(nodes, e, [name]) ==
            (Child(nodes, e.node, name), [QidOf(nodes, Child(nodes, e.node, name).node)])
  {
    var c := Child(nodes, e.node, name);
    assert [name][1..] == [] && Walk(nodes, c, []) == (c, []);
    assert [QidOf(nodes, c.node)] + [] == [QidOf(nodes, c.node)];
  }

  /** After a rename the new name leads where the old one did, with the same
      qid, and the old one leads nowhere. */
  lemma RenamedIsFound(fs: Fs, id: nat, name: Name, dir: DirEntry)
    requires Inv(fs) && Allowed(fs, OpRename(id, name))
    requires Known(fs, id) && name != [] && fs.handles[id].entry != ROOT_ENTRY
    requires !HasChild(fs.nodes, fs.handles[id].entry.parent, name)
    requires dir.node == fs.handles[id].entry.parent
    ensures
      var e, out := fs.handles[id].entry, Step(fs, OpRename(id, name)).fs;
      && Inv(out)
      && Walk(fs.nodes, dir, [e.name]).0.node == e.node
      && Walk(out.nodes, dir, [name]).0.node == e.node
      && |Walk(out.nodes, dir, [name]).1| == 1
      && Walk(out.nodes, dir, [name]).1[0].path == e.node
      && Walk(out.nodes, dir, [e.name]) == (dir, [])
  {
    StepKeepsInv(fs, OpRename(id, name));
    RenameMovesOneName(fs, id, name);
  }

  /** What one handle wrote another handle on the same file reads, through
      whatever name either was walked to. */
  lemma WrittenIsRead(fs: Fs, id: nat, other: nat, offset: nat, data: seq<byte>)
    requires Inv(fs) && Allowed(fs, OpWrite(id, offset, data))
    requires Step(fs, OpWrite(id, offset, data)).reply.RWrite?
    requires Known(fs, other) && fs.handles[other].entry.node == fs.handles[id].entry.node
    requires MayRead(fs.handles[other].open) && NotStale(fs, other)
    ensures
      var out := Step(fs, OpWrite(id, offset, data));
      && out.reply == RWrite(|data|) && Inv(out.fs)
      && DoRead(out.fs, other, offset, |data|, []).reply == RRead(data)
  {
    StepKeepsInv(fs, OpWrite(id, offset, data));
    var n := fs.handles[id].entry.node;
    ReadBack(fs.nodes[n].buf, Written(offset, data));
  }
}
