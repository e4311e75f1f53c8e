/** What every run of the in-memory filesystem keeps: the directory graph is a
    tree, rename and remove touch only their own names, and a stale handle
    never comes back to life. */
module VirtualFsTree {
  import opened X9PProtocol
  import opened VirtualFile
  import opened VirtualFs

  // ------------------------------------------------------------ directory maps

  lemma AddChildHas(nodes: seq<Node>, d: nat, e: DirEntry)
    requires d < |nodes| && nodes[d].Directory?
    ensures |AddChild(nodes, d, e)| == |nodes|
    ensures forall p: nat, n: Name ::
              HasChild(AddChild(nodes, d, e), p, n) <==> HasChild(nodes, p, n) || (p == d && n == e.name)
    ensures forall p: nat, n: Name | HasChild(AddChild(nodes, d, e), p, n) ::
              Child(AddChild(nodes, d, e), p, n) ==
              if p == d && n == e.name then e else Child(nodes, p, n)
  {
  }

  lemma RemoveChildHas(nodes: seq<Node>, d: nat, name: Name)
    ensures |RemoveChild(nodes, d, name)| == |nodes|
    ensures forall p: nat, n: Name ::
              HasChild(RemoveChild(nodes, d, name), p, n) <==> HasChild(nodes, p, n) && !(p == d && n == name)
    ensures forall p: nat, n: Name | HasChild(RemoveChild(nodes, d, name), p, n) ::
              Child(RemoveChild(nodes, d, name), p, n) == Child(nodes, p, n)
    ensures forall p | 0 <= p < |nodes| :: RemoveChild(nodes, d, name)[p].Directory? == nodes[p].Directory?
  {
  }

  lemma AppendHas(nodes: seq<Node>, made: Node)
    requires made.Directory? ==> made.children == map[]
    ensures forall p: nat, n: Name :: HasChild(nodes + [made], p, n) <==> HasChild(nodes, p, n)
    ensures forall p: nat, n: Name | HasChild(nodes, p, n) :: Child(nodes + [made], p, n) == Child(nodes, p, n)
  {
  }

  // ------------------------------------------------------------------- tree

  lemma CreateTree(fs: Fs, d: nat, name: Name, isDir: bool)
    requires Tree(fs.nodes) && SerialsBelow(fs.nodes, fs.entries) && InRange(fs.nodes)
    requires d < |fs.nodes| && fs.nodes[d].Directory? && !HasChild(fs.nodes, d, name)
    ensures Tree(Created(fs, d, name, isDir))
    ensures SerialsBelow(Created(fs, d, name, isDir), fs.entries + 1)
    ensures InRange(Created(fs, d, name, isDir))
  {
    var e := DirEntry(fs.entries, name, d, |fs.nodes|);
    AddChildHas(fs.nodes, d, e);
    AppendHas(AddChild(fs.nodes, d, e), if isDir then Directory(map[], 0) else File([], 0));
  }

  lemma RemoveTree(nodes: seq<Node>, d: nat, name: Name, entries: nat)
    requires Tree(nodes) && SerialsBelow(nodes, entries) && InRange(nodes)
    ensures Tree(RemoveChild(nodes, d, name))
    ensures SerialsBelow(RemoveChild(nodes, d, name), entries)
    ensures InRange(RemoveChild(nodes, d, name))
  {
    RemoveChildHas(nodes, d, name);
  }

  /** Directories after a rename of entry e to name. */
  function Renamed(fs: Fs, e: DirEntry, name: Name): seq<Node>
    requires e.parent < |fs.nodes| && fs.nodes[e.parent].Directory?
  {
    AddChild(RemoveChild(fs.nodes, e.parent, e.name), e.parent,
             DirEntry(fs.entries, name, e.parent, e.node))
  }

  lemma RenamedHas(fs: Fs, e: DirEntry, name: Name)
    requires e.parent < |fs.nodes| && fs.nodes[e.parent].Directory?
    ensures |Renamed(fs, e, name)| == |fs.nodes|
    ensures forall p: nat, n: Name ::
              HasChild(Renamed(fs, e, name), p, n) <==>
              (p == e.parent && n == name) || (HasChild(fs.nodes, p, n) && !(p == e.parent && n == e.name))
    ensures forall p: nat, n: Name | HasChild(Renamed(fs, e, name), p, n) ::
              Child(Renamed(fs, e, name), p, n) ==
              if p == e.parent && n == name then DirEntry(fs.entries, name, e.parent, e.node)
              else Child(fs.nodes, p, n)
  {
    RemoveChildHas(fs.nodes, e.parent, e.name);
    AddChildHas(RemoveChild(fs.nodes, e.parent, e.name), e.parent,
                DirEntry(fs.entries, name, e.parent, e.node));
  }

  lemma RenameTree(fs: Fs, e: DirEntry, name: Name)
    requires Tree(fs.nodes) && SerialsBelow(fs.nodes, fs.entries) && InRange(fs.nodes)
    requires Live(fs.nodes, e) && e != ROOT_ENTRY && !HasChild(fs.nodes, e.parent, name)
    ensures Tree(Renamed(fs, e, name))
    ensures SerialsBelow(Renamed(fs, e, name), fs.entries + 1)
    ensures InRange(Renamed(fs, e, name))
  {
    RenamedHas(fs, e, name);
  }

  /** Renaming the root puts the root under itself. */
  lemma RenameRootCycle(fs: Fs, name: Name)
    requires Tree(fs.nodes) && !HasChild(fs.nodes, 0, name)
    ensures !EntriesOk(Renamed(fs, ROOT_ENTRY, name))
  {
    RenamedHas(fs, ROOT_ENTRY, name);
    assert HasChild(Renamed(fs, ROOT_ENTRY, name), 0, name);
  }

  lemma WriteTree(fs: Fs, n: nat, w: Written)
    requires Tree(fs.nodes) && SerialsBelow(fs.nodes, fs.entries) && InRange(fs.nodes)
    requires n < |fs.nodes| && fs.nodes[n].File? && w.offset + |w.data| <= MAX_SIZE
    ensures
      var nodes := fs.nodes[n := File(Overlay(fs.nodes[n].buf, w), Bump(fs.nodes[n].version))];
      Tree(nodes) && SerialsBelow(nodes, fs.entries) && InRange(nodes)
  {
    var nodes := fs.nodes[n := File(Overlay(fs.nodes[n].buf, w), Bump(fs.nodes[n].version))];
    assert forall p: nat, name: Name :: HasChild(nodes, p, name) <==> HasChild(fs.nodes, p, name);
  }

  lemma {:induction false} WalkPlausible(nodes: seq<Node>, e: DirEntry, names: seq<Name>, entries: nat)
    requires Tree(nodes) && SerialsBelow(nodes, entries)
    ensures
      var r := Walk(nodes, e, names).0;
      r == e || (r.serial < entries && r.node < |nodes| && HasChild(nodes, r.parent, r.name)
                 && Child(nodes, r.parent, r.name) == r)
    decreases |names|
  {
    if names != [] && HasChild(nodes, e.node, names[0]) {
      WalkPlausible(nodes, Child(nodes, e.node, names[0]), names[1..], entries);
    }
  }

  // --------------------------------------------------------------- every step

  lemma TagHandles(fs: Fs, h: VHandle)
    requires HandlesOk(fs) && fs.hidserial < XHID_UNINITIALIZED && EntryPlausible(fs, h.entry)
    ensures HandlesOk(Register(fs, h))
  {
  }

  lemma WalkStep(fs: Fs, op: FsOp)
    requires Inv(fs) && Allowed(fs, op) && op.OpWalk?
    ensures Inv(Step(fs, op).fs)
  {
    if Known(fs, op.id) {
      var e := fs.handles[op.id].entry;
      WalkPlausible(fs.nodes, e, op.names, fs.entries);
      TagHandles(fs, VHandle(Walk(fs.nodes, e, op.names).0, OPEN_EX_INVALID));
    }
  }

  lemma CreateStep(fs: Fs, op: FsOp)
    requires Inv(fs) && Allowed(fs, op) && op.OpCreate?
    ensures Inv(Step(fs, op).fs)
  {
    if Known(fs, op.id) {
      var d := fs.handles[op.id].entry.node;
      if fs.nodes[d].Directory? && !HasChild(fs.nodes, d, op.name) {
        CreateTree(fs, d, op.name, op.isDir);
      }
    }
  }

  lemma WriteStep(fs: Fs, op: FsOp)
    requires Inv(fs) && Allowed(fs, op) && op.OpWrite?
    ensures Inv(Step(fs, op).fs)
  {
    if Known(fs, op.id) && fs.nodes[fs.handles[op.id].entry.node].File? {
      WriteTree(fs, fs.handles[op.id].entry.node, Written(op.offset, op.data));
    }
  }

  lemma RemoveStep(fs: Fs, op: FsOp)
    requires Inv(fs) && Allowed(fs, op) && (op.OpRemove? || op.OpClunk?)
    ensures Inv(Step(fs, op).fs)
  {
    if Known(fs, op.id) {
      var e := fs.handles[op.id].entry;
      RemoveTree(fs.nodes, e.parent, e.name, fs.entries);
      RemoveChildHas(fs.nodes, e.parent, e.name);
    }
  }

  lemma RenameStep(fs: Fs, op: FsOp)
    requires Inv(fs) && Allowed(fs, op) && op.OpRename?
    ensures Inv(Step(fs, op).fs) <==> !RenamesRoot(fs, op)
  {
    if Known(fs, op.id) && op.name != [] {
      var e := fs.handles[op.id].entry;
      if !HasChild(fs.nodes, e.parent, op.name) {
        if e == ROOT_ENTRY {
          RenameRootCycle(fs, op.name);
        } else {
          RenameTree(fs, e, op.name);
        }
      }
    }
  }

  /** A request keeps the whole invariant exactly when it is not the renaming
      of the root. */
  lemma StepKeepsInv(fs: Fs, op: FsOp)
    requires Inv(fs) && Allowed(fs, op)
    ensures Inv(Step(fs, op).fs) <==> !RenamesRoot(fs, op)
  {
    match op
    case OpAttach(_) => TagHandles(fs, VHandle(ROOT_ENTRY, OPEN_EX_INVALID));
    case OpWalk(_, _, _) => WalkStep(fs, op);
    case OpCreate(_, _, _, _) => CreateStep(fs, op);
    case OpWrite(_, _, _) => WriteStep(fs, op);
    case OpRename(_, _) => RenameStep(fs, op);
    case OpRemove(_) => RemoveStep(fs, op);
    case OpClunk(_) => RemoveStep(fs, op);
    case _ =>
  }

  lemma StartInv()
    ensures Inv(VirtualFs.Start())
  {
  }

  // ------------------------------------------------------------ what changes

  /** A rename that takes place moves the object from the old name to the new
      one in the same directory and changes no other name anywhere. */
  lemma RenameMovesOneName(fs: Fs, id: nat, name: Name)
    requires Inv(fs) && Allowed(fs, OpRename(id, name))
    requires Known(fs, id) && name != [] && fs.handles[id].entry != ROOT_ENTRY
    requires !HasChild(fs.nodes, fs.handles[id].entry.parent, name)
    ensures
      var e, nodes := fs.handles[id].entry, Step(fs, OpRename(id, name)).fs.nodes;
      && !HasChild(nodes, e.parent, e.name)
      && HasChild(nodes, e.parent, name) && Child(nodes, e.parent, name).node == e.node
      && (forall p: nat, n: Name | !(p == e.parent && (n == e.name || n == name)) ::
            (HasChild(nodes, p, n) <==> HasChild(fs.nodes, p, n)) &&
            (HasChild(nodes, p, n) ==> Child(nodes, p, n) == Child(fs.nodes, p, n)))
  {
    RenamedHas(fs, fs.handles[id].entry, name);
  }

  /** The entry a request takes out of its directory, if any. */
  function Erased(fs: Fs, op: FsOp): Option<DirEntry> {
    if !((op.OpRemove? || op.OpClunk? || op.OpRename?) && Known(fs, op.id)) then None
    else
      var h := fs.handles[op.id];
      if !HasChild(fs.nodes, h.entry.parent, h.entry.name) then None
      else if op.OpClunk? && h.open & OPEN_CLOSE == 0 then None
      else if op.OpRename? && (op.name == [] || HasChild(fs.nodes, h.entry.parent, op.name)) then None
      else Some(Child(fs.nodes, h.entry.parent, h.entry.name))
  }

  /** An entry made so far is live after a request exactly when it was live
      before and the request did not erase it: a handle goes stale only when
      its own entry is removed or renamed through another handle, and it then
      stays stale whatever is created under its old name. */
  lemma StaleIsErased(fs: Fs, op: FsOp, e: DirEntry)
    requires Inv(fs) && Allowed(fs, op) && !RenamesRoot(fs, op) && e.serial < fs.entries
    ensures Live(Step(fs, op).fs.nodes, e) <==>
            Live(fs.nodes, e) && (e == ROOT_ENTRY || Erased(fs, op) != Some(e))
  {
    hide Step, Live, Inv, Safe;
    match op
    case OpCreate(_, _, _, _) => CreateKeepsLive(fs, op, e);
    case OpRename(_, _) => RenameErases(fs, op, e);
    case OpRemove(_) => RemovalErases(fs, op, e);
    case OpClunk(_) => RemovalErases(fs, op, e);
    case _ => OthersKeepNames(fs, op, e);
  }

  lemma RenameErases(fs: Fs, op: FsOp, e: DirEntry)
    requires Inv(fs) && op.OpRename? && Allowed(fs, op) && !RenamesRoot(fs, op) && e.serial < fs.entries
    ensures Live(Step(fs, op).fs.nodes, e) <==>
            Live(fs.nodes, e) && (e == ROOT_ENTRY || Erased(fs, op) != Some(e))
  {
    if Known(fs, op.id) { RenamedHas(fs, fs.handles[op.id].entry, op.name); }
  }

  lemma RemovalErases(fs: Fs, op: FsOp, e: DirEntry)
    requires Inv(fs) && (op.OpRemove? || op.OpClunk?)
    ensures Live(Step(fs, op).fs.nodes, e) <==>
            Live(fs.nodes, e) && (e == ROOT_ENTRY || Erased(fs, op) != Some(e))
  {
    hide Live, RemoveChild, Inv;
    assert e == ROOT_ENTRY ==> Live(fs.nodes, e) by { RootLives(fs.nodes); }
    if Known(fs, op.id) { RemoveErases(fs, fs.handles[op.id].entry, e); }
  }

  lemma RootLives(nodes: seq<Node>)
    ensures Live(nodes, ROOT_ENTRY)
  {
  }

  lemma OthersKeepNames(fs: Fs, op: FsOp, e: DirEntry)
    requires Inv(fs) && Allowed(fs, op) && !(op.OpCreate? || op.OpRename? || op.OpRemove? || op.OpClunk?)
    ensures Live(Step(fs, op).fs.nodes, e) <==> Live(fs.nodes, e)
  {
    hide Walk, NoDot;
  }

  lemma CreateKeepsLive(fs: Fs, op: FsOp, e: DirEntry)
    requires Inv(fs) && op.OpCreate? && e.serial < fs.entries
    ensures Live(Step(fs, op).fs.nodes, e) <==> Live(fs.nodes, e)
  {
    if Known(fs, op.id) {
      var d := fs.handles[op.id].entry.node;
      if fs.nodes[d].Directory? && !HasChild(fs.nodes, d, op.name) {
        var made := DirEntry(fs.entries, op.name, d, |fs.nodes|);
        AddChildHas(fs.nodes, d, made);
        AppendHas(AddChild(fs.nodes, d, made), if op.isDir then Directory(map[], 0) else File([], 0));
      }
    }
  }

  lemma RemoveErases(fs: Fs, gone: DirEntry, e: DirEntry)
    requires Inv(fs)
    ensures
      Live(RemoveChild(fs.nodes, gone.parent, gone.name), e) <==>
      e == ROOT_ENTRY ||
      (Live(fs.nodes, e) &&
       !(HasChild(fs.nodes, gone.parent, gone.name) && Child(fs.nodes, gone.parent, gone.name) == e))
  {
    RemoveChildHas(fs.nodes, gone.parent, gone.name);
  }
}
