/** The in-memory filesystem as a state: file objects and directory objects in
    allocation order, directory entries, and the handle table shared by all
    connections. What each request of src/XVirtualFileSystem.cpp does to it. */
module VirtualFs {
  import opened X9PProtocol
  import opened VirtualFile
  import opened DirectoryRead

  /** A directory entry lives in its parent's map and handles point at it;
      serial is its identity, so an entry that was erased and one that later
      takes the same name are told apart. */
  datatype DirEntry = DirEntry(serial: nat, name: Name, parent: nat, node: nat)

  datatype Node =
    | File(buf: seq<byte>, version: nat)
    | Directory(children: map<Name, DirEntry>, version: nat)

  datatype VHandle = VHandle(entry: DirEntry, open: OpenMode)

  /** nodes[0] is the root; entries counts the directory entries made. */
  datatype Fs = Fs(
    nodes: seq<Node>,
    handles: map<nat, VHandle>,
    hidserial: nat,
    entries: nat)

  const ROOT_ENTRY := DirEntry(0, [47], 0, 0)

  function Start(): Fs { Fs([Directory(map[], 0)], map[], 0, 1) }

  // ------------------------------------------------------------ directories

  function Bump(version: nat): nat { (version + 1) % UINT32 }

  function QidOf(nodes: seq<Node>, n: nat): Qid
    requires n < |nodes|
  {
    Qid(nodes[n].Directory?, nodes[n].version, n)
  }

  predicate HasChild(nodes: seq<Node>, d: nat, name: Name) {
    d < |nodes| && nodes[d].Directory? && name in nodes[d].children
  }

  function Child(nodes: seq<Node>, d: nat, name: Name): DirEntry
    requires HasChild(nodes, d, name)
  {
    nodes[d].children[name]
  }

  function AddChild(nodes: seq<Node>, d: nat, e: DirEntry): seq<Node>
    requires d < |nodes| && nodes[d].Directory?
  {
    nodes[d := Directory(nodes[d].children[e.name := e], Bump(nodes[d].version))]
  }

  function RemoveChild(nodes: seq<Node>, d: nat, name: Name): seq<Node> {
    if HasChild(nodes, d, name)
    then nodes[d := Directory(nodes[d].children - {name}, Bump(nodes[d].version))]
    else nodes
  }

  /** Entry e is the root's or is still in its parent's map. */
  predicate Live(nodes: seq<Node>, e: DirEntry) {
    e == ROOT_ENTRY || (HasChild(nodes, e.parent, e.name) && Child(nodes, e.parent, e.name) == e)
  }

  /** Every key is its entry's name, every entry knows the directory that
      holds it, and a child was allocated after its parent. */
  ghost predicate EntriesOk(nodes: seq<Node>) {
    forall d: nat, name: Name | HasChild(nodes, d, name) ::
      var e := Child(nodes, d, name);
      e.name == name && e.parent == d && d < e.node < |nodes|
  }

  /** Longest prefix of names that resolves: the last entry reached, and one
      qid per resolved name. */
  function Walk(nodes: seq<Node>, e: DirEntry, names: seq<Name>): (r: (DirEntry, seq<Qid>))
    requires EntriesOk(nodes)
    ensures |r.1| <= |names|
    decreases |names|
  {
    if names == [] || !HasChild(nodes, e.node, names[0]) then (e, [])
    else
      var c := Child(nodes, e.node, names[0]);
      var rest := Walk(nodes, c, names[1..]);
      (rest.0, [QidOf(nodes, c.node)] + rest.1)
  }

  /** No "." is looked up along the way; the source asserts that. */
  predicate NoDot(nodes: seq<Node>, e: DirEntry, names: seq<Name>)
    decreases |names|
  {
    names == [] || e.node >= |nodes| || nodes[e.node].File? ||
    (names[0] != [46] &&
     (HasChild(nodes, e.node, names[0]) ==> NoDot(nodes, Child(nodes, e.node, names[0]), names[1..])))
  }

  // ---------------------------------------------------------------- requests

  datatype FsOp =
    | OpAttach(id: nat)
    | OpWalk(id: nat, newid: nat, names: seq<Name>)
    | OpOpen(id: nat, mode: OpenMode)
    | OpCreate(id: nat, name: Name, isDir: bool, mode: OpenMode)
    | OpRead(id: nat, offset: nat, count: nat, listing: seq<Record>)
    | OpWrite(id: nat, offset: nat, data: seq<byte>)
    | OpRename(id: nat, name: Name)
    | OpRemove(id: nat)
    | OpClunk(id: nat)

  /** id is the handle's id afterwards: the new handle's for attach and walk. */
  datatype Outcome = Outcome(fs: Fs, id: nat, reply: Reply)

  predicate Known(fs: Fs, id: nat) {
    id != XHID_UNINITIALIZED && id in fs.handles
  }

  function Register(fs: Fs, h: VHandle): Fs {
    fs.(handles := fs.handles[fs.hidserial := h], hidserial := fs.hidserial + 1)
  }

  /** The read and write checks: the comparison binds tighter than the mask, so
      beyond the not-opened bit only the value of that comparison is masked. */
  predicate MayRead(open: OpenMode) {
    !((open & OPEN_EX_INVALID) != 0 || (open & (if OPEN_STATE_MASK == OPEN_WRITE then 1 else 0)) != 0)
  }

  predicate MayWrite(open: OpenMode) {
    !((open & OPEN_EX_INVALID) != 0 || (open & (if OPEN_STATE_MASK == OPEN_READ then 1 else 0)) != 0)
  }

  function DoAttach(fs: Fs, id: nat): Outcome
    requires |fs.nodes| > 0
  {
    if Known(fs, id) then Outcome(fs, id, RError(FidUsed))
    else Outcome(Register(fs, VHandle(ROOT_ENTRY, OPEN_EX_INVALID)), fs.hidserial, RAttach(QidOf(fs.nodes, 0)))
  }

  function DoWalk(fs: Fs, id: nat, newid: nat, names: seq<Name>): Outcome
    requires EntriesOk(fs.nodes)
  {
    if |names| > TWALK_MAXELEM then Outcome(fs, newid, RError(WalkTooFar))
    else if !Known(fs, id) then Outcome(fs, newid, RError(XhndInvalid))
    else if id != newid && Known(fs, newid) then Outcome(fs, newid, RError(FidUsed))
    else
      var (e, qids) := Walk(fs.nodes, fs.handles[id].entry, names);
      var h := VHandle(e, OPEN_EX_INVALID);
      if id == newid then Outcome(fs.(handles := fs.handles[id := h]), id, RWalk(qids))
      else Outcome(Register(fs, h), fs.hidserial, RWalk(qids))
  }

  function DoOpen(fs: Fs, id: nat, mode: OpenMode): Outcome
    requires Known(fs, id) ==> fs.handles[id].entry.node < |fs.nodes|
  {
    if !Known(fs, id) then Outcome(fs, id, RError(XhndInvalid))
    else
      var e := fs.handles[id].entry;
      Outcome(fs.(handles := fs.handles[id := VHandle(e, mode)]), id, ROpen(QidOf(fs.nodes, e.node)))
  }

  /** The new object and the directory with its entry. */
  function Created(fs: Fs, d: nat, name: Name, isDir: bool): seq<Node>
    requires d < |fs.nodes| && fs.nodes[d].Directory?
  {
    AddChild(fs.nodes, d, DirEntry(fs.entries, name, d, |fs.nodes|))
    + [if isDir then Directory(map[], 0) else File([], 0)]
  }

  function DoCreate(fs: Fs, id: nat, name: Name, isDir: bool, mode: OpenMode): Outcome
    requires Known(fs, id) ==> fs.handles[id].entry.node < |fs.nodes|
  {
    if !Known(fs, id) then Outcome(fs, id, RError(XhndInvalid))
    else
      var d := fs.handles[id].entry.node;
      if fs.nodes[d].File? || HasChild(fs.nodes, d, name) then Outcome(fs, id, RError(CannotCreate))
      else
        var e := DirEntry(fs.entries, name, d, |fs.nodes|);
        var h := VHandle(e, if isDir then OPEN_EX_INVALID else mode);
        Outcome(
          fs.(nodes := Created(fs, d, name, isDir), handles := fs.handles[id := h], entries := fs.entries + 1),
          id, RCreate(Qid(isDir, 0, |fs.nodes|)))
  }

  function DoRead(fs: Fs, id: nat, offset: nat, count: nat, listing: seq<Record>): Outcome
    requires Known(fs, id) ==> fs.handles[id].entry.node < |fs.nodes|
  {
    if !Known(fs, id) then Outcome(fs, id, RError(XhndInvalid))
    else if !MayRead(fs.handles[id].open) then Outcome(fs, id, RError(MustOpenFirst))
    else
      match fs.nodes[fs.handles[id].entry.node]
      case Directory(_, _) => Outcome(fs, id, RRead(ReadOne(listing, offset)))
      case File(buf, _) => Outcome(fs, id, RRead(Slice(buf, offset, count)))
  }

  function DoWrite(fs: Fs, id: nat, offset: nat, data: seq<byte>): Outcome
    requires Known(fs, id) ==> fs.handles[id].entry.node < |fs.nodes|
  {
    if !Known(fs, id) then Outcome(fs, id, RError(XhndInvalid))
    else if !MayWrite(fs.handles[id].open) then Outcome(fs, id, RError(MustOpenFirst))
    else
      var n := fs.handles[id].entry.node;
      match fs.nodes[n]
      case Directory(_, _) => Outcome(fs, id, RError(NotFile))
      case File(buf, v) =>
        Outcome(fs.(nodes := fs.nodes[n := File(Overlay(buf, Written(offset, data)), Bump(v))]),
                id, RWrite(|data|))
  }

  /** Twstat, which acts only on a non-empty name. */
  function DoRename(fs: Fs, id: nat, name: Name): Outcome
    requires Known(fs, id) ==>
               var p := fs.handles[id].entry.parent; p < |fs.nodes| && fs.nodes[p].Directory?
  {
    if !Known(fs, id) then Outcome(fs, id, RError(XhndInvalid))
    else if name == [] then Outcome(fs, id, RWstat)
    else
      var h := fs.handles[id];
      var p := h.entry.parent;
      if HasChild(fs.nodes, p, name) then Outcome(fs, id, RError(RenameExists))
      else
        var e := DirEntry(fs.entries, name, p, h.entry.node);
        Outcome(
          fs.(nodes := AddChild(RemoveChild(fs.nodes, p, h.entry.name), p, e),
              handles := fs.handles[id := VHandle(e, h.open)], entries := fs.entries + 1),
          id, RWstat)
  }

  /** Errors of RemoveChild are ignored. */
  function DoRemove(fs: Fs, id: nat): Outcome {
    if !Known(fs, id) then Outcome(fs, id, RError(XhndInvalid))
    else
      var e := fs.handles[id].entry;
      Outcome(fs.(nodes := RemoveChild(fs.nodes, e.parent, e.name), handles := fs.handles - {id}),
              XHID_UNINITIALIZED, RRemove)
  }

  function DoClunk(fs: Fs, id: nat): Outcome {
    if !Known(fs, id) then Outcome(fs, id, RError(XhndInvalid))
    else if fs.handles[id].open & OPEN_CLOSE != 0 then
      Outcome(DoRemove(fs, id).fs, XHID_UNINITIALIZED, RClunk)
    else Outcome(fs.(handles := fs.handles - {id}), XHID_UNINITIALIZED, RClunk)
  }

  // ------------------------------------------------------------- demands

  /** The handle's entry has not been erased under it. */
  predicate NotStale(fs: Fs, id: nat) {
    Known(fs, id) ==> Live(fs.nodes, fs.handles[id].entry)
  }

  /** What the source needs of a request whoever sends it: room in the 64-bit
      counter, no dereference of an erased entry, no ".", a content below the
      vector limit, and directory offsets it would accept. */
  predicate Safe(fs: Fs, op: FsOp) {
    match op
    case OpAttach(_) => fs.hidserial < XHID_UNINITIALIZED
    case OpWalk(id, _, names) =>
      && fs.hidserial < XHID_UNINITIALIZED
      && NotStale(fs, id)
      && (Known(fs, id) ==> NoDot(fs.nodes, fs.handles[id].entry, names))
    case OpRead(id, offset, count, listing) =>
      NotStale(fs, id) && OnBoundary(listing, offset) && offset < UINT64 && count < UINT32
    case OpWrite(id, offset, data) =>
      NotStale(fs, id) && |data| < UINT32 && offset + |data| <= MAX_SIZE
    case OpClunk(id) =>
      Known(fs, id) && fs.handles[id].open & OPEN_CLOSE != 0 ==> NotStale(fs, id)
    case _ => NotStale(fs, op.id)
  }

  /** A handle that is to be tagged carries no id, or one given out here. */
  predicate IdsKnown(fs: Fs, op: FsOp) {
    match op
    case OpAttach(id) => id == XHID_UNINITIALIZED || id in fs.handles
    case OpWalk(_, newid, _) => newid == XHID_UNINITIALIZED || newid in fs.handles
    case _ => true
  }

  predicate Allowed(fs: Fs, op: FsOp) {
    Safe(fs, op) && IdsKnown(fs, op)
  }

  /** Twstat through the root's own entry with a name that is free: it adds
      the root under itself. */
  predicate RenamesRoot(fs: Fs, op: FsOp) {
    op.OpRename? && Known(fs, op.id) && fs.handles[op.id].entry == ROOT_ENTRY &&
    op.name != [] && !HasChild(fs.nodes, 0, op.name)
  }

  // ------------------------------------------------------------- invariant

  /** No object has two entries. */
  ghost predicate OneParent(nodes: seq<Node>) {
    forall d: nat, name: Name, d': nat, name': Name | HasChild(nodes, d, name) && HasChild(nodes, d', name') ::
      Child(nodes, d, name).node == Child(nodes, d', name').node ==> d == d' && name == name'
  }

  ghost predicate Tree(nodes: seq<Node>) {
    |nodes| > 0 && nodes[0].Directory? && EntriesOk(nodes) && OneParent(nodes)
  }

  ghost predicate SerialsBelow(nodes: seq<Node>, n: nat) {
    n > 0 && forall d: nat, name: Name | HasChild(nodes, d, name) :: Child(nodes, d, name).serial < n
  }

  /** Sizes and counters stay in range. */
  ghost predicate InRange(nodes: seq<Node>) {
    forall n | 0 <= n < |nodes| :: nodes[n].version < UINT32 && (nodes[n].File? ==> |nodes[n].buf| <= MAX_SIZE)
  }

  ghost predicate EntryPlausible(fs: Fs, e: DirEntry) {
    e.serial < fs.entries && e.node < |fs.nodes| && e.parent < |fs.nodes| && fs.nodes[e.parent].Directory?
  }

  /** Handle ids come from the counter; the entries they point at were made
      here, even where they have been erased since. */
  ghost predicate HandlesOk(fs: Fs) {
    fs.hidserial <= XHID_UNINITIALIZED &&
    forall id <- fs.handles :: id < fs.hidserial && EntryPlausible(fs, fs.handles[id].entry)
  }

  ghost predicate Inv(fs: Fs) {
    Tree(fs.nodes) && SerialsBelow(fs.nodes, fs.entries) && InRange(fs.nodes) && HandlesOk(fs)
  }

  function Step(fs: Fs, op: FsOp): Outcome
    requires Inv(fs)
  {
    match op
    case OpAttach(id) => DoAttach(fs, id)
    case OpWalk(id, newid, names) => DoWalk(fs, id, newid, names)
    case OpOpen(id, mode) => DoOpen(fs, id, mode)
    case OpCreate(id, name, isDir, mode) => DoCreate(fs, id, name, isDir, mode)
    case OpRead(id, offset, count, listing) => DoRead(fs, id, offset, count, listing)
    case OpWrite(id, offset, data) => DoWrite(fs, id, offset, data)
    case OpRename(id, name) => DoRename(fs, id, name)
    case OpRemove(id) => DoRemove(fs, id)
    case OpClunk(id) => DoClunk(fs, id)
  }
}
