/** Versions of files and directories: each change of an object advances its
    version by one, so that within one turn of the 32-bit counter a version met
    again means that nothing has changed. */
module VirtualFsVersions {
  import opened X9PProtocol
  import opened VirtualFile
  import opened VirtualFs
  import opened VirtualFsTree
  import opened VirtualFsRuns

  /** Directory n holds the name of the handle's entry. */
  predicate InDirectory(fs: Fs, h: VHandle, n: nat) {
    h.entry.parent == n && HasChild(fs.nodes, n, h.entry.name)
  }

  /** How many changes a request made in state fs makes to object n: one for a
      write carried out, a name added and a name taken out. */
  function Changes(fs: Fs, ev: Event, n: nat): nat {
    if !Known(fs, ev.op.id) then 0
    else
      var h := fs.handles[ev.op.id];
      match ev.op
      case OpWrite(_, _, _) => if ev.out.reply.RWrite? && h.entry.node == n then 1 else 0
      case OpCreate(_, _, _, _) => if ev.out.reply.RCreate? && h.entry.node == n then 1 else 0
      case OpRename(_, name) => if ev.out.reply.RWstat? && name != [] && h.entry.parent == n then 2 else 0
      case OpRemove(_) => if InDirectory(fs, h, n) then 1 else 0
      case OpClunk(_) => if h.open & 0x40 != 0 && InDirectory(fs, h, n) then 1 else 0
      case _ => 0
  }

  /** The version is the old one and the changes, modulo 2^32; an object not
      changed is as it was. */
  predicate Counted(was: seq<Node>, now: seq<Node>, n: nat, changes: nat) {
    && n < |was| && n < |now| && now[n].Directory? == was[n].Directory?
    && now[n].version == (was[n].version + changes) % 0x1_0000_0000
    && (changes == 0 ==> now[n] == was[n])
  }

  lemma StepVersion(fs: Fs, op: FsOp, n: nat)
    requires Inv(fs) && Allowed(fs, op) && !RenamesRoot(fs, op) && n < |fs.nodes|
    ensures Counted(fs.nodes, Step(fs, op).fs.nodes, n, Changes(fs, Event(op, Step(fs, op)), n))
  {
    hide DoWrite, DoCreate, DoRename, DoRemove, DoClunk, EntriesOk, OneParent, SerialsBelow;
    InRangeOf(fs, n);
    match op
    case OpRename(_, _) => RenameVersion(fs, op, n);
    case OpRemove(_) => RemoveVersion(fs, op, n);
    case OpClunk(_) => RemoveVersion(fs, op, n);
    case OpWrite(_, _, _) => WriteVersion(fs, op, n);
    case OpCreate(_, _, _, _) => CreateVersion(fs, op, n);
    case _ => assert Step(fs, op).fs.nodes == fs.nodes;
  }

  lemma WriteVersion(fs: Fs, op: FsOp, n: nat)
    requires Inv(fs) && Allowed(fs, op) && op.OpWrite? && n < |fs.nodes|
    ensures Counted(fs.nodes, Step(fs, op).fs.nodes, n, Changes(fs, Event(op, Step(fs, op)), n))
  {
    assert fs.nodes[n].version < UINT32;
    hide EntriesOk, OneParent, SerialsBelow, HandlesOk, MayWrite;
  }

  lemma CreateVersion(fs: Fs, op: FsOp, n: nat)
    requires Inv(fs) && Allowed(fs, op) && op.OpCreate? && n < |fs.nodes|
    ensures Counted(fs.nodes, Step(fs, op).fs.nodes, n, Changes(fs, Event(op, Step(fs, op)), n))
  {
    assert fs.nodes[n].version < UINT32;
    hide EntriesOk, OneParent, SerialsBelow;
  }

  lemma RenameVersion(fs: Fs, op: FsOp, n: nat)
    requires Inv(fs) && Allowed(fs, op) && op.OpRename? && !RenamesRoot(fs, op) && n < |fs.nodes|
    ensures Counted(fs.nodes, Step(fs, op).fs.nodes, n, Changes(fs, Event(op, Step(fs, op)), n))
  {
    assert fs.nodes[n].version < UINT32;
    hide EntriesOk, OneParent, SerialsBelow;
  }

  lemma RemoveVersion(fs: Fs, op: FsOp, n: nat)
    requires Inv(fs) && (op.OpRemove? || op.OpClunk?) && n < |fs.nodes|
    ensures Counted(fs.nodes, Step(fs, op).fs.nodes, n, Changes(fs, Event(op, Step(fs, op)), n))
  {
    assert fs.nodes[n].version < UINT32;
    hide EntriesOk, OneParent, SerialsBelow, HandlesOk;
  }

  /** All the changes a run makes to object n. */
  function ChangesIn(fs: Fs, log: seq<Event>, n: nat): nat
    decreases |log|
  {
    if log == [] then 0
    else
      var init := log[..|log| - 1];
      ChangesIn(fs, init, n) + Changes(Final(fs, init), log[|log| - 1], n)
  }

  lemma CountedOn(was: seq<Node>, mid: seq<Node>, now: seq<Node>, n: nat, a: nat, b: nat)
    requires Counted(was, mid, n, a) && Counted(mid, now, n, b)
    ensures Counted(was, now, n, a + b)
  {
  }

  /** Over every run the version of an object counts its changes, from wherever it
      stood. */
  lemma {:induction false} RunVersion(fs: Fs, log: seq<Event>, n: nat)
    requires Inv(fs) && Run(fs, log) && n < |fs.nodes|
    ensures Counted(fs.nodes, Final(fs, log).nodes, n, ChangesIn(fs, log, n))
    decreases |log|
  {
    hide Step, Allowed, RenamesRoot, Changes;
    if log == [] {
      InRangeOf(fs, n);
    } else {
      var init, last := log[..|log| - 1], log[|log| - 1];
      RunVersion(fs, init, n);
      RunKeepsInv(fs, init);
      StepVersion(Final(fs, init), last.op, n);
      assert last == Event(last.op, last.out);
      CountedOn(fs.nodes, Final(fs, init).nodes, last.out.fs.nodes, n,
                ChangesIn(fs, init, n), Changes(Final(fs, init), last, n));
    }
  }

  lemma InRangeOf(fs: Fs, n: nat)
    requires Inv(fs) && n < |fs.nodes|
    ensures Counted(fs.nodes, fs.nodes, n, 0)
  {
    assert fs.nodes[n].version < UINT32;
  }

  /** So a client that meets the version it has seen, fewer than 2^32 changes
      later, may rely on content and names being what they were. */
  lemma VersionTells(fs: Fs, log: seq<Event>, n: nat)
    requires Inv(fs) && Run(fs, log) && n < |fs.nodes| && ChangesIn(fs, log, n) < 0x1_0000_0000
    ensures
      var now := Final(fs, log).nodes;
      && n < |now| && (now[n].version == fs.nodes[n].version <==> now[n] == fs.nodes[n])
      && (now[n].version == fs.nodes[n].version <==> ChangesIn(fs, log, n) == 0)
  {
    RunVersion(fs, log, n);
    InRangeOf(fs, n);
    hide ChangesIn;
    if Final(fs, log).nodes[n].version == fs.nodes[n].version { Turn(fs.nodes[n].version, ChangesIn(fs, log, n)); }
  }

  lemma Turn(v: nat, k: nat)
    requires v < 0x1_0000_0000 && k < 0x1_0000_0000 && (v + k) % 0x1_0000_0000 == v
    ensures k == 0
  {
  }
}
