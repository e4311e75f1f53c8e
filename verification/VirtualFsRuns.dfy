/** Whole runs of the in-memory filesystem: the tree invariant and the content
    of each file over every sequence of requests. */
module VirtualFsRuns {
  import opened X9PProtocol
  import opened VirtualFile
  import opened VirtualFs
  import opened VirtualFsTree

  /** A request and what came of it. */
  datatype Event = Event(op: FsOp, out: Outcome)

  function Final(fs: Fs, log: seq<Event>): Fs {
    if log == [] then fs else log[|log| - 1].out.fs
  }

  /** The log is a run from fs: each request meets the source's demands, does
      not rename the root, and has the outcome the filesystem gives it. */
  ghost predicate Run(fs: Fs, log: seq<Event>)
    decreases |log|
  {
    log == [] ||
    var init, last := log[..|log| - 1], log[|log| - 1];
    var before := Final(fs, init);
    Run(fs, init) &&
    (Inv(before) ==>
       Allowed(before, last.op) && !RenamesRoot(before, last.op) && last.out == Step(before, last.op))
  }

  /** Over every run the directory graph is a tree and the handle table is in
      order. */
  lemma {:induction false} RunKeepsInv(fs: Fs, log: seq<Event>)
    requires Inv(fs) && Run(fs, log)
    ensures Inv(Final(fs, log))
    decreases |log|
  {
    if log != [] {
      var init := log[..|log| - 1];
      RunKeepsInv(fs, init);
      StepKeepsInv(Final(fs, init), log[|log| - 1].op);
    }
  }

  // ---------------------------------------------------------------- contents

  /** The write a request performs on object n in state fs, if it does. */
  function WriteTo(fs: Fs, ev: Event, n: nat): seq<Written> {
    if ev.op.OpWrite? && ev.out.reply.RWrite? && ev.op.id in fs.handles && fs.handles[ev.op.id].entry.node == n
    then [Written(ev.op.offset, ev.op.data)] else []
  }

  function WritesTo(fs: Fs, log: seq<Event>, n: nat): seq<Written>
    decreases |log|
  {
    if log == [] then []
    else
      var init := log[..|log| - 1];
      WritesTo(fs, init, n) + WriteTo(Final(fs, init), log[|log| - 1], n)
  }

  lemma StepContent(fs: Fs, op: FsOp, n: nat)
    requires Inv(fs) && Allowed(fs, op) && !RenamesRoot(fs, op)
    requires n < |fs.nodes| && fs.nodes[n].File?
    ensures
      var out := Step(fs, op);
      && n < |out.fs.nodes| && out.fs.nodes[n].File?
      && out.fs.nodes[n].buf == Overlays(fs.nodes[n].buf, WriteTo(fs, Event(op, out), n))
  {
    var out := Step(fs, op);
    var w := WriteTo(fs, Event(op, out), n);
    assert Overlays(fs.nodes[n].buf, []) == fs.nodes[n].buf;
    if w != [] {
      assert w[..0] == [];
      assert Overlays(fs.nodes[n].buf, w) == Overlay(fs.nodes[n].buf, w[0]);
    }
  }

  lemma {:induction false} OverlaysConcat(buf: seq<byte>, a: seq<Written>, b: seq<Written>)
    ensures Overlays(buf, a + b) == Overlays(Overlays(buf, a), b)
  {
    if b == [] {
      assert a + b == a;
    } else {
      assert (a + b)[..|a + b| - 1] == a + b[..|b| - 1];
      OverlaysConcat(buf, a, b[..|b| - 1]);
    }
  }

  /** Over every run the content of a file is its content at the start overlaid
      with exactly the writes made through handles on it, in order, whatever
      creates, renames and removes happen in between. */
  lemma {:induction false} RunContent(fs: Fs, log: seq<Event>, n: nat)
    requires Inv(fs) && Run(fs, log) && n < |fs.nodes| && fs.nodes[n].File?
    ensures
      var after := Final(fs, log).nodes;
      n < |after| && after[n].File? && after[n].buf == Overlays(fs.nodes[n].buf, WritesTo(fs, log, n))
    decreases |log|
  {
    if log != [] {
      var init, last := log[..|log| - 1], log[|log| - 1];
      RunContent(fs, init, n);
      RunKeepsInv(fs, init);
      var before := Final(fs, init);
      StepContent(before, last.op, n);
      assert last == Event(last.op, last.out);
      OverlaysConcat(fs.nodes[n].buf, WritesTo(fs, init, n), WriteTo(before, last, n));
    }
  }

  /** So a byte of a file that was empty at the start is what the last write
      over its position put there, or zero. */
  lemma RunLastByte(fs: Fs, log: seq<Event>, n: nat, k: nat)
    requires Inv(fs) && Run(fs, log) && n < |fs.nodes| && fs.nodes[n] == File([], fs.nodes[n].version)
    ensures
      var after := Final(fs, log).nodes;
      && n < |after| && after[n].File? && |after[n].buf| == Extent(WritesTo(fs, log, n))
      && (k < |after[n].buf| ==> after[n].buf[k] == LastByte(WritesTo(fs, log, n), k))
  {
    RunContent(fs, log, n);
    ContentIsLastWritten(WritesTo(fs, log, n));
  }

  // ------------------------------------------------------------------- modes

  /** The modes clients sent went through the server's mask. */
  ghost predicate Masked(log: seq<Event>) {
    forall ev <- log ::
      (ev.op.OpOpen? ==> ev.op.mode & OPEN_PROTOCOL_MASK == ev.op.mode) &&
      (ev.op.OpCreate? ==> ev.op.mode & OPEN_PROTOCOL_MASK == ev.op.mode)
  }

  function Stored(mode: Option<OpenMode>): OpenMode {
    if mode.Some? then mode.value else OPEN_EX_INVALID
  }

  lemma MaskedBits(mode: OpenMode)
    requires mode & OPEN_PROTOCOL_MASK == mode
    ensures mode & OPEN_EX_INVALID == 0
  {
  }

  /** Of the mode a handle was opened with only the not-opened bit is enforced:
      one opened for writing may be read, and the other way round. */
  lemma OnlyNotOpenedCounts(open: OpenMode)
    ensures MayRead(open) <==> open & OPEN_EX_INVALID == 0
    ensures MayWrite(open) <==> open & OPEN_EX_INVALID == 0
    ensures MayRead(OPEN_WRITE) && MayWrite(OPEN_READ)
  {
  }
}
