/** The objects of src/XVirtualFileSystem.cpp and src/XBaseFileSystem.h, each
    request proved to do what VirtualFs says it does. */
module XVirtualFileSystemModel {
  import opened X9PProtocol
  import opened VirtualFile
  import opened DirectoryRead
  import opened VirtualFs

  class XVFSDirectory {
    var m_children: map<Name, DirEntry>
    var m_version: nat

    constructor ()
      ensures m_children == map[] && m_version == 0
    {
      m_children, m_version := map[], 0;
    }

    method AddChild(de: DirEntry) returns (ok: bool)
      modifies this
      ensures ok <==> de.name !in old(m_children)
      ensures ok ==> m_children == old(m_children)[de.name := de] && m_version == Bump(old(m_version))
      ensures !ok ==> m_children == old(m_children) && m_version == old(m_version)
    {
      if de.name in m_children { return false; }
      m_children := m_children[de.name := de];
      m_version := (m_version + 1) % UINT32;
      return true;
    }

    method RemoveChild(name: Name) returns (ok: bool)
      modifies this
      ensures ok <==> name in old(m_children)
      ensures ok ==> m_children == old(m_children) - {name} && m_version == Bump(old(m_version))
      ensures !ok ==> m_children == old(m_children) && m_version == old(m_version)
    {
      if name !in m_children { return false; }
      m_children := m_children - {name};
      m_version := (m_version + 1) % UINT32;
      return true;
    }

    method FindChild(name: Name) returns (out: Option<DirEntry>)
      ensures out == if name in m_children then Some(m_children[name]) else None
    {
      if name !in m_children { return None; }
      return Some(m_children[name]);
    }
  }

  /** xhnd_data: the part of a handle a filesystem writes to. */
  class Handle {
    var id: nat

    constructor ()
      ensures id == XHID_UNINITIALIZED
    {
      id := XHID_UNINITIALIZED;
    }
  }

  datatype NodeRef = FileRef(file: XVFSFile) | DirRef(dir: XVFSDirectory)

  ghost function Obj(n: NodeRef): object {
    match n
    case FileRef(f) => f
    case DirRef(d) => d
  }

  ghost function Value(n: NodeRef): Node
    reads Obj(n)
  {
    match n
    case FileRef(f) => File(f.m_buf, f.m_version)
    case DirRef(d) => Directory(d.m_children, d.m_version)
  }

  ghost function Objects(ns: seq<NodeRef>): set<object> {
    set i | 0 <= i < |ns| :: Obj(ns[i])
  }

  ghost function Values(ns: seq<NodeRef>): (v: seq<Node>)
    reads Objects(ns)
    ensures |v| == |ns|
  {
    seq(|ns|, i requires 0 <= i < |ns| reads Objects(ns) => Value(ns[i]))
  }

  class XVirtualFileSystem {
    /** Every file and directory object, in allocation order. */
    var m_nodes: seq<NodeRef>
    var m_handles: map<nat, VHandle>
    var m_hidserial: nat
    var m_entries: nat

    ghost predicate Separate()
      reads this
    {
      forall i, j | 0 <= i < j < |m_nodes| :: Obj(m_nodes[i]) != Obj(m_nodes[j])
    }

    ghost predicate FilesOk()
      reads this, Objects(m_nodes)
    {
      forall n | 0 <= n < |m_nodes| && m_nodes[n].FileRef? :: m_nodes[n].file.Valid()
    }

    ghost predicate WellFormed()
      reads this, Objects(m_nodes)
    {
      this !in Objects(m_nodes) && Separate()
    }

    ghost function View(): Fs
      reads this, Objects(m_nodes)
    {
      Fs(Values(m_nodes), m_handles, m_hidserial, m_entries)
    }

    /** The objects behind a handle exist. */
    ghost predicate Backed(id: nat)
      reads this, Objects(m_nodes)
    {
      id != XHID_UNINITIALIZED && id in m_handles ==>
        var e := m_handles[id].entry;
        e.node < |m_nodes| && e.parent < |m_nodes| && m_nodes[e.parent].DirRef?
    }

    ghost predicate CanTag(id: nat)
      reads this
    {
      m_hidserial !in m_handles && (id == XHID_UNINITIALIZED || id in m_handles)
    }

    /** The invariant gives every method below what it asks for; in particular
        the counter is above every id in use, so the search of TagHND for a
        free one, which could not end once entered, is never entered. */
    lemma InvSuffices(id: nat)
      requires WellFormed() && Inv(View())
      ensures |m_nodes| > 0 && FilesOk() && Backed(id)
      ensures m_hidserial !in m_handles && XHID_UNINITIALIZED !in m_handles
    {
      forall n | 0 <= n < |m_nodes| && m_nodes[n].FileRef? ensures m_nodes[n].file.Valid() {
        assert View().nodes[n] == Value(m_nodes[n]);
      }
      if id in m_handles {
        assert View().nodes[m_handles[id].entry.parent] == Value(m_nodes[m_handles[id].entry.parent]);
      }
    }

    constructor ()
      ensures WellFormed() && fresh(Objects(m_nodes)) && View() == VirtualFs.Start()
    {
      var root := new XVFSDirectory();
      m_nodes := [DirRef(root)];
      m_handles, m_hidserial, m_entries := map[], 0, 1;
      new;
      assert Values(m_nodes) == [Directory(map[], 0)];
    }

    /** The search loop of the source never looks its id up again, so it could
        not end once entered; the precondition, which the invariant of the
        whole state gives, is that it is not. */
    method TagHND(hnd: Handle, value: VHandle)
      requires hnd.id == XHID_UNINITIALIZED && m_hidserial !in m_handles
      modifies this, hnd
      ensures hnd.id == old(m_hidserial) && m_nodes == old(m_nodes) && m_entries == old(m_entries)
      ensures m_handles == old(m_handles)[old(m_hidserial) := value]
      ensures m_hidserial == old(m_hidserial) + 1
    {
      hnd.id := m_hidserial;
      m_handles := m_handles[m_hidserial := value];
      m_hidserial := m_hidserial + 1;
    }

    method UntagHND(hnd: Handle)
      modifies this, hnd
      ensures hnd.id == XHID_UNINITIALIZED && m_handles == old(m_handles) - {old(hnd.id)}
      ensures m_nodes == old(m_nodes) && m_entries == old(m_entries) && m_hidserial == old(m_hidserial)
    {
      m_handles := m_handles - {hnd.id};
      hnd.id := XHID_UNINITIALIZED;
    }

    method GetHND(id: nat) returns (h: Option<VHandle>)
      ensures h == if id != XHID_UNINITIALIZED && id in m_handles then Some(m_handles[id]) else None
    {
      if id == XHID_UNINITIALIZED || id !in m_handles { return None; }
      return Some(m_handles[id]);
    }

    method NodeQid(n: nat) returns (qid: Qid)
      requires n < |m_nodes|
      ensures qid == QidOf(Values(m_nodes), n)
    {
      match m_nodes[n] {
        case FileRef(f) => qid := Qid(false, f.m_version, n);
        case DirRef(d) => qid := Qid(true, d.m_version, n);
      }
    }

    method Tattach(hnd: Handle) returns (reply: Reply)
      requires WellFormed() && hnd !in Objects(m_nodes) && |m_nodes| > 0 && CanTag(hnd.id)
      modifies this, hnd
      ensures WellFormed() && m_nodes == old(m_nodes)
      ensures Outcome(View(), hnd.id, reply) == DoAttach(old(View()), old(hnd.id))
    {
      var h := GetHND(hnd.id);
      if h.Some? { return RError(FidUsed); }
      TagHND(hnd, VHandle(ROOT_ENTRY, OPEN_EX_INVALID));
      var qid := NodeQid(0);
      return RAttach(qid);
    }

    /** One look-up; a file has no children. */
    method Lookup(n: nat, name: Name) returns (out: Option<DirEntry>)
      requires n < |m_nodes| && m_nodes[n].DirRef? ==> name != [46]
      ensures out == if HasChild(Values(m_nodes), n, name) then Some(Child(Values(m_nodes), n, name)) else None
    {
      if n >= |m_nodes| || m_nodes[n].FileRef? { return None; }
      out := m_nodes[n].dir.FindChild(name);
    }

    /** The loop of Twalk over the names; nodes are the values of the objects. */
    method WalkNames(start: DirEntry, names: seq<Name>, ghost nodes: seq<Node>)
      returns (de: DirEntry, wqid: seq<Qid>)
      requires nodes == Values(m_nodes)
      requires EntriesOk(nodes) && NoDot(nodes, start, names)
      ensures (de, wqid) == Walk(nodes, start, names)
    {
      hide Walk;
      de, wqid := start, [];
      var i := 0;
      assert names[0..] == names && [] + Walk(nodes, start, names).1 == Walk(nodes, start, names).1;
      while i < |names|
        invariant 0 <= i <= |names|
        invariant NoDot(nodes, de, names[i..])
        invariant Walk(nodes, start, names) ==
                  (Walk(nodes, de, names[i..]).0, wqid + Walk(nodes, de, names[i..]).1)
      {
        assert names[i..][0] == names[i] && names[i..][1..] == names[i + 1..];
        var f := Lookup(de.node, names[i]);
        if f.None? { break; }
        var q := NodeQid(f.value.node);
        WalkStep(nodes, start, names, de, f.value, wqid, q, i);
        de, wqid, i := f.value, wqid + [q], i + 1;
      }
      WalkStops(nodes, de, names[i..]);
      assert wqid + [] == wqid;
    }

    lemma WalkStops(nodes: seq<Node>, de: DirEntry, names: seq<Name>)
      requires EntriesOk(nodes) && (names == [] || !HasChild(nodes, de.node, names[0]))
      ensures Walk(nodes, de, names) == (de, [])
    {
    }

    lemma WalkStep(nodes: seq<Node>, start: DirEntry, names: seq<Name>, de: DirEntry, f: DirEntry,
                   wqid: seq<Qid>, q: Qid, i: nat)
      requires EntriesOk(nodes) && i < |names|
      requires HasChild(nodes, de.node, names[i]) && f == Child(nodes, de.node, names[i])
      requires q == QidOf(nodes, f.node)
      requires Walk(nodes, start, names) ==
               (Walk(nodes, de, names[i..]).0, wqid + Walk(nodes, de, names[i..]).1)
      ensures Walk(nodes, start, names) ==
              (Walk(nodes, f, names[i + 1..]).0, wqid + [q] + Walk(nodes, f, names[i + 1..]).1)
    {
      assert names[i..][0] == names[i] && names[i..][1..] == names[i + 1..];
      var rest := Walk(nodes, f, names[i + 1..]).1;
      assert wqid + ([q] + rest) == wqid + [q] + rest;
    }

    /** newhnd may be hnd itself. */
    method Twalk(hnd: Handle, newhnd: Handle, names: seq<Name>) returns (reply: Reply)
      requires WellFormed() && newhnd !in Objects(m_nodes) && CanTag(newhnd.id)
      requires EntriesOk(Values(m_nodes))
      requires Known(View(), hnd.id) ==> NoDot(Values(m_nodes), m_handles[hnd.id].entry, names)
      modifies this, newhnd
      ensures WellFormed() && m_nodes == old(m_nodes)
      ensures Outcome(View(), newhnd.id, reply) ==
              DoWalk(old(View()), old(hnd.id), old(newhnd.id), names)
    {
      if |names| > 16 { return RError(WalkTooFar); }
      var h := GetHND(hnd.id);
      if h.None? { return RError(XhndInvalid); }
      if hnd.id != newhnd.id {
        var t := GetHND(newhnd.id);
        if t.Some? { return RError(FidUsed); }
      }
      var de, wqid := WalkNames(h.value.entry, names, Values(m_nodes));
      if newhnd.id == hnd.id {
        m_handles := m_handles[hnd.id := VHandle(de, OPEN_EX_INVALID)];
      } else {
        TagHND(newhnd, VHandle(de, OPEN_EX_INVALID));
      }
      return RWalk(wqid);
    }

    method Topen(hnd: Handle, mode: OpenMode) returns (reply: Reply)
      requires WellFormed() && Backed(hnd.id)
      modifies this
      ensures WellFormed() && m_nodes == old(m_nodes)
      ensures Outcome(View(), hnd.id, reply) == DoOpen(old(View()), hnd.id, mode)
    {
      var h := GetHND(hnd.id);
      if h.None? { return RError(XhndInvalid); }
      m_handles := m_handles[hnd.id := VHandle(h.value.entry, mode)];
      var qid := NodeQid(h.value.entry.node);
      return ROpen(qid);
    }

    method Tcreate(hnd: Handle, name: Name, isDir: bool, mode: OpenMode) returns (reply: Reply)
      requires WellFormed() && Backed(hnd.id) && hnd !in Objects(m_nodes)
      modifies this, Objects(m_nodes)
      ensures WellFormed() && fresh(Objects(m_nodes) - old(Objects(m_nodes)))
      ensures Outcome(View(), hnd.id, reply) == DoCreate(old(View()), hnd.id, name, isDir, mode)
    {
      var h := GetHND(hnd.id);
      if h.None? { return RError(XhndInvalid); }
      ghost var fs := View();
      var d := h.value.entry.node;
      var de := DirEntry(m_entries, name, d, |m_nodes|);
      var ok := MakeChild(de, isDir);
      if !ok { return RError(CannotCreate); }
      CreateSucceeds(fs, hnd.id, name, isDir, mode);
      m_entries := m_entries + 1;
      m_handles := m_handles[hnd.id := VHandle(de, if isDir then OPEN_EX_INVALID else mode)];
      return RCreate(Qid(isDir, 0, de.node));
    }

    static lemma MoreObjects(ns: seq<NodeRef>, n: NodeRef)
      ensures Objects(ns + [n]) == Objects(ns) + {Obj(n)}
    {
      var all := ns + [n];
      assert forall i | 0 <= i < |ns| :: Obj(all[i]) == Obj(ns[i]);
      assert Obj(all[|ns|]) == Obj(n);
    }

    /** A new object and its entry, or neither. */
    method MakeChild(de: DirEntry, isDir: bool) returns (ok: bool)
      requires WellFormed() && de.parent < |m_nodes|
      modifies `m_nodes, Objects(m_nodes)
      ensures WellFormed() && fresh(Objects(m_nodes) - old(Objects(m_nodes)))
      ensures ok <==> old(m_nodes[de.parent].DirRef? && !HasChild(Values(m_nodes), de.parent, de.name))
      ensures ok ==> Values(m_nodes) == AddChild(old(Values(m_nodes)), de.parent, de)
                       + [if isDir then Directory(map[], 0) else File([], 0)]
      ensures !ok ==> m_nodes == old(m_nodes) && Values(m_nodes) == old(Values(m_nodes))
    {
      ghost var before, objects := Values(m_nodes), Objects(m_nodes);
      var made := NewNode(isDir);
      assert Values(m_nodes) == before;
      ok := AddEntry(de);
      assert Value(made) == if isDir then Directory(map[], 0) else File([], 0);
      if ok {
        ghost var added := Values(m_nodes);
        assert added == AddChild(before, de.parent, de);
        Append(made);
        MoreObjects(m_nodes[..|m_nodes| - 1], made);
      }
    }

    static lemma CreateSucceeds(fs: Fs, id: nat, name: Name, isDir: bool, mode: OpenMode)
      requires Known(fs, id) && fs.handles[id].entry.node < |fs.nodes|
      requires fs.nodes[fs.handles[id].entry.node].Directory?
      requires !HasChild(fs.nodes, fs.handles[id].entry.node, name)
      ensures
        var d := fs.handles[id].entry.node;
        var e := DirEntry(fs.entries, name, d, |fs.nodes|);
        DoCreate(fs, id, name, isDir, mode) ==
        Outcome(Fs(Created(fs, d, name, isDir),
                   fs.handles[id := VHandle(e, if isDir then OPEN_EX_INVALID else mode)],
                   fs.hidserial, fs.entries + 1),
                id, RCreate(Qid(isDir, 0, |fs.nodes|)))
    {
    }

    static lemma RenameSucceeds(fs: Fs, id: nat, name: Name)
      requires Known(fs, id) && name != []
      requires var p := fs.handles[id].entry.parent;
               p < |fs.nodes| && fs.nodes[p].Directory? && !HasChild(fs.nodes, p, name)
      ensures
        var h := fs.handles[id];
        var e := DirEntry(fs.entries, name, h.entry.parent, h.entry.node);
        DoRename(fs, id, name) ==
        Outcome(Fs(AddChild(RemoveChild(fs.nodes, h.entry.parent, h.entry.name), h.entry.parent, e),
                   fs.handles[id := VHandle(e, h.open)], fs.hidserial, fs.entries + 1),
                id, RWstat)
    {
    }

    /** AddChild on the parent of e; a file refuses children. */
    method AddEntry(e: DirEntry) returns (ok: bool)
      requires WellFormed() && e.parent < |m_nodes|
      modifies Objects(m_nodes)
      ensures WellFormed()
      ensures ok <==> old(m_nodes[e.parent].DirRef? && !HasChild(Values(m_nodes), e.parent, e.name))
      ensures ok ==> Values(m_nodes) == AddChild(old(Values(m_nodes)), e.parent, e)
      ensures !ok ==> Values(m_nodes) == old(Values(m_nodes))
    {
      if m_nodes[e.parent].FileRef? { return false; }
      var dir := m_nodes[e.parent].dir;
      assert old(Values(m_nodes))[e.parent] == old(Directory(dir.m_children, dir.m_version));
      ok := dir.AddChild(e);
    }

    static method NewNode(isDir: bool) returns (n: NodeRef)
      ensures fresh(Obj(n))
      ensures Value(n) == if isDir then Directory(map[], 0) else File([], 0)
    {
      if isDir {
        var dir := new XVFSDirectory();
        n := DirRef(dir);
      } else {
        var file := new XVFSFile();
        n := FileRef(file);
      }
    }

    method Append(n: NodeRef)
      requires WellFormed() && Obj(n) !in Objects(m_nodes) && Obj(n) != this
      modifies `m_nodes
      ensures WellFormed() && m_nodes == old(m_nodes) + [n]
      ensures Values(m_nodes) == old(Values(m_nodes)) + [Value(n)]
    {
      m_nodes := m_nodes + [n];
    }

    /** listing is the directory's serialised children in the order its map
        enumerates them. */
    method Tread(hnd: Handle, offset: nat, count: nat, listing: seq<Record>) returns (reply: Reply)
      requires WellFormed() && FilesOk() && Backed(hnd.id)
      requires OnBoundary(listing, offset) && offset < UINT64 && count < UINT32
      ensures Outcome(View(), hnd.id, reply) == DoRead(View(), hnd.id, offset, count, listing)
    {
      var h := GetHND(hnd.id);
      if h.None? { return RError(XhndInvalid); }
      if !MayRead(h.value.open) { return RError(MustOpenFirst); }
      match m_nodes[h.value.entry.node] {
        case DirRef(_) =>
          var _, data := TreadOne(listing, offset);
          return RRead(data);
        case FileRef(f) =>
          ghost var node := Values(m_nodes)[h.value.entry.node];
          assert node == File(f.m_buf, f.m_version);
          var size, _ := f.Read(offset, count, false);
          var got, data := f.Read(offset, size, true);
          assert got == size == |data|;
          return RRead(data);
      }
    }

    method Twrite(hnd: Handle, offset: nat, data: seq<byte>) returns (reply: Reply)
      requires WellFormed() && FilesOk() && Backed(hnd.id) && hnd !in Objects(m_nodes)
      requires |data| < UINT32 && offset + |data| <= MAX_SIZE
      modifies Objects(m_nodes)
      ensures WellFormed()
      ensures Outcome(View(), hnd.id, reply) == DoWrite(old(View()), hnd.id, offset, data)
    {
      var h := GetHND(hnd.id);
      if h.None? { return RError(XhndInvalid); }
      if !MayWrite(h.value.open) { return RError(MustOpenFirst); }
      var n := h.value.entry.node;
      match m_nodes[n] {
        case DirRef(_) => return RError(NotFile);
        case FileRef(f) =>
          assert Values(m_nodes)[n] == File(f.m_buf, f.m_version);
          var announced := f.Write(offset, |data|, None);
          var written := f.Write(offset, |data|, Some(data));
          assert announced == written;
          assert Values(m_nodes) ==
                 old(Values(m_nodes))[n := File(Overlay(old(f.m_buf), Written(offset, data)), Bump(old(f.m_version)))];
          return RWrite(announced);
      }
    }

    method Unlink(e: DirEntry)
      requires WellFormed() && e.parent < |m_nodes| && m_nodes[e.parent].DirRef?
      modifies Objects(m_nodes)
      ensures WellFormed() && Values(m_nodes) == RemoveChild(old(Values(m_nodes)), e.parent, e.name)
    {
      var dir := m_nodes[e.parent].dir;
      assert old(Values(m_nodes))[e.parent] == old(Directory(dir.m_children, dir.m_version));
      var ok := dir.RemoveChild(e.name);
      assert ok ==>
        (Values(m_nodes) == old(Values(m_nodes))[e.parent := Directory(dir.m_children, dir.m_version)]);
      assert !ok ==> Values(m_nodes) == old(Values(m_nodes));
    }

    method Tremove(hnd: Handle) returns (reply: Reply)
      requires WellFormed() && Backed(hnd.id) && hnd !in Objects(m_nodes)
      modifies this, hnd, Objects(m_nodes)
      ensures WellFormed() && m_nodes == old(m_nodes)
      ensures Outcome(View(), hnd.id, reply) == DoRemove(old(View()), old(hnd.id))
    {
      var h := GetHND(hnd.id);
      if h.None? { return RError(XhndInvalid); }
      Unlink(h.value.entry);
      UntagHND(hnd);
      return RRemove;
    }

    method Twstat(hnd: Handle, name: Name) returns (reply: Reply)
      requires WellFormed() && Backed(hnd.id) && hnd !in Objects(m_nodes)
      modifies this, Objects(m_nodes)
      ensures WellFormed() && m_nodes == old(m_nodes)
      ensures Outcome(View(), hnd.id, reply) == DoRename(old(View()), hnd.id, name)
    {
      var h := GetHND(hnd.id);
      if h.None? { return RError(XhndInvalid); }
      if name == [] { return RWstat; }
      ghost var fs := View();
      var e := h.value.entry;
      var taken := Find(e.parent, name);
      if taken.Some? { return RError(RenameExists); }
      var nde := DirEntry(m_entries, name, e.parent, e.node);
      Relink(e, nde);
      RenameSucceeds(fs, hnd.id, name);
      m_entries := m_entries + 1;
      m_handles := m_handles[hnd.id := VHandle(nde, h.value.open)];
      return RWstat;
    }

    method Relink(e: DirEntry, nde: DirEntry)
      requires WellFormed() && e.parent == nde.parent < |m_nodes| && m_nodes[e.parent].DirRef?
      requires !HasChild(Values(m_nodes), e.parent, nde.name)
      modifies Objects(m_nodes)
      ensures WellFormed()
      ensures Values(m_nodes) == AddChild(RemoveChild(old(Values(m_nodes)), e.parent, e.name), e.parent, nde)
    {
      Unlink(e);
      var ok := AddEntry(nde);
    }

    method Find(d: nat, name: Name) returns (out: Option<DirEntry>)
      requires d < |m_nodes| && m_nodes[d].DirRef?
      ensures out == if HasChild(Values(m_nodes), d, name) then Some(Child(Values(m_nodes), d, name)) else None
    {
      out := m_nodes[d].dir.FindChild(name);
    }

    method Tclunk(hnd: Handle) returns (reply: Reply)
      requires WellFormed() && Backed(hnd.id) && hnd !in Objects(m_nodes)
      requires XHID_UNINITIALIZED !in m_handles
      modifies this, hnd, Objects(m_nodes)
      ensures WellFormed() && m_nodes == old(m_nodes)
      ensures Outcome(View(), hnd.id, reply) == DoClunk(old(View()), old(hnd.id))
    {
      var h := GetHND(hnd.id);
      if h.None? { return RError(XhndInvalid); }
      if h.value.open & OPEN_CLOSE != 0 {
        var _ := Tremove(hnd);
      }
      m_handles := m_handles - {hnd.id};
      hnd.id := XHID_UNINITIALIZED;
      return RClunk;
    }
  }
}
