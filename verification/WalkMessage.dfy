/** The bytes of a Twalk: composed by X9PClient::Twalk from packed names,
    traversed by the server with xstrnext. */
module WalkMessage {
  import opened X9PProtocol
  import opened XStringWalk

  // ------------------------------------------------------------- specification

  /** n in k bytes, least significant first. */
  function LittleEndian(n: nat, k: nat): (s: seq<byte>)
    ensures |s| == k
    decreases k
  {
    if k == 0 then [] else [n % 256] + LittleEndian(n / 256, k - 1)
  }

  function FromLittleEndian(s: seq<byte>): nat {
    if s == [] then 0 else s[0] + 256 * FromLittleEndian(s[1..])
  }

  function Pow256(k: nat): nat {
    if k == 0 then 1 else 256 * Pow256(k - 1)
  }

  datatype WalkHeader = WalkHeader(size: nat, tag: Tag, fid: Fid, newfid: Fid, nwname: nat)

  /** size[4] Twalk tag[2] fid[4] newfid[4] nwname[2] */
  function EncodeHeader(h: WalkHeader): (s: seq<byte>)
    ensures |s| == SIZEOF_TWALK
  {
    LittleEndian(h.size, 4) + [TWALK] + LittleEndian(h.tag, 2)
    + LittleEndian(h.fid, 4) + LittleEndian(h.newfid, 4) + LittleEndian(h.nwname, 2)
  }

  function EncodeWalk(tag: Tag, fid: Fid, newfid: Fid, names: seq<Name>): seq<byte>
    requires forall n <- names :: |n| <= XSTRLEN_MAX
  {
    EncodeHeader(WalkHeader(SIZEOF_TWALK + StrsSize(names), tag, fid, newfid, |names|)) + EncodeStrs(names)
  }

  /** The length field of the xstr at off. */
  function LengthAt(b: seq<byte>, off: nat): nat
    requires off + 2 <= |b|
  {
    Short(b[off], b[off + 1])
  }

  datatype Strs = Strs(names: seq<Name>, end: nat) | PastTheEnd

  /** n xstrs from off on and where the last one ends, PastTheEnd if one would
      run past the end of b. */
  function StrsAt(b: seq<byte>, off: nat, n: nat): Strs
    decreases n
  {
    if n == 0 then Strs([], off)
    else if off + 2 > |b| || off + 2 + LengthAt(b, off) > |b| then PastTheEnd
    else
      var next := off + 2 + LengthAt(b, off);
      var rest := StrsAt(b, next, n - 1);
      if rest.PastTheEnd? then PastTheEnd else Strs([b[off + 2..next]] + rest.names, rest.end)
  }

  // ------------------------------------------------------------------ lemmas

  lemma {:induction false} LittleEndianRoundTrip(n: nat, k: nat)
    requires n < Pow256(k)
    ensures FromLittleEndian(LittleEndian(n, k)) == n
    decreases k
  {
    if k > 0 {
      LittleEndianRoundTrip(n / 256, k - 1);
      var rest := LittleEndian(n / 256, k - 1);
      assert ([n % 256] + rest)[1..] == rest;
    }
  }

  lemma LengthField(n: Name)
    requires |n| <= XSTRLEN_MAX
    ensures LengthAt(EncodeStr(n), 0) == |n|
  {
  }

  /** What EncodeStrs packed, xstrnext recovers, wherever it lies. */
  lemma {:induction false} StrsRecovered(b: seq<byte>, off: nat, names: seq<Name>)
    requires forall n <- names :: |n| <= XSTRLEN_MAX
    requires off + StrsSize(names) <= |b| && b[off..off + StrsSize(names)] == EncodeStrs(names)
    ensures StrsAt(b, off, |names|) == Strs(names, off + StrsSize(names))
    decreases |names|
  {
    hide EncodeStrs, EncodeStr, LengthAt, StrsAt;
    if names == [] {
      NoStrs(b, off);
    } else {
      FirstStr(b, off, names);
      StrsRecovered(b, off + StrSize(names[0]), names[1..]);
      StrsStep(b, off, names, off + StrsSize(names));
    }
  }

  lemma NoStrs(b: seq<byte>, off: nat)
    ensures StrsAt(b, off, 0) == Strs([], off)
  {
  }

  lemma StrsStep(b: seq<byte>, off: nat, names: seq<Name>, end: nat)
    requires names != [] && off + StrSize(names[0]) <= |b|
    requires LengthAt(b, off) == |names[0]| && b[off + 2..off + StrSize(names[0])] == names[0]
    requires StrsAt(b, off + StrSize(names[0]), |names| - 1) == Strs(names[1..], end)
    ensures StrsAt(b, off, |names|) == Strs(names, end)
  {
    HeadAndTail(names);
  }

  lemma HeadAndTail(names: seq<Name>)
    requires names != []
    ensures [names[0]] + names[1..] == names
  {
  }

  lemma FirstStr(b: seq<byte>, off: nat, names: seq<Name>)
    requires names != [] && forall n <- names :: |n| <= XSTRLEN_MAX
    requires off + StrsSize(names) <= |b| && b[off..off + StrsSize(names)] == EncodeStrs(names)
    ensures
      var n := names[0];
      var next := off + StrSize(n);
      && next + StrsSize(names[1..]) <= |b|
      && LengthAt(b, off) == |n| && b[off + 2..next] == n
      && b[next..next + StrsSize(names[1..])] == EncodeStrs(names[1..])
  {
    hide LengthAt, EncodeStr, EncodeStrs, StrsSize;
    FirstOf(names);
    Cut(b, off, EncodeStr(names[0]), EncodeStrs(names[1..]));
    OneStr(b, off, names[0]);
  }

  lemma Cut(b: seq<byte>, off: nat, e: seq<byte>, rest: seq<byte>)
    requires off + |e| + |rest| <= |b| && b[off..off + |e| + |rest|] == e + rest
    ensures b[off..off + |e|] == e && b[off + |e|..off + |e| + |rest|] == rest
  {
    var part := b[off..off + |e| + |rest|];
    assert part[..|e|] == e && part[|e|..] == rest;
    SubSlice(b, off, off + |part|, 0, |e|);
    SubSlice(b, off, off + |part|, |e|, |part|);
  }

  lemma SubSlice<T>(b: seq<T>, i: nat, j: nat, x: nat, y: nat)
    requires i <= j <= |b| && x <= y <= j - i
    ensures b[i..j][x..y] == b[i + x..i + y]
  {
    forall k | 0 <= k < y - x ensures b[i..j][x..y][k] == b[i + x..i + y][k] {
      assert b[i..j][x + k] == b[i + x + k];
    }
  }

  lemma OneStr(b: seq<byte>, off: nat, n: Name)
    requires |n| <= XSTRLEN_MAX && off + StrSize(n) <= |b| && b[off..off + StrSize(n)] == EncodeStr(n)
    ensures LengthAt(b, off) == |n| && b[off + 2..off + StrSize(n)] == n
  {
    var e := b[off..off + StrSize(n)];
    LengthField(n);
    assert b[off] == e[0] && b[off + 1] == e[1];
    SubSlice(b, off, off + StrSize(n), 2, StrSize(n));
  }

  // ------------------------------------------------------------ implementation

  method StrLength(buf: array<byte>, off: nat) returns (len: nat)
    requires off + 2 <= buf.Length
    ensures len == LengthAt(buf[..], off)
  {
    var low: nat, high: nat := buf[off], buf[off + 1];
    len := low + 256 * high;
    ShortValue(low, high);
  }

  /** First pass over the packed names: how many bytes they take. */
  method Measure(wname: array<byte>, nwname: nat, ghost names: seq<Name>) returns (size: nat)
    requires |names| == nwname && Holds(wname[..], StrsSize(names), names)
    ensures size == StrsSize(names)
  {
    hide EncodeStrs, LengthAt, EncodeStr;
    size := 0;
    assert names[0..] == names && wname[0..StrsSize(names)] == wname[..][..StrsSize(names)];
    for wi := 0 to nwname
      invariant size + StrsSize(names[wi..]) == StrsSize(names)
      invariant wname[size..size + StrsSize(names[wi..])] == EncodeStrs(names[wi..])
    {
      FirstStr(wname[..], size, names[wi..]);
      assert names[wi..][1..] == names[wi + 1..];
      hide StrsSize;
      var len := StrLength(wname, size);
      size := size + 2 + len;
    }
  }

  method PutBytes(buf: array<byte>, bytes: seq<byte>)
    requires |bytes| <= buf.Length
    modifies buf
    ensures buf[..|bytes|] == bytes && buf[|bytes|..] == old(buf[|bytes|..])
  {
    for i := 0 to |bytes|
      invariant buf[..i] == bytes[..i] && buf[|bytes|..] == old(buf[|bytes|..])
    {
      buf[i] := bytes[i];
    }
    assert bytes[..|bytes|] == bytes;
  }

  /** X9PClient::Twalk on a send buffer of the negotiated size. */
  method ComposeWalk(send: array<byte>, tag: Tag, fid: Fid, newfid: Fid,
                     nwname: nat, wname: array<byte>, ghost names: seq<Name>)
    returns (err: Option<Error>, size: nat)
    requires send != wname
    requires |names| == nwname && Holds(wname[..], StrsSize(names), names)
    modifies send
    ensures nwname > TWALK_MAXELEM ==> err == Some(WalkTooManyNames)
    ensures nwname <= TWALK_MAXELEM ==>
              (err == if SIZEOF_TWALK + StrsSize(names) > send.Length then Some(RequestTooLarge) else None)
    ensures err == None ==>
              size == SIZEOF_TWALK + StrsSize(names) <= send.Length &&
              send[..size] == EncodeWalk(tag, fid, newfid, names)
  {
    size := 0;
    if nwname > 16 { return Some(WalkTooManyNames), 0; }
    var wnsz := Measure(wname, nwname, names);
    size := SIZEOF_TWALK + wnsz;
    if size > send.Length { return Some(RequestTooLarge), 0; }
    var head := EncodeHeader(WalkHeader(size, tag, fid, newfid, nwname));
    PutBytes(send, head);
    CopyNames(send, nwname, wname, names);
    assert send[..size] == send[..SIZEOF_TWALK] + send[SIZEOF_TWALK..size];
    err := None;
  }

  lemma BothParts(b: seq<byte>, d: nat, head: seq<byte>, tail: seq<byte>)
    requires d <= |b| && b[..d] == head + tail
    ensures b[..|head|] == head && b[|head|..d] == tail
  {
    assert b[..d][..|head|] == head && b[..d][|head|..] == tail;
    SubSlice(b, 0, d, 0, |head|);
    SubSlice(b, 0, d, |head|, d);
    assert b[0..d] == b[..d] && b[0..|head|] == b[..|head|];
  }

  /** One name from the packed source to the end of the message. */
  method CopyName(send: array<byte>, d: nat, wname: array<byte>, w: nat, ghost left: seq<Name>, ghost copied: seq<byte>)
    returns (w': nat, d': nat, ghost more: seq<byte>)
    requires send != wname
    requires left != [] && forall n <- left :: |n| <= XSTRLEN_MAX
    requires w + StrsSize(left) <= wname.Length && wname[w..w + StrsSize(left)] == EncodeStrs(left)
    requires d + StrsSize(left) <= send.Length
    modifies send
    ensures w' == w + StrSize(left[0]) && d' == d + StrSize(left[0])
    ensures w' + StrsSize(left[1..]) == w + StrsSize(left)
    ensures wname[w'..w' + StrsSize(left[1..])] == EncodeStrs(left[1..])
    ensures send[..d'] == old(send[..d]) + EncodeStr(left[0])
    ensures more == copied + EncodeStr(left[0])
    ensures more + EncodeStrs(left[1..]) == copied + EncodeStrs(left)
  {
    hide LengthAt, EncodeStr, EncodeStrs, StrsSize;
    assert wname[..][w..w + StrsSize(left)] == wname[w..w + StrsSize(left)];
    FirstStr(wname[..], w, left);
    FirstOf(left);
    var len := StrLength(wname, w);
    var name := wname[w + 2..w + 2 + len];
    assert name == wname[..][w + 2..w + 2 + len];
    PutStr(send, d, name);
    w', d', more := w + 2 + len, d + 2 + len, copied + EncodeStr(name);
    Assoc(copied, EncodeStr(name), EncodeStrs(left[1..]));
    assert wname[..][w'..w' + StrsSize(left[1..])] == wname[w'..w' + StrsSize(left[1..])];
  }

  lemma FirstOf(names: seq<Name>)
    requires names != [] && forall n <- names :: |n| <= XSTRLEN_MAX
    ensures EncodeStrs(names) == EncodeStr(names[0]) + EncodeStrs(names[1..])
    ensures StrsSize(names) == StrSize(names[0]) + StrsSize(names[1..])
  {
  }

  /** Second pass: each name is copied behind the one before. */
  method CopyNames(send: array<byte>, nwname: nat, wname: array<byte>, ghost names: seq<Name>)
    requires send != wname
    requires |names| == nwname && Holds(wname[..], StrsSize(names), names)
    requires SIZEOF_TWALK + StrsSize(names) <= send.Length
    modifies send
    ensures send[..SIZEOF_TWALK] == old(send[..SIZEOF_TWALK])
    ensures send[SIZEOF_TWALK..SIZEOF_TWALK + StrsSize(names)] == EncodeStrs(names)
  {
    hide LengthAt, EncodeStr;
    var w: nat, d: nat := 0, SIZEOF_TWALK;
    ghost var left, head, copied := names, send[..SIZEOF_TWALK], [];
    ghost var all := EncodeStrs(names);
    assert copied + all == all && head + copied == head;
    assert wname[..][..StrsSize(names)] == wname[0..StrsSize(names)];
    for wi := 0 to nwname
      invariant |left| == nwname - wi && (forall n <- left :: |n| <= XSTRLEN_MAX)
      invariant d == SIZEOF_TWALK + w && w + StrsSize(left) == StrsSize(names)
      invariant wname[w..w + StrsSize(left)] == EncodeStrs(left)
      invariant copied + EncodeStrs(left) == all
      invariant send[..d] == head + copied
    {
      Assoc(head, copied, EncodeStr(left[0]));
      w, d, copied := CopyName(send, d, wname, w, left, copied);
      left := left[1..];
    }
    assert left == [] && copied + [] == copied;
    BothParts(send[..], d, head, copied);
  }

  /** The server's reading of a Twalk it received whole; like the source it
      trusts the lengths inside, so the names must lie within the message. */
  method ReadNames(recv: array<byte>) returns (names: seq<Name>, end: nat)
    requires recv.Length >= SIZEOF_TWALK
    requires StrsAt(recv[..], SIZEOF_TWALK, LengthAt(recv[..], 15)).Strs?
    ensures Strs(names, end) == StrsAt(recv[..], SIZEOF_TWALK, LengthAt(recv[..], 15))
  {
    hide StrsAt, LengthAt;
    var n := StrLength(recv, 15);
    ghost var goal := StrsAt(recv[..], SIZEOF_TWALK, n);
    names, end := [], SIZEOF_TWALK;
    assert [] + goal.names == goal.names;
    for i := 0 to n
      invariant StrsAt(recv[..], end, n - i).Strs?
      invariant goal == Strs(names + StrsAt(recv[..], end, n - i).names, StrsAt(recv[..], end, n - i).end)
    {
      NextStr(recv[..], end, n - i);
      var len := StrLength(recv, end);
      var next := end + 2 + len;
      assert recv[end + 2..next] == recv[..][end + 2..next];
      Assoc(names, [recv[end + 2..next]], StrsAt(recv[..], next, n - i - 1).names);
      names, end := names + [recv[end + 2..next]], next;
    }
    NoStr(recv[..], end);
    assert names + [] == names;
  }

  lemma NextStr(b: seq<byte>, off: nat, n: nat)
    requires n > 0 && StrsAt(b, off, n).Strs?
    ensures off + 2 <= |b| && off + 2 + LengthAt(b, off) <= |b|
    ensures
      var next := off + 2 + LengthAt(b, off);
      StrsAt(b, next, n - 1).Strs? &&
      StrsAt(b, off, n) == Strs([b[off + 2..next]] + StrsAt(b, next, n - 1).names, StrsAt(b, next, n - 1).end)
  {
    hide LengthAt;
  }

  lemma NoStr(b: seq<byte>, off: nat)
    ensures StrsAt(b, off, 0) == Strs([], off)
  {
  }

  // ------------------------------------------------------------- main results

  lemma HeaderFields(h: WalkHeader)
    requires h.nwname <= TWALK_MAXELEM
    ensures LengthAt(EncodeHeader(h), 15) == h.nwname
  {
    hide LittleEndian;
    SmallField(h.nwname);
    assert EncodeHeader(h)[15..] == LittleEndian(h.nwname, 2);
  }

  lemma SmallField(n: nat)
    requires n < 256
    ensures LittleEndian(n, 2) == [n, 0]
  {
    assert LittleEndian(0, 1) == [0];
  }

  /** A composed Twalk declares its own size, names the fids and the tag, and
      its names, read the server's way, are the ones packed, the last ending
      exactly at the declared size; trailing bytes do not matter. */
  lemma WalkRoundTrip(tag: Tag, fid: Fid, newfid: Fid, names: seq<Name>, trail: seq<byte>)
    requires |names| <= TWALK_MAXELEM && forall n <- names :: |n| <= XSTRLEN_MAX
    ensures
      var m := EncodeWalk(tag, fid, newfid, names);
      var size := SIZEOF_TWALK + StrsSize(names);
      && |m| == size
      && LengthAt(m + trail, 15) == |names|
      && StrsAt(m + trail, SIZEOF_TWALK, |names|) == Strs(names, size)
      && (size < Pow256(4) ==> FromLittleEndian((m + trail)[..4]) == size)
  {
    hide LengthAt, StrsAt, EncodeHeader, EncodeStrs, LittleEndian, FromLittleEndian, Pow256;
    var size := SIZEOF_TWALK + StrsSize(names);
    var h := WalkHeader(size, tag, fid, newfid, |names|);
    var e, b := EncodeHeader(h), EncodeWalk(tag, fid, newfid, names) + trail;
    TwoParts(e, EncodeStrs(names), trail);
    HeaderFields(h);
    HeaderSize(h);
    SamePrefix(b, e);
    StrsRecovered(b, SIZEOF_TWALK, names);
    if size < Pow256(4) { LittleEndianRoundTrip(size, 4); }
  }

  lemma TwoParts(head: seq<byte>, body: seq<byte>, trail: seq<byte>)
    ensures (head + body + trail)[..|head|] == head
    ensures (head + body + trail)[|head|..|head| + |body|] == body
  {
  }

  lemma HeaderSize(h: WalkHeader)
    ensures EncodeHeader(h)[..4] == LittleEndian(h.size, 4)
  {
  }

  lemma SamePrefix(b: seq<byte>, e: seq<byte>)
    requires |e| == SIZEOF_TWALK <= |b| && b[..SIZEOF_TWALK] == e
    ensures LengthAt(b, 15) == LengthAt(e, 15) && b[..4] == e[..4]
  {
    assert b[15] == b[..SIZEOF_TWALK][15] && b[16] == b[..SIZEOF_TWALK][16];
    assert b[..SIZEOF_TWALK][..4] == b[..4];
  }

  /** What became of a walk: its message was queued, it was refused to the
      caller, or an assertion of the source failed. */
  datatype Sent = Queued(size: nat) | Refused(error: Error) | Aborted

  function WalkSize(names: seq<Name>): nat { SIZEOF_TWALK + StrsSize(names) }

  /** Twalk up to the queue, whose assertion admits only messages smaller than
      the maximum that the check before lets through. */
  method SendWalk(send: array<byte>, tag: Tag, fid: Fid, newfid: Fid,
                  nwname: nat, wname: array<byte>, ghost names: seq<Name>)
    returns (sent: Sent)
    requires send != wname
    requires |names| == nwname && Holds(wname[..], StrsSize(names), names)
    modifies send
    ensures sent ==
            if nwname > TWALK_MAXELEM then Refused(WalkTooManyNames)
            else if WalkSize(names) > send.Length then Refused(RequestTooLarge)
            else if WalkSize(names) == send.Length then Aborted
            else Queued(WalkSize(names))
    ensures sent.Queued? ==> send[..sent.size] == EncodeWalk(tag, fid, newfid, names)
  {
    var err, size := ComposeWalk(send, tag, fid, newfid, nwname, wname, names);
    if err.Some? { return Refused(err.value); }
    if !(size < send.Length) { return Aborted; }
    sent := Queued(size);
  }

  /** From the path typed to XFile::Walk to the names the server looks up. They
      are the path's components if and only if these number at most 15, by the
      assertion of XFile::Walk, and their message is smaller than the maximal
      one; the caller is told only if it is larger. */
  method PathToServer(path: seq<byte>, send: array<byte>, tag: Tag, fid: Fid, newfid: Fid)
    returns (sent: Sent, names: seq<Name>, end: nat)
    requires 0 !in path && send.Length >= SIZEOF_TWALK
    modifies send
    ensures
      var components := Components(path);
      && (sent.Queued? <==> |components| < TWALK_MAXELEM && WalkSize(components) < send.Length)
      && (sent.Refused? <==> |components| < TWALK_MAXELEM && WalkSize(components) > send.Length)
      && (sent.Aborted? <==> |components| >= TWALK_MAXELEM || WalkSize(components) == send.Length)
    ensures sent.Queued? ==> names == Components(path) && end == sent.size == WalkSize(names)
    ensures sent.Queued? ==> send[..end] == EncodeWalk(tag, fid, newfid, names)
    ensures sent.Refused? ==> sent.error == RequestTooLarge
  {
    names, end := [], 0;
    var nwalk, walk := XstrWalkFromPath(path);
    ghost var components := PackedPath(path, walk);
    if !(nwalk < TWALK_MAXELEM) { return Aborted, names, end; }
    sent := SendWalk(send, tag, fid, newfid, nwalk, walk, components);
    if sent.Queued? {
      ReadsBack(send[..], sent.size, tag, fid, newfid, components);
      names, end := ReadNames(send);
    }
  }

  ghost method PackedPath(path: seq<byte>, walk: array<byte>) returns (components: seq<Name>)
    requires StrsSize(Components(path)) <= walk.Length
    requires walk[..StrsSize(Components(path))] == EncodeStrs(Components(path))
    ensures components == Components(path) && Holds(walk[..], StrsSize(components), components)
  {
    components := Components(path);
    assert walk[..][..StrsSize(components)] == walk[..StrsSize(components)];
  }

  lemma ReadsBack(b: seq<byte>, size: nat, tag: Tag, fid: Fid, newfid: Fid, names: seq<Name>)
    requires |names| <= TWALK_MAXELEM && forall n <- names :: |n| <= XSTRLEN_MAX
    requires size == SIZEOF_TWALK + StrsSize(names) <= |b|
    requires b[..size] == EncodeWalk(tag, fid, newfid, names)
    ensures StrsAt(b, SIZEOF_TWALK, LengthAt(b, 15)) == Strs(names, size)
  {
    WalkRoundTrip(tag, fid, newfid, names, b[size..]);
    assert b == b[..size] + b[size..];
  }

  /** Where a composed Twalk has what: size at 0, type at 4, tag at 5, the fid
      walked from at 7, the fid walked to at 11, the number of names at 15, and
      the names from 17 on. */
  lemma WalkLayout(tag: Tag, fid: Fid, newfid: Fid, names: seq<Name>)
    requires |names| <= TWALK_MAXELEM && forall n <- names :: |n| <= XSTRLEN_MAX
    ensures
      var m := EncodeWalk(tag, fid, newfid, names);
      && |m| >= 17 && m[4] == 110
      && FromLittleEndian(m[5..7]) == tag && FromLittleEndian(m[7..11]) == fid
      && FromLittleEndian(m[11..15]) == newfid && FromLittleEndian(m[15..17]) == |names|
      && m[17..] == EncodeStrs(names)
  {
    hide LittleEndian, FromLittleEndian, EncodeStrs, Pow256;
    Powers();
    var h := WalkHeader(SIZEOF_TWALK + StrsSize(names), tag, fid, newfid, |names|);
    var e, m := EncodeHeader(h), EncodeWalk(tag, fid, newfid, names);
    HeaderParts(h);
    LittleEndianRoundTrip(tag, 2);
    LittleEndianRoundTrip(fid, 4);
    LittleEndianRoundTrip(newfid, 4);
    LittleEndianRoundTrip(|names|, 2);
    assert m[..17] == e && m[17..] == EncodeStrs(names);
    SubSlice(m, 0, 17, 5, 7);
    SubSlice(m, 0, 17, 7, 11);
    SubSlice(m, 0, 17, 11, 15);
    SubSlice(m, 0, 17, 15, 17);
    assert m[0..17] == m[..17] && m[4] == m[..17][4];
  }

  lemma HeaderParts(h: WalkHeader)
    ensures
      var e := EncodeHeader(h);
      && e[4] == TWALK && e[5..7] == LittleEndian(h.tag, 2) && e[7..11] == LittleEndian(h.fid, 4)
      && e[11..15] == LittleEndian(h.newfid, 4) && e[15..17] == LittleEndian(h.nwname, 2)
  {
    hide LittleEndian;
  }

  lemma Powers()
    ensures Pow256(2) == 0x1_0000 && Pow256(4) == 0x1_0000_0000
  {
    assert Pow256(2) == 0x1_0000;
  }

  /** The least significant byte comes first. */
  lemma LowByteFirst(low: byte, high: byte)
    ensures FromLittleEndian([low, high]) == low + 256 * high
  {
    assert [low, high][1..] == [high] && [high][1..] == [];
    assert FromLittleEndian([high]) == high + 256 * FromLittleEndian([]);
  }
}
