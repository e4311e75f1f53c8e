/** From a path to the names a server walks: xstrwalkfrompath of
    src/xstring.cpp, the composition of Twalk in src/X9PClient.cpp, and the
    traversal by xstrnext on the server's side. */
module XStringWalk {
  import opened X9PProtocol

  // ------------------------------------------------------------- specification

  predicate IsSeparator(c: byte) { c == 47 || c == 92 }

  /** The pieces of a path between its separators, empty ones included. */
  function Pieces(path: seq<byte>): (ps: seq<seq<byte>>)
    ensures |ps| > 0
  {
    if path == [] then [[]]
    else if IsSeparator(path[0]) then [[]] + Pieces(path[1..])
    else Prepend([path[0]], Pieces(path[1..]))
  }

  function Prepend(x: seq<byte>, ps: seq<seq<byte>>): (r: seq<seq<byte>>)
    requires |ps| > 0
    ensures |r| == |ps|
  {
    [x + ps[0]] + ps[1..]
  }

  /** A length cut to the 16 bits it is stored in. */
  function Low16(n: nat): (r: nat)
    ensures r <= XSTRLEN_MAX && r <= n
    ensures n <= XSTRLEN_MAX ==> r == n
  {
    if n <= XSTRLEN_MAX then n else Low16(n - 0x1_0000)
  }

  function Clip(p: seq<byte>): (n: Name)
    ensures |n| <= XSTRLEN_MAX
    ensures |p| <= XSTRLEN_MAX ==> n == p
  {
    p[..Low16(|p|)]
  }

  predicate Transmitted(n: Name) { n != [] && n != [46] }

  /** The name a piece becomes, if it is sent at all. */
  function Kept(p: seq<byte>): (ns: seq<Name>)
    ensures forall n <- ns :: |n| <= XSTRLEN_MAX
  {
    if Transmitted(Clip(p)) then [Clip(p)] else []
  }

  function Names(ps: seq<seq<byte>>): (ns: seq<Name>)
    ensures forall n <- ns :: |n| <= XSTRLEN_MAX
  {
    if ps == [] then [] else Kept(ps[0]) + Names(ps[1..])
  }

  /** The names a path stands for. */
  function Components(path: seq<byte>): (ns: seq<Name>)
    ensures forall n <- ns :: |n| <= XSTRLEN_MAX
  {
    Names(Pieces(path))
  }

  /** Bytes set aside for the pieces: each its length field and its bytes. */
  function Room(ps: seq<seq<byte>>): nat {
    if ps == [] then 0 else 2 + |ps[0]| + Room(ps[1..])
  }

  /** Pieces put together again with the separators between them. */
  function Glue(ps: seq<seq<byte>>, seps: seq<byte>): seq<byte>
    requires |ps| == |seps| + 1
  {
    if seps == [] then ps[0] else ps[0] + [seps[0]] + Glue(ps[1..], seps[1..])
  }

  // ------------------------------------------------------------------ pieces

  lemma PrependTwice(x: seq<byte>, y: seq<byte>, ps: seq<seq<byte>>)
    requires |ps| > 0
    ensures Prepend(x, Prepend(y, ps)) == Prepend(x + y, ps)
  {
    assert x + (y + ps[0]) == (x + y) + ps[0];
  }

  ghost predicate Plain(x: seq<byte>) {
    forall i | 0 <= i < |x| :: !IsSeparator(x[i])
  }

  ghost predicate AllPlain(ps: seq<seq<byte>>) {
    forall i | 0 <= i < |ps| :: Plain(ps[i])
  }

  ghost predicate AllSeparators(seps: seq<byte>) {
    forall i | 0 <= i < |seps| :: IsSeparator(seps[i])
  }

  lemma {:induction false} PiecesOfPlain(x: seq<byte>, rest: seq<byte>)
    requires Plain(x)
    ensures Pieces(x + rest) == Prepend(x, Pieces(rest))
  {
    if x == [] {
      assert x + rest == rest;
      assert [] + Pieces(rest)[0] == Pieces(rest)[0];
    } else {
      assert (x + rest)[1..] == x[1..] + rest;
      PiecesOfPlain(x[1..], rest);
      PrependTwice([x[0]], x[1..], Pieces(rest));
      assert [x[0]] + x[1..] == x;
    }
  }

  /** Cutting a path undoes gluing: whatever separator-free pieces are joined
      by separators, those are the pieces of the result. */
  lemma {:induction false} PiecesOfGlue(ps: seq<seq<byte>>, seps: seq<byte>)
    requires |ps| == |seps| + 1
    requires AllPlain(ps) && AllSeparators(seps)
    ensures Pieces(Glue(ps, seps)) == ps
  {
    if seps == [] {
      PiecesOfPlain(ps[0], []);
      assert ps[0] + [] == ps[0];
      assert Prepend(ps[0], [[]]) == ps;
    } else {
      var rest := Glue(ps[1..], seps[1..]);
      PiecesOfGlue(ps[1..], seps[1..]);
      PiecesOfPlain(ps[0], [seps[0]] + rest);
      assert ps[0] + ([seps[0]] + rest) == ps[0] + [seps[0]] + rest;
      assert ([seps[0]] + rest)[1..] == rest;
      assert ps[0] + [] == ps[0] && ([[]] + ps[1..])[1..] == ps[1..];
    }
  }

  /** And every path is such a gluing. */
  lemma {:induction false} PathIsGlued(path: seq<byte>) returns (seps: seq<byte>)
    ensures |Pieces(path)| == |seps| + 1 && Glue(Pieces(path), seps) == path
    ensures AllSeparators(seps) && AllPlain(Pieces(path))
  {
    if path == [] {
      seps := [];
    } else {
      var rest := PathIsGlued(path[1..]);
      var ps := Pieces(path[1..]);
      if IsSeparator(path[0]) {
        seps := [path[0]] + rest;
        assert ([[]] + ps)[1..] == ps && seps[1..] == rest;
        assert path == [path[0]] + path[1..];
      } else {
        seps := rest;
        GluePrepend([path[0]], ps, rest);
        assert path == [path[0]] + path[1..];
      }
    }
  }

  lemma GluePrepend(x: seq<byte>, ps: seq<seq<byte>>, seps: seq<byte>)
    requires |ps| == |seps| + 1
    ensures Glue(Prepend(x, ps), seps) == x + Glue(ps, seps)
  {
    assert Prepend(x, ps)[1..] == ps[1..];
    if seps != [] {
      assert (x + ps[0]) + [seps[0]] + Glue(ps[1..], seps[1..]) == x + (ps[0] + [seps[0]] + Glue(ps[1..], seps[1..]));
    }
  }

  // -------------------------------------------------------------- the packer

  /** Names still to come when the current piece began at start and the scan
      is at c; past the terminator none are left. */
  function NamesAhead(path: seq<byte>, start: nat, c: nat): seq<Name>
    requires start <= c
    decreases |path| + 1 - c
  {
    if c > |path| then []
    else if c == |path| || IsSeparator(path[c]) then Kept(path[start..c]) + NamesAhead(path, c + 1, c + 1)
    else NamesAhead(path, start, c + 1)
  }

  /** Room still needed at that point. */
  function RoomAhead(path: seq<byte>, start: nat, c: nat): nat
    requires start <= c
    decreases |path| + 1 - c
  {
    if c > |path| then 0
    else if c == |path| || IsSeparator(path[c]) then 2 + (c - start) + RoomAhead(path, c + 1, c + 1)
    else RoomAhead(path, start, c + 1)
  }

  lemma PrependSeparator(path: seq<byte>, start: nat, c: nat)
    requires start <= c < |path| && IsSeparator(path[c])
    ensures Prepend(path[start..c], Pieces(path[c..])) == [path[start..c]] + Pieces(path[c + 1..])
    ensures Pieces(path[c + 1..]) == Prepend(path[c + 1..c + 1], Pieces(path[c + 1..]))
  {
    assert path[c..][1..] == path[c + 1..];
    assert path[start..c] + [] == path[start..c];
    assert path[c + 1..c + 1] == [];
    PrependNothing(Pieces(path[c + 1..]));
  }

  lemma PrependCharacter(path: seq<byte>, start: nat, c: nat)
    requires start <= c < |path| && !IsSeparator(path[c])
    ensures Prepend(path[start..c], Pieces(path[c..])) == Prepend(path[start..c + 1], Pieces(path[c + 1..]))
  {
    assert path[c..][1..] == path[c + 1..];
    PrependTwice(path[start..c], [path[c]], Pieces(path[c + 1..]));
    assert path[start..c] + [path[c]] == path[start..c + 1];
  }

  lemma FirstOff(p: seq<byte>, ps: seq<seq<byte>>)
    ensures Names([p] + ps) == Kept(p) + Names(ps)
    ensures Room([p] + ps) == 2 + |p| + Room(ps)
  {
    assert ([p] + ps)[1..] == ps;
  }

  /** The scan computes the names of the pieces. */
  lemma {:induction false} AheadIsPieces(path: seq<byte>, start: nat, c: nat)
    requires start <= c <= |path|
    ensures NamesAhead(path, start, c) == Names(Prepend(path[start..c], Pieces(path[c..])))
    ensures RoomAhead(path, start, c) == Room(Prepend(path[start..c], Pieces(path[c..])))
    decreases |path| - c
  {
    hide NamesAhead, RoomAhead, Names, Room, Pieces, Prepend;
    if c == |path| {
      AtEnd(path, start);
    } else if IsSeparator(path[c]) {
      AheadIsPieces(path, c + 1, c + 1);
      AtSeparator(path, start, c);
    } else {
      AheadIsPieces(path, start, c + 1);
      PrependCharacter(path, start, c);
      PastCharacter(path, start, c);
    }
  }

  lemma AtEnd(path: seq<byte>, start: nat)
    requires start <= |path|
    ensures NamesAhead(path, start, |path|) == Names(Prepend(path[start..|path|], Pieces(path[|path|..])))
    ensures RoomAhead(path, start, |path|) == Room(Prepend(path[start..|path|], Pieces(path[|path|..])))
  {
    assert path[|path|..] == [] && path[start..|path|] + [] == path[start..|path|];
    assert Prepend(path[start..|path|], [[]]) == [path[start..|path|]] + [];
    FirstOff(path[start..|path|], []);
  }

  lemma PastCharacter(path: seq<byte>, start: nat, c: nat)
    requires start <= c < |path| && !IsSeparator(path[c])
    ensures NamesAhead(path, start, c) == NamesAhead(path, start, c + 1)
    ensures RoomAhead(path, start, c) == RoomAhead(path, start, c + 1)
  {
  }

  lemma AtSeparator(path: seq<byte>, start: nat, c: nat)
    requires start <= c < |path| && IsSeparator(path[c])
    requires NamesAhead(path, c + 1, c + 1) == Names(Prepend(path[c + 1..c + 1], Pieces(path[c + 1..])))
    requires RoomAhead(path, c + 1, c + 1) == Room(Prepend(path[c + 1..c + 1], Pieces(path[c + 1..])))
    ensures NamesAhead(path, start, c) == Names(Prepend(path[start..c], Pieces(path[c..])))
    ensures RoomAhead(path, start, c) == Room(Prepend(path[start..c], Pieces(path[c..])))
  {
    PrependSeparator(path, start, c);
    var rest := Pieces(path[c + 1..]);
    FirstOff(path[start..c], rest);
  }

  lemma PrependNothing(ps: seq<seq<byte>>)
    requires |ps| > 0
    ensures Prepend([], ps) == ps
  {
    assert [] + ps[0] == ps[0];
  }

  /** Sections and characters, as the first pass counts them. */
  method CountRoom(path: seq<byte>) returns (size: nat)
    ensures size == Room(Pieces(path))
  {
    var sections, sz := 1, 0;
    for i := 0 to |path|
      invariant sz + 2 * sections + Room(Pieces(path[i..])) == Room(Pieces(path)) + 2
    {
      assert path[i..][1..] == path[i + 1..];
      if IsSeparator(path[i]) {
        sections := sections + 1;
      } else {
        sz := sz + 1;
        assert Prepend([path[i]], Pieces(path[i + 1..]))[1..] == Pieces(path[i + 1..])[1..];
      }
    }
    assert path[|path|..] == [];
    size := sz + sections * 2;
  }

  /** Writes one xstr at offset s. */
  method PutStr(buf: array<byte>, s: nat, n: Name)
    requires |n| <= XSTRLEN_MAX && s + StrSize(n) <= buf.Length
    modifies buf
    ensures buf[..s + StrSize(n)] == old(buf[..s]) + EncodeStr(n)
    ensures buf[s + StrSize(n)..] == old(buf[s + StrSize(n)..])
  {
    var (low, high) := LengthBytes(|n|);
    buf[s], buf[s + 1] := low, high;
    ghost var head := [low, high];
    assert buf[..s + 2] == old(buf[..s]) + head;
    for i := 0 to |n|
      invariant buf[..s + 2 + i] == old(buf[..s]) + head + n[..i]
      invariant buf[s + StrSize(n)..] == old(buf[s + StrSize(n)..])
    {
      buf[s + 2 + i] := n[i];
      assert n[..i + 1] == n[..i] + [n[i]];
    }
    assert n[..|n|] == n;
  }

  /** Copies one piece in unless it is empty or "."; all are the names copied
      so far. */
  method Emit(walk: array<byte>, s: nat, piece: seq<byte>, ghost done: seq<Name>)
    returns (kept: bool, next: nat, ghost all: seq<Name>)
    requires Holds(walk[..], s, done) && s + 2 + |piece| <= walk.Length
    modifies walk
    ensures kept <==> Transmitted(Clip(piece))
    ensures all == done + Kept(piece) && |all| == |done| + (if kept then 1 else 0)
    ensures next <= s + 2 + |piece| && Holds(walk[..], next, all)
  {
    var len := Low16(|piece|);
    if len == 0 || (len == 1 && piece[0] == 46) {
      assert !Transmitted(Clip(piece));
      assert done + [] == done;
      return false, s, done;
    }
    var name := piece[..len];
    assert Kept(piece) == [name];
    assert walk[..][..s] == walk[..s];
    PutStr(walk, s, name);
    EncodeStrsAppend(done, [name]);
    EncodeOne(name);
    kept, next, all := true, s + StrSize(name), done + [name];
    assert walk[..][..next] == walk[..next];
  }

  /** The first s bytes are the packed names. */
  ghost predicate Holds(buf: seq<byte>, s: nat, names: seq<Name>) {
    (forall n <- names :: |n| <= XSTRLEN_MAX) && s <= |buf| && buf[..s] == EncodeStrs(names)
  }

  /** xstrwalkfrompath on a C string; the buffer is as long as the first pass
      says, and no write goes past it. */
  method XstrWalkFromPath(path: seq<byte>) returns (nwalk: nat, walk: array<byte>)
    requires 0 !in path
    ensures fresh(walk) && walk.Length == Room(Pieces(path))
    ensures nwalk == |Components(path)|
    ensures StrsSize(Components(path)) <= walk.Length
    ensures walk[..StrsSize(Components(path))] == EncodeStrs(Components(path))
  {
    hide Room, Pieces, Names;
    var psz := CountRoom(path);
    walk := new byte[psz];
    assert Holds(walk[..], 0, []);
    var s: nat, start: nat, c: nat := 0, 0, 0;
    nwalk := 0;
    ghost var done: seq<Name> := [];
    AheadIsPieces(path, 0, 0);
    assert path[0..0] == [] && path[0..] == path;
    PrependNothing(Pieces(path));
    while c <= |path|
      invariant start <= c <= |path| + 1 && (c == |path| + 1 ==> start == c)
      invariant done + NamesAhead(path, start, c) == Components(path)
      invariant s + RoomAhead(path, start, c) <= psz
      invariant |done| == nwalk && Holds(walk[..], s, done)
    {
      var kept;
      kept, start, s, done := Scan(path, walk, start, c, s, done);
      if kept { nwalk := nwalk + 1; }
      c := c + 1;
    }
    assert done + [] == done;
    assert walk[..][..s] == walk[..s];
  }

  /** One character, or the terminator, of the path. */
  method Scan(path: seq<byte>, walk: array<byte>, start: nat, c: nat, s: nat, ghost done: seq<Name>)
    returns (kept: bool, start': nat, s': nat, ghost all: seq<Name>)
    requires start <= c <= |path|
    requires Holds(walk[..], s, done) && s + RoomAhead(path, start, c) <= walk.Length
    modifies walk
    ensures start' <= c + 1 && (c == |path| ==> start' == c + 1)
    ensures all + NamesAhead(path, start', c + 1) == done + NamesAhead(path, start, c)
    ensures s' + RoomAhead(path, start', c + 1) <= s + RoomAhead(path, start, c)
    ensures |all| == |done| + (if kept then 1 else 0) && Holds(walk[..], s', all)
  {
    if c == |path| || IsSeparator(path[c]) {
      Assoc(done, Kept(path[start..c]), NamesAhead(path, c + 1, c + 1));
      kept, s', all := Emit(walk, s, path[start..c], done);
      start' := c + 1;
    } else {
      kept, start', s', all := false, start, s, done;
    }
  }

  lemma EncodeOne(n: Name)
    requires |n| <= XSTRLEN_MAX
    ensures EncodeStrs([n]) == EncodeStr(n)
  {
    assert [n][1..] == [];
    assert EncodeStr(n) + [] == EncodeStr(n);
  }

  // ------------------------------------------ what the components of a path are

  /** Pieces without '/' and '\\'. */
  ghost predicate WithoutSlashes(ps: seq<seq<byte>>) {
    forall p <- ps :: forall c <- p :: c != 47 && c != 92
  }

  ghost predicate Slashes(seps: seq<byte>) {
    forall c <- seps :: c == 47 || c == 92
  }

  lemma GluedPieces(ps: seq<seq<byte>>, seps: seq<byte>)
    requires |ps| == |seps| + 1 && WithoutSlashes(ps) && Slashes(seps)
    ensures Pieces(Glue(ps, seps)) == ps
  {
    forall i | 0 <= i < |ps| ensures Plain(ps[i]) {
      forall k | 0 <= k < |ps[i]| ensures !IsSeparator(ps[i][k]) { assert ps[i] in ps && ps[i][k] in ps[i]; }
    }
    forall i | 0 <= i < |seps| ensures IsSeparator(seps[i]) { assert seps[i] in seps; }
    PiecesOfGlue(ps, seps);
  }

  lemma {:induction false} Low16Is(n: nat)
    ensures Low16(n) == n % 0x1_0000
  {
    if n > XSTRLEN_MAX { Low16Is(n - 0x1_0000); }
  }

  /** A piece as far as its 16-bit length goes. */
  function Cut(p: seq<byte>): seq<byte> { p[..|p| % 0x1_0000] }

  predicate Nothing(p: seq<byte>) { Cut(p) == [] || Cut(p) == [46] }

  lemma KeptIs(p: seq<byte>)
    ensures Kept(p) == if Nothing(p) then [] else [Cut(p)]
  {
    Low16Is(|p|);
  }

  /** at are the places of the pieces that names come from. */
  predicate Picked(ps: seq<seq<byte>>, names: seq<Name>, at: seq<nat>) {
    && |at| == |names| && (forall i, j | 0 <= i < j < |at| :: at[i] < at[j])
    && (forall i | 0 <= i < |at| :: at[i] < |ps| && names[i] == Cut(ps[at[i]]) && !Nothing(ps[at[i]]))
    && forall k | 0 <= k < |ps| && !Nothing(ps[k]) :: k in at
  }

  lemma {:induction false} NamesAre(ps: seq<seq<byte>>) returns (at: seq<nat>)
    ensures Picked(ps, Names(ps), at)
  {
    hide Kept, Names, Cut, Nothing;
    if ps == [] {
      at := [];
      NoNames();
    } else {
      var n := |ps| - 1;
      at := NamesAre(ps[..n]);
      assert ps == ps[..n] + [ps[n]];
      LastNames(ps[..n], ps[n]);
      KeptIs(ps[n]);
      if Nothing(ps[n]) {
        PickNone(ps[..n], ps[n], Names(ps[..n]), at);
      } else {
        PickOne(ps[..n], ps[n], Names(ps[..n]), at);
        at := at + [n];
      }
    }
  }

  lemma PickNone(ps: seq<seq<byte>>, p: seq<byte>, names: seq<Name>, at: seq<nat>)
    requires Picked(ps, names, at) && Nothing(p)
    ensures Picked(ps + [p], names + [], at)
  {
    hide Cut, Nothing;
    assert names + [] == names;
  }

  lemma PickOne(ps: seq<seq<byte>>, p: seq<byte>, names: seq<Name>, at: seq<nat>)
    requires Picked(ps, names, at) && !Nothing(p)
    ensures Picked(ps + [p], names + [Cut(p)], at + [|ps|])
  {
    hide Cut, Nothing;
    forall k | 0 <= k < |ps| + 1 && !Nothing((ps + [p])[k]) ensures k in at + [|ps|] {
      if k < |ps| { assert !Nothing(ps[k]) && k in at; }
    }
  }

  lemma NoNames()
    ensures Names([]) == []
  {
  }

  lemma FirstNames(ps: seq<seq<byte>>)
    requires ps != []
    ensures Names(ps) == Kept(ps[0]) + Names(ps[1..])
  {
  }

  lemma NamesOne(p: seq<byte>)
    ensures Names([p]) == Kept(p)
  {
    FirstNames([p]);
    NoNames();
    assert [p][1..] == [] && Kept(p) + [] == Kept(p);
  }

  lemma LastNames(init: seq<seq<byte>>, p: seq<byte>)
    ensures Names(init + [p]) == Names(init) + Kept(p)
  {
    hide Names, Kept;
    NamesConcat(init, [p]);
    NamesOne(p);
  }

  /** The components of any path, whatever separates its pieces: each piece cut
      to its length modulo 65536, in order, but for those of which nothing is
      left or just ".". */
  lemma ComponentsArePieces(ps: seq<seq<byte>>, seps: seq<byte>) returns (at: seq<nat>)
    requires |ps| == |seps| + 1 && WithoutSlashes(ps) && Slashes(seps)
    ensures
      var names := Components(Glue(ps, seps));
      && |at| == |names| && (forall i, j | 0 <= i < j < |at| :: at[i] < at[j])
      && forall i | 0 <= i < |at| :: at[i] < |ps| && names[i] == Cut(ps[at[i]])
    ensures forall k | 0 <= k < |ps| && Cut(ps[k]) != [] && Cut(ps[k]) != [46] :: k in at
    ensures [] !in Components(Glue(ps, seps)) && [46] !in Components(Glue(ps, seps))
  {
    GluedPieces(ps, seps);
    hide Names, Pieces, Glue, WithoutSlashes, Slashes, Cut;
    at := NamesAre(ps);
    assert forall k | 0 <= k < |ps| && Cut(ps[k]) != [] && Cut(ps[k]) != [46] :: !Nothing(ps[k]);
  }

  /** Names a path can carry: neither empty nor ".", no separator inside, no
      longer than an xstr can be. */
  ghost predicate Nameable(names: seq<Name>) {
    WithoutSlashes(names) && forall n <- names :: n != [] && n != [46] && |n| <= XSTRLEN_MAX
  }

  lemma {:induction false} NamesOfNameable(names: seq<Name>)
    requires forall n <- names :: n != [] && n != [46] && |n| <= XSTRLEN_MAX
    ensures Names(names) == names
  {
    if names != [] {
      assert names[0] in names && forall n <- names[1..] :: n in names;
      NamesOfNameable(names[1..]);
      KeptIs(names[0]);
      assert Cut(names[0]) == names[0] && [names[0]] + names[1..] == names;
    }
  }

  /** Such names, put together with any separators, are the components of the
      path. */
  lemma ComponentsOfGlue(names: seq<Name>, seps: seq<byte>)
    requires |names| == |seps| + 1 && Nameable(names) && Slashes(seps)
    ensures Components(Glue(names, seps)) == names
  {
    GluedPieces(names, seps);
    NamesOfNameable(names);
  }

  lemma {:induction false} NamesConcat(a: seq<seq<byte>>, b: seq<seq<byte>>)
    ensures Names(a + b) == Names(a) + Names(b)
  {
    hide Kept;
    if a == [] {
      assert a + b == b;
    } else {
      assert (a + b)[0] == a[0] && (a + b)[1..] == a[1..] + b;
      NamesConcat(a[1..], b);
    }
  }

  /** Empty pieces and "." between, before or behind the others change
      nothing. */
  lemma NothingBetween(a: seq<seq<byte>>, x: seq<byte>, b: seq<seq<byte>>, seps: seq<byte>, more: seq<byte>)
    requires x == [] || x == [46]
    requires |a + b| == |seps| + 1 && |more| == |seps| + 1 && Slashes(seps) && Slashes(more)
    requires WithoutSlashes(a + b)
    ensures Components(Glue(a + [x] + b, more)) == Components(Glue(a + b, seps))
  {
    hide Names, Pieces, Glue, Kept;
    forall p <- a + [x] + b ensures forall c <- p :: c != 47 && c != 92 {
      if p != x { assert p in a + b; }
    }
    GluedPieces(a + b, seps);
    GluedPieces(a + [x] + b, more);
    DroppedOut(a, x, b);
  }

  lemma DroppedOut(a: seq<seq<byte>>, x: seq<byte>, b: seq<seq<byte>>)
    requires x == [] || x == [46]
    ensures Names(a + [x] + b) == Names(a + b)
  {
    hide Names, Kept;
    NamesConcat(a + [x], b);
    NamesConcat(a, [x]);
    NamesConcat(a, b);
    KeptIs(x);
    NamesOne(x);
    assert Names(a) + [] == Names(a);
  }
}
