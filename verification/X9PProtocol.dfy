/** Wire-level vocabulary of 9P2000 as src/X9PProtocol.h lays it out: integer
    widths, reserved values, message type codes, open-mode bits, and the
    length-prefixed string ("xstr") used inside messages. */
module X9PProtocol {

  datatype Option<+T> = None | Some(value: T)

  type byte = b: int | 0 <= b < 256

  /** The characters of an xstr; its length field is 16 bits wide. */
  type Name = seq<byte>

  const XSTRLEN_MAX := 0xFFFF

  type Tag = t: nat | t < 0x1_0000
  type Fid = f: nat | f < 0x1_0000_0000

  const NOTAG: Tag := 0xFFFF

  /** The id of a filesystem handle that has none. */
  const XHID_UNINITIALIZED := 0xFFFF_FFFF_FFFF_FFFF

  const TWALK_MAXELEM := 16

  // sizeof of the packed structs
  const SIZEOF_MESSAGE := 7
  const SIZEOF_TVERSION := 11
  const SIZEOF_TATTACH := 15
  const SIZEOF_TWALK := 17
  const SIZEOF_TOPEN := 12
  const SIZEOF_TCREATE := 11
  const SIZEOF_TREAD := 23
  const SIZEOF_TWRITE := 23
  const SIZEOF_TCLUNK := 11
  const SIZEOF_TREMOVE := 11
  const SIZEOF_STAT := 41
  const SIZEOF_TWSTAT := 54

  // Message type codes; a response is its request's code plus one
  const TVERSION := 100
  const TATTACH := 104
  const RERROR := 107
  const TWALK := 110
  const TOPEN := 112
  const TCREATE := 114
  const TREAD := 116
  const TWRITE := 118
  const TCLUNK := 120
  const TREMOVE := 122
  const TWSTAT := 126

  // Open modes
  type OpenMode = bv8
  const OPEN_READ: OpenMode := 0
  const OPEN_WRITE: OpenMode := 1
  const OPEN_CLOSE: OpenMode := 0x40
  const OPEN_STATE_MASK: OpenMode := 0x03
  const OPEN_PROTOCOL_MASK: OpenMode := 0x53
  const OPEN_EX_INVALID: OpenMode := 0x80

  /** Identity of a file as the protocol reports it; path is the allocation
      index of the file object. */
  datatype Qid = Qid(isDir: bool, version: nat, path: nat)

  datatype Error =
    | RequestTooLarge | WalkTooManyNames            // raised by the client itself
    | FidDne | FidUsed | WalkTooFar                  // fid checks of the server
    | FilenameDot | FilenameDotDot
    | XhndInvalid | MustOpenFirst | NotFile          // raised by the filesystem
    | CannotCreate | RenameExists | NotDir
    | NoPerm | AlreadyOpen

  /** What follows the tag in a request. */
  datatype Body =
    | TVersion(msize: nat, version: Name)
    | TAttach(fid: Fid, uname: Name, aname: Name)
    | TWalk(fid: Fid, newfid: Fid, names: seq<Name>)
    | TOpen(fid: Fid, mode: OpenMode)
    | TCreate(fid: Fid, name: Name, isDir: bool, mode: OpenMode)
    | TRead(fid: Fid, offset: nat, count: nat)
    | TWrite(fid: Fid, offset: nat, data: seq<byte>)
    | TClunk(fid: Fid)
    | TRemove(fid: Fid)
    | TWstat(fid: Fid, name: Name)   // only the name field of the stat matters

  datatype Request = Request(tag: Tag, body: Body)

  datatype Reply =
    | RError(error: Error)
    | RVersion(msize: nat)
    | RAttach(qid: Qid)
    | RWalk(qids: seq<Qid>)
    | ROpen(qid: Qid)
    | RCreate(qid: Qid)
    | RRead(data: seq<byte>)
    | RWrite(count: nat)
    | RClunk
    | RRemove
    | RWstat

  datatype Response = Response(tag: Tag, reply: Reply)

  function TypeOf(b: Body): nat {
    match b
    case TVersion(_, _) => TVERSION
    case TAttach(_, _, _) => TATTACH
    case TWalk(_, _, _) => TWALK
    case TOpen(_, _) => TOPEN
    case TCreate(_, _, _, _) => TCREATE
    case TRead(_, _, _) => TREAD
    case TWrite(_, _, _) => TWRITE
    case TClunk(_) => TCLUNK
    case TRemove(_) => TREMOVE
    case TWstat(_, _) => TWSTAT
  }

  function ReplyType(r: Reply): nat {
    match r
    case RError(_) => RERROR
    case RVersion(_) => TVERSION + 1
    case RAttach(_) => TATTACH + 1
    case RWalk(_) => TWALK + 1
    case ROpen(_) => TOPEN + 1
    case RCreate(_) => TCREATE + 1
    case RRead(_) => TREAD + 1
    case RWrite(_) => TWRITE + 1
    case RClunk => TCLUNK + 1
    case RRemove => TREMOVE + 1
    case RWstat => TWSTAT + 1
  }

  /** A reply a callback of the given request type can be handed. */
  predicate Answers(kind: nat, r: Reply) {
    ReplyType(r) == kind + 1 || r.RError?
  }

  /** Size field of a request. */
  function Size(b: Body): nat {
    match b
    case TVersion(_, version) => SIZEOF_TVERSION + StrSize(version)
    case TAttach(_, uname, aname) => SIZEOF_TATTACH + StrSize(uname) + StrSize(aname)
    case TWalk(_, _, names) => SIZEOF_TWALK + StrsSize(names)
    case TOpen(_, _) => SIZEOF_TOPEN
    case TCreate(_, name, _, _) => SIZEOF_TCREATE + StrSize(name) + 5
    case TRead(_, _, _) => SIZEOF_TREAD
    case TWrite(_, _, data) => SIZEOF_TWRITE + |data|
    case TClunk(_) => SIZEOF_TCLUNK
    case TRemove(_) => SIZEOF_TREMOVE
    case TWstat(_, name) => SIZEOF_TWSTAT + StrSize(name)
  }

  /** Size of an xstr in a message: the 16-bit length and the characters. */
  function StrSize(s: Name): nat { 2 + |s| }

  /** The value of a 16-bit field from its low and its high byte. */
  function Short(low: nat, high: nat): nat {
    if high == 0 then low else 256 + Short(low, high - 1)
  }

  lemma {:induction false} ShortValue(low: nat, high: nat)
    ensures Short(low, high) == low + 256 * high
  {
    if high > 0 { ShortValue(low, high - 1); }
  }

  function Halves(n: nat, cap: nat): (r: (byte, nat))
    requires n < 256 * cap
    ensures r.1 < cap && Short(r.0, r.1) == n
    decreases n
  {
    if n < 256 then (n, 0) else var (low, high) := Halves(n - 256, cap - 1); (low, high + 1)
  }

  /** A 16-bit length as it is stored: low byte, high byte. */
  function LengthBytes(n: nat): (r: (byte, byte))
    requires n <= XSTRLEN_MAX
    ensures Short(r.0, r.1) == n
  {
    Halves(n, 256)
  }

  /** The bytes of one xstr. */
  function EncodeStr(s: Name): (e: seq<byte>)
    requires |s| <= XSTRLEN_MAX
    ensures |e| == StrSize(s)
  {
    [LengthBytes(|s|).0, LengthBytes(|s|).1] + s
  }

  /** Consecutive xstrs, as xstrnext steps over them. */
  function EncodeStrs(names: seq<Name>): (e: seq<byte>)
    requires forall n <- names :: |n| <= XSTRLEN_MAX
    ensures |e| == StrsSize(names)
  {
    if names == [] then [] else EncodeStr(names[0]) + EncodeStrs(names[1..])
  }

  function StrsSize(names: seq<Name>): nat {
    if names == [] then 0 else StrSize(names[0]) + StrsSize(names[1..])
  }

  lemma Assoc<T>(a: seq<T>, b: seq<T>, c: seq<T>)
    ensures a + (b + c) == (a + b) + c
  {
  }

  lemma {:induction false} EncodeStrsAppend(a: seq<Name>, b: seq<Name>)
    requires forall n <- a :: |n| <= XSTRLEN_MAX
    requires forall n <- b :: |n| <= XSTRLEN_MAX
    ensures forall n <- a + b :: |n| <= XSTRLEN_MAX
    ensures EncodeStrs(a + b) == EncodeStrs(a) + EncodeStrs(b)
  {
    if a == [] {
      assert a + b == b;
    } else {
      assert (a + b)[0] == a[0] && (a + b)[1..] == a[1..] + b;
      EncodeStrsAppend(a[1..], b);
    }
  }

  /** Byte strings laid end to end. */
  function Flat(parts: seq<seq<byte>>): seq<byte> {
    if parts == [] then [] else parts[0] + Flat(parts[1..])
  }

  lemma {:induction false} FlatConcat(a: seq<seq<byte>>, b: seq<seq<byte>>)
    ensures Flat(a + b) == Flat(a) + Flat(b)
  {
    if a == [] {
      assert a + b == b;
    } else {
      assert (a + b)[1..] == a[1..] + b;
      FlatConcat(a[1..], b);
    }
  }
}
