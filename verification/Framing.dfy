/** Cutting the received byte stream into messages: RecvResponse of
    src/X9PClient.cpp and its partial-receive buffer. */
module Framing {
  import opened X9PProtocol
  import opened WalkMessage

  /** What the socket gives when it is asked; no bytes mean the other end has
      closed. */
  datatype Recv = WouldBlock | Failed | Data(bytes: seq<byte>)

  datatype Result = Blocked | SocketError | Disconnected | TooSmall | BadSize | Message

  // ------------------------------------------------------------- specification

  function SizeField(b: seq<byte>): nat
    requires |b| >= 4
  {
    FromLittleEndian(b[..4])
  }

  /** The socket is asked only while no whole header is left over. */
  predicate Asks(pending: seq<byte>) { |pending| < SIZEOF_MESSAGE }

  /** The bytes there are to look at once the socket has been asked, if it was. */
  function Available(pending: seq<byte>, r: Recv): seq<byte> {
    if Asks(pending) && r.Data? then pending + r.bytes else pending
  }

  /** One call: what it reports, the bytes it hands over, and the bytes left
      over; after an error the connection is given up. */
  function Receive(pending: seq<byte>, r: Recv, max: nat): (Result, seq<byte>, seq<byte>) {
    var avail := Available(pending, r);
    if Asks(pending) && r.WouldBlock? then (Blocked, [], pending)
    else if Asks(pending) && r.Failed? then (SocketError, [], pending)
    else if avail == [] then (Disconnected, [], [])
    else if |avail| < SIZEOF_MESSAGE then (TooSmall, [], avail)
    else if SizeField(avail) > max || SizeField(avail) < SIZEOF_MESSAGE then (BadSize, [], avail)
    else if SizeField(avail) < |avail| then (Message, avail[..SizeField(avail)], avail[SizeField(avail)..])
    else (Message, avail, [])
  }

  /** A message as the other end sends it. */
  ghost predicate WellFormed(m: seq<byte>, max: nat) {
    SIZEOF_MESSAGE <= |m| <= max && SizeField(m) == |m|
  }

  // ------------------------------------------------------------ implementation

  class Receiver {
    /** m_recvbuffer, of the negotiated maximal size. */
    const buffer: array<byte>
    var m_partialrecvoffset: nat
    var m_partialrecvsize: nat

    /** Left-over bytes start behind a message, and that is at least a header
        long. */
    ghost predicate Valid()
      reads this
    {
      && m_partialrecvoffset + m_partialrecvsize <= buffer.Length
      && (m_partialrecvsize > 0 ==> m_partialrecvoffset >= SIZEOF_MESSAGE)
      && buffer.Length >= SIZEOF_MESSAGE
    }

    ghost function Pending(): seq<byte>
      requires Valid()
      reads this, buffer
    {
      buffer[m_partialrecvoffset..m_partialrecvoffset + m_partialrecvsize]
    }

    constructor (max: nat)
      requires max >= SIZEOF_MESSAGE
      ensures Valid() && fresh(buffer) && buffer.Length == max && Pending() == []
    {
      buffer := new byte[max];
      m_partialrecvoffset, m_partialrecvsize := 0, 0;
    }

    /** memmove of count bytes from offset from to the front. */
    method MoveToFront(from: nat, count: nat)
      requires from + count <= buffer.Length
      modifies buffer
      ensures buffer[..count] == old(buffer[from..from + count])
      ensures count <= from ==> buffer[from..from + count] == old(buffer[from..from + count])
    {
      forall i | 0 <= i < count {
        buffer[i] := buffer[from + i];
      }
    }

    /** recv of bytes at offset at. */
    method Store(at: nat, bytes: seq<byte>)
      requires at + |bytes| <= buffer.Length
      modifies buffer
      ensures buffer[..at + |bytes|] == old(buffer[..at]) + bytes
      ensures buffer[at + |bytes|..] == old(buffer[at + |bytes|..])
    {
      forall i | 0 <= i < |bytes| {
        buffer[at + i] := bytes[i];
      }
    }

    method ReadSize() returns (size: nat)
      requires buffer.Length >= SIZEOF_MESSAGE
      ensures size == SizeField(buffer[..])
    {
      var b0: nat, b1: nat, b2: nat, b3: nat := buffer[0], buffer[1], buffer[2], buffer[3];
      size := b0 + 256 * (b1 + 256 * (b2 + 256 * b3));
      ghost var s := buffer[..][..4];
      assert s == [buffer[0], buffer[1], buffer[2], buffer[3]];
      FourBytes(s);
    }

    /** r is what the socket answers if it is asked. A message handed over lies
        at the front of the buffer. */
    method RecvResponse(r: Recv) returns (result: Result, ghost message: seq<byte>)
      requires Valid()
      requires r.Data? && Asks(Pending()) ==> |Pending()| + |r.bytes| <= buffer.Length
      modifies this, buffer
      ensures result == Receive(old(Pending()), r, buffer.Length).0
      ensures result.Message? || result.Blocked? ==>
                Valid() && (result, message, Pending()) == Receive(old(Pending()), r, buffer.Length)
      ensures result.Message? ==> |message| <= buffer.Length && buffer[..|message|] == message
    {
      var written, asked := Pull(r);
      if asked && r.WouldBlock? { return Blocked, []; }
      if asked && r.Failed? { return SocketError, []; }
      if written == 0 { return Disconnected, []; }
      if written < SIZEOF_MESSAGE { return TooSmall, []; }
      result, message := Cut(written);
    }

    /** Left-over bytes move to the front; if they make no header, the socket is
        asked for more. */
    method Pull(r: Recv) returns (written: nat, asked: bool)
      requires Valid()
      requires r.Data? && Asks(Pending()) ==> |Pending()| + |r.bytes| <= buffer.Length
      modifies buffer
      ensures asked <==> Asks(old(Pending()))
      ensures asked && !r.Data? ==> Pending() == old(Pending())
      ensures !asked || r.Data? ==>
                written == |Available(old(Pending()), r)| <= buffer.Length &&
                buffer[..written] == Available(old(Pending()), r)
    {
      written := m_partialrecvsize;
      asked := written < SIZEOF_MESSAGE;
      if written > 0 {
        MoveToFront(m_partialrecvoffset, written);
      }
      if asked && r.Data? {
        Store(written, r.bytes);
        written := written + |r.bytes|;
      }
    }

    /** The message at the front of written bytes, the rest noted as left over. */
    method Cut(written: nat) returns (result: Result, ghost message: seq<byte>)
      requires Valid() && SIZEOF_MESSAGE <= written <= buffer.Length
      modifies this
      ensures
        var avail := buffer[..written];
        var size := SizeField(avail);
        if size > buffer.Length || size < SIZEOF_MESSAGE then result == BadSize
        else
          && result == Message && Valid()
          && message == (if size < written then avail[..size] else avail) == buffer[..|message|]
          && Pending() == (if size < written then avail[size..] else [])
    {
      ghost var avail := buffer[..written];
      var size := ReadSize();
      assert buffer[..][..4] == avail[..4];
      if size > buffer.Length || size < SIZEOF_MESSAGE { return BadSize, []; }
      if size < written {
        m_partialrecvoffset := size;
        m_partialrecvsize := written - size;
        message := avail[..size];
      } else {
        m_partialrecvoffset := 0;
        m_partialrecvsize := 0;
        message := avail;
      }
      result := Message;
    }
  }

  lemma FourBytes(s: seq<byte>)
    requires |s| == 4
    ensures
      var b0: nat, b1: nat, b2: nat, b3: nat := s[0], s[1], s[2], s[3];
      FromLittleEndian(s) == b0 + 256 * (b1 + 256 * (b2 + 256 * b3))
  {
    assert s[1..][1..] == s[2..] && s[2..][1..] == s[3..] && s[3..][1..] == [];
    assert FromLittleEndian(s[3..]) == s[3];
    assert FromLittleEndian(s[2..]) == s[2] + 256 * FromLittleEndian(s[3..]);
    assert FromLittleEndian(s[1..]) == s[1] + 256 * FromLittleEndian(s[2..]);
  }

  // ------------------------------------------------------------- main results

  /** If what the socket has delivered so far starts with message m, a call
      hands over exactly m, and keeps exactly the rest, if and only if all of m
      had arrived: a cut inside a message is harmless while it leaves less than
      a header, and otherwise the call takes the torso for the message. */
  lemma HandsOverWholeMessage(pending: seq<byte>, r: Recv, max: nat, m: seq<byte>, rest: seq<byte>)
    requires WellFormed(m, max)
    requires |Available(pending, r)| >= SIZEOF_MESSAGE && (Asks(pending) ==> r.Data?)
    requires Available(pending, r) <= m + rest
    ensures Receive(pending, r, max).0 == Message
    ensures Receive(pending, r, max).1 == m <==> |Available(pending, r)| >= |m|
    ensures |Available(pending, r)| >= |m| ==>
              Receive(pending, r, max).2 == Available(pending, r)[|m|..]
  {
    var avail := Available(pending, r);
    assert avail[..4] == (m + rest)[..4] == m[..4];
    if |avail| >= |m| {
      assert avail[..|m|] == (m + rest)[..|m|] == m;
    }
  }

  /** The bytes k calls hand over and what is left over then; each element of
      chunks answers one question to the socket. */
  function Calls(pending: seq<byte>, chunks: seq<seq<byte>>, max: nat, k: nat): seq<seq<byte>>
    decreases k
  {
    if k == 0 || (Asks(pending) && chunks == []) then []
    else
      var r := if Asks(pending) then Data(chunks[0]) else WouldBlock;
      var (_, message, left) := Receive(pending, r, max);
      [message] + Calls(left, if Asks(pending) then chunks[1..] else chunks, max, k - 1)
  }

  ghost predicate AllWellFormed(ms: seq<seq<byte>>, max: nat) {
    ms == [] || (WellFormed(ms[0], max) && AllWellFormed(ms[1..], max))
  }

  /** Groups of one or more messages, each group delivered by one recv. */
  ghost predicate GroupsOk(groups: seq<seq<seq<byte>>>, max: nat) {
    groups == [] || (groups[0] != [] && AllWellFormed(groups[0], max) && GroupsOk(groups[1..], max))
  }

  function Chunks(groups: seq<seq<seq<byte>>>): seq<seq<byte>> {
    if groups == [] then [] else [Flat(groups[0])] + Chunks(groups[1..])
  }

  function Messages(groups: seq<seq<seq<byte>>>): seq<seq<byte>> {
    if groups == [] then [] else groups[0] + Messages(groups[1..])
  }

  /** When every recv delivers whole messages, however many at a time, the
      calls hand over exactly the messages sent, in order, once each; left are
      the messages still in the buffer. */
  lemma {:induction false} MessagesInOrder(left: seq<seq<byte>>, groups: seq<seq<seq<byte>>>, max: nat, k: nat)
    requires AllWellFormed(left, max) && GroupsOk(groups, max)
    requires k == |left| + |Messages(groups)|
    ensures Calls(Flat(left), Chunks(groups), max, k) == left + Messages(groups)
    decreases k
  {
    hide Calls, WellFormed;
    if left != [] {
      LeftOver(left, groups, max, k);
      MessagesInOrder(left[1..], groups, max, k - 1);
      Shift(left[0], left[1..], Messages(groups), left);
    } else if groups != [] {
      Arrived(groups, max, k);
      MessagesInOrder(groups[0][1..], groups[1..], max, k - 1);
      Shift(groups[0][0], groups[0][1..], Messages(groups[1..]), groups[0]);
    } else {
      NoCalls(Flat(left), Chunks(groups), max);
    }
  }

  /** A call while messages are left over takes the first of them. */
  lemma LeftOver(left: seq<seq<byte>>, groups: seq<seq<seq<byte>>>, max: nat, k: nat)
    requires left != [] && AllWellFormed(left, max) && k > 0
    ensures Calls(Flat(left), Chunks(groups), max, k) == [left[0]] + Calls(Flat(left[1..]), Chunks(groups), max, k - 1)
  {
    OneCall(Flat(left), WouldBlock, max, left[0], Flat(left[1..]));
    NextCall(Flat(left), Chunks(groups), max, k, left[0], Flat(left[1..]));
  }

  /** A call on an empty buffer takes the first message that arrives. */
  lemma Arrived(groups: seq<seq<seq<byte>>>, max: nat, k: nat)
    requires groups != [] && GroupsOk(groups, max) && k > 0
    ensures Calls([], Chunks(groups), max, k) ==
            [groups[0][0]] + Calls(Flat(groups[0][1..]), Chunks(groups[1..]), max, k - 1)
  {
    var m, rest := groups[0][0], groups[0][1..];
    var chunks := Chunks(groups);
    assert [] + chunks[0] == chunks[0] == m + Flat(rest);
    assert chunks[1..] == Chunks(groups[1..]);
    OneCall([], Data(chunks[0]), max, m, Flat(rest));
    NextCall([], chunks, max, k, m, Flat(rest));
  }

  lemma NextCall(pending: seq<byte>, chunks: seq<seq<byte>>, max: nat, k: nat, m: seq<byte>, left: seq<byte>)
    requires k > 0 && (Asks(pending) ==> chunks != [])
    requires Receive(pending, if Asks(pending) then Data(chunks[0]) else WouldBlock, max) == (Message, m, left)
    ensures Calls(pending, chunks, max, k) ==
            [m] + Calls(left, if Asks(pending) then chunks[1..] else chunks, max, k - 1)
  {
  }

  lemma NoCalls(pending: seq<byte>, chunks: seq<seq<byte>>, max: nat)
    ensures Calls(pending, chunks, max, 0) == []
  {
  }

  lemma Shift<T>(m: T, rest: seq<T>, more: seq<T>, all: seq<T>)
    requires all == [m] + rest
    ensures [m] + (rest + more) == all + more
  {
  }

  lemma OneCall(pending: seq<byte>, r: Recv, max: nat, m: seq<byte>, rest: seq<byte>)
    requires WellFormed(m, max) && Available(pending, r) == m + rest
    requires Asks(pending) ==> r.Data?
    ensures Receive(pending, r, max) == (Message, m, rest)
  {
    HandsOverWholeMessage(pending, r, max, m, rest);
    assert (m + rest)[|m|..] == rest;
  }

  /** What a call looks at when chunks answer the socket, and the chunks then
      still to come. */
  function Seen(pending: seq<byte>, chunks: seq<seq<byte>>): seq<byte> {
    if Asks(pending) && chunks != [] then pending + chunks[0] else pending
  }

  function Coming(pending: seq<byte>, chunks: seq<seq<byte>>): seq<seq<byte>> {
    if Asks(pending) && chunks != [] then chunks[1..] else chunks
  }

  /** At every call the whole of the next message has arrived. */
  predicate InTime(pending: seq<byte>, chunks: seq<seq<byte>>, ms: seq<seq<byte>>)
    decreases |ms|
  {
    ms == [] ||
    (|Seen(pending, chunks)| >= |ms[0]| &&
     InTime(Seen(pending, chunks)[|ms[0]|..], Coming(pending, chunks), ms[1..]))
  }

  /** However the stream of messages is cut into chunks, the calls hand over
      the messages sent if and only if each had arrived whole in time. */
  lemma {:induction false} RightIffInTime(pending: seq<byte>, chunks: seq<seq<byte>>, ms: seq<seq<byte>>, max: nat)
    requires AllWellFormed(ms, max) && pending + Flat(chunks) == Flat(ms)
    ensures Calls(pending, chunks, max, |ms|) == ms <==> InTime(pending, chunks, ms)
    decreases |ms|
  {
    if ms == [] { return; }
    if Asks(pending) && chunks == [] {
      InTimeUnfold(pending, chunks, ms);
      Starved(pending, ms, max);
      return;
    }
    SeenAndComing(pending, chunks);
    var out := CallsStep(pending, chunks, ms, max);
    var (_, first, left) := out;
    if first == ms[0] {
      var rest := ms[1..];
      assert |rest| == |ms| - 1;
      RightIffInTime(left, Coming(pending, chunks), rest, max);
    }
    RightStep(pending, chunks, ms, max, first, left);
  }

  /** One call settles the first message and leaves the question for the rest. */
  lemma RightStep(pending: seq<byte>, chunks: seq<seq<byte>>, ms: seq<seq<byte>>, max: nat,
                  first: seq<byte>, left: seq<byte>)
    requires ms != []
    requires Calls(pending, chunks, max, |ms|) == [first] + Calls(left, Coming(pending, chunks), max, |ms| - 1)
    requires first == ms[0] <==> |Seen(pending, chunks)| >= |ms[0]|
    requires first == ms[0] ==>
               left == Seen(pending, chunks)[|ms[0]|..] &&
               (Calls(left, Coming(pending, chunks), max, |ms| - 1) == ms[1..] <==>
                InTime(left, Coming(pending, chunks), ms[1..]))
    ensures Calls(pending, chunks, max, |ms|) == ms <==> InTime(pending, chunks, ms)
  {
    SameHead(first, Calls(left, Coming(pending, chunks), max, |ms| - 1), ms);
    InTimeUnfold(pending, chunks, ms);
  }

  lemma InTimeUnfold(pending: seq<byte>, chunks: seq<seq<byte>>, ms: seq<seq<byte>>)
    requires ms != []
    ensures InTime(pending, chunks, ms) <==>
            |Seen(pending, chunks)| >= |ms[0]| &&
            InTime(Seen(pending, chunks)[|ms[0]|..], Coming(pending, chunks), ms[1..])
  {
  }

  lemma Starved(pending: seq<byte>, ms: seq<seq<byte>>, max: nat)
    requires ms != [] && AllWellFormed(ms, max) && Asks(pending)
    ensures Calls(pending, [], max, |ms|) == [] != ms
    ensures |Seen(pending, [])| < |ms[0]|
  {
  }

  lemma SameHead<T>(x: T, rest: seq<T>, all: seq<T>)
    requires all != []
    ensures [x] + rest == all <==> x == all[0] && rest == all[1..]
  {
    if [x] + rest == all { assert rest == ([x] + rest)[1..]; }
  }

  lemma SeenAndComing(pending: seq<byte>, chunks: seq<seq<byte>>)
    ensures Seen(pending, chunks) + Flat(Coming(pending, chunks)) == pending + Flat(chunks)
  {
    if Asks(pending) && chunks != [] {
      assert pending + (chunks[0] + Flat(chunks[1..])) == (pending + chunks[0]) + Flat(chunks[1..]);
    }
  }

  lemma {:induction false} CallsStep(pending: seq<byte>, chunks: seq<seq<byte>>, ms: seq<seq<byte>>, max: nat)
    returns (out: (Result, seq<byte>, seq<byte>))
    requires ms != [] && AllWellFormed(ms, max) && !(Asks(pending) && chunks == [])
    requires Seen(pending, chunks) + Flat(Coming(pending, chunks)) == Flat(ms)
    ensures Calls(pending, chunks, max, |ms|) == [out.1] + Calls(out.2, Coming(pending, chunks), max, |ms| - 1)
    ensures
      var avail := Seen(pending, chunks);
      if |avail| >= |ms[0]|
      then out.1 == ms[0] && out.2 == avail[|ms[0]|..] && out.2 + Flat(Coming(pending, chunks)) == Flat(ms[1..])
      else out.1 != ms[0]
  {
    var r := if Asks(pending) then Data(chunks[0]) else WouldBlock;
    assert Available(pending, r) == Seen(pending, chunks);
    FirstCall(pending, r, max, ms[0], Flat(ms[1..]), Flat(Coming(pending, chunks)));
    out := Receive(pending, r, max);
  }

  lemma FirstCall(pending: seq<byte>, r: Recv, max: nat, m: seq<byte>, rest: seq<byte>, more: seq<byte>)
    requires WellFormed(m, max) && (Asks(pending) ==> r.Data?)
    requires Available(pending, r) + more == m + rest
    ensures
      var avail, out := Available(pending, r), Receive(pending, r, max);
      if |avail| >= |m| then out.1 == m && out.2 == avail[|m|..] && out.2 + more == rest else out.1 != m
  {
    var avail := Available(pending, r);
    assert avail == (m + rest)[..|avail|];
    if |avail| >= SIZEOF_MESSAGE {
      HandsOverWholeMessage(pending, r, max, m, rest);
    }
    if |avail| >= |m| {
      assert (avail + more)[|m|..] == avail[|m|..] + more;
      assert (m + rest)[|m|..] == rest;
    }
  }

  /** A concrete stream that is cut wrongly: eight bytes of a nine-byte message
      are taken for all of it. */
  lemma TornMessage(m: seq<byte>, max: nat)
    requires WellFormed(m, max) && |m| == 9
    ensures Receive([], Data(m[..8]), max) == (Message, m[..8], [])
  {
    assert m[..8][..4] == m[..4];
    assert [] + m[..8] == m[..8];
  }

  // ---------------------------------------------------------------- what it reports

  /** The number in the first four bytes, the least significant first. */
  function FirstFour(b: seq<byte>): nat
    requires |b| >= 4
  {
    var b0: nat, b1: nat, b2: nat, b3: nat := b[0], b[1], b[2], b[3];
    b0 + 0x100 * b1 + 0x1_0000 * b2 + 0x100_0000 * b3
  }

  /** What each outcome means: what is left over and the bytes received have
      come to nothing, to less than a header of 7 bytes, to a size no message
      of at most max bytes can have, or to a message, which is what is there as
      far as its size goes; the rest stays for the next call. */
  lemma OutcomeMeans(pending: seq<byte>, r: Recv, max: nat)
    ensures
      var asks := |pending| < 7;
      var there := if asks && r.Data? then pending + r.bytes else pending;
      var size := if |there| < 4 then 0 else FirstFour(there);
      var (result, message, rest) := Receive(pending, r, max);
      && (result.Blocked? <==> asks && r.WouldBlock?) && (result.SocketError? <==> asks && r.Failed?)
      && (result.Disconnected? <==> asks && r.Data? && there == [])
      && (result.TooSmall? <==> asks && r.Data? && 0 < |there| < 7)
      && (result.BadSize? <==> (asks ==> r.Data?) && |there| >= 7 && (size < 7 || size > max))
      && (result.Message? <==> (asks ==> r.Data?) && |there| >= 7 && 7 <= size <= max)
      && (result.Message? ==> message + rest == there && |message| == if size < |there| then size else |there|)
      && (result.Blocked? ==> rest == pending)
  {
    var there := Available(pending, r);
    if |there| >= 4 {
      FourBytes(there[..4]);
    }
  }
}
