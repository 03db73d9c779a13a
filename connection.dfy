/** The Bolt connection (src/client/connection/connection.class.ts): the
    handshake / authentication / ready state machine driven by inbound socket
    messages, the send queue held back until the connection is ready, and the
    chunk reassembly loop of `onData`. The socket is replaced by two logs:
    `sent`, the buffers written to it, and `emitted`, the message bytes handed
    to the response unpacker. */
module Connections {
  import opened JsInt32
  import opened Framing

  /** `BOLT_PROTOCOLS.UNKNOWN`: no protocol agreed yet. */
  const UNKNOWN: int := 0

  /** A request passed to `sendMessage`: the command and its field values. */
  datatype Request<T> = Request(cmd: int, data: seq<T>)

  /** How a handler call ended: normally, or with the RangeError that
      `DataView.getInt32` throws on fewer than four bytes. */
  datatype Outcome = Handled | RangeError

  // ---------------------------------------------------------------------
  // Buffers

  /** `ArrayBuffer.prototype.slice(lo, hi)` for 0 <= lo <= hi: both bounds are
      clamped to the length. */
  function Slice(b: seq<Byte>, lo: nat, hi: nat): seq<Byte>
    requires lo <= hi
  {
    if |b| <= lo then [] else if |b| <= hi then b[lo..] else b[lo..hi]
  }

  /** `ArrayBuffer.prototype.slice(lo)`: everything from lo on, or nothing. */
  function SliceFrom(b: seq<Byte>, lo: nat): seq<Byte> {
    if |b| <= lo then [] else b[lo..]
  }

  /** `header[0] << 8 | header[1]`: the chunk size in the first two bytes,
      read big-endian. */
  function ChunkSize(b: seq<Byte>): (size: nat)
    requires |b| >= 2
    ensures size == b[0] as int * 256 + b[1] as int
    ensures size < TWO16
  {
    ChunkSizeValue(b[0], b[1]);
    BitOr(Shl(b[0], 8), b[1])
  }

  lemma ChunkSizeValue(hi: Byte, lo: Byte)
    ensures BitOr(Shl(hi, 8), lo) == hi as int * 256 + lo as int
  {
    Pow2Values();
    OrOfShifted(hi, 8, lo);
    ToUint32OfUint32(hi);
    ToInt32OfInt32(hi as int * 256 + lo as int);
  }

  // ---------------------------------------------------------------------
  // The reassembly loop of onData, as functions

  /** The state of the loop of `onData`: the bytes left in `incomingData`, the
      message collected since the last zero header, the messages handed on so
      far, in order, and `endOfChunk`. */
  datatype Drained = Drained(rest: seq<Byte>, message: seq<Byte>, out: seq<seq<Byte>>, end: nat)

  /** The `while` loop of `onData`, run from the state (`incomingData`,
      `messageData`, `endOfChunk`, messages handed on). While at least
      `endOfChunk` bytes are left: a nonzero size header appends the chunk body
      (clamped to what is there) to the message and drops header and body; a
      zero header hands the message on, starts a new one and drops the two
      header bytes. `endOfChunk` becomes 2 + the size just read, so the next
      test compares the bytes left with the end of the chunk already consumed.
      The loop never grows the buffer and stops with fewer bytes than its
      last `endOfChunk`. */
  function Drain(buf: seq<Byte>, message: seq<Byte>, end: nat, out: seq<seq<Byte>>): (d: Drained)
    requires end >= 2
    ensures |d.rest| <= |buf|
    ensures 2 <= d.end && |d.rest| < d.end
    decreases |buf|
  {
    if |buf| < end then Drained(buf, message, out, end)
    else
      var size := ChunkSize(buf);
      if size != 0 then
        Drain(SliceFrom(buf, 2 + size), JoinBuffers(message, Slice(buf, 2, 2 + size)), 2 + size, out)
      else
        Drain(SliceFrom(buf, 2), [], 2, out + [message])
  }

  /** The effect of one `onData` call: what stays in `incomingData`, and the
      messages handed to `onChunk`, in order. */
  datatype Delivery = Delivery(rest: seq<Byte>, out: seq<seq<Byte>>)

  /** `onData`: join the delivered bytes to `incomingData`, run the loop from
      an empty message and `endOfChunk` 2, and, when exactly two bytes are left,
      hand the collected message on once more without consuming those bytes. */
  function Deliver(incoming: seq<Byte>, view: seq<Byte>): Delivery
  {
    var d := Drain(JoinBuffers(incoming, view), [], 2, []);
    Delivery(d.rest, if |d.rest| == 2 then d.out + [d.message] else d.out)
  }

  /** The frames that the requests queued on the ready latch write once it
      fires: one `createMessage` per request, in the order they were made. */
  function Frames<T>(protocol: int, reqs: seq<Request<T>>, pack: (int, T) -> seq<Byte>): (r: seq<seq<Byte>>)
    ensures |r| == |reqs|
    ensures forall i :: 0 <= i < |reqs| ==> r[i] == CreateMessage(protocol, reqs[i].cmd, reqs[i].data, pack)
    decreases |reqs|
  {
    if |reqs| == 0 then []
    else [CreateMessage(protocol, reqs[0].cmd, reqs[0].data, pack)] + Frames(protocol, reqs[1..], pack)
  }

  // ---------------------------------------------------------------------
  // The connection

  class Connection<T> {
    /** The packer, the user agent and the auth token of the connection parameters. */
    const pack: (int, T) -> seq<Byte>
    const userAgent: T
    const auth: T

    var protocol: int
    var didAuth: bool
    var incomingData: seq<Byte>
    /** The ready latch (`readySubject`) has fired and completed. */
    var ready: bool
    /** `sendMessage` calls waiting on the ready latch, in call order. */
    var pending: seq<Request<T>>
    /** Buffers written to the socket, in order. */
    var sent: seq<seq<Byte>>
    /** Message bytes handed to `onChunk`, in order. */
    var emitted: seq<seq<Byte>>

    /** The latch fires exactly when authentication is done, which needs an
        agreed protocol; nothing waits once it has fired; and before that no
        data has been read. */
    ghost predicate Valid()
      reads this
    {
      && ready == didAuth
      && (ready ==> pending == [])
      && (didAuth ==> protocol != UNKNOWN)
      && (!ready ==> incomingData == [] && emitted == [])
    }

    /** `didHandshake`: a protocol has been agreed. */
    predicate DidHandshake()
      reads this
    {
      protocol != UNKNOWN
    }

    /** `isReady`: handshake and authentication both done. */
    predicate IsReady()
      reads this
    {
      DidHandshake() && didAuth
    }

    constructor(pack: (int, T) -> seq<Byte>, userAgent: T, auth: T)
      ensures this.pack == pack && this.userAgent == userAgent && this.auth == auth
      ensures protocol == UNKNOWN && !didAuth && incomingData == [] && !ready
      ensures pending == [] && sent == [] && emitted == []
      ensures Valid()
    {
      this.pack := pack;
      this.userAgent := userAgent;
      this.auth := auth;
      protocol := UNKNOWN;
      didAuth := false;
      incomingData := [];
      ready := false;
      pending := [];
      sent := [];
      emitted := [];
    }

    /** `onOpen`: the socket opened; write the handshake. */
    method OnOpen()
      requires Valid()
      modifies this
      ensures sent == old(sent) + [HandshakeMessage()]
      ensures protocol == old(protocol) && didAuth == old(didAuth) && ready == old(ready)
      ensures incomingData == old(incomingData) && pending == old(pending) && emitted == old(emitted)
      ensures Valid()
    {
      sent := sent + [HandshakeMessage()];
    }

    /** `sendMessage`: once the latch has fired the frame is written at once;
        before that the request waits for it. */
    method SendMessage(cmd: int, data: seq<T>)
      requires Valid()
      modifies this
      ensures ready ==> sent == old(sent) + [CreateMessage(protocol, cmd, data, pack)] && pending == old(pending)
      ensures !ready ==> pending == old(pending) + [Request(cmd, data)] && sent == old(sent)
      ensures protocol == old(protocol) && didAuth == old(didAuth) && ready == old(ready)
      ensures incomingData == old(incomingData) && emitted == old(emitted)
      ensures Valid()
    {
      if ready {
        sent := sent + [CreateMessage(protocol, cmd, data, pack)];
      } else {
        pending := pending + [Request(cmd, data)];
      }
    }

    /** `onMessage`: a ready connection reads data, a handshaken one takes the
        message as the authentication reply, any other as the handshake reply. */
    method OnMessage(data: seq<Byte>) returns (outcome: Outcome)
      requires Valid()
      modifies this
      ensures Valid()
      ensures outcome == RangeError <==> !old(DidHandshake()) && |data| < 4
      ensures old(IsReady()) ==>
        && incomingData == Deliver(old(incomingData), data).rest
        && emitted == old(emitted) + Deliver(old(incomingData), data).out
        && protocol == old(protocol) && didAuth && ready
        && pending == old(pending) && sent == old(sent)
      ensures old(DidHandshake()) && !old(IsReady()) ==>
        && didAuth && ready && protocol == old(protocol)
        && sent == old(sent) + Frames(protocol, old(pending), pack) && pending == []
        && incomingData == old(incomingData) && emitted == old(emitted)
      ensures !old(DidHandshake()) ==>
        && !didAuth && !ready && pending == old(pending)
        && incomingData == old(incomingData) && emitted == old(emitted)
        && (|data| < 4 ==> protocol == old(protocol) && sent == old(sent))
        && (|data| >= 4 ==> protocol == Int32BE(data, 0)
                            && sent == old(sent) + [AuthMessage(protocol, userAgent, auth, pack)])
    {
      if IsReady() {
        OnData(data);
        return Handled;
      }
      if DidHandshake() {
        OnAuth();
        return Handled;
      }
      outcome := OnHandshake(data);
    }

    /** `onHandshake`: the reply's first four bytes, big-endian and signed, are
        the protocol; then the auth message for that protocol is written.
        Fewer than four bytes: `getInt32` throws and nothing changes. */
    method OnHandshake(data: seq<Byte>) returns (outcome: Outcome)
      requires Valid() && !didAuth
      modifies this
      ensures |data| < 4 ==> outcome == RangeError && protocol == old(protocol) && sent == old(sent)
      ensures |data| >= 4 ==>
        && outcome == Handled && protocol == Int32BE(data, 0)
        && sent == old(sent) + [AuthMessage(protocol, userAgent, auth, pack)]
      ensures didAuth == old(didAuth) && ready == old(ready) && pending == old(pending)
      ensures incomingData == old(incomingData) && emitted == old(emitted)
      ensures Valid()
    {
      if |data| < 4 {
        return RangeError;
      }
      protocol := Int32BE(data, 0);
      sent := sent + [AuthMessage(protocol, userAgent, auth, pack)];
      outcome := Handled;
    }

    /** `onAuth`: authentication done; the latch fires and completes, so every
        request waiting on it is written, in order, with the agreed protocol. */
    method OnAuth()
      requires Valid() && DidHandshake() && !didAuth
      modifies this
      ensures didAuth && ready && pending == []
      ensures sent == old(sent) + Frames(protocol, old(pending), pack)
      ensures protocol == old(protocol) && incomingData == old(incomingData) && emitted == old(emitted)
      ensures Valid()
    {
      didAuth := true;
      sent := sent + Frames(protocol, pending, pack);
      pending := [];
      ready := true;
    }

    /** `onChunk`: the collected message goes to the unpacker and on to the
        subscribers; here it is recorded as it stands. */
    method OnChunk(message: seq<Byte>)
      modifies this
      ensures emitted == old(emitted) + [message]
      ensures protocol == old(protocol) && didAuth == old(didAuth) && ready == old(ready)
      ensures incomingData == old(incomingData) && pending == old(pending) && sent == old(sent)
    {
      emitted := emitted + [message];
    }

    /** The body of the `onData` loop: read the header; a nonzero size adds the
        chunk body to the message, a zero size hands the message on; either way
        the chunk is dropped from `incomingData`. One pass leaves the outcome of
        the loop as it was, and drops at least two bytes. */
    method ReadChunk(messageData: seq<Byte>, endOfChunk: nat) returns (nextData: seq<Byte>, nextEnd: nat)
      requires 2 <= endOfChunk <= |incomingData|
      modifies this
      ensures 2 <= nextEnd && |incomingData| <= |old(incomingData)| - 2
      ensures Drain(incomingData, nextData, nextEnd, emitted) == Drain(old(incomingData), messageData, endOfChunk, old(emitted))
      ensures protocol == old(protocol) && didAuth == old(didAuth) && ready == old(ready)
      ensures pending == old(pending) && sent == old(sent)
    {
      var chunkSize := ChunkSize(incomingData);
      nextEnd := 2 + chunkSize;
      if chunkSize != 0 {
        nextData := JoinBuffers(messageData, Slice(incomingData, 2, nextEnd));
        incomingData := SliceFrom(incomingData, nextEnd);
      } else {
        OnChunk(messageData);
        nextData := [];
        incomingData := SliceFrom(incomingData, nextEnd);
      }
    }

    /** `onData`: the reassembly loop, proved to do what `Deliver` describes. */
    method OnData(view: seq<Byte>)
      requires Valid() && ready
      modifies this
      ensures incomingData == Deliver(old(incomingData), view).rest
      ensures emitted == old(emitted) + Deliver(old(incomingData), view).out
      ensures protocol == old(protocol) && didAuth == old(didAuth) && ready == old(ready)
      ensures pending == old(pending) && sent == old(sent)
      ensures Valid()
    {
      incomingData := JoinBuffers(incomingData, view);
      ghost var d0 := Drain(incomingData, [], 2, emitted);
      var messageData: seq<Byte> := [];
      var endOfChunk: nat := 2;
      while |incomingData| >= endOfChunk
        invariant endOfChunk >= 2
        invariant Drain(incomingData, messageData, endOfChunk, emitted) == d0
        invariant protocol == old(protocol) && didAuth == old(didAuth) && ready == old(ready)
        invariant pending == old(pending) && sent == old(sent)
        decreases |incomingData|
      {
        messageData, endOfChunk := ReadChunk(messageData, endOfChunk);
      }
      assert d0 == Drained(incomingData, messageData, emitted, endOfChunk);
      DrainAccumulates(JoinBuffers(old(incomingData), view), [], 2, old(emitted), []);
      assert old(emitted) + [] == old(emitted);
      if |incomingData| == 2 {
        OnChunk(messageData);
      }
    }
  }

  // ---------------------------------------------------------------------
  // Properties of the reassembly loop

  /** The messages already handed on only ever get more appended: running the
      loop after `before` hands on `before` and then what it hands on from
      nothing, from the same buffer to the same place. */
  lemma {:induction false} DrainAccumulates(buf: seq<Byte>, message: seq<Byte>, end: nat, before: seq<seq<Byte>>, out: seq<seq<Byte>>)
    requires end >= 2
    ensures var d, e := Drain(buf, message, end, before + out), Drain(buf, message, end, out);
      d.rest == e.rest && d.message == e.message && d.end == e.end && d.out == before + e.out
    decreases |buf|
  {
    if |buf| >= end {
      var size := ChunkSize(buf);
      if size != 0 {
        DrainAccumulates(SliceFrom(buf, 2 + size), JoinBuffers(message, Slice(buf, 2, 2 + size)), 2 + size, before, out);
      } else {
        assert (before + out) + [message] == before + (out + [message]);
        DrainAccumulates(SliceFrom(buf, 2), [], 2, before, out + [message]);
      }
    }
  }

  /** The loop only drops bytes from the front: what it leaves is a suffix of
      the buffer it started from. */
  lemma {:induction false} DrainKeepsSuffix(buf: seq<Byte>, message: seq<Byte>, end: nat, out: seq<seq<Byte>>)
    requires end >= 2
    ensures var d := Drain(buf, message, end, out); d.rest == buf[|buf| - |d.rest|..]
    decreases |buf|
  {
    if |buf| >= end {
      var size := ChunkSize(buf);
      var k := if size != 0 then 2 + size else 2;
      if size != 0 {
        DrainKeepsSuffix(SliceFrom(buf, k), JoinBuffers(message, Slice(buf, 2, 2 + size)), 2 + size, out);
      } else {
        DrainKeepsSuffix(SliceFrom(buf, k), [], 2, out + [message]);
      }
      SuffixOfDrop(buf, k, Drain(buf, message, end, out).rest);
    }
  }

  lemma SuffixOfDrop(buf: seq<Byte>, k: nat, r: seq<Byte>)
    requires var next := SliceFrom(buf, k); |r| <= |next| && r == next[|next| - |r|..]
    ensures |r| <= |buf| && r == buf[|buf| - |r|..]
  {
    if k < |buf| {
      assert SliceFrom(buf, k) == buf[k..];
      assert buf[k..][|buf| - k - |r|..] == buf[|buf| - |r|..];
    }
  }

  /** The bytes `onData` leaves in `incomingData` are a suffix of the
      delivered bytes joined to the earlier ones. */
  lemma DeliverKeepsSuffix(incoming: seq<Byte>, view: seq<Byte>)
    ensures var joined, r := JoinBuffers(incoming, view), Deliver(incoming, view);
      |r.rest| <= |joined| && r.rest == joined[|joined| - |r.rest|..]
  {
    DrainKeepsSuffix(JoinBuffers(incoming, view), [], 2, []);
  }

  /** One pass with a nonzero header: the next `size` bytes, or as many as
      there are, join the message, header and body are dropped (at least two
      bytes), and `endOfChunk` becomes 2 + size. */
  lemma NonzeroHeader(buf: seq<Byte>, message: seq<Byte>, end: nat, out: seq<seq<Byte>>)
    requires 2 <= end <= |buf| && ChunkSize(buf) != 0
    ensures var size := ChunkSize(buf);
      var k := if 2 + size <= |buf| then 2 + size else |buf|;
      && Drain(buf, message, end, out) == Drain(buf[k..], message + buf[2..k], 2 + size, out)
      && |buf[k..]| <= |buf| - 2
  {
    var size := ChunkSize(buf);
    var k := if 2 + size <= |buf| then 2 + size else |buf|;
    assert SliceFrom(buf, 2 + size) == buf[k..];
    assert Slice(buf, 2, 2 + size) == buf[2..k];
  }

  /** One pass with a zero header: the message so far is handed on, the two
      header bytes are dropped and collection restarts from nothing. */
  lemma ZeroHeader(buf: seq<Byte>, message: seq<Byte>, end: nat, out: seq<seq<Byte>>)
    requires 2 <= end <= |buf| && buf[0] == 0 && buf[1] == 0
    ensures Drain(buf, message, end, out) == Drain(buf[2..], [], 2, out + [message])
  {
    assert ChunkSize(buf) == 0;
  }

  /** From an empty buffer, one frame `[hi, lo] + body + [0, 0]` whose header
      gives the body's length hands on exactly that body, and leaves the two
      terminating zero bytes in `incomingData`. */
  lemma {:induction false} SingleFrame(hi: Byte, lo: Byte, body: seq<Byte>)
    requires hi as int * 256 + lo as int == |body| > 0
    ensures Deliver([], [hi, lo] + body + [0, 0]) == Delivery([0, 0], [body])
  {
    var buf := [hi, lo] + body + [0, 0];
    assert JoinBuffers([], buf) == buf;
    assert ChunkSize(buf) == |body|;
    assert SliceFrom(buf, 2 + |body|) == [0, 0];
    assert Slice(buf, 2, 2 + |body|) == body;
    assert JoinBuffers([], body) == body;
    assert Drain(buf, [], 2, []) == Drain([0, 0], body, 2 + |body|, []);
  }

  /** Encoding then decoding: a frame built by `createMessage` whose chunk
      fits in 16 bits, delivered to an empty buffer, hands on the marker, the
      command and the packed fields. */
  lemma FrameRoundTrip<T>(protocol: int, cmd: int, data: seq<T>, pack: (int, T) -> seq<Byte>)
    requires 2 + |PackFields(protocol, data, pack)| < TWO16
    ensures var r := CreateMessage(protocol, cmd, data, pack);
      Deliver([], r) == Delivery([0, 0], [[r[2], r[3]] + PackFields(protocol, data, pack)])
  {
    var r, fields := CreateMessage(protocol, cmd, data, pack), PackFields(protocol, data, pack);
    CreateMessageLayout(protocol, cmd, data, pack);
    HeaderRoundTrip(protocol, cmd, data, pack);
    var body := r[2..|r| - 2];
    assert body == [r[2], r[3]] + fields;
    assert r == [r[0], r[1]] + body + [0, 0];
    SingleFrame(r[0], r[1], body);
  }

  /** The two zero bytes left behind by a frame stay at the head of the
      buffer: the next delivery first hands on an empty message, then does
      what it would have done from an empty buffer. */
  lemma {:induction false} StaleTerminator(view: seq<Byte>)
    ensures Deliver([0, 0], view).rest == Deliver([], view).rest
    ensures Deliver([0, 0], view).out == [[]] + Deliver([], view).out
  {
    var buf := JoinBuffers([0, 0], view);
    var d, e := Drain(buf, [], 2, []), Drain(view, [], 2, []);
    var none: seq<seq<Byte>> := [];
    assert Deliver([], view) == Delivery(e.rest, if |e.rest| == 2 then e.out + [e.message] else e.out) by {
      assert JoinBuffers([], view) == view;
    }
    assert d == Drain(view, [], 2, [[]] + none) by {
      assert buf[2..] == view && none + [[]] == [[]] + none;
      ZeroHeader(buf, [], 2, []);
    }
    DrainAccumulates(view, [], 2, [[]], none);
    assert ([[]] + e.out) + [e.message] == [[]] + (e.out + [e.message]);
  }

  /** Two frames delivered one after the other: the first hands on its body,
      the second an empty message and then its body. */
  lemma ConsecutiveFrames(hi1: Byte, lo1: Byte, body1: seq<Byte>, hi2: Byte, lo2: Byte, body2: seq<Byte>)
    requires hi1 as int * 256 + lo1 as int == |body1| > 0
    requires hi2 as int * 256 + lo2 as int == |body2| > 0
    ensures var first := Deliver([], [hi1, lo1] + body1 + [0, 0]);
      var second := Deliver(first.rest, [hi2, lo2] + body2 + [0, 0]);
      first.out == [body1] && second.out == [[], body2] && second.rest == [0, 0]
  {
    SingleFrame(hi1, lo1, body1);
    SingleFrame(hi2, lo2, body2);
    StaleTerminator([hi2, lo2] + body2 + [0, 0]);
  }

  /** A chunk whose body has not fully arrived is not waited for: what is
      there is taken into a message that is then dropped with the call, and
      the buffer is emptied. */
  lemma {:induction false} ShortChunkDiscarded(hi: Byte, lo: Byte, part: seq<Byte>)
    requires hi as int * 256 + lo as int > |part|
    ensures Deliver([], [hi, lo] + part) == Delivery([], [])
  {
    var buf := [hi, lo] + part;
    assert JoinBuffers([], buf) == buf;
    assert buf[0] == hi && buf[1] == lo;
    var size := ChunkSize(buf);
    assert size > |part|;
    assert SliceFrom(buf, 2 + size) == [];
    var m := JoinBuffers([], Slice(buf, 2, 2 + size));
    assert Drain(buf, [], 2, []) == Drain([], m, 2 + size, []);
    assert Drain([], m, 2 + size, []) == Drained([], m, [], 2 + size);
  }

  /** A first delivery of a single byte never enters the loop: the byte waits
      in `incomingData`, and the next delivery reads as if both had arrived
      together. */
  lemma OneByteWaits(b: Byte, view: seq<Byte>)
    ensures Deliver([], [b]) == Delivery([b], [])
    ensures Deliver([b], view) == Deliver([], [b] + view)
  {
    assert JoinBuffers([], [b]) == [b];
    assert JoinBuffers([], [b] + view) == JoinBuffers([b], view);
  }

  /** So a frame split right after its first header byte is read whole: unlike
      a split inside the body (ShortChunkDiscarded), nothing is lost. */
  lemma SplitAfterFirstHeaderByte()
    ensures Deliver([], [0]) == Delivery([0], [])
    ensures Deliver([0], [5, 1, 2, 3, 4, 5, 0, 0]) == Delivery([0, 0], [[1, 2, 3, 4, 5]])
  {
    var view: seq<Byte> := [5, 1, 2, 3, 4, 5, 0, 0];
    var body: seq<Byte> := [1, 2, 3, 4, 5];
    OneByteWaits(0, view);
    assert [0] + view == [0, 5] + body + [0, 0];
    SingleFrame(0, 5, body);
  }

  /** The loop test reuses the previous chunk's end: after a six-byte chunk,
      the seven bytes that follow (its terminator and a whole one-byte frame)
      are fewer than eight, so the loop stops, neither message is handed on
      and the completed six-byte message is lost with the call. */
  lemma EndOfChunkReuse()
    ensures Deliver([], [0, 6, 1, 2, 3, 4, 5, 6, 0, 0, 0, 1, 9, 0, 0]) == Delivery([0, 0, 0, 1, 9, 0, 0], [])
  {
    var buf: seq<Byte> := [0, 6, 1, 2, 3, 4, 5, 6, 0, 0, 0, 1, 9, 0, 0];
    assert JoinBuffers([], buf) == buf;
    ReuseDrain(buf);
  }

  lemma ReuseDrain(buf: seq<Byte>)
    requires buf == [0, 6, 1, 2, 3, 4, 5, 6, 0, 0, 0, 1, 9, 0, 0]
    ensures Drain(buf, [], 2, []) == Drained([0, 0, 0, 1, 9, 0, 0], [1, 2, 3, 4, 5, 6], [], 8)
  {
    var rest: seq<Byte> := [0, 0, 0, 1, 9, 0, 0];
    assert ChunkSize(buf) == 6;
    NonzeroHeader(buf, [], 2, []);
    assert buf[8..] == rest && [] + buf[2..8] == [1, 2, 3, 4, 5, 6];
  }

  /** The two-byte fallback fires on any two bytes left, not only a
      terminator: a one-byte chunk followed by the header of the next chunk
      hands the message on and keeps that header. */
  lemma FallbackOnHeader()
    ensures Deliver([], [0, 1, 7, 0, 5]) == Delivery([0, 5], [[7]])
  {
    var buf: seq<Byte> := [0, 1, 7, 0, 5];
    assert JoinBuffers([], buf) == buf;
    assert ChunkSize(buf) == 1;
    assert SliceFrom(buf, 3) == [0, 5];
    assert JoinBuffers([], Slice(buf, 2, 3)) == [7];
    assert Drain(buf, [], 2, []) == Drain([0, 5], [7], 3, []);
    assert Drain([0, 5], [7], 3, []) == Drained([0, 5], [7], [], 3);
  }

  /** Requests queued on the latch are written in the order they were made. */
  lemma {:induction false} FramesAppend<T>(protocol: int, a: seq<Request<T>>, b: seq<Request<T>>, pack: (int, T) -> seq<Byte>)
    ensures Frames(protocol, a + b, pack) == Frames(protocol, a, pack) + Frames(protocol, b, pack)
  {
    var l, r := Frames(protocol, a + b, pack), Frames(protocol, a, pack) + Frames(protocol, b, pack);
    assert |l| == |r|;
    forall i | 0 <= i < |l|
      ensures l[i] == r[i]
    {
      if i < |a| {
        assert (a + b)[i] == a[i];
      } else {
        assert (a + b)[i] == b[i - |a|];
      }
    }
  }

  // ---------------------------------------------------------------------
  // Sessions

  /** A whole session: open, handshake reply for protocol 1, a request made
      before authentication, the authentication reply, then one data frame.
      The socket sees the handshake, the auth message and the queued request;
      the subscribers see the frame's body. */
  method Session<T>(pack: (int, T) -> seq<Byte>, userAgent: T, auth: T, cmd: int, args: seq<T>, hi: Byte, lo: Byte, body: seq<Byte>)
    returns (sent: seq<seq<Byte>>, emitted: seq<seq<Byte>>, protocol: int)
    requires hi as int * 256 + lo as int == |body| > 0
    ensures protocol == 1
    ensures sent == [HandshakeMessage(), AuthMessage(1, userAgent, auth, pack), CreateMessage(1, cmd, args, pack)]
    ensures emitted == [body]
  {
    var c := new Connection(pack, userAgent, auth);
    c.OnOpen();
    ToInt32OfInt32(1);
    var o1 := c.OnMessage([0, 0, 0, 1]);
    assert Int32BE([0, 0, 0, 1], 0) == 1;
    c.SendMessage(cmd, args);
    var o2 := c.OnMessage([0x70, 0]);
    assert Frames(1, [Request(cmd, args)], pack) == [CreateMessage(1, cmd, args, pack)];
    var o3 := c.OnMessage([hi, lo] + body + [0, 0]);
    SingleFrame(hi, lo, body);
    sent, emitted, protocol := c.sent, c.emitted, c.protocol;
  }

  /** A handshake reply of protocol 0 (UNKNOWN) leaves the connection
      unhandshaken: the next message is again taken as a handshake reply and
      a second auth message is written. */
  method ZeroReplyRepeatsHandshake<T>(pack: (int, T) -> seq<Byte>, userAgent: T, auth: T)
    returns (sent: seq<seq<Byte>>, didAuth: bool)
    ensures !didAuth
    ensures sent == [AuthMessage(UNKNOWN, userAgent, auth, pack), AuthMessage(UNKNOWN, userAgent, auth, pack)]
  {
    var c := new Connection(pack, userAgent, auth);
    ToInt32OfInt32(0);
    assert Int32BE([0, 0, 0, 0], 0) == 0;
    var o1 := c.OnMessage([0, 0, 0, 0]);
    var o2 := c.OnMessage([0, 0, 0, 0]);
    sent, didAuth := c.sent, c.didAuth;
  }
}
