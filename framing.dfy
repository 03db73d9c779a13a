/** Framing and handshake bytes (src/client/connection/connection.utils.ts):
    the buffers a Bolt connection writes, as sequences of bytes. A message is
    sent as one chunk, a two-byte big-endian size, the message bytes, and the
    zero-size chunk that ends it. The packstream packer that turns a request
    value into bytes is a parameter. */
module Framing {
  import opened JsInt32

  type Byte = b: int | 0 <= b < 256

  /** What a Uint8Array keeps of a number stored in it: the low eight bits. */
  function ToUint8(x: int): Byte {
    x % 256
  }

  /** `joinArrayBuffers`: a fresh buffer holding the first one, then the second. */
  function JoinBuffers(a: seq<Byte>, b: seq<Byte>): (r: seq<Byte>)
    ensures |r| == |a| + |b| && r[..|a|] == a && r[|a|..] == b
  {
    a + b
  }

  // ---------------------------------------------------------------------
  // Big-endian 32-bit words

  /** `DataView.getInt32(i, false)`: four bytes from i, big-endian, two's complement. */
  function Int32BE(b: seq<Byte>, i: nat): Int32
    requires i + 4 <= |b|
  {
    ToInt32(b[i] as int * TWO24 + b[i + 1] as int * TWO16 + b[i + 2] as int * 256 + b[i + 3] as int)
  }

  /** The four big-endian bytes of a 32-bit unsigned word. */
  function Uint32Bytes(x: nat): (r: seq<Byte>)
    requires x < TWO32
    ensures |r| == 4
  {
    [x / TWO24, x / TWO16 % 256, x / 256 % 256, x % 256]
  }

  // ---------------------------------------------------------------------
  // getHandshakeMessage

  /** The Bolt magic preamble. */
  const MAGIC: seq<Byte> := [0x60, 0x60, 0xB0, 0x17]

  /** `getHandshakeMessage`: the magic preamble, then four version proposals. */
  function HandshakeMessage(): seq<Byte> {
    [0x60, 0x60, 0xB0, 0x17,
     0x00, 0x00, 0x00, 0x02,
     0x00, 0x00, 0x00, 0x01,
     0x00, 0x00, 0x00, 0x00,
     0x00, 0x00, 0x00, 0x00]
  }

  // ---------------------------------------------------------------------
  // createMessage and getAuthMessage

  /** `flatMap(requestData, packRequestData)`: each field packed, in order. */
  function PackFields<T>(protocol: int, data: seq<T>, pack: (int, T) -> seq<Byte>): seq<Byte>
    decreases |data|
  {
    if |data| == 0 then [] else pack(protocol, data[0]) + PackFields(protocol, data[1..], pack)
  }

  /** `createMessage`: the chunk size (marker, command and packed fields) as
      `size >> 8` and `size & 0xFF`, the structure marker 0xB0 + field count,
      the command, the packed fields and the two zero bytes that end the
      message. Each number goes through the Uint8Array conversion. */
  function CreateMessage<T>(protocol: int, cmd: int, data: seq<T>, pack: (int, T) -> seq<Byte>): seq<Byte> {
    var fields := PackFields(protocol, data, pack);
    var chunkSize := 2 + |fields|;
    [ToUint8(Sar(chunkSize, 8)), ToUint8(LowBits(chunkSize, 8)), ToUint8(0xB0 + |data|), ToUint8(cmd)]
    + fields + [0, 0]
  }

  /** The INIT request of Bolt version 1. */
  const INIT: int := 0x01

  /** `getAuthMessage`: an INIT message carrying the user agent and the auth token. */
  function AuthMessage<T>(protocol: int, userAgent: T, auth: T, pack: (int, T) -> seq<Byte>): seq<Byte> {
    CreateMessage(protocol, INIT, [userAgent, auth], pack)
  }

  // ---------------------------------------------------------------------
  // Properties

  /** The bytes of a 32-bit word read back as that word, in two's complement. */
  lemma Uint32RoundTrip(x: nat)
    requires x < TWO32
    ensures Int32BE(Uint32Bytes(x), 0) == ToInt32(x)
  {
    var r := Uint32Bytes(x);
    var a, b, c, d := x / TWO24, x / TWO16 % 256, x / 256 % 256, x % 256;
    assert x == a * TWO24 + b * TWO16 + c * 256 + d by {
      DivMod(x, 256);
      DivMod(x / 256, 256);
      DivMod(x / 256 / 256, 256);
      assert x / 256 / 256 == x / TWO16 by { DivDiv(x, 256, 256); }
      assert x / TWO16 / 256 == x / TWO24 by { DivDiv(x, TWO16, 256); }
    }
    assert r[0] == a && r[1] == b && r[2] == c && r[3] == d;
  }

  /** Dividing twice is dividing by the product. */
  lemma DivDiv(x: int, p: int, q: int)
    requires p > 0 && q > 0
    ensures x / p / q == x / (p * q)
  {
    DivMod(x, p);
    DivMod(x / p, q);
    var r := x % p + (x / p % q) * p;
    assert 0 <= r < p * q by {
      MulLe(p, x / p % q, q - 1);
    }
    assert x == (x / p / q) * (p * q) + r;
    DivModUnique(x, p * q, x / p / q, r);
  }

  /** The handshake is 20 bytes: the magic preamble, then the proposals 2, 1, 0
      and 0 as big-endian 32-bit words. */
  lemma HandshakeLayout()
    ensures HandshakeMessage() == MAGIC + Uint32Bytes(2) + Uint32Bytes(1) + Uint32Bytes(0) + Uint32Bytes(0)
    ensures |HandshakeMessage()| == 20 && HandshakeMessage()[..4] == MAGIC
    ensures Int32BE(HandshakeMessage(), 4) == 2 && Int32BE(HandshakeMessage(), 8) == 1
    ensures Int32BE(HandshakeMessage(), 12) == 0 && Int32BE(HandshakeMessage(), 16) == 0
  {
    var h := HandshakeMessage();
    ToInt32OfInt32(2);
    ToInt32OfInt32(1);
    ToInt32OfInt32(0);
  }

  /** `flatMap` concatenates: packing two lists is packing each, in order. */
  lemma {:induction false} PackFieldsAppend<T>(protocol: int, a: seq<T>, b: seq<T>, pack: (int, T) -> seq<Byte>)
    ensures PackFields(protocol, a + b, pack) == PackFields(protocol, a, pack) + PackFields(protocol, b, pack)
    decreases |a|
  {
    if |a| == 0 {
      assert a + b == b;
    } else {
      assert (a + b)[1..] == a[1..] + b;
      PackFieldsAppend(protocol, a[1..], b, pack);
    }
  }

  /** The two-byte header: `size >> 8` and `size & 0xFF` read back big-endian as
      the size modulo 2^16, so exactly the size when it fits 16 bits. */
  lemma HeaderValue(size: nat)
    ensures ToUint8(Sar(size, 8)) as int * 256 + ToUint8(LowBits(size, 8)) == size % TWO16
    ensures size < TWO16 ==> ToUint8(Sar(size, 8)) == size / 256 && ToUint8(LowBits(size, 8)) == size % 256
  {
    Pow2Values();
    ShiftCountSmall(8);
    var q, r := size / 256, size % 256;
    DivMod(size, 256);
    assert Sar(size, 8) % 256 == q % 256 by {
      var k := ToInt32Offset(size);
      DivModUnique(ToInt32(size), 256, q - k * TWO24, r);
      DivMod(q, 256);
      DivModUnique(q - k * TWO24, 256, q / 256 - k * TWO16, q % 256);
    }
    assert LowBits(size, 8) == r by {
      var m := size / TWO32;
      DivMod(size, TWO32);
      DivModUnique(ToUint32(size), 256, q - m * TWO24, r);
    }
    DivMod(q, 256);
    assert size == (q / 256) * TWO16 + (q % 256) * 256 + r;
    DivModUnique(size, TWO16, q / 256, (q % 256) * 256 + r);
    if size < TWO16 {
      DivModUnique(q, 256, 0, q);
    }
  }

  /** `createMessage`: the layout of the frame. The header carries
      size = 2 + packed bytes, modulo 2^16; then the marker, the command, the
      packed fields in order and the end marker 0 0; the frame has size + 4 bytes. */
  lemma CreateMessageLayout<T>(protocol: int, cmd: int, data: seq<T>, pack: (int, T) -> seq<Byte>)
    ensures var r, fields := CreateMessage(protocol, cmd, data, pack), PackFields(protocol, data, pack);
      && |r| == (2 + |fields|) + 4
      && r[0] as int * 256 + r[1] == (2 + |fields|) % TWO16
      && r[2] == ToUint8(0xB0 + |data|) && r[3] == ToUint8(cmd)
      && r[4..|r| - 2] == fields && r[|r| - 2..] == [0, 0]
  {
    var r, fields := CreateMessage(protocol, cmd, data, pack), PackFields(protocol, data, pack);
    HeaderValue(2 + |fields|);
    assert r[4..|r| - 2] == fields;
    assert r[|r| - 2..] == [0, 0];
  }

  /** A frame whose chunk fits 16 bits decodes to its size; with at most 15
      fields the marker's high nibble is 0xB and its low nibble the field count. */
  lemma HeaderRoundTrip<T>(protocol: int, cmd: int, data: seq<T>, pack: (int, T) -> seq<Byte>)
    requires 2 + |PackFields(protocol, data, pack)| < TWO16
    ensures var r := CreateMessage(protocol, cmd, data, pack);
      r[0] as int * 256 + r[1] == 2 + |PackFields(protocol, data, pack)|
    ensures var r := CreateMessage(protocol, cmd, data, pack);
      |data| <= 15 ==> r[2] / 16 == 0xB && r[2] % 16 == |data|
  {
    var r, fields := CreateMessage(protocol, cmd, data, pack), PackFields(protocol, data, pack);
    CreateMessageLayout(protocol, cmd, data, pack);
    DivModUnique(2 + |fields|, TWO16, 0, 2 + |fields|);
    if |data| <= 15 {
      DivModUnique(0xB0 + |data|, 256, 0, 0xB0 + |data|);
      DivModUnique(0xB0 + |data|, 16, 0xB, |data|);
    }
  }

  /** `getAuthMessage`: marker 0xB2 (two fields), the INIT command, then the
      packed user agent and the packed auth token. */
  lemma AuthLayout<T>(protocol: int, userAgent: T, auth: T, pack: (int, T) -> seq<Byte>)
    ensures var r := AuthMessage(protocol, userAgent, auth, pack);
      r[2] == 0xB2 && r[3] == INIT && r[4..|r| - 2] == pack(protocol, userAgent) + pack(protocol, auth)
  {
    var data := [userAgent, auth];
    assert PackFields(protocol, data, pack) == pack(protocol, userAgent) + pack(protocol, auth) by {
      assert data[1..] == [auth] && data[1..][1..] == [];
      assert PackFields(protocol, [auth], pack) == pack(protocol, auth) + [];
    }
    CreateMessageLayout(protocol, INIT, data, pack);
    DivModUnique(0xB2, 256, 0, 0xB2);
    DivModUnique(INIT, 256, 0, INIT);
  }
}
