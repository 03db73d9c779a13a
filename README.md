# Bolt client core in Dafny

A model of three pieces of the tapestry Bolt client, with proofs about them.

- **The 64-bit integer codec** (`src/utils/num.utils.ts`). A `CypherNum` is a pair of 32-bit words: `high` is signed and `low` is read as unsigned bits. Together they stand for one two's-complement 64-bit integer, `Signed(v) = high * 2^32 + (low mod 2^32)`. Every operation is proved against that value:
  - `fromNumberToNum` and `fromStringToNum`;
  - `fromNumToString`;
  - `addNums` and `multiplyNum` (16-bit chunks with carries);
  - `compareNums`;
  - `divideNums` (truncation toward zero);
  - `shiftNumLeft` and `shiftNumRight`;
  - `isCacheable`.
- **Frame and handshake bytes** (`src/client/connection/connection.utils.ts`):
  - `joinArrayBuffers`;
  - the 20-byte handshake;
  - the single-chunk frame of `createMessage`;
  - the INIT message of `getAuthMessage`.
- **The connection state machine** (`src/client/connection/connection.class.ts`). It is a class holding `protocol`, `didAuth`, `incomingData` and the ready latch. The latch is a flag plus the queue of requests waiting for it. The socket is replaced by two logs:
  - `sent`, the buffers written to the socket;
  - `emitted`, the message bytes handed to the response unpacker.

  The class models `onOpen`, `onMessage`, `onHandshake`, `onAuth`, `sendMessage`, `onData` and `onChunk`.

  The chunk loop of `onData` is modelled as the code is written, and its quirks are proved as facts:
  - the collected message is local to one call;
  - the loop test reuses the previous chunk's end;
  - a short chunk is clamped and dropped;
  - two bytes left over are not consumed.

How the modules map to the source:

| module | file | models |
|---|---|---|
| `JsInt32` | jsint32.dfy | The JavaScript operators `<<`, `>>>`, `>>`, `\|` and `& (2^k-1)` on integer-valued numbers. Each operand goes through ToInt32/ToUint32. |
| `Int64` | int64.dfy | The `CypherNum` value and most of `num.utils.ts`. |
| `Int64Division` | int64_division.dfy | `divideNums`. |
| `Int64Text` | int64_text.dfy | `fromStringToNum` and `fromNumToString`. A JavaScript string is a sequence of UTF-16 code units, which is what `length`, `substring`, `indexOf` and `parseInt` count, so a character outside the Basic Multilingual Plane takes two places. |
| `Framing` | framing.dfy | `connection.utils.ts`. |
| `Connections` | connection.dfy | The `Connection` class. |

The loops of `fromStringToNum`, `fromNumToString` and `divideNums` are methods with `while` loops. Each is proved against a reference function:
- `Parse`, `GroupsValue` and `DigitsValue` for reading text;
- `Digits` and `Render` (what `Number.prototype.toString(radix)` writes) for rendering;
- `TruncDiv` for division.

Two more pieces are proved against reference functions:
- `onData` is proved against `Deliver` and its loop `Drain`, which state the effect of one delivery on `incomingData` and on the emitted messages.
- Every frame-level fact about `onData` is a lemma about `Deliver`.

`CypherNum`'s own methods (`negate`, `subtract`, `equals`, `isZero`, `isNegative`, `isOdd`, `toInt`, `lessThan`, `fromBits`, the constants) live in `src/monads/cypher-num/cypher-num.monad.ts`, which is not part of this model. They are given their two's-complement meaning, the one of the Long.js code the codec derives from: `toInt().get()` is the low word and `fromBits` stores each word as ToInt32.

Two constants come from `src/client/connection/connection.constants.ts`, which is not part of this model. `BOLT_PROTOCOLS.UNKNOWN` is taken as 0 and `V1_BOLT_MESSAGES.INIT` as 0x01, as in Bolt version 1.

Four behaviours of the code differ from what a version-1 Bolt client with a chunk-reassembling reader would do. The model follows the code in each:
- The handshake proposes versions 2, 1, 0 and 0, not version 1 followed by three zeros.
- `isCacheable` accepts -128 to 127 inclusive, so 127 is cacheable, not only -128 to 126.
- A frame split across two deliveries after both its header bytes have arrived is not reassembled once the rest arrives. The partial body is dropped: `messageData` is a local, and a short chunk is clamped (`ShortChunkDiscarded`). A first delivery of a single byte is kept, and the frame is then read whole (`OneByteWaits`, `SplitAfterFirstHeaderByte`).
- A handshake reply of protocol 0 is not a rejection. It leaves the connection in the handshake state, so the next reply is treated as a handshake again (`ZeroReplyRepeatsHandshake`).

## Model

| member | source | states |
|---|---|---|
| JsInt32.SplitHalves | src/utils/num.utils.ts:140-143 | `x >>> 16` and `x & 0xffff` of a 32-bit word are its high and low 16-bit halves: `hi * 2^16 + lo == x`. |
| JsInt32.OrOfShifted | src/utils/num.utils.ts:167 | `(c << s) \| d`, with d below 2^s, is the word `c * 2^s + d` as a signed 32-bit integer. |
| JsInt32.ShlBits | src/utils/num.utils.ts:372 | `x << s` keeps the low 32-s bits of x, moved up s places: `(x * 2^s) mod 2^32`. |
| Int64.Signed | src/utils/num.utils.ts:25 | The value of a CypherNum is `high * 2^32 + (low mod 2^32)` and lies in [-2^63, 2^63). |
| Int64.FromBits | src/utils/num.utils.ts:167 | `fromBits(low, high)` stands for `high * 2^32 + ToUint32(low)` reduced to 64 bits. |
| Int64.FromInt | src/utils/num.utils.ts:25 | A CypherNum built from an in-range integer has exactly that value. |
| Int64.Negate | src/utils/num.utils.ts:22 | `negate()` gives `-v` modulo 2^64, so MIN_VALUE is its own negation. |
| Int64.NegateExact | src/utils/num.utils.ts:113 | Negation is exact for every value other than MIN_VALUE. |
| Int64.Subtract | src/utils/num.utils.ts:263 | `subtract` gives `a - b` modulo 2^64, as a signed value. |
| Int64.LessThan | src/utils/num.utils.ts:200 | `lessThan` is true exactly when the first value is below the second. |
| Int64.GreaterThanOrEqual | src/utils/num.utils.ts:328 | `greaterThanOrEqual` is true exactly when the first value is at least the second. |
| Int64.SignMeaning | src/utils/num.utils.ts:99-105 | `isZero` holds iff the value is 0, `isNegative` iff it is below 0, and `equals(MIN_VALUE)` iff it is -2^63. |
| Int64.OddMeaning | src/utils/num.utils.ts:180 | `isOdd` holds iff the value is odd. |
| Int64.SignedInjective | src/utils/num.utils.ts:247 | Two CypherNums with the same value are the same pair of words, so `equals` compares values. |
| Int64.ConstantValues | src/utils/num.utils.ts:11-18 | ZERO, ONE, NEG_ONE, MIN_VALUE, MAX_VALUE and TWO_PWR_24 stand for 0, 1, -1, -2^63, 2^63-1 and 2^24. |
| Int64.SignedByte | src/utils/num.utils.ts:5-7 | An integer lies in [-128, 128) exactly when it equals its low eight bits read as a signed byte. |
| Int64.IsCacheable | src/utils/num.utils.ts:5-7 | True exactly for the values a signed byte holds: those equal to their low eight bits read as two's complement, -128 to 127 with 127 included. |
| Int64.FromNumber | src/utils/num.utils.ts:9-26 | NaN and the infinities give ZERO. Values at or below -2^63 give MIN_VALUE. Values whose successor reaches 2^63 give MAX_VALUE. Every other integer, negative ones included, is kept exactly. |
| Int64.SplitChunks | src/utils/num.utils.ts:140-148 | The four 16-bit chunks of a value are each below 2^16, and their weighted sum is the value modulo 2^64. |
| Int64.Carry16 | src/utils/num.utils.ts:155-157 | `c >>> 16` and `c & 0xffff` split a partial sum into a carry below 2^16 and a kept chunk: `c == carry * 2^16 + kept`. |
| Int64.Mask16 | src/utils/num.utils.ts:164-165 | `c48 &= 0xffff` keeps the residue of the top chunk modulo 2^16. |
| Int64.JoinChunks | src/utils/num.utils.ts:167 | `fromBits((c16 << 16) \| c00, (c48 << 16) \| c32)` stands for the chunks' weighted sum modulo 2^64. |
| Int64.Add | src/utils/num.utils.ts:138-168 | `addNums` gives `a + b` modulo 2^64, as a signed value. |
| Int64.AddCommutes | src/utils/num.utils.ts:138-168 | `addNums(a, b)` and `addNums(b, a)` are the same CypherNum. |
| Int64.Multiply | src/utils/num.utils.ts:170-244 | `multiplyNum` gives `a * b` modulo 2^64, as a signed value, through each of its branches. |
| Int64.ZeroProduct | src/utils/num.utils.ts:171-177 | The early ZERO for a zero operand is the product modulo 2^64. |
| Int64.MinValueProduct | src/utils/num.utils.ts:179-185 | MIN_VALUE times an odd value is MIN_VALUE and times an even value is ZERO, in either operand order, as the wrapped product says. |
| Int64.SmallProduct | src/utils/num.utils.ts:199-202 | For factors in [0, 2^24) the product is exact, so `fromNumber` of it is the wrapped product. |
| Int64.MultiplyChunks | src/utils/num.utils.ts:204-243 | The ten 16-bit partial products below bit 64, added into chunks with carries and the overflow dropped, give `a * b` modulo 2^64 for non-negative operands. |
| Int64.Compare | src/utils/num.utils.ts:246-264 | `compareNums` returns 0, -1 or 1 exactly when the first value is equal to, below or above the second. |
| Int64.CountMeaning | src/utils/num.utils.ts:363 | For a count CypherNum between 0 and 63, `toInt().get()` is the count. |
| Int64.ShiftLeftByValue | src/utils/num.utils.ts:366-377 | For a count n in [0, 64), the branches of `shiftNumLeft` give `v * 2^n` modulo 2^64. |
| Int64.ShiftRightByValue | src/utils/num.utils.ts:384-398 | For a count n in [0, 64), the branches of `shiftNumRight` give `floor(v / 2^n)`. From n = 32 on, the high word is 0 or -1 by sign. |
| Int64.ShiftLeftValue | src/utils/num.utils.ts:362-378 | A count whose low six bits are 0 returns the input. For counts 0 to 63, `shiftNumLeft` as written equals the masked shift and gives `v * 2^n` modulo 2^64. |
| Int64.ShiftRightValue | src/utils/num.utils.ts:380-399 | A count whose low six bits are 0 returns the input. For counts 0 to 63, `shiftNumRight` as written equals the masked shift and is `floor(v / 2^n)`. For counts 32 to 63, the high word is filled with the sign. |
| Int64.ShiftLeftMasked | src/utils/num.utils.ts:362-378 | The shift as the `& 63` test intends: `v * 2^(n mod 64)` modulo 2^64 for every count. |
| Int64.ShiftRightMasked | src/utils/num.utils.ts:380-399 | The shift as the `& 63` test intends: `floor(v / 2^(n mod 64))` for every count. |
| Int64.ShiftLeftUnmaskedCount | src/utils/num.utils.ts:370-377 | Shifting ONE left by a count of 65 gives 2^33 as written, where the masked shift gives 2. |
| Int64.ShiftRightUnmaskedCount | src/utils/num.utils.ts:388-398 | Shifting MIN_VALUE right by a count of 65 gives -2^30 as written, where the masked shift gives -2^62. |
| Int64.ShiftLeftNegativeCount | src/utils/num.utils.ts:363-373 | A count of -1 has low six bits 63, yet shifting ONE left by it gives 2^31 as written (the `< 32` branch, where `<<` uses the low five bits, 31), where the masked shift gives -2^63. |
| Int64.ShiftLeftBy | src/utils/num.utils.ts:364-377 | The three branches of `shiftNumLeft` on the integer count; a definition. Its meaning for counts 0 to 63 is `ShiftLeftByValue`, its behaviour on other counts `ShiftLeftUnmaskedCount` and `ShiftLeftNegativeCount`. |
| Int64.ShiftLeft | src/utils/num.utils.ts:362-378 | `shiftNumLeft` as written, the count taken as `toInt().get()`; a definition, proved in `ShiftLeftValue`. |
| Int64.ShiftRightBy | src/utils/num.utils.ts:382-398 | The three branches of `shiftNumRight` on the integer count; a definition, proved in `ShiftRightByValue` and `ShiftRightUnmaskedCount`. |
| Int64.ShiftRight | src/utils/num.utils.ts:380-399 | `shiftNumRight` as written; a definition, proved in `ShiftRightValue`. |
| Int64.IsZero | src/utils/num.utils.ts:99 | `isZero()`: both words zero; a definition, whose meaning (value 0) is `SignMeaning`. |
| Int64.IsNegative | src/utils/num.utils.ts:104 | `isNegative()`: the high word below zero; a definition, whose meaning (value below 0) is `SignMeaning`. |
| Int64.IsOdd | src/utils/num.utils.ts:180 | `isOdd()`: the low bit of the low word; a definition, whose meaning is `OddMeaning`. |
| Int64.ToInt | src/utils/num.utils.ts:363 | `toInt().get()`: the low word as a signed 32-bit integer; a definition, whose meaning for counts is `CountMeaning`. |
| Int64Division.TruncDiv | src/utils/num.utils.ts:266-360 | The quotient truncated toward zero, the reference `divideNums` is proved against; its properties are `TruncDivSpec` and `TruncDivNegate`. |
| Int64Division.TruncDivSpec | src/utils/num.utils.ts:266-360 | The reference quotient leaves a remainder smaller than the divisor in magnitude, with the sign of the dividend. |
| Int64Division.Divide | src/utils/num.utils.ts:266-360 | `divideNums` fails with the division-by-zero error exactly when the divisor is 0. Otherwise it returns the quotient truncated toward zero, modulo 2^64 (only MIN_VALUE / -1 wraps). |
| Int64Division.ZeroDividend | src/utils/num.utils.ts:271-273 | A zero dividend gives ZERO. |
| Int64Division.MinByUnit | src/utils/num.utils.ts:280-282 | MIN_VALUE divided by 1 or by -1 is MIN_VALUE. |
| Int64Division.MinByItself | src/utils/num.utils.ts:284-286 | MIN_VALUE divided by itself is ONE. |
| Int64Division.DivideMinValue | src/utils/num.utils.ts:279-300 | The MIN_VALUE branch (halve, divide, double, divide the remainder) gives the truncated quotient of -2^63. |
| Int64Division.MinLargeDivisor | src/utils/num.utils.ts:293-295 | When the half quotient is zero (\|divisor\| > 2^62), the answer is ONE for a negative divisor and NEG_ONE for a positive one. |
| Int64Division.MinValueRest | src/utils/num.utils.ts:297-299 | Adding the quotient of the remainder `MIN_VALUE - divisor * approx` to approx gives the truncated quotient. |
| Int64Division.DivisorMinValue | src/utils/num.utils.ts:302-304 | Any dividend other than MIN_VALUE divided by MIN_VALUE is ZERO. |
| Int64Division.TruncDivNegate | src/utils/num.utils.ts:306-318 | Negating the dividend, the divisor or both negates the quotient accordingly, as the sign branches assume. |
| Int64Division.DividePositive | src/utils/num.utils.ts:320-359 | The loop keeps `res * divisor + rem == val` with `0 <= rem`, stops when `rem < divisor`, and so returns the truncated quotient. |
| Int64Division.LoopStep | src/utils/num.utils.ts:355-356 | Moving a positive multiple `approx` with `approx * divisor <= rem` into the result keeps the loop equation, keeps rem non-negative and does not overflow. |
| Int64Text.Utf16 | src/utils/num.utils.ts:28 | The JavaScript string of a text: one code unit per character of the Basic Multilingual Plane and a surrogate pair for any other; a definition, whose properties are `BmpUnits` and `Utf16Append`. |
| Int64Text.BmpUnits | src/utils/num.utils.ts:28 | A text of Basic Multilingual Plane characters is one code unit per character, each its own code. |
| Int64Text.Utf16Append | src/utils/num.utils.ts:28 | The code units of a concatenation are the code units of its parts, concatenated. |
| Int64Text.SpecialTexts | src/utils/num.utils.ts:33-40 | The four literals compared against ("NaN", "Infinity", "+Infinity", "-Infinity"), and the "-" and "0" written, are the code-unit constants the model uses. |
| Int64Text.IndexOf | src/utils/num.utils.ts:46 | `indexOf('-')` is -1 exactly when there is no '-', and otherwise is the position of the first one. |
| Int64Text.ParseInt | src/utils/num.utils.ts:61 | `parseInt(group, radix)`: the value of the longest digit prefix, NaN when there is none; a definition, proved in `DigitPrefixSpec` and `ParseIntSpec`. |
| Int64Text.DigitPrefixSpec | src/utils/num.utils.ts:61 | `parseInt` reads the longest prefix of digits of the radix: it is all digits, and it stops at a code unit that is not one. |
| Int64Text.ParseIntSpec | src/utils/num.utils.ts:61 | `parseInt` of a group is NaN exactly when its first code unit is not a digit, and is the value of the whole group when every code unit is one. |
| Int64Text.GroupRange | src/utils/num.utils.ts:60-61 | A group of at most eight code units contributes a value in [0, radix^size). |
| Int64Text.Parse | src/utils/num.utils.ts:28-74 | The reference reading of `fromStringToNum`: its checks in order, then the groups' value before reduction to 64 bits; a definition, proved in `ParseErrors`, `ParseRender` and `SurrogatePairGroups`. |
| Int64Text.ParseErrors | src/utils/num.utils.ts:29-51 | For every string and radix: the empty string fails with the empty-string error. The four special literals read as 0 whatever the radix, because that check comes first. Any other string fails with the radix error when the radix is outside [2, 36]. Otherwise a first '-' after the start fails with the interior-'-' error, and a '-' at the start negates the reading of the rest. |
| Int64Text.SurrogatePairGroups | src/utils/num.utils.ts:54-61 | Groups are eight UTF-16 code units, not eight characters: the eight characters "1234567😀" are cut into "1234567" plus a high surrogate, then the low surrogate, and read as 12345670. |
| Int64Text.FromString | src/utils/num.utils.ts:28-74 | `fromStringToNum` fails with the errors of `Parse`, in the same order (empty string, radix out of range, interior '-'). Otherwise its value is what `Parse` reads, modulo 2^64. A leading '-' negates the rest. |
| Int64Text.ParseGroups | src/utils/num.utils.ts:54-71 | The loop over groups of eight code units produces the groups' value modulo 2^64. |
| Int64Text.RadixToPower | src/utils/num.utils.ts:56 | `fromNumber(radix^k)` is exactly radix^k for k = 6 and 8; radix^6 fits 32 bits. |
| Int64Text.ShiftGroup | src/utils/num.utils.ts:60-70 | One round: the result is multiplied by radix^size and the group's `parseInt` value is added, modulo 2^64. |
| Int64Text.GroupsOfDigits | src/utils/num.utils.ts:59-71 | Cutting a digit string into groups of eight does not change its value. |
| Int64Text.DoubleMinus | src/utils/num.utils.ts:50-51 | Each leading '-' negates once more, so "--5" reads as 5. |
| Int64Text.DigitPrefixQuirk | src/utils/num.utils.ts:61 | "12z" reads as 12, and a group that starts with a non-digit adds 0. |
| Int64Text.Digits | src/utils/num.utils.ts:125 | What `toString(radix)` writes for a non-negative integer; a definition, proved in `DigitsInverse` and `NoLeadingZero`. |
| Int64Text.Render | src/utils/num.utils.ts:94-135 | What `toString(radix)` writes for any integer: '-' then the digits of the magnitude for a negative one; a definition, proved in `ParseRender`. |
| Int64Text.ToString | src/utils/num.utils.ts:94-136 | `fromNumToString` fails for a radix outside [2, 36]. Otherwise it returns exactly what `toString(radix)` writes for the 64-bit value: "0" for zero, '-' and the digits for a negative value, and MIN_VALUE included. |
| Int64Text.MinValueDigit | src/utils/num.utils.ts:105-110 | For MIN_VALUE, `div` is -(2^63 div radix) and `rem` is 2^63 mod radix, a single digit. |
| Int64Text.MinValueRender | src/utils/num.utils.ts:111 | The digits of `div` followed by the digit of `rem` are the rendering of -2^63. |
| Int64Text.ToStringPositive | src/utils/num.utils.ts:117-135 | The six-digit block loop writes exactly the digits of a positive value, with no leading zero. |
| Int64Text.LowBlock | src/utils/num.utils.ts:123-124 | One round: the value is `q * radix^6 + intval` with `0 <= intval < radix^6` and `q` smaller than the value. |
| Int64Text.PadBlock | src/utils/num.utils.ts:130-132 | The padding loop puts `6 - length` zeros in front of a block. |
| Int64Text.PaddedDigits | src/utils/num.utils.ts:130-133 | A padded block is the k low digits of its value. |
| Int64Text.BlockSplit | src/utils/num.utils.ts:125-133 | The digits of `q * radix^k + t` are the digits of q followed by the k low digits of t. |
| Int64Text.NoLeadingZero | src/utils/num.utils.ts:125-128 | `toString` writes a leading '0' only for zero. |
| Int64Text.DigitsInverse | src/utils/num.utils.ts:125 | The digits `toString` writes are digits of the radix and read back as the number. |
| Int64Text.ParseRender | src/utils/num.utils.ts:94-135 | Reading back the rendering of any integer gives that integer. |
| Int64Text.RoundTrip | src/utils/num.utils.ts:94-135 | `fromStringToNum(fromNumToString(v, radix), radix)` is v for every CypherNum and every radix in [2, 36]. |
| Framing.JoinBuffers | src/client/connection/connection.utils.ts:8-17 | The joined buffer has length `len1 + len2`, with the first buffer as its prefix and the second as its suffix. |
| Framing.Int32BE | src/client/connection/connection.class.ts:110 | `getInt32(0)`: four bytes big-endian as a signed 32-bit integer; a definition, proved in `Uint32RoundTrip`. |
| Framing.HandshakeMessage | src/client/connection/connection.utils.ts:19-27 | The 20 handshake bytes; a definition, whose layout is `HandshakeLayout`. |
| Framing.PackFields | src/client/connection/connection.utils.ts:34 | Each field packed, in order; a definition, proved in `PackFieldsAppend`. |
| Framing.CreateMessage | src/client/connection/connection.utils.ts:29-48 | The one-chunk frame of a request; a definition, whose layout is `CreateMessageLayout` and `HeaderRoundTrip`. |
| Framing.AuthMessage | src/client/connection/connection.utils.ts:50-57 | The INIT request; a definition, whose layout is `AuthLayout`. |
| Framing.HandshakeLayout | src/client/connection/connection.utils.ts:19-27 | The handshake is 20 bytes: the magic 60 60 B0 17, then the big-endian proposals 2, 1, 0 and 0. |
| Framing.Uint32RoundTrip | src/client/connection/connection.utils.ts:22-25 | The four big-endian bytes of a 32-bit word read back by `getInt32` as that word. |
| Framing.PackFieldsAppend | src/client/connection/connection.utils.ts:34 | The packed fields are the packer's outputs concatenated in order, so packing a + b is packing a, then b. |
| Framing.HeaderValue | src/client/connection/connection.utils.ts:41-42 | `size >> 8` and `size & 0xFF`, stored as bytes, read back big-endian as size modulo 2^16. |
| Framing.CreateMessageLayout | src/client/connection/connection.utils.ts:29-48 | The frame is [size modulo 2^16 big-endian, 0xB0 + field count, cmd, packed fields, 0, 0], with size = 2 + packed bytes and length size + 4. |
| Framing.HeaderRoundTrip | src/client/connection/connection.utils.ts:31-42 | When the size fits 16 bits, the header decodes to it. With at most 15 fields, the marker's high nibble is 0xB and its low nibble is the field count. |
| Framing.AuthLayout | src/client/connection/connection.utils.ts:50-57 | The auth message has marker 0xB2, the INIT command, and the packed user agent followed by the packed auth token. |
| Connections.ChunkSizeValue | src/client/connection/connection.class.ts:76 | `header[0] << 8 \| header[1]` is `header[0] * 256 + header[1]`. |
| Connections.ChunkSize | src/client/connection/connection.class.ts:75-76 | The chunk size is the big-endian value of the first two bytes, below 2^16. |
| Connections.Slice | src/client/connection/connection.class.ts:81 | `incomingData.slice(2, endOfChunk)`, both bounds clamped to the buffer; a definition, used by `Drain`, whose steps `NonzeroHeader` states. |
| Connections.SliceFrom | src/client/connection/connection.class.ts:82-90 | `incomingData.slice(endOfChunk)`, empty past the end; a definition, used by `Drain`, whose steps `NonzeroHeader` and `ZeroHeader` state. |
| Connections.Deliver | src/client/connection/connection.class.ts:69-97 | One delivery: the bytes joined to the buffer, the chunk loop `Drain`, then the two-byte fallback; a definition, proved against in `OnData` and about in `DeliverKeepsSuffix`, `SingleFrame`, `FrameRoundTrip`, `StaleTerminator`, `ConsecutiveFrames`, `ShortChunkDiscarded`, `EndOfChunkReuse` and `FallbackOnHeader`. |
| Connections.Drain | src/client/connection/connection.class.ts:74-91 | The loop never grows the buffer. It stops with fewer bytes than its last `endOfChunk`, which is always at least 2. |
| Connections.Frames | src/client/connection/connection.class.ts:37-45 | Queued requests become one `createMessage` frame each, in order. |
| Connections.FramesAppend | src/client/connection/connection.class.ts:37-45 | The frames of two queues in succession are the frames of the first, then those of the second. |
| Connections.Connection.DidHandshake | src/client/connection/connection.class.ts:47-49 | `didHandshake`: the protocol is no longer UNKNOWN; a definition, used in `OnMessage`'s contract. |
| Connections.Connection.IsReady | src/client/connection/connection.class.ts:51-53 | `isReady`: `didHandshake && didAuth`; a definition, used in `OnMessage`'s contract. |
| Connections.Connection.constructor | src/client/connection/connection.class.ts:15-18 | The protocol starts UNKNOWN, `didAuth` false, `incomingData` empty, the latch unfired, and nothing queued, sent or emitted. |
| Connections.Connection.OnOpen | src/client/connection/connection.class.ts:55-58 | Opening sends the handshake and changes nothing else. |
| Connections.Connection.SendMessage | src/client/connection/connection.class.ts:37-45 | Once the latch has fired, the `createMessage` frame for the current protocol is sent. Before that, the request is queued and nothing is sent. |
| Connections.Connection.OnMessage | src/client/connection/connection.class.ts:124-142 | When ready, the message goes to `onData`. Otherwise, when handshaken, it goes to `onAuth`. Otherwise it goes to `onHandshake`, which alone can fail, and fails exactly on fewer than 4 bytes. |
| Connections.Connection.OnHandshake | src/client/connection/connection.class.ts:108-113 | With 4 bytes or more, the protocol becomes their big-endian signed int32 and exactly one auth frame with that protocol is sent. With fewer, the call fails with RangeError and nothing changes. |
| Connections.Connection.OnAuth | src/client/connection/connection.class.ts:115-122 | `didAuth` is set, the latch fires, and the queued requests are sent in order. The protocol does not change. |
| Connections.Connection.OnChunk | src/client/connection/connection.class.ts:100-106 | The message is handed on, after those before it, and nothing else changes. |
| Connections.Connection.ReadChunk | src/client/connection/connection.class.ts:75-90 | One round of the loop drops at least 2 bytes and leaves the loop's outcome unchanged. |
| Connections.Connection.OnData | src/client/connection/connection.class.ts:67-98 | `incomingData` becomes what `Deliver` leaves, and the messages `Deliver` hands on are emitted in order. Protocol, `didAuth`, the latch and the sends do not change. |
| Connections.DrainAccumulates | src/client/connection/connection.class.ts:74-91 | The messages handed on earlier only prefix those the loop hands on. |
| Connections.DrainKeepsSuffix | src/client/connection/connection.class.ts:74-91 | What the loop leaves in `incomingData` is a suffix of what it started with. |
| Connections.DeliverKeepsSuffix | src/client/connection/connection.class.ts:69-97 | After a delivery, `incomingData` is a suffix of the old buffer joined with the delivered bytes. |
| Connections.NonzeroHeader | src/client/connection/connection.class.ts:80-85 | A nonzero header appends the next `size` bytes, or as many as there are, to the message. It drops header and body, at least 2 bytes, and sets `endOfChunk` to 2 + size. |
| Connections.ZeroHeader | src/client/connection/connection.class.ts:87-90 | A zero header hands on the message, resets it and drops exactly 2 bytes. |
| Connections.SingleFrame | src/client/connection/connection.class.ts:69-97 | From an empty buffer, one delivery of `[hi, lo] + body + [0, 0]` with a matching header emits exactly `body` and leaves `[0, 0]`. |
| Connections.FrameRoundTrip | src/client/connection/connection.class.ts:67-98 | A `createMessage` frame whose chunk fits 16 bits, delivered to an empty buffer, emits its marker, command and packed fields. |
| Connections.StaleTerminator | src/client/connection/connection.class.ts:93-97 | The two bytes the fallback leaves make the next delivery first emit an empty message and then do what it would from an empty buffer. |
| Connections.ConsecutiveFrames | src/client/connection/connection.class.ts:67-98 | Two frames delivered in turn emit `[body1]`, then `[[], body2]`. |
| Connections.ShortChunkDiscarded | src/client/connection/connection.class.ts:80-82 | A header announcing more bytes than delivered clamps the body, empties the buffer and emits nothing: the partial body is lost. |
| Connections.OneByteWaits | src/client/connection/connection.class.ts:69-74 | A one-byte first delivery does not enter the loop and stays in `incomingData`; the next delivery gives what the two deliveries joined would give from an empty buffer. |
| Connections.SplitAfterFirstHeaderByte | src/client/connection/connection.class.ts:69-97 | A frame of five body bytes delivered as its first header byte, then the rest, hands on the whole body and leaves `[0, 0]`. |
| Connections.EndOfChunkReuse | src/client/connection/connection.class.ts:74-78 | After a 6-byte chunk, the loop stops while seven bytes (a whole terminator and a second frame) are still buffered, because the test compares them with the old `endOfChunk` of 8. |
| Connections.FallbackOnHeader | src/client/connection/connection.class.ts:93-97 | When exactly two bytes remain, the collected message is emitted even though those bytes are a chunk header and not a terminator, and they stay in `incomingData`. |
| Connections.Session | src/client/connection/connection.class.ts:124-142 | Open, handshake reply, a queued send, auth reply and one frame: the protocol is 1. The sends are the handshake, the auth frame and the queued frame, and the one frame's body is emitted. |
| Connections.ZeroReplyRepeatsHandshake | src/client/connection/connection.class.ts:108-113 | Two handshake replies announcing protocol 0 each send an auth frame, and the connection never authenticates. |

## Left out

- `fromValueToNum` (num.utils.ts:76-92) is left out. It dispatches at run time on `instanceof` and `typeof` over an untyped value.
- JavaScript numbers: only integer values, NaN and the infinities are modelled. Fractional inputs to `fromNumberToNum` and `toNumber` are left out.
- Int64.FromNumber does not model the float rounding of `value + 1 >= 2^63`. The integer comparison is used. For integers above 2^53, where doubles are not exact, the two can differ.
- Int64.Multiply takes the fast path for factors below 2^24 (num.utils.ts:199-202) as the exact integer product. A double holds that product exactly.
- Int64Division.DividePositive does not model the floating-point estimate and its downward adjustment (num.utils.ts:331-347). Each round chooses any multiple `approx >= 1` with `approx * divisor <= rem`, which is what the adjustment loop guarantees. With `approx >= 1`, the `approxRes.isZero` guard (num.utils.ts:351-353) cannot fire, so it is not modelled.
- Int64Text.Parse reads only the digit code units of radixes 2 to 36. `parseInt`'s skipping of leading white space and its handling of a '+' sign or a "0x" prefix inside a group are not modelled.
- The WebSocket, the URL built from the connection parameters and the event wiring (connection.class.ts:20-35) are replaced by the `sent` log. The order in which socket events arrive is the caller's.
- The rxjs plumbing is left out: the `Subject`, the `AsyncSubject` latch, the promise returned by `sendMessage`, `onClose`, `onError` and `console.log`. The latch is the `ready` flag plus the `pending` queue, flushed in order when it fires.
- The packstream packer and unpacker are left out. `packRequestData` is a parameter from a protocol and a value to bytes, and its outputs are taken to be concatenated by `flatMap`. `onChunk` records the raw message bytes instead of unpacking them, so what the unpacker makes of an empty message is not modelled.
- The RangeError that `getInt32` throws on a handshake reply under four bytes is an outcome with no state change. A ready or handshaken connection never throws there.
- The `DataView` wrapped around each socket message is taken to cover the whole message buffer, as it does when built from `event.data`.

## Findings

| source | as written | input that shows it | evidently intended | confidence | as-written member | corrected member |
|---|---|---|---|---|---|---|
| src/utils/num.utils.ts:362-378 | `shiftNumLeft` tests `count & 63` against 0 but then branches and shifts on the unmasked count. JavaScript's `<<` uses only the low five bits of `count - 32`, and a negative count takes the `< 32` branch. | `shiftNumLeft(ONE, 65)` gives 2^33, where the masked count 1 gives 2; `shiftNumLeft(ONE, -1)` gives 2^31, where the masked count 63 gives -2^63. | The count reduced to its low six bits before branching, so the result is `v * 2^(n mod 64)` modulo 2^64. | not executed | Int64.ShiftLeftUnmaskedCount, Int64.ShiftLeftNegativeCount | Int64.ShiftLeftMasked |
| src/utils/num.utils.ts:380-399 | `shiftNumRight` has the same unmasked use of the count, negative counts included. | `shiftNumRight(MIN_VALUE, 65)` gives -2^30, where the masked count 1 gives -2^62. | The count reduced to its low six bits first, so the result is `floor(v / 2^(n mod 64))`. | not executed | Int64.ShiftRightUnmaskedCount | Int64.ShiftRightMasked |

The rest of the model uses the corrected shifts. This matters only in the MIN_VALUE branch of `divideNums`, which shifts by 1. For counts between 0 and 63, `ShiftLeftValue` and `ShiftRightValue` prove that the source's shifts and the corrected ones agree.
