/** The 64-bit integer codec (src/utils/num.utils.ts): a CypherNum is a pair of
    32-bit halves, `high` signed and `low` read as unsigned bits, that together
    stand for one two's-complement 64-bit integer. Every operation here is
    proved against that value: the result is the exact integer result reduced
    to 64 bits. */
module Int64 {
  import opened JsInt32

  const TWO48: int := 0x1_0000_0000_0000
  const TWO62: int := 0x4000_0000_0000_0000
  const TWO63: int := 0x8000_0000_0000_0000
  const TWO64: int := 0x1_0000_0000_0000_0000

  /** A CypherNum, as `fromBits(low, high)` builds it. */
  datatype Num = Num(low: Int32, high: Int32)

  /** A JavaScript number given to `fromNumberToNum`; only integral values are modelled. */
  datatype JsNumber = IntValue(value: int) | NaN | PosInfinity | NegInfinity

  /** The errors the codec throws. */
  datatype NumError =
    | DivisionByZero            // SyntaxError('division by zero')
    | EmptyString               // InstantiationError('number format error: empty string')
    | InvalidRadix(radix: int)  // InstantiationError('radix out of range: ' + radix), from fromStringToNum
    | RadixRange(radix: int)    // RangeError('radix out of range: ' + radix), from fromNumToString
    | InteriorMinus             // InstantiationError('number format error: interior "-" character')

  datatype Result<T> = Success(value: T) | Failure(error: NumError)

  ghost predicate InRange(x: int) {
    -TWO63 <= x < TWO63
  }

  /** The integer a CypherNum stands for. */
  function Signed(v: Num): (x: int)
    ensures InRange(x)
  {
    v.high * TWO32 + ToUint32(v.low)
  }

  /** Reduction of an integer to 64-bit two's complement. */
  function Wrap(x: int): int {
    (x + TWO63) % TWO64 - TWO63
  }

  const ZERO: Num := Num(0, 0)
  const ONE: Num := Num(1, 0)
  const NEG_ONE: Num := Num(-1, -1)
  const MIN_VALUE: Num := Num(0, -0x8000_0000)
  const MAX_VALUE: Num := Num(-1, 0x7FFF_FFFF)
  const TWO_PWR_24: Num := Num(0x100_0000, 0)

  // ---------------------------------------------------------------------
  // The CypherNum accessors the codec relies on. They belong to the
  // CypherNum class itself; here each is given its two's-complement meaning.

  /** `CypherNum.fromBits(low, high)`: each half is stored as a signed 32-bit integer. */
  function FromBits(low: int, high: int): (r: Num)
    ensures Signed(r) == Wrap(high * TWO32 + ToUint32(low))
  {
    FromBitsValue(low, high);
    Num(ToInt32(low), ToInt32(high))
  }

  /** The CypherNum that stands for an integer already in 64-bit range. */
  function FromInt(x: int): (r: Num)
    requires InRange(x)
    ensures Signed(r) == x
  {
    DivMod(x, TWO32);
    ToInt32Congruent(x);
    Num(ToInt32(x), x / TWO32)
  }

  predicate IsZero(v: Num) {
    v.high == 0 && v.low == 0
  }

  predicate IsNegative(v: Num) {
    v.high < 0
  }

  /** `low & 1`: the parity bit. */
  predicate IsOdd(v: Num) {
    LowBits(v.low, 1) == 1
  }

  /** `negate()`: MIN_VALUE has no positive counterpart and stays itself. */
  function Negate(v: Num): (r: Num)
    ensures Signed(r) == Wrap(-Signed(v))
  {
    if v == MIN_VALUE then
      assert Wrap(-Signed(v)) == -TWO63 by { WrapCongruent(TWO63, -TWO63, 1); }
      MIN_VALUE
    else
      WrapInRange(-Signed(v));
      FromInt(-Signed(v))
  }

  /** `subtract(other)`: `add(other.negate())`. */
  method Subtract(right: Num, left: Num) returns (r: Num)
    ensures Signed(r) == Wrap(Signed(right) - Signed(left))
  {
    r := Add(right, Negate(left));
    SubtractValue(Signed(right), Signed(left), Signed(Negate(left)));
  }

  /** `toInt().get()`: the low word as a signed 32-bit integer. */
  function ToInt(v: Num): Int32 {
    v.low
  }

  /** `lessThan(other)`: `compare(other) < 0`. */
  method LessThan(right: Num, left: Num) returns (b: bool)
    ensures b <==> Signed(right) < Signed(left)
  {
    var c := Compare(right, left);
    b := c < 0;
  }

  /** `greaterThanOrEqual(other)`: `compare(other) >= 0`. */
  method GreaterThanOrEqual(right: Num, left: Num) returns (b: bool)
    ensures b <==> Signed(right) >= Signed(left)
  {
    var c := Compare(right, left);
    b := c >= 0;
  }

  // ---------------------------------------------------------------------
  // num.utils.ts

  /** `isCacheable`: the small values eligible for reuse, which are exactly the
      values a signed byte holds: the low eight bits, read as two's complement,
      give the value back. */
  function IsCacheable(value: int): (r: bool)
    ensures r <==> value == LowBits(value, 8) - (if LowBits(value, 8) >= 0x80 then 0x100 else 0)
  {
    SignedByte(value);
    value >= -128 && value < 128
  }

  /** The range [-128, 128) is the set of integers equal to their low byte read as a signed byte. */
  lemma SignedByte(x: int)
    ensures -128 <= x < 128 <==> x == LowBits(x, 8) - (if LowBits(x, 8) >= 0x80 then 0x100 else 0)
  {
    Pow2Values();
    if 0 <= x < 128 {
      ToUint32OfUint32(x);
      DivModUnique(x, 256, 0, x);
    } else if -128 <= x < 0 {
      DivModUnique(x, TWO32, -1, x + TWO32);
      DivModUnique(x + TWO32, 256, TWO32 / 256 - 1, x + 256);
    }
  }

  /** `fromNumberToNum`: saturates outside the 64-bit range, maps NaN and the infinities to ZERO. */
  function FromNumber(x: JsNumber): (r: Num)
    ensures x.IntValue? && x.value <= -TWO63 ==> r == MIN_VALUE
    ensures x.IntValue? && x.value >= TWO63 - 1 ==> r == MAX_VALUE
    ensures x.IntValue? && InRange(x.value) ==> Signed(r) == x.value
    ensures !x.IntValue? ==> r == ZERO
    decreases if x.IntValue? && x.value < 0 then 1 else 0
  {
    match x
    case IntValue(value) =>
      if value <= -TWO63 then MIN_VALUE
      else if value + 1 >= TWO63 then MAX_VALUE
      else if value < 0 then
        var m := FromNumber(IntValue(-value));
        WrapInRange(value);
        Negate(m)
      else
        DivMod(value, TWO32);
        ToInt32OfInt32(value / TWO32);
        ToInt32Congruent(value % TWO32);
        assert ToUint32(value % TWO32) == value % TWO32 by { ToUint32OfUint32(value % TWO32); }
        Num(ToInt32(value % TWO32), ToInt32(value / TWO32))
    case _ => ZERO
  }

  /** The four 16-bit chunks of a CypherNum, most significant first. */
  datatype Chunks = Chunks(c48: int, c32: int, c16: int, c00: int)

  function Weight(c: Chunks): int {
    c.c48 * TWO48 + c.c32 * TWO32 + c.c16 * TWO16 + c.c00
  }

  ghost predicate Chunks16(c: Chunks) {
    0 <= c.c48 < TWO16 && 0 <= c.c32 < TWO16 && 0 <= c.c16 < TWO16 && 0 <= c.c00 < TWO16
  }

  /** The four 16-bit chunks of a CypherNum, as `addNums` and `multiplyNum` cut
      them: `high >>> 16`, `high & 0xffff`, `low >>> 16`, `low & 0xffff`. */
  method SplitChunks(v: Num) returns (c48: int, c32: int, c16: int, c00: int)
    ensures Chunks16(Chunks(c48, c32, c16, c00))
    ensures Wrap(Weight(Chunks(c48, c32, c16, c00))) == Signed(v)
    ensures v.high >= 0 ==> Weight(Chunks(c48, c32, c16, c00)) == Signed(v)
  {
    SplitValue(v);
    c48 := UShr(v.high, 16);
    c32 := LowBits(v.high, 16);
    c16 := UShr(v.low, 16);
    c00 := LowBits(v.low, 16);
  }

  /** One carry step, `c' += c >>> 16; c &= 0xffff`, on a running chunk sum below 2^32. */
  method Carry16(c: int) returns (carry: int, kept: int)
    requires 0 <= c < TWO32
    ensures c == carry * TWO16 + kept && 0 <= carry < TWO16 && 0 <= kept < TWO16
  {
    Pow2Values();
    SplitHalves(c);
    carry := UShr(c, 16);
    kept := LowBits(c, 16);
  }

  /** The final `c48 &= 0xffff`: the top chunk keeps its low 16 bits, dropping k * 2^16. */
  method Mask16(c: int) returns (kept: int, ghost k: int)
    ensures c == k * TWO16 + kept && 0 <= kept < TWO16
  {
    ghost var lo;
    k, lo := Halves16(c);
    kept := LowBits(c, 16);
  }

  /** `fromBits((c16 << 16) | c00, (c48 << 16) | c32)`. */
  method JoinChunks(c48: int, c32: int, c16: int, c00: int) returns (r: Num)
    requires Chunks16(Chunks(c48, c32, c16, c00))
    ensures Signed(r) == Wrap(Weight(Chunks(c48, c32, c16, c00)))
  {
    JoinValue(Chunks(c48, c32, c16, c00));
    r := FromBits(BitOr(Shl(c16, 16), c00), BitOr(Shl(c48, 16), c32));
  }

  /** `addNums`: both operands are cut into four 16-bit chunks, the chunks are
      added from the bottom up with the carry passed on, and the carry out of
      the top chunk is dropped, so the sum wraps modulo 2^64. */
  method Add(right: Num, left: Num) returns (r: Num)
    ensures Signed(r) == Wrap(Signed(right) + Signed(left))
  {
    var a48, a32, a16, a00 := SplitChunks(right);
    var b48, b32, b16, b00 := SplitChunks(left);
    ghost var total := Weight(Chunks(a48, a32, a16, a00)) + Weight(Chunks(b48, b32, b16, b00));

    var c48, c32, c16, c00 := 0, 0, 0, 0;
    var carry;
    c00 := c00 + a00 + b00;
    carry, c00 := Carry16(c00);
    c16 := c16 + carry;
    c16 := c16 + a16 + b16;
    carry, c16 := Carry16(c16);
    c32 := c32 + carry;
    c32 := c32 + a32 + b32;
    carry, c32 := Carry16(c32);
    c48 := c48 + carry;
    c48 := c48 + a48 + b48;
    ghost var k;
    c48, k := Mask16(c48);
    assert Weight(Chunks(c48, c32, c16, c00)) + k * TWO64 == total;

    r := JoinChunks(c48, c32, c16, c00);
    SumOfWraps(Signed(r), Weight(Chunks(c48, c32, c16, c00)), k,
               Weight(Chunks(a48, a32, a16, a00)), Weight(Chunks(b48, b32, b16, b00)), Signed(right), Signed(left));
  }

  /** `addNums` is commutative: the same CypherNum either way round. */
  method AddCommutes(a: Num, b: Num) returns (ab: Num, ba: Num)
    ensures ab == ba
  {
    ab := Add(a, b);
    ba := Add(b, a);
    SignedInjective(ab, ba);
  }

  /** `multiplyNum`: zero and MIN_VALUE first, negative factors by negation,
      factors below 2^24 by one exact double product, and the rest by 16-bit chunks. */
  method Multiply(right: Num, multiplier: Num) returns (r: Num)
    ensures Signed(r) == Wrap(Signed(right) * Signed(multiplier))
    decreases (if IsNegative(right) then 1 else 0) + (if IsNegative(multiplier) then 1 else 0)
  {
    if IsZero(right) {
      ZeroProduct(right, multiplier);
      return ZERO;
    }
    if IsZero(multiplier) {
      ZeroProduct(right, multiplier);
      return ZERO;
    }
    if right == MIN_VALUE {
      MinValueProduct(multiplier, right);
      return if IsOdd(multiplier) then MIN_VALUE else ZERO;
    }
    if multiplier == MIN_VALUE {
      MinValueProduct(right, multiplier);
      return if IsOdd(right) then MIN_VALUE else ZERO;
    }
    if IsNegative(right) {
      NegatePositive(right);
      if IsNegative(multiplier) {
        NegatePositive(multiplier);
        r := Multiply(Negate(right), Negate(multiplier));
        NegatedFactors(Signed(right), Signed(multiplier), Signed(Negate(right)), Signed(Negate(multiplier)), Signed(r), true, true);
      } else {
        var p := Multiply(Negate(right), multiplier);
        NegatedFactors(Signed(right), Signed(multiplier), Signed(Negate(right)), Signed(multiplier), Signed(p), true, false);
        r := Negate(p);
      }
      return;
    } else if IsNegative(multiplier) {
      NegatePositive(multiplier);
      var p := Multiply(right, Negate(multiplier));
      NegatedFactors(Signed(right), Signed(multiplier), Signed(right), Signed(Negate(multiplier)), Signed(p), false, true);
      return Negate(p);
    }
    var small := LessThan(right, TWO_PWR_24);
    if small {
      small := LessThan(multiplier, TWO_PWR_24);
    }
    if small {
      // both factors are below 2^24, so the product is exact in a double
      SmallProduct(right, multiplier);
      return FromNumber(IntValue(Signed(right) * Signed(multiplier)));
    }
    r := MultiplyChunks(right, multiplier);
  }

  /** The chunk product at the end of `multiplyNum`, for two non-negative factors:
      the ten 16-bit partial products that land below bit 64 are added into
      four chunks with carries; the partial products above bit 64 are skipped. */
  method MultiplyChunks(right: Num, multiplier: Num) returns (r: Num)
    requires !IsNegative(right) && !IsNegative(multiplier)
    ensures Signed(r) == Wrap(Signed(right) * Signed(multiplier))
  {
    var a48, a32, a16, a00 := SplitChunks(right);
    var b48, b32, b16, b00 := SplitChunks(multiplier);
    ghost var a, b := Chunks(a48, a32, a16, a00), Chunks(b48, b32, b16, b00);
    ChunkProducts(a, b);
    ghost var total := a00 * b00 + (a16 * b00 + a00 * b16) * TWO16 + (a32 * b00 + a16 * b16 + a00 * b32) * TWO32
                       + (a48 * b00 + a32 * b16 + a16 * b32 + a00 * b48) * TWO48;

    var c48, c32, c16, c00 := 0, 0, 0, 0;
    var carry;
    c00 := c00 + a00 * b00;
    carry, c00 := Carry16(c00);
    c16 := c16 + carry;
    c16 := c16 + a16 * b00;
    carry, c16 := Carry16(c16);
    c32 := c32 + carry;
    c16 := c16 + a00 * b16;
    carry, c16 := Carry16(c16);
    c32 := c32 + carry;
    c32 := c32 + a32 * b00;
    carry, c32 := Carry16(c32);
    c48 := c48 + carry;
    c32 := c32 + a16 * b16;
    carry, c32 := Carry16(c32);
    c48 := c48 + carry;
    c32 := c32 + a00 * b32;
    carry, c32 := Carry16(c32);
    c48 := c48 + carry;
    c48 := c48 + a48 * b00 + a32 * b16 + a16 * b32 + a00 * b48;
    ghost var k;
    c48, k := Mask16(c48);
    assert Weight(Chunks(c48, c32, c16, c00)) + k * TWO64 == total;

    r := JoinChunks(c48, c32, c16, c00);
    MultiplyCarries(a, b);
    ProductOfWraps(Signed(r), Weight(Chunks(c48, c32, c16, c00)), k, total, Weight(a), Weight(b),
                   Signed(right), Signed(multiplier));
  }

  /** `compareNums`: -1, 0 or 1 as the first value is below, equal to or above the second. */
  method Compare(right: Num, left: Num) returns (r: int)
    ensures r == 0 <==> Signed(right) == Signed(left)
    ensures r == -1 <==> Signed(right) < Signed(left)
    ensures r == 1 <==> Signed(right) > Signed(left)
  {
    SignedInjective(right, left);
    SignMeaning(right);
    SignMeaning(left);
    if right == left {
      return 0;
    }
    var rightNeg, leftNeg := IsNegative(right), IsNegative(left);
    if rightNeg && !leftNeg {
      return -1;
    }
    if !rightNeg && leftNeg {
      return 1;
    }
    // the signs agree, so the difference does not wrap
    var difference := Subtract(right, left);
    WrapInRange(Signed(right) - Signed(left));
    SignMeaning(difference);
    r := if IsNegative(difference) then -1 else 1;
  }

  /** The branches of `shiftNumLeft` for a count n: the `& 63` test looks at
      the low six bits of n, but the two shifting branches use n itself. */
  function ShiftLeftBy(v: Num, n: int): Num {
    if LowBits(n, 6) == 0 then v
    else if n < 32 then FromBits(Shl(v.low, n), BitOr(Shl(v.high, n), UShr(v.low, 32 - n)))
    else FromBits(0, Shl(v.low, n - 32))
  }

  /** `shiftNumLeft` as written: the count is `toInt().get()` of its second argument, unmasked. */
  function ShiftLeft(v: Num, numberOfBits: Num): Num {
    ShiftLeftBy(v, ToInt(numberOfBits))
  }

  /** `shiftNumLeft` with the count reduced to its low six bits before branching,
      as the `& 63` test intends: a shift modulo 2^64 for every count. */
  function ShiftLeftMasked(v: Num, numberOfBits: Num): (r: Num)
    ensures Signed(r) == Wrap(Signed(v) * Pow2(LowBits(ToInt(numberOfBits), 6)))
  {
    var n := LowBits(ToInt(numberOfBits), 6);
    ShiftLeftByValue(v, n);
    ShiftLeftBy(v, n)
  }

  /** The branches of `shiftNumRight` for a count n, with the same unmasked use of n. */
  function ShiftRightBy(v: Num, n: int): Num {
    if LowBits(n, 6) == 0 then v
    else if n < 32 then FromBits(BitOr(UShr(v.low, n), Shl(v.high, 32 - n)), Sar(v.high, n))
    else FromBits(Sar(v.high, n - 32), if v.high >= 0 then 0 else -1)
  }

  /** `shiftNumRight` as written: an arithmetic shift by the unmasked count. */
  function ShiftRight(v: Num, numberOfBits: Num): Num {
    ShiftRightBy(v, ToInt(numberOfBits))
  }

  /** `shiftNumRight` with the count reduced to its low six bits first: floor division by a power of two. */
  function ShiftRightMasked(v: Num, numberOfBits: Num): (r: Num)
    ensures Signed(r) == Signed(v) / Pow2(LowBits(ToInt(numberOfBits), 6))
  {
    var n := LowBits(ToInt(numberOfBits), 6);
    ShiftRightByValue(v, n);
    ShiftRightBy(v, n)
  }

  // ---------------------------------------------------------------------
  // Facts about the representation

  lemma WrapInRange(x: int)
    ensures InRange(Wrap(x))
    ensures InRange(x) ==> Wrap(x) == x
  {
    if InRange(x) {
      DivModUnique(x + TWO63, TWO64, 0, x + TWO63);
    }
  }

  /** Integers congruent modulo 2^64 wrap to the same value. */
  lemma WrapCongruent(x: int, y: int, k: int)
    requires x == y + k * TWO64
    ensures Wrap(x) == Wrap(y)
  {
    DivMod(y + TWO63, TWO64);
    DivModUnique(x + TWO63, TWO64, (y + TWO63) / TWO64 + k, (y + TWO63) % TWO64);
  }

  lemma WrapDistance(x: int)
    ensures x == Wrap(x) + ((x + TWO63) / TWO64) * TWO64
  {
    DivMod(x + TWO63, TWO64);
  }

  lemma WrapAdd(x: int, y: int)
    ensures Wrap(Wrap(x) + y) == Wrap(x + y)
  {
    WrapDistance(x);
    WrapCongruent(x + y, Wrap(x) + y, (x + TWO63) / TWO64);
  }

  lemma SumOfWraps(r: int, wc: int, k: int, wa: int, wb: int, sa: int, sb: int)
    requires r == Wrap(wc) && wc + k * TWO64 == wa + wb && sa == Wrap(wa) && sb == Wrap(wb)
    ensures r == Wrap(sa + sb)
  {
    WrapCongruent(wa + wb, wc, k);
    WrapSum(wa, wb, sa, sb);
  }

  lemma ProductOfWraps(r: int, wc: int, k: int, total: int, wa: int, wb: int, x: int, y: int)
    requires r == Wrap(wc) && wc + k * TWO64 == total && Wrap(wa * wb) == Wrap(total) && wa == x && wb == y
    ensures r == Wrap(x * y)
  {
    WrapCongruent(total, wc, k);
  }

  lemma SubtractValue(x: int, y: int, ny: int)
    requires ny == Wrap(-y)
    ensures Wrap(x + ny) == Wrap(x - y)
  {
    WrapAdd(-y, x);
  }

  lemma WrapSum(wa: int, wb: int, sa: int, sb: int)
    requires sa == Wrap(wa) && sb == Wrap(wb)
    ensures Wrap(wa + wb) == Wrap(sa + sb)
  {
    WrapAdd(wa, wb);
    WrapAdd(wb, sa);
  }

  lemma WrapNegate(x: int)
    ensures Wrap(-Wrap(x)) == Wrap(-x)
  {
    var k := (x + TWO63) / TWO64;
    WrapDistance(x);
    WrapCongruent(-Wrap(x), -x, k);
  }

  lemma FromBitsValue(low: int, high: int)
    ensures Num(ToInt32(low), ToInt32(high)).high * TWO32 + ToUint32(ToInt32(low))
            == Wrap(high * TWO32 + ToUint32(low))
  {
    var h := ToInt32(high);
    ToInt32Congruent(low);
    ToInt32Congruent(high);
    var j := (high - h) / TWO32;
    DivMod(high - h, TWO32);
    assert high * TWO32 + ToUint32(low) == h * TWO32 + ToUint32(low) + j * TWO64;
    WrapCongruent(high * TWO32 + ToUint32(low), h * TWO32 + ToUint32(low), j);
    WrapInRange(h * TWO32 + ToUint32(low));
  }

  /** Each 64-bit value has exactly one CypherNum. */
  lemma SignedInjective(a: Num, b: Num)
    ensures Signed(a) == Signed(b) ==> a == b
  {
    if Signed(a) == Signed(b) {
      DivModUnique(Signed(a), TWO32, a.high, ToUint32(a.low));
      DivModUnique(Signed(b), TWO32, b.high, ToUint32(b.low));
      ToInt32Congruent(a.low);
      ToInt32Congruent(b.low);
      ToInt32OfInt32(a.low);
      ToInt32OfInt32(b.low);
      ToInt32OfCongruent(a.low, ToUint32(a.low), -((a.low - ToUint32(a.low)) / -TWO32));
      ToInt32OfCongruent(b.low, ToUint32(b.low), -((b.low - ToUint32(b.low)) / -TWO32));
    }
  }

  lemma JoinValue(c: Chunks)
    requires Chunks16(c)
    ensures Signed(FromBits(BitOr(Shl(c.c16, 16), c.c00), BitOr(Shl(c.c48, 16), c.c32))) == Wrap(Weight(c))
  {
    JoinWord(c.c16, c.c00);
    JoinWord(c.c48, c.c32);
    JoinWords(BitOr(Shl(c.c16, 16), c.c00), BitOr(Shl(c.c48, 16), c.c32), c);
  }

  lemma JoinWords(low: int, high: int, c: Chunks)
    requires high == ToInt32(c.c48 * TWO16 + c.c32) && ToUint32(low) == c.c16 * TWO16 + c.c00
    ensures Signed(FromBits(low, high)) == Wrap(Weight(c))
  {
    JoinAlgebra(c.c48 * TWO16 + c.c32, high, ToUint32(low), Weight(c));
  }

  /** A high word that is the 32-bit reduction of H joins with L to the 64-bit reduction of H * 2^32 + L. */
  lemma JoinAlgebra(H: int, high: int, L: int, w: int)
    requires high == ToInt32(H) && w == H * TWO32 + L
    ensures Wrap(high * TWO32 + L) == Wrap(w)
  {
    var k := ToInt32Offset(H);
    Rebase(H, high, k, L);
    WrapCongruent(w, high * TWO32 + L, k);
  }

  /** `(hi << 16) | lo` for two 16-bit chunks. */
  lemma JoinWord(hi: int, lo: int)
    requires 0 <= hi < TWO16 && 0 <= lo < TWO16
    ensures BitOr(Shl(hi, 16), lo) == ToInt32(hi * TWO16 + lo)
    ensures ToUint32(BitOr(Shl(hi, 16), lo)) == hi * TWO16 + lo
  {
    Pow2Values();
    ToUint32OfUint32(hi);
    OrOfShifted(hi, 16, lo);
    PackedWord(hi, lo, ToUint32(hi) * Pow2(16) + lo, BitOr(Shl(hi, 16), lo));
  }

  lemma PackedWord(hi: int, lo: int, x: int, w: int)
    requires 0 <= hi < TWO16 && 0 <= lo < TWO16 && x == hi * TWO16 + lo && w == ToInt32(x)
    ensures w == ToInt32(hi * TWO16 + lo) && ToUint32(w) == hi * TWO16 + lo
  {
    ToInt32Congruent(x);
    ToUint32OfUint32(x);
  }

  /** `x & 0xffff` for any integer-valued x, with the part above it. */
  lemma Halves16(x: int) returns (k: int, lo: int)
    ensures lo == LowBits(x, 16) && x == k * TWO16 + lo && 0 <= lo < TWO16
  {
    LowBits16Mod(x);
    DivMod(x, TWO16);
    k, lo := x / TWO16, LowBits(x, 16);
  }

  lemma Rebase(H: int, high: int, k: int, L: int)
    requires H == ToInt32(H) + k * 0x1_0000_0000 && high == ToInt32(H)
    ensures H * 0x1_0000_0000 + L == high * 0x1_0000_0000 + L + k * 0x1_0000_0000_0000_0000
  {
  }


  lemma SplitValue(v: Num)
    ensures var c := Chunks(UShr(v.high, 16), LowBits(v.high, 16), UShr(v.low, 16), LowBits(v.low, 16));
      Chunks16(c) && Wrap(Weight(c)) == Signed(v) && (v.high >= 0 ==> Weight(c) == Signed(v))
  {
    var c := Chunks(UShr(v.high, 16), LowBits(v.high, 16), UShr(v.low, 16), LowBits(v.low, 16));
    Pow2Values();
    SplitHalves(ToUint32(v.high));
    SplitHalves(ToUint32(v.low));
    UShrOfUint32(v.high);
    UShrOfUint32(v.low);
    LowBitsOfUint32(v.high);
    LowBitsOfUint32(v.low);
    assert Chunks16(c);
    assert Weight(c) == ToUint32(v.high) * TWO32 + ToUint32(v.low);
    WrapInRange(Signed(v));
    if v.high < 0 {
      assert ToUint32(v.high) == v.high + TWO32 by { DivModUnique(v.high, TWO32, -1, v.high + TWO32); }
      assert Weight(c) == Signed(v) + 1 * TWO64;
      WrapCongruent(Weight(c), Signed(v), 1);
    } else {
      assert ToUint32(v.high) == v.high by { ToUint32OfUint32(v.high); }
      assert Weight(c) == Signed(v);
    }
  }

  lemma ConstantValues()
    ensures Signed(ZERO) == 0 && Signed(ONE) == 1 && Signed(NEG_ONE) == -1
    ensures Signed(MIN_VALUE) == -TWO63 && Signed(MAX_VALUE) == TWO63 - 1
    ensures Signed(TWO_PWR_24) == TWO24
  {
    ToUint32OfUint32(0);
    ToUint32OfUint32(1);
    ToUint32OfUint32(TWO24);
    DivModUnique(-1, TWO32, -1, TWO32 - 1);
  }

  /** `isZero` and `isNegative` read the value's sign. */
  lemma SignMeaning(v: Num)
    ensures IsZero(v) <==> Signed(v) == 0
    ensures IsNegative(v) <==> Signed(v) < 0
    ensures v == MIN_VALUE <==> Signed(v) == -TWO63
  {
    SignedInjective(v, ZERO);
    SignedInjective(v, MIN_VALUE);
  }

  lemma NegateExact(v: Num)
    requires v != MIN_VALUE
    ensures Signed(Negate(v)) == -Signed(v)
  {
    SignMeaning(v);
    WrapInRange(-Signed(v));
  }

  lemma SmallProduct(right: Num, multiplier: Num)
    requires !IsNegative(right) && !IsNegative(multiplier)
    requires Signed(right) < Signed(TWO_PWR_24) && Signed(multiplier) < Signed(TWO_PWR_24)
    ensures InRange(Signed(right) * Signed(multiplier))
    ensures Signed(FromNumber(IntValue(Signed(right) * Signed(multiplier)))) == Wrap(Signed(right) * Signed(multiplier))
  {
    var x, y := Signed(right), Signed(multiplier);
    SignMeaning(right);
    SignMeaning(multiplier);
    ConstantValues();
    ProductBelow(x, y, TWO24);
    WrapInRange(x * y);
  }

  lemma UShrOfUint32(x: int)
    ensures UShr(x, 16) == UShr(ToUint32(x), 16)
  {
    ToUint32OfUint32(ToUint32(x));
  }

  lemma LowBitsOfUint32(x: int)
    ensures LowBits(x, 16) == LowBits(ToUint32(x), 16)
  {
    ToUint32OfUint32(ToUint32(x));
  }

  lemma OddMeaning(v: Num)
    ensures IsOdd(v) <==> Signed(v) % 2 == 1
  {
    assert Pow2(1) == 2;
    DivMod(ToUint32(v.low), 2);
    DivModUnique(Signed(v), 2, v.high * (TWO32 / 2) + ToUint32(v.low) / 2, ToUint32(v.low) % 2);
  }

  /** MIN_VALUE times y is MIN_VALUE for odd y and zero for even y. */
  lemma MinValueTimes(y: int)
    ensures Wrap(-TWO63 * y) == (if y % 2 == 1 then -TWO63 else 0)
  {
    DivMod(y, 2);
    var h := y / 2;
    if y % 2 == 1 {
      assert -TWO63 * y == -TWO63 + (-h) * TWO64;
      WrapCongruent(-TWO63 * y, -TWO63, -h);
      WrapInRange(-TWO63);
    } else {
      assert -TWO63 * y == (-h) * TWO64;
      WrapCongruent(-TWO63 * y, 0, -h);
      WrapInRange(0);
    }
  }

  /** Multiplying by MIN_VALUE (either side) leaves MIN_VALUE for an odd factor and zero for an even one. */
  lemma MinValueProduct(v: Num, m: Num)
    requires m == MIN_VALUE
    ensures Signed(if IsOdd(v) then MIN_VALUE else ZERO) == Wrap(Signed(v) * Signed(m))
    ensures Signed(if IsOdd(v) then MIN_VALUE else ZERO) == Wrap(Signed(m) * Signed(v))
  {
    ConstantValues();
    MinValueTimes(Signed(v));
    OddMeaning(v);
  }

  /** The sign rules `multiplyNum` uses to reduce to non-negative factors:
      s is the wrapped product of the factors with the negative ones negated. */
  lemma NegatedFactors(x: int, y: int, nx: int, ny: int, s: int, negR: bool, negM: bool)
    requires nx == (if negR then -x else x) && ny == (if negM then -y else y)
    requires s == Wrap(nx * ny)
    ensures negR == negM ==> s == Wrap(x * y)
    ensures negR != negM ==> Wrap(-s) == Wrap(x * y)
  {
    if negR != negM {
      assert nx * ny == -(x * y);
      WrapNegate(nx * ny);
    } else {
      assert nx * ny == x * y;
    }
  }

  lemma NegatePositive(v: Num)
    requires IsNegative(v) && v != MIN_VALUE
    ensures !IsNegative(Negate(v)) && Signed(Negate(v)) == -Signed(v)
  {
    NegateExact(v);
    SignMeaning(v);
    SignMeaning(Negate(v));
  }

  lemma ZeroProduct(right: Num, multiplier: Num)
    requires IsZero(right) || IsZero(multiplier)
    ensures Signed(ZERO) == Wrap(Signed(right) * Signed(multiplier))
  {
    SignMeaning(right);
    SignMeaning(multiplier);
    ConstantValues();
    WrapInRange(0);
  }

  lemma ProductBelow(x: int, y: int, m: int)
    requires 0 <= x < m && 0 <= y < m
    ensures 0 <= x * y < m * m
  {
    assert x * y <= x * m;
    assert x * m < m * m || x == 0;
  }

  lemma ProductBound(x: int, y: int)
    requires 0 <= x < TWO16 && 0 <= y < TWO16
    ensures 0 <= x * y <= 0xFFFE_0001
  {
    MulLe(x, 0, y);
    MulLe(x, y, 0xFFFF);
    MulLe(0xFFFF, x, 0xFFFF);
  }

  lemma ChunkProducts(a: Chunks, b: Chunks)
    requires Chunks16(a) && Chunks16(b)
    ensures 0 <= a.c00 * b.c00 <= 0xFFFE_0001 && 0 <= a.c16 * b.c00 <= 0xFFFE_0001
    ensures 0 <= a.c00 * b.c16 <= 0xFFFE_0001 && 0 <= a.c32 * b.c00 <= 0xFFFE_0001
    ensures 0 <= a.c16 * b.c16 <= 0xFFFE_0001 && 0 <= a.c00 * b.c32 <= 0xFFFE_0001
    ensures 0 <= a.c48 * b.c00 <= 0xFFFE_0001 && 0 <= a.c32 * b.c16 <= 0xFFFE_0001
    ensures 0 <= a.c16 * b.c32 <= 0xFFFE_0001 && 0 <= a.c00 * b.c48 <= 0xFFFE_0001
  {
    ProductBound(a.c00, b.c00);
    ProductBound(a.c16, b.c00);
    ProductBound(a.c00, b.c16);
    ProductBound(a.c32, b.c00);
    ProductBound(a.c16, b.c16);
    ProductBound(a.c00, b.c32);
    ProductBound(a.c48, b.c00);
    ProductBound(a.c32, b.c16);
    ProductBound(a.c16, b.c32);
    ProductBound(a.c00, b.c48);
  }

  lemma ProductExpansion(a: Chunks, b: Chunks)
    ensures Weight(a) * Weight(b)
         == a.c00 * b.c00 + (a.c16 * b.c00 + a.c00 * b.c16) * TWO16
            + (a.c32 * b.c00 + a.c16 * b.c16 + a.c00 * b.c32) * TWO32
            + (a.c48 * b.c00 + a.c32 * b.c16 + a.c16 * b.c32 + a.c00 * b.c48) * TWO48
            + (a.c48 * (b.c48 * TWO32 + b.c32 * TWO16 + b.c16) + a.c32 * (b.c48 * TWO16 + b.c32) + a.c16 * b.c48) * TWO64
  {
  }


  /** Modulo 2^64 a product of two chunked values needs only the partial products below bit 64. */
  lemma MultiplyCarries(a: Chunks, b: Chunks)
    ensures Wrap(Weight(a) * Weight(b))
         == Wrap(a.c00 * b.c00 + (a.c16 * b.c00 + a.c00 * b.c16) * TWO16
                 + (a.c32 * b.c00 + a.c16 * b.c16 + a.c00 * b.c32) * TWO32
                 + (a.c48 * b.c00 + a.c32 * b.c16 + a.c16 * b.c32 + a.c00 * b.c48) * TWO48)
  {
    ProductExpansion(a, b);
    var hi := a.c48 * (b.c48 * TWO32 + b.c32 * TWO16 + b.c16) + a.c32 * (b.c48 * TWO16 + b.c32) + a.c16 * b.c48;
    var low := a.c00 * b.c00 + (a.c16 * b.c00 + a.c00 * b.c16) * TWO16
               + (a.c32 * b.c00 + a.c16 * b.c16 + a.c00 * b.c32) * TWO32
               + (a.c48 * b.c00 + a.c32 * b.c16 + a.c16 * b.c32 + a.c00 * b.c48) * TWO48;
    WrapCongruent(Weight(a) * Weight(b), low, hi);
  }

  lemma LowSixBits(n: int)
    requires 0 <= n < 64
    ensures LowBits(n, 6) == n
  {
    Pow2Values();
    ToUint32OfUint32(n);
    DivModUnique(n, 64, 0, n);
  }

  /** A count CypherNum between 0 and 63 has that count as its low word. */
  lemma CountMeaning(numberOfBits: Num)
    requires 0 <= Signed(numberOfBits) < 64
    ensures ToInt(numberOfBits) == Signed(numberOfBits)
  {
    var h, l := numberOfBits.high, numberOfBits.low;
    UnsignedOfSigned(l);
    if h >= 1 {
      MulLe(TWO32, 1, h);
      assert false;
    } else if h <= -1 {
      MulLe(TWO32, h, -1);
      assert false;
    }
  }

  lemma ShiftLeftByValue(v: Num, n: int)
    requires 0 <= n < 64
    ensures Signed(ShiftLeftBy(v, n)) == Wrap(Signed(v) * Pow2(n))
  {
    LowSixBits(n);
    if n == 0 {
      WrapInRange(Signed(v));
    } else if n < 32 {
      ShiftLeftSmall(v, n);
    } else {
      ShiftLeftLarge(v, n);
    }
  }

  lemma ShiftRightByValue(v: Num, n: int)
    requires 0 <= n < 64
    ensures Signed(ShiftRightBy(v, n)) == Signed(v) / Pow2(n)
    ensures 32 <= n ==> ShiftRightBy(v, n).high == (if v.high >= 0 then 0 else -1)
  {
    LowSixBits(n);
    if n == 0 {
    } else if n < 32 {
      ShiftRightSmall(v, n);
    } else {
      ShiftRightLarge(v, n);
    }
  }

  /** For a count between 0 and 63 the source's `shiftNumLeft` is the masked shift;
      a count whose low six bits are zero leaves the value as it is. */
  lemma ShiftLeftValue(v: Num, numberOfBits: Num)
    ensures LowBits(ToInt(numberOfBits), 6) == 0 ==> ShiftLeft(v, numberOfBits) == v
    ensures 0 <= Signed(numberOfBits) < 64 ==>
              ShiftLeft(v, numberOfBits) == ShiftLeftMasked(v, numberOfBits)
              && Signed(ShiftLeft(v, numberOfBits)) == Wrap(Signed(v) * Pow2(Signed(numberOfBits)))
  {
    if 0 <= Signed(numberOfBits) < 64 {
      CountMeaning(numberOfBits);
      LowSixBits(ToInt(numberOfBits));
      ShiftLeftByValue(v, ToInt(numberOfBits));
    }
  }

  /** For a count between 0 and 63 the source's `shiftNumRight` is the masked shift;
      from 32 on, the high word is the sign. */
  lemma ShiftRightValue(v: Num, numberOfBits: Num)
    ensures LowBits(ToInt(numberOfBits), 6) == 0 ==> ShiftRight(v, numberOfBits) == v
    ensures 0 <= Signed(numberOfBits) < 64 ==>
              ShiftRight(v, numberOfBits) == ShiftRightMasked(v, numberOfBits)
              && Signed(ShiftRight(v, numberOfBits)) == Signed(v) / Pow2(Signed(numberOfBits))
    ensures 32 <= Signed(numberOfBits) < 64 ==> ShiftRight(v, numberOfBits).high == (if v.high >= 0 then 0 else -1)
  {
    if 0 <= Signed(numberOfBits) < 64 {
      CountMeaning(numberOfBits);
      LowSixBits(ToInt(numberOfBits));
      ShiftRightByValue(v, ToInt(numberOfBits));
    }
  }

  /** A count of 65 has low six bits 1, yet `shiftNumLeft` shifts one by 33 places. */
  lemma ShiftLeftUnmaskedCount()
    ensures Signed(ShiftLeft(ONE, Num(65, 0))) == 0x2_0000_0000
    ensures Signed(ShiftLeftMasked(ONE, Num(65, 0))) == 2
  {
    Pow2Values();
    ToUint32OfUint32(65);
    DivModUnique(65, 64, 1, 1);
    ShiftCountSmall(1);
    assert ShiftCount(33) == 1 by { ToUint32OfUint32(33); DivModUnique(33, 32, 1, 1); }
    assert Shl(1, 33) == 2 by { ToUint32OfUint32(1); ToInt32OfInt32(2); }
    ConstantValues();
    UnsignedOfSigned(0);
    WrapInRange(0x2_0000_0000);
    WrapInRange(2);
  }

  /** A count of 65 has low six bits 1, yet `shiftNumRight` moves MIN_VALUE down by 33 places. */
  lemma ShiftRightUnmaskedCount()
    ensures Signed(ShiftRight(MIN_VALUE, Num(65, 0))) == -0x4000_0000
    ensures Signed(ShiftRightMasked(MIN_VALUE, Num(65, 0))) == -0x4000_0000_0000_0000
  {
    Pow2Values();
    ToUint32OfUint32(65);
    DivModUnique(65, 64, 1, 1);
    assert ShiftCount(33) == 1 by { ToUint32OfUint32(33); DivModUnique(33, 32, 1, 1); }
    ToInt32OfInt32(-0x8000_0000);
    assert Sar(-0x8000_0000, 33) == -0x4000_0000;
    ToInt32OfInt32(-0x4000_0000);
    ToInt32OfInt32(-1);
    UnsignedOfSigned(-0x4000_0000);
    UnsignedOfSigned(-1);
    WrapInRange(-0x4000_0000);
    ConstantValues();
    DivModUnique(-TWO63, 2, -TWO62, 0);
  }

  /** A negative count: `toInt()` of NEG_ONE is -1, whose low six bits are 63,
      yet `shiftNumLeft` takes the `< 32` branch, where JavaScript's `<<` uses the
      low five bits of -1: ONE moves up by 31 places instead of 63. */
  lemma ShiftLeftNegativeCount()
    ensures Signed(ShiftLeft(ONE, NEG_ONE)) == 0x8000_0000
    ensures Signed(ShiftLeftMasked(ONE, NEG_ONE)) == -TWO63
  {
    NegativeCountBits();
    assert ShiftLeft(ONE, NEG_ONE) == FromBits(-TWO31, 0);
    WrapInRange(TWO31);
    ConstantValues();
    WrapCongruent(TWO63, -TWO63, 1);
    WrapInRange(-TWO63);
  }

  /** The JavaScript operators on the count -1 and the value 1. */
  lemma NegativeCountBits()
    ensures ShiftCount(-1) == 31 && LowBits(-1, 6) == 63
    ensures Shl(1, -1) == -TWO31 && Shl(0, -1) == 0 && UShr(1, 33) == 0 && BitOr(0, 0) == 0
    ensures ToUint32(-TWO31) == TWO31 && Pow2(63) == TWO63
  {
    Pow2Values();
    DivModUnique(-1, TWO32, -1, TWO32 - 1);
    assert ShiftCount(-1) == 31 by { DivModUnique(TWO32 - 1, 32, TWO32 / 32 - 1, 31); }
    assert LowBits(-1, 6) == 63 by { DivModUnique(TWO32 - 1, 64, TWO32 / 64 - 1, 63); }
    assert Shl(1, -1) == -TWO31 by { ToUint32OfUint32(1); DivModUnique(TWO31, TWO32, 0, TWO31); }
    assert UShr(1, 33) == 0 by { ToUint32OfUint32(1); ToUint32OfUint32(33); DivModUnique(33, 32, 1, 1); }
    assert Shl(0, -1) == 0 by { ToUint32OfUint32(0); DivModUnique(0, TWO32, 0, 0); }
    assert BitOr(0, 0) == 0 by { ToUint32OfUint32(0); OrBitsZero(0, 32); DivModUnique(0, TWO32, 0, 0); }
    assert ToUint32(-TWO31) == TWO31 by { DivModUnique(-TWO31, TWO32, -1, TWO31); }
    assert Pow2(63) == TWO63 by { Pow2Add(31, 32); }
  }

  /** The algebra of the small left shift: the bits that leave the low word enter the high word. */
  lemma ShiftLeftAlgebra(h: int, hu: int, i: int, u: int, p: int, q: int, carry: int, high: int, j: int)
    requires p * q == TWO32 && q > 0
    requires hu == h + i * TWO32
    requires carry == u / q && u == carry * q + u % q
    requires hu * p + carry == high + j * TWO32
    ensures (h * TWO32 + u) * p == high * TWO32 + (u % q) * p + (j - i * p) * TWO64
  {
    calc {
      (h * TWO32 + u) * p;
      h * TWO32 * p + u * p;
      (hu - i * TWO32) * TWO32 * p + (carry * q + u % q) * p;
      hu * p * TWO32 - i * p * (TWO32 * TWO32) + carry * (q * p) + (u % q) * p;
      (hu * p + carry) * TWO32 - i * p * TWO64 + (u % q) * p;
      (high + j * TWO32) * TWO32 - i * p * TWO64 + (u % q) * p;
    }
  }

  lemma ShiftLeftSmall(v: Num, s: int)
    requires 0 < s < 32
    ensures Signed(FromBits(Shl(v.low, s), BitOr(Shl(v.high, s), UShr(v.low, 32 - s))))
            == Wrap(Signed(v) * Pow2(s))
  {
    PowPair(s);
    ShlBits(v.low, s);
    LeftHighWord(v.high, v.low, s);
    UnsignedOfSigned(v.high);
    var low := Shl(v.low, s);
    var high := BitOr(Shl(v.high, s), UShr(v.low, 32 - s));
    LeftSmallValue(v.high, ToUint32(v.low), ToUint32(v.high), Pow2(s), Pow2(32 - s), high, ToUint32(low));
    var r := FromBits(low, high);
    assert Signed(r) == Wrap(high * TWO32 + ToUint32(low));
  }

  /** The high word of a small left shift: its own bits moved up, and the bits leaving the low word. */
  lemma LeftHighWord(h: int, l: int, s: int)
    requires 0 < s < 32
    ensures BitOr(Shl(h, s), UShr(l, 32 - s)) == ToInt32(ToUint32(h) * Pow2(s) + ToUint32(l) / Pow2(32 - s))
  {
    PowPair(s);
    ShiftCountSmall(32 - s);
    var carry := UShr(l, 32 - s);
    QuotientBelow(ToUint32(l), Pow2(32 - s), Pow2(s));
    OrOfShifted(h, s, carry);
  }

  lemma LeftSmallValue(h: int, u: int, hu: int, p: int, q: int, high: int, lowU: int)
    requires p * q == TWO32 && q > 0 && 0 <= u
    requires hu == if h < 0 then h + TWO32 else h
    requires high == ToInt32(hu * p + u / q)
    requires lowU == (u % q) * p
    ensures Wrap(high * TWO32 + lowU) == Wrap((h * TWO32 + u) * p)
  {
    var j := ToInt32Offset(hu * p + u / q);
    var i := if h < 0 then 1 else 0;
    DivMod(u, q);
    ShiftLeftAlgebra(h, hu, i, u, p, q, u / q, high, j);
    WrapCongruent((h * TWO32 + u) * p, high * TWO32 + lowU, j - i * p);
  }

  lemma ShiftLeftLarge(v: Num, n: int)
    requires 32 <= n < 64
    ensures Signed(FromBits(0, Shl(v.low, n - 32))) == Wrap(Signed(v) * Pow2(n))
  {
    var m := n - 32;
    var p := Pow2(m);
    Pow2Add(32, m);
    Pow2Values();
    var u := ToUint32(v.low);
    ShiftCountSmall(m);
    var high := Shl(v.low, m);
    assert high == ToInt32(u * p);
    ToInt32Congruent(u * p);
    var j := (u * p - high) / TWO32;
    DivMod(u * p - high, TWO32);
    UnsignedOfSigned(0);
    LargeLeftAlgebra(v.high, u, p, high, j);
    WrapCongruent(Signed(v) * Pow2(n), high * TWO32 + ToUint32(0), v.high * p + j);
    var r := FromBits(0, high);
    assert Signed(r) == Wrap(high * TWO32 + ToUint32(0));
  }

  lemma LargeLeftAlgebra(h: int, u: int, p: int, high: int, j: int)
    requires u * p == high + j * TWO32
    ensures (h * TWO32 + u) * (TWO32 * p) == high * TWO32 + (h * p + j) * TWO64
  {
    calc {
      (h * TWO32 + u) * (TWO32 * p);
      h * p * (TWO32 * TWO32) + (u * p) * TWO32;
      h * p * TWO64 + (high + j * TWO32) * TWO32;
    }
  }

  lemma ShiftRightSmall(v: Num, s: int)
    requires 0 < s < 32
    ensures Signed(FromBits(BitOr(UShr(v.low, s), Shl(v.high, 32 - s)), Sar(v.high, s)))
            == Signed(v) / Pow2(s)
  {
    var p, q := RightWords(v.high, v.low, s);
    var low, hs := BitOr(UShr(v.low, s), Shl(v.high, 32 - s)), Sar(v.high, s);
    FromBitsOfWords(low, hs);
    RightSmallValue(v.high, ToUint32(v.low), ToUint32(v.high), Pow2(s), Pow2(32 - s), low, hs, Signed(v));
  }

  /** Two words already in 32-bit range are stored as they are. */
  lemma FromBitsOfWords(low: Int32, high: Int32)
    ensures FromBits(low, high) == Num(low, high)
  {
    ToInt32OfInt32(low);
    ToInt32OfInt32(high);
  }

  /** The words of a small right shift: the low word takes its own bits moved down
      and the bits leaving the high word; the high word is divided by 2^s. */
  lemma RightWords(h: Int32, l: int, s: int) returns (p: int, q: int)
    requires 0 < s < 32
    ensures p == Pow2(s) && q == Pow2(32 - s) && p * q == TWO32 && p > 0 && q > 0
    ensures BitOr(UShr(l, s), Shl(h, 32 - s)) == ToInt32(ToUint32(h) * q + ToUint32(l) / p)
    ensures Sar(h, s) == h / p
    ensures ToUint32(h) == if h < 0 then h + TWO32 else h
  {
    PowPair(s);
    p, q := Pow2(s), Pow2(32 - s);
    UnsignedOfSigned(h);
    ToInt32OfInt32(h);
    ShiftCountSmall(s);
    RightLowWord(h, l, s);
  }

  /** The low word of a small right shift. */
  lemma RightLowWord(h: int, l: int, s: int)
    requires 0 < s < 32
    ensures BitOr(UShr(l, s), Shl(h, 32 - s)) == ToInt32(ToUint32(h) * Pow2(32 - s) + ToUint32(l) / Pow2(s))
  {
    PowPair(s);
    ShiftCountSmall(s);
    var below := UShr(l, s);
    QuotientBelow(ToUint32(l), Pow2(s), Pow2(32 - s));
    BitOrCommutes(below, Shl(h, 32 - s));
    assert 0 < 32 - s < 32;
    OrOfShifted(h, 32 - s, below);
  }

  lemma RightSmallValue(h: int, u: int, hu: int, p: int, q: int, low: int, hs: int, x: int)
    requires p * q == TWO32 && p > 0 && q > 0 && 0 <= u < TWO32 && -TWO31 <= h < TWO31
    requires hu == if h < 0 then h + TWO32 else h
    requires low == ToInt32(hu * q + u / p)
    requires hs == h / p && x == h * TWO32 + u
    ensures hs * TWO32 + ToUint32(low) == x / p
  {
    var i := if h < 0 then 1 else 0;
    var below := u / p;
    QuotientBelow(u, p, q);
    // the high word passes its low s bits down; its signed and unsigned readings agree on them
    HighLowBits(h, hu, i, p, q);
    var lowU := (h % p) * q + below;
    PackedUnder(h % p, q, p, below);
    ToInt32OfCongruent(hu * q + below, lowU, hu / p);
    ToInt32Congruent(lowU);
    ToUint32OfUint32(lowU);
    assert ToUint32(low) == lowU;
    ShiftRightAlgebra(h, u, p, q, below);
  }

  lemma PowPair(s: int)
    requires 0 < s < 32
    ensures Pow2(s) * Pow2(32 - s) == TWO32 && Pow2(32 - s) * Pow2(s) == TWO32
    ensures Pow2(s) >= 2 && Pow2(32 - s) >= 2
  {
    Pow2Split(s);
    assert Pow2(s) == 2 * Pow2(s - 1);
    assert Pow2(32 - s) == 2 * Pow2(32 - s - 1);
  }

  lemma NegativeQuotient(h: int, p: int)
    requires p >= 1
    ensures h < 0 <==> h / p < 0
  {
    DivBounds(h, p);
  }

  lemma QuotientBelow(u: int, p: int, q: int)
    requires p > 0 && q > 0 && 0 <= u < TWO32 && p * q == TWO32
    ensures 0 <= u / p < q
  {
    DivBounds(u, p);
    DivMod(u, p);
    if u / p >= q {
      MulLe(p, q, u / p);
      assert false;
    }
  }

  lemma QuotientRange(h: int, p: int)
    requires -TWO31 <= h < TWO31 && p >= 1
    ensures -TWO31 <= h / p < TWO31
  {
    DivBounds(h, p);
  }

  lemma PackedUnder(a: int, q: int, p: int, d: int)
    requires 0 <= a < p && 0 <= d < q && p * q == TWO32
    ensures 0 <= a * q + d < TWO32
  {
    MulLe(q, a, p - 1);
  }

  lemma BitOrCommutes(x: int, y: int)
    ensures BitOr(x, y) == BitOr(y, x)
  {
    OrBitsCommute(ToUint32(x), ToUint32(y), 32);
  }

  lemma {:induction false} OrBitsCommute(x: nat, y: nat, n: nat)
    ensures OrBits(x, y, n) == OrBits(y, x, n)
  {
    if n > 0 {
      OrBitsCommute(x / 2, y / 2, n - 1);
    }
  }

  /** The unsigned and signed readings of the high word agree below bit 32. */
  lemma HighLowBits(h: int, hu: int, i: int, p: int, q: int)
    requires p > 0 && q > 0 && p * q == TWO32 && hu == h + i * TWO32 && 0 <= hu
    ensures hu * q == (h % p) * q + (hu / p) * TWO32
  {
    DivMod(hu, p);
    DivMod(h, p);
    assert h % p == hu % p by { DivModUnique(h, p, hu / p - i * q, hu % p); }
  }

  lemma ShiftRightAlgebra(h: int, u: int, p: int, q: int, below: int)
    requires p > 0 && q > 0 && p * q == TWO32 && 0 <= u < TWO32 && below == u / p
    ensures (h * TWO32 + u) / p == (h / p) * TWO32 + ((h % p) * q + below)
  {
    DivMod(h, p);
    DivMod(u, p);
    var x := h * TWO32 + u;
    assert x == ((h / p) * TWO32 + (h % p) * q + below) * p + u % p by {
      calc {
        x;
        (h / p * p + h % p) * (p * q) + (below * p + u % p);
        ((h / p) * (p * q) + (h % p) * q + below) * p + u % p;
      }
    }
    DivModUnique(x, p, (h / p) * TWO32 + (h % p) * q + below, u % p);
  }

  lemma ShiftRightLarge(v: Num, n: int)
    requires 32 <= n < 64
    ensures Signed(FromBits(Sar(v.high, n - 32), if v.high >= 0 then 0 else -1)) == Signed(v) / Pow2(n)
    ensures FromBits(Sar(v.high, n - 32), if v.high >= 0 then 0 else -1).high == (if v.high >= 0 then 0 else -1)
  {
    var low, sign := Sar(v.high, n - 32), if v.high >= 0 then 0 else -1;
    LargeRightWord(v.high, n);
    FromBitsOfWords(low, sign);
    LargeRightValue(v.high, ToUint32(v.low), Pow2(n - 32), low, sign, Signed(v), Pow2(n));
  }

  lemma LargeRightWord(h: Int32, n: int)
    requires 32 <= n < 64
    ensures Sar(h, n - 32) == h / Pow2(n - 32) && Pow2(n) == TWO32 * Pow2(n - 32)
  {
    Pow2Add(32, n - 32);
    Pow2Values();
    ShiftCountSmall(n - 32);
    ToInt32OfInt32(h);
  }

  lemma LargeRightValue(h: int, u: int, p: int, low: int, sign: int, x: int, P: int)
    requires -TWO31 <= h < TWO31 && 0 <= u < TWO32 && p >= 1
    requires low == h / p && sign == (if h >= 0 then 0 else -1)
    requires x == h * TWO32 + u && P == TWO32 * p
    ensures sign * TWO32 + ToUint32(low) == x / P
  {
    QuotientRange(h, p);
    UnsignedOfSigned(low);
    NegativeQuotient(h, p);
    LargeRightAlgebra(h, u, p);
  }

  /** floor((h * 2^32 + u) / (2^32 * p)) == floor(h / p) for u below 2^32. */
  lemma LargeRightAlgebra(h: int, u: int, p: int)
    requires 0 <= u < TWO32 && p >= 1
    ensures (h * TWO32 + u) / (TWO32 * p) == h / p
  {
    DivMod(h, p);
    var x := h * TWO32 + u;
    assert x == (h / p) * (TWO32 * p) + ((h % p) * TWO32 + u);
    MulLe(TWO32, h % p, p - 1);
    DivModUnique(x, TWO32 * p, h / p, (h % p) * TWO32 + u);
  }
}
