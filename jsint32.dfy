/** JavaScript's 32-bit integer operators, applied to integer-valued numbers.

    A JavaScript bitwise operator first converts its operands with ToInt32 or
    ToUint32 (reduction modulo 2^32), masks a shift count to its low five bits,
    and yields a signed (or, for `>>>`, unsigned) 32-bit result. Each operator
    of that kind the integer codec uses is written out here over `int`. */
module JsInt32 {

  const TWO16: int := 0x1_0000
  const TWO24: int := 0x100_0000
  const TWO31: int := 0x8000_0000
  const TWO32: int := 0x1_0000_0000

  type Int32 = x: int | -0x8000_0000 <= x < 0x8000_0000
  type Uint32 = x: int | 0 <= x < 0x1_0000_0000

  function Pow2(n: nat): (r: nat)
    ensures r >= 1
  {
    if n == 0 then 1 else 2 * Pow2(n - 1)
  }

  /** ToUint32: the integer modulo 2^32. */
  function ToUint32(x: int): Uint32 {
    x % TWO32
  }

  /** ToInt32: the integer modulo 2^32, read as two's complement. */
  function ToInt32(x: int): Int32 {
    var u := x % TWO32;
    if u < TWO31 then u else u - TWO32
  }

  /** A shift operator uses only the low five bits of its count. */
  function ShiftCount(n: int): (r: nat)
    ensures r < 32
  {
    ToUint32(n) % 32
  }

  /** `x << n` */
  function Shl(x: int, n: int): Int32 {
    ToInt32(ToUint32(x) * Pow2(ShiftCount(n)))
  }

  /** `x >>> n` */
  function UShr(x: int, n: int): Uint32 {
    DivBounds(ToUint32(x), Pow2(ShiftCount(n)));
    ToUint32(x) / Pow2(ShiftCount(n))
  }

  /** `x >> n`: Dafny's `/` by a positive divisor rounds down, as the arithmetic shift does. */
  function Sar(x: int, n: int): Int32 {
    DivBounds(ToInt32(x), Pow2(ShiftCount(n)));
    ToInt32(x) / Pow2(ShiftCount(n))
  }

  /** `x & (2^k - 1)` for 0 <= k <= 31: the low k bits of x. Every `&` in the
      integer codec and the framing code masks with such a constant. */
  function LowBits(x: int, k: nat): (r: nat)
    requires k <= 31
    ensures r < Pow2(k)
  {
    ToUint32(x) % Pow2(k)
  }

  /** Bitwise OR of the low n bits of two naturals. */
  function OrBits(x: nat, y: nat, n: nat): nat {
    if n == 0 then 0
    else 2 * OrBits(x / 2, y / 2, n - 1) + (if x % 2 == 1 || y % 2 == 1 then 1 else 0)
  }

  /** `x | y` */
  function BitOr(x: int, y: int): Int32 {
    ToInt32(OrBits(ToUint32(x), ToUint32(y), 32))
  }

  // ---------------------------------------------------------------------
  // Facts about these operators

  lemma {:induction false} Pow2Add(a: nat, b: nat)
    ensures Pow2(a + b) == Pow2(a) * Pow2(b)
  {
    if a > 0 {
      Pow2Add(a - 1, b);
      assert Pow2(a + b) == 2 * Pow2(a - 1 + b);
    }
  }

  lemma Pow2Values()
    ensures Pow2(1) == 2 && Pow2(6) == 64 && Pow2(8) == 256
    ensures Pow2(16) == TWO16 && Pow2(24) == TWO24 && Pow2(31) == TWO31 && Pow2(32) == TWO32
  {
    assert Pow2(2) == 4;
    assert Pow2(4) == 16 by { Pow2Add(2, 2); }
    assert Pow2(6) == 64 by { Pow2Add(4, 2); }
    assert Pow2(8) == 256 by { Pow2Add(4, 4); }
    assert Pow2(16) == TWO16 by { Pow2Add(8, 8); }
    assert Pow2(24) == TWO24 by { Pow2Add(16, 8); }
    assert Pow2(32) == TWO32 by { Pow2Add(16, 16); }
    assert Pow2(32) == 2 * Pow2(31);
  }

  /** Division and remainder are determined by the quotient-remainder equation. */
  lemma DivModUnique(x: int, m: int, q: int, r: int)
    requires m > 0 && 0 <= r < m && x == q * m + r
    ensures x / m == q && x % m == r
  {
    var q', r' := x / m, x % m;
    assert (q' - q) * m == r - r';
    SmallMultiple(q' - q, m);
  }

  lemma SmallMultiple(k: int, m: int)
    requires m > 0 && -m < k * m < m
    ensures k == 0
  {
    if k >= 1 {
      MulAtLeast(k, m);
      assert false;
    } else if k <= -1 {
      MulAtLeast(-k, m);
      assert false;
    }
  }

  lemma MulAtLeast(k: int, m: int)
    requires k >= 1 && m > 0
    ensures k * m >= m
  {
  }

  lemma MulLe(x: int, y: int, z: int)
    requires 0 <= x && y <= z
    ensures x * y <= x * z
  {
  }

  /** Floor division by a positive divisor moves a value towards zero (or to -1) without changing its sign. */
  lemma DivBounds(x: int, p: int)
    requires p >= 1
    ensures x >= 0 ==> 0 <= x / p <= x
    ensures x < 0 ==> x <= x / p < 0
  {
    var d, r := x / p, x % p;
    assert x == d * p + r && 0 <= r < p;
    if d >= 0 {
      MulLe(d, 1, p);
    } else {
      MulLe(-(d + 1), 1, p);
      assert (d + 1) * p == d * p + p;
    }
  }

  lemma DivMod(x: int, m: int)
    requires m > 0
    ensures x == (x / m) * m + x % m && 0 <= x % m < m
  {
  }

  /** Scaling by p commutes with reduction: (u * p) mod (q * p) == (u mod q) * p. */
  lemma MulModScale(u: int, p: int, q: int)
    requires p > 0 && q > 0
    ensures (u * p) % (q * p) == (u % q) * p
    ensures (u * p) / (q * p) == u / q
  {
    var a := u % q;
    assert u == (u / q) * q + a;
    assert u * p == (u / q) * (q * p) + a * p;
    assert a * p < q * p by { assert a * p <= (q - 1) * p; }
    DivModUnique(u * p, q * p, u / q, a * p);
  }

  lemma ToInt32Congruent(x: int)
    ensures ToUint32(ToInt32(x)) == ToUint32(x)
    ensures (x - ToInt32(x)) % TWO32 == 0
  {
    var u := x % TWO32;
    assert x == (x / TWO32) * TWO32 + u;
    if u >= TWO31 {
      DivModUnique(u - TWO32, TWO32, -1, u);
      DivModUnique(x - (u - TWO32), TWO32, x / TWO32 + 1, 0);
    } else {
      DivModUnique(u, TWO32, 0, u);
      DivModUnique(x - u, TWO32, x / TWO32, 0);
    }
  }

  /** ToInt32 moves its argument by a multiple of 2^32. */
  lemma ToInt32Offset(x: int) returns (k: int)
    ensures x == ToInt32(x) + k * TWO32
  {
    ToInt32Congruent(x);
    k := (x - ToInt32(x)) / TWO32;
    DivMod(x - ToInt32(x), TWO32);
  }

  lemma ToInt32OfInt32(x: int)
    requires -TWO31 <= x < TWO31
    ensures ToInt32(x) == x
  {
    if x < 0 { DivModUnique(x, TWO32, -1, x + TWO32); } else { DivModUnique(x, TWO32, 0, x); }
  }

  lemma ToUint32OfUint32(x: int)
    requires 0 <= x < TWO32
    ensures ToUint32(x) == x
  {
    DivModUnique(x, TWO32, 0, x);
  }

  /** A count already in 0..31 is used as it is. */
  lemma ShiftCountSmall(n: int)
    requires 0 <= n < 32
    ensures ShiftCount(n) == n
  {
    ToUint32OfUint32(n);
    DivModUnique(n, 32, 0, n);
  }

  /** ToUint32 of a signed 32-bit value adds 2^32 to a negative one. */
  lemma UnsignedOfSigned(x: int)
    requires -TWO31 <= x < TWO31
    ensures ToUint32(x) == if x < 0 then x + TWO32 else x
  {
    if x < 0 { DivModUnique(x, TWO32, -1, x + TWO32); } else { DivModUnique(x, TWO32, 0, x); }
  }

  /** Two integers congruent modulo 2^32 convert to the same 32-bit value. */
  lemma ToInt32OfCongruent(x: int, y: int, k: int)
    requires x == y + k * TWO32
    ensures ToInt32(x) == ToInt32(y) && ToUint32(x) == ToUint32(y)
  {
    DivModUnique(x, TWO32, y / TWO32 + k, y % TWO32);
  }

  /** A number below 2^32 splits into its high and low 16-bit halves. */
  lemma SplitHalves(c: int)
    requires 0 <= c < TWO32
    ensures UShr(c, 16) * TWO16 + LowBits(c, 16) == c
    ensures UShr(c, 16) < TWO16
  {
    Pow2Values();
    ToUint32OfUint32(c);
    assert ShiftCount(16) == 16 by { ToUint32OfUint32(16); }
  }

  /** `x & 0xffff` on any integer-valued number keeps its residue modulo 2^16. */
  lemma LowBits16Mod(x: int)
    ensures LowBits(x, 16) == x % TWO16
  {
    Pow2Values();
    var u := x % TWO32;
    assert x == (x / TWO32) * TWO32 + u;
    DivModUnique(x, TWO16, (x / TWO32) * TWO16 + u / TWO16, u % TWO16);
  }

  lemma {:induction false} OrBitsZero(x: nat, n: nat)
    requires x < Pow2(n)
    ensures OrBits(x, 0, n) == x
  {
    if n > 0 {
      OrBitsZero(x / 2, n - 1);
    }
  }

  /** OR of operands with no common bit is their sum. */
  lemma {:induction false} OrBitsDisjoint(a: nat, b: nat, k: nat, n: nat)
    requires k <= n && b < Pow2(k) && a * Pow2(k) < Pow2(n)
    ensures OrBits(a * Pow2(k), b, n) == a * Pow2(k) + b
  {
    if k == 0 {
      OrBitsZero(a, n);
    } else {
      var x := a * Pow2(k);
      assert x == 2 * (a * Pow2(k - 1));
      assert x / 2 == a * Pow2(k - 1) && x % 2 == 0;
      OrBitsDisjoint(a, b / 2, k - 1, n - 1);
    }
  }

  lemma Pow2Split(s: nat)
    requires s <= 32
    ensures Pow2(s) * Pow2(32 - s) == TWO32
  {
    Pow2Add(s, 32 - s);
    Pow2Values();
  }

  /** `x << s` keeps the low (32 - s) bits of x, moved up by s places. */
  lemma ShlBits(x: int, s: nat)
    requires s < 32
    ensures ToUint32(Shl(x, s)) == (ToUint32(x) % Pow2(32 - s)) * Pow2(s)
    ensures ToUint32(Shl(x, s)) == (ToUint32(x) * Pow2(s)) % TWO32
  {
    Pow2Values();
    Pow2Add(32 - s, s);
    assert ShiftCount(s) == s by { ToUint32OfUint32(s); }
    var u := ToUint32(x);
    ToInt32Congruent(u * Pow2(s));
    MulModScale(u, Pow2(s), Pow2(32 - s));
  }

  /** `(c << s) | d`, where d fits below bit s, packs c and d into one word. */
  lemma OrOfShifted(hi: int, s: nat, d: nat)
    requires 0 < s < 32 && d < Pow2(s)
    ensures BitOr(Shl(hi, s), d) == ToInt32(ToUint32(hi) * Pow2(s) + d)
  {
    var u, p, q := ToUint32(hi), Pow2(s), Pow2(32 - s);
    Pow2Split(s);
    assert Pow2(32) == TWO32 by { Pow2Values(); }
    ShlBits(hi, s);
    var a := u % q;
    assert ToUint32(Shl(hi, s)) == a * p;
    PackedBelow(a, p, q, d);
    ToUint32OfUint32(d);
    OrBitsDisjoint(a, d, s, 32);
    DivMod(u, q);
    ScaledSplit(u, a, u / q, p, q);
    ToInt32OfCongruent(u * p + d, a * p + d, u / q);
    assert OrBits(ToUint32(Shl(hi, s)), ToUint32(d), 32) == a * p + d;
  }

  lemma PackedBelow(a: int, p: int, q: int, d: int)
    requires 0 <= a < q && 0 <= d < p && p * q == TWO32
    ensures 0 <= a * p + d < TWO32 && d < TWO32
  {
    assert a * p <= (q - 1) * p;
    assert p <= TWO32 by { MulAtLeast(q, p); }
  }

  lemma ScaledSplit(u: int, a: int, k: int, p: int, q: int)
    requires u == k * q + a && p * q == TWO32
    ensures u * p == a * p + k * TWO32
  {
  }
}
