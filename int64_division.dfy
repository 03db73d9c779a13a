/** `divideNums` (src/utils/num.utils.ts): 64-bit division truncating toward zero. */
module Int64Division {
  import opened JsInt32
  import opened Int64

  function Abs(x: int): nat {
    if x < 0 then -x else x
  }

  /** The reference quotient: the magnitude is |x| / |d|, the sign that of x * d. */
  function TruncDiv(x: int, d: int): int
    requires d != 0
  {
    var q := Abs(x) / Abs(d);
    if (x < 0) == (d < 0) then q else -q
  }

  /** TruncDiv is the quotient whose remainder is smaller than the divisor
      and carries the sign of the dividend. */
  lemma TruncDivSpec(x: int, d: int)
    requires d != 0
    ensures var r := x - TruncDiv(x, d) * d;
            Abs(r) < Abs(d) && (r == 0 || (r < 0 <==> x < 0))
  {
    var m, q := Abs(d), Abs(x) / Abs(d);
    DivMod(Abs(x), m);
    var rm := Abs(x) % m;
    assert TruncDiv(x, d) * d == (if x < 0 then -(q * m) else q * m) by {
      if d < 0 {
        assert q * d == -(q * m);
      } else {
        assert q * d == q * m;
      }
    }
  }

  /** The recursion in `divideNums` goes from MIN_VALUE to negative values,
      and from negative operands to non-negative ones. */
  function DivRank(val: Num, divisor: Num): nat {
    if val == MIN_VALUE then 2
    else if IsNegative(val) || IsNegative(divisor) then 1
    else 0
  }

  /** `divideNums`: fails on a zero divisor, otherwise the truncated quotient
      reduced to 64 bits (only MIN_VALUE / -1 wraps). */
  method Divide(val: Num, divisor: Num) returns (r: Result<Num>)
    ensures r.Failure? <==> Signed(divisor) == 0
    ensures r.Failure? ==> r.error == DivisionByZero
    ensures r.Success? ==> Signed(r.value) == Wrap(TruncDiv(Signed(val), Signed(divisor)))
    decreases DivRank(val, divisor), 2
  {
    SignMeaning(val);
    SignMeaning(divisor);
    if IsZero(divisor) {
      return Failure(DivisionByZero);
    }
    if IsZero(val) {
      ZeroDividend(Signed(val), Signed(divisor), Signed(ZERO));
      return Success(ZERO);
    }
    if val == MIN_VALUE {
      var q := DivideMinValue(divisor);
      return Success(q);
    }
    if divisor == MIN_VALUE {
      DivisorMinValue(Signed(val), Signed(divisor), Signed(ZERO));
      return Success(ZERO);
    }
    if IsNegative(val) {
      NegateExact(val);
      SignMeaning(Negate(val));
      if IsNegative(divisor) {
        NegateExact(divisor);
        SignMeaning(Negate(divisor));
        var q := Divide(Negate(val), Negate(divisor));
        BothNegated(Signed(val), Signed(divisor), Signed(Negate(val)), Signed(Negate(divisor)), Signed(q.value));
        return q;
      }
      var q := Divide(Negate(val), divisor);
      NegatedQuotient(Signed(Negate(val)), Signed(divisor), Signed(q.value), Signed(Negate(q.value)),
                      Signed(val), Signed(divisor));
      return Success(Negate(q.value));
    }
    if IsNegative(divisor) {
      NegateExact(divisor);
      SignMeaning(Negate(divisor));
      var q := Divide(val, Negate(divisor));
      NegatedQuotient(Signed(val), Signed(Negate(divisor)), Signed(q.value), Signed(Negate(q.value)),
                      Signed(val), Signed(divisor));
      return Success(Negate(q.value));
    }
    var q := DividePositive(val, divisor);
    return Success(q);
  }

  /** The MIN_VALUE branch of `divideNums`: MIN_VALUE has no positive counterpart,
      so it is halved, divided, doubled back, and the remainder divided once more. */
  method DivideMinValue(divisor: Num) returns (r: Num)
    requires Signed(divisor) != 0
    ensures Signed(r) == Wrap(TruncDiv(-TWO63, Signed(divisor)))
    decreases 2, 1
  {
    ConstantValues();
    var d := Signed(divisor);
    if divisor == ONE || divisor == NEG_ONE {
      MinByUnit(d);
      return MIN_VALUE;
    }
    if divisor == MIN_VALUE {
      MinByItself(d, Signed(ONE));
      return ONE;
    }
    SignedInjective(divisor, ONE);
    SignedInjective(divisor, NEG_ONE);
    SignedInjective(divisor, MIN_VALUE);
    // here |divisor| >= 2, so |MIN_VALUE / divisor| < |MIN_VALUE|
    UnitCount();
    var halfThis := ShiftRightMasked(MIN_VALUE, ONE);
    HalfMinValue(Signed(halfThis), Signed(MIN_VALUE), Pow2(LowBits(ToInt(ONE), 6)));
    SignMeaning(halfThis);
    ghost var m, Q, R, q := HalfQuotient(Signed(halfThis), d);
    var half := Divide(halfThis, divisor);
    var approx := ShiftLeftMasked(half.value, ONE);
    Doubled(Signed(approx), Signed(half.value), q, Pow2(LowBits(ToInt(ONE), 6)));
    SignMeaning(approx);
    if approx == ZERO {
      MinLargeDivisor(d, m, Q, R);
      return if IsNegative(divisor) then ONE else NEG_ONE;
    }
    r := MinValueRest(divisor, approx, m, Q, R);
  }

  /** The end of the MIN_VALUE branch: with approx the doubled half quotient,
      `MIN_VALUE - divisor * approx` is divided once more and added to approx. */
  method MinValueRest(divisor: Num, approx: Num, ghost m: int, ghost Q: int, ghost R: int) returns (r: Num)
    requires m == Abs(Signed(divisor)) && 2 <= m && TWO62 == Q * m + R && 0 <= R < m && 1 <= Q
    requires Signed(approx) == 2 * (if Signed(divisor) < 0 then Q else -Q)
    ensures Signed(r) == Wrap(TruncDiv(-TWO63, Signed(divisor)))
    decreases 2, 0
  {
    var d := Signed(divisor);
    var product := Multiply(divisor, approx);
    var rem := Subtract(MIN_VALUE, product);
    ConstantValues();
    MinRemainder(d, m, Q, R, Signed(approx), Signed(product), Signed(MIN_VALUE), Signed(rem));
    SignMeaning(rem);
    SignMeaning(divisor);
    var rest := Divide(rem, divisor);
    MinRestQuotient(d, m, Q, R, Signed(approx), Signed(rem));
    r := Add(approx, rest.value);
    MinSum(Signed(r), Signed(approx), Signed(rest.value), TruncDiv(Signed(rem), d), TruncDiv(-TWO63, d));
  }

  /** The loop of `divideNums` for a non-negative dividend and a positive divisor:
      while the remainder is at least the divisor, a positive multiple of the
      divisor that does not exceed the remainder is moved into the result. */
  method DividePositive(val: Num, divisor: Num) returns (res: Num)
    requires Signed(val) >= 0 && Signed(divisor) > 0
    ensures Signed(res) == Wrap(TruncDiv(Signed(val), Signed(divisor)))
  {
    ConstantValues();
    var v, d := Signed(val), Signed(divisor);
    res := ZERO;
    var rem := val;
    var more := GreaterThanOrEqual(rem, divisor);
    while more
      invariant 0 <= Signed(res) && 0 <= Signed(rem)
      invariant Signed(res) * d + Signed(rem) == v
      invariant more <==> Signed(rem) >= d
      decreases Signed(rem)
    {
      assert 1 <= Signed(rem) && 1 * d <= Signed(rem);
      // the floating-point estimate of rem / divisor, once adjusted downward,
      // is a positive multiple count whose product stays at or below rem
      var approx :| 1 <= approx <= Signed(rem) && approx * d <= Signed(rem);
      LoopStep(Signed(res), approx, d, Signed(rem), v);
      var approxRes := FromNumber(IntValue(approx));
      var approxRem := Multiply(approxRes, divisor);
      var res' := Add(res, approxRes);
      var rem' := Subtract(rem, approxRem);
      StepValues(Signed(res), approx, d, Signed(rem), Signed(approxRes), Signed(approxRem),
                 Signed(res'), Signed(rem'));
      res, rem := res', rem';
      more := GreaterThanOrEqual(rem, divisor);
    }
    PositiveQuotient(v, d, Signed(res), Signed(rem));
    WrapInRange(Signed(res));
  }

  // ---------------------------------------------------------------------
  // Arithmetic behind the branches of Divide

  lemma TruncDivNegate(x: int, d: int)
    requires d != 0
    ensures TruncDiv(-x, -d) == TruncDiv(x, d)
    ensures TruncDiv(-x, d) == -TruncDiv(x, d)
    ensures TruncDiv(x, -d) == -TruncDiv(x, d)
  {
    if x == 0 {
      assert Abs(x) / Abs(d) == 0;
    }
  }

  lemma ZeroDividend(x: int, d: int, z: int)
    requires x == 0 && d != 0 && z == 0
    ensures z == Wrap(TruncDiv(x, d))
  {
    WrapInRange(0);
  }

  /** Any divisor at least as large as the dividend's magnitude gives 0. */
  lemma DivisorMinValue(x: int, d: int, z: int)
    requires -TWO63 < x < TWO63 && d == -TWO63 && z == 0
    ensures z == Wrap(TruncDiv(x, d))
  {
    DivModUnique(Abs(x), TWO63, 0, Abs(x));
    WrapInRange(0);
  }

  lemma BothNegated(v: int, d: int, nv: int, nd: int, q: int)
    requires d != 0 && nv == -v && nd == -d && q == Wrap(TruncDiv(nv, nd))
    ensures q == Wrap(TruncDiv(v, d))
  {
    TruncDivNegate(v, d);
  }

  /** Negating a non-negative quotient never wraps. */
  lemma NegatedQuotient(x: int, y: int, q: int, r: int, v: int, d: int)
    requires 0 <= x < TWO63 && y > 0 && q == Wrap(TruncDiv(x, y)) && r == Wrap(-q)
    requires d != 0 && ((v == -x && d == y) || (v == x && d == -y))
    ensures r == Wrap(TruncDiv(v, d))
  {
    TruncDivNegate(x, y);
    DivBounds(x, y);
    WrapInRange(TruncDiv(x, y));
    WrapInRange(-TruncDiv(x, y));
  }

  lemma LoopStep(res: int, a: int, d: int, rem: int, v: int)
    requires 0 <= res && 1 <= a && 1 <= d && a * d <= rem && res * d + rem == v && v < TWO63
    ensures 0 <= a <= a * d && 0 <= res + a < TWO63 && 0 <= rem - a * d
    ensures (res + a) * d + (rem - a * d) == v
  {
    MulLe(a, 1, d);
    MulLe(res + a, 1, d);
  }

  /** One round of the loop: none of the 64-bit operations wraps. */
  lemma StepValues(res: int, a: int, d: int, rem: int, ar: int, am: int, res': int, rem': int)
    requires 0 <= a <= a * d <= rem < TWO63 && 0 <= res + a < TWO63
    requires ar == a && am == Wrap(ar * d) && res' == Wrap(res + ar) && rem' == Wrap(rem - am)
    ensures res' == res + a && rem' == rem - a * d
  {
    WrapInRange(a * d);
    WrapInRange(res + a);
    WrapInRange(rem - a * d);
  }

  lemma PositiveQuotient(v: int, d: int, q: int, r: int)
    requires 0 <= v && 0 < d && 0 <= q && 0 <= r < d && q * d + r == v
    ensures TruncDiv(v, d) == q
  {
    DivModUnique(v, d, q, r);
  }

  lemma MinByUnit(d: int)
    requires d == 1 || d == -1
    ensures -TWO63 == Wrap(TruncDiv(-TWO63, d))
  {
    DivModUnique(TWO63, 1, TWO63, 0);
    WrapInRange(-TWO63);
    if d == -1 {
      WrapCongruent(TWO63, -TWO63, 1);
    }
  }

  lemma MinByItself(d: int, one: int)
    requires d == -TWO63 && one == 1
    ensures one == Wrap(TruncDiv(-TWO63, d))
  {
    DivModUnique(TWO63, TWO63, 1, 0);
    WrapInRange(1);
  }

  /** The shift count 1 as `shiftLeft(1)` and `shiftRight(1)` see it. */
  lemma UnitCount()
    ensures LowBits(ToInt(ONE), 6) == 1 && Pow2(1) == 2
  {
    LowSixBits(1);
    Pow2Values();
  }

  lemma HalfMinValue(x: int, y: int, p: int)
    requires y == -TWO63 && p == 2 && x == y / p
    ensures x == -TWO62
  {
    DivModUnique(y, 2, -TWO62, 0);
  }

  /** Halving MIN_VALUE before dividing: with |d| >= 2 the half quotient
      doubled still fits in 64 bits. */
  lemma HalfQuotient(x: int, d: int) returns (m: int, Q: int, R: int, q: int)
    requires x == -TWO62 && -TWO63 < d < TWO63 && d != 0 && d != 1 && d != -1
    ensures m == Abs(d) && 2 <= m < TWO63
    ensures TWO62 == Q * m + R && 0 <= R < m && 0 <= Q
    ensures q == TruncDiv(x, d) && q == (if d < 0 then Q else -Q) && -TWO62 <= 2 * q <= TWO62
  {
    q := TruncDiv(x, d);
    m := Abs(d);
    Q, R := TWO62 / m, TWO62 % m;
    DivMod(TWO62, m);
    DivBounds(TWO62, m);
    MulLe(Q, 2, m);
  }

  /** Doubling the half quotient: `shiftLeft(1)` of a value within 2^61 does not wrap. */
  lemma Doubled(a: int, h: int, q: int, p: int)
    requires -TWO62 <= 2 * q <= TWO62 && h == Wrap(q) && p == 2 && a == Wrap(h * p)
    ensures h == q && a == 2 * q
  {
    WrapInRange(q);
    WrapInRange(2 * q);
  }

  /** A zero half quotient means |d| > 2^62, so MIN_VALUE / d is 1 or -1. */
  lemma MinLargeDivisor(d: int, m: int, Q: int, R: int)
    requires m == Abs(d) && 2 <= m < TWO63 && TWO62 == Q * m + R && 0 <= R < m && Q == 0
    ensures TruncDiv(-TWO63, d) == (if d < 0 then 1 else -1)
    ensures Wrap(TruncDiv(-TWO63, d)) == TruncDiv(-TWO63, d)
  {
    DivModUnique(TWO63, m, 1, TWO63 - m);
    WrapInRange(1);
    WrapInRange(-1);
  }

  /** MIN_VALUE minus divisor times the doubled half quotient is -2R, with R the
      remainder of 2^62 by |d|. */
  lemma MinRemainder(d: int, m: int, Q: int, R: int, a: int, p: int, y: int, rem: int)
    requires m == Abs(d) && 2 <= m && TWO62 == Q * m + R && 0 <= R < m && 1 <= Q
    requires a == 2 * (if d < 0 then Q else -Q)
    requires p == Wrap(d * a) && y == -TWO63 && rem == Wrap(y - p)
    ensures rem == -2 * R && -TWO63 < rem <= 0
  {
    assert d * a == -2 * (Q * m);
    MulLe(Q, 1, m);
    WrapInRange(d * a);
    WrapInRange(y - d * a);
  }

  /** The remainder, divided once more, completes the quotient of MIN_VALUE. */
  lemma MinRestQuotient(d: int, m: int, Q: int, R: int, a: int, rem: int)
    requires m == Abs(d) && 2 <= m && TWO62 == Q * m + R && 0 <= R < m
    requires a == 2 * (if d < 0 then Q else -Q) && rem == -2 * R
    ensures -1 <= TruncDiv(rem, d) <= 1
    ensures a + TruncDiv(rem, d) == TruncDiv(-TWO63, d)
  {
    var t, r' := (2 * R) / m, (2 * R) % m;
    DivMod(2 * R, m);
    assert t <= 1 by {
      if t >= 2 {
        MulLe(m, 2, t);
      }
    }
    DivBounds(2 * R, m);
    assert TWO63 == (2 * Q + t) * m + r';
    DivModUnique(TWO63, m, 2 * Q + t, r');
  }

  /** The final `add` of the MIN_VALUE branch does not wrap. */
  lemma MinSum(r: int, a: int, s: int, t: int, goal: int)
    requires -1 <= t <= 1 && s == Wrap(t) && r == Wrap(a + s) && a + t == goal
    ensures r == Wrap(goal)
  {
    WrapInRange(t);
  }
}
