/** `fromStringToNum` and `fromNumToString` (src/utils/num.utils.ts): a CypherNum
    read from and written to text in radix 2 to 36, eight UTF-16 code units at a time
    on the way in and six digits at a time on the way out. */
module Int64Text {
  import opened JsInt32
  import opened Int64
  import opened Int64Division

  // ---------------------------------------------------------------------
  // JavaScript strings

  /** A UTF-16 code unit: what `length`, `substring`, `indexOf` and `parseInt` count and read. */
  type CodeUnit = c: int | 0 <= c < 0x1_0000

  /** A JavaScript string: a sequence of UTF-16 code units. */
  type JsString = seq<CodeUnit>

  /** The UTF-16 encoding of a string of Unicode characters: one code unit for a
      character of the Basic Multilingual Plane, a surrogate pair for any other. */
  function Utf16(s: string): JsString
    decreases |s|
  {
    if |s| == 0 then [] else CodeUnits(s[0]) + Utf16(s[1..])
  }

  /** One character in UTF-16: itself, or a high and a low surrogate. */
  function CodeUnits(c: char): JsString {
    var x := c as int;
    if x < 0x1_0000 then [x] else [0xD800 + (x - 0x1_0000) / 0x400, 0xDC00 + (x - 0x1_0000) % 0x400]
  }

  const MINUS: CodeUnit := 0x2D       // '-'
  const DIGIT_ZERO: CodeUnit := 0x30  // '0'

  /** The four literals `fromStringToNum` maps to ZERO, as code units. */
  const NAN_TEXT: JsString := [0x4E, 0x61, 0x4E]                                                  // "NaN"
  const INFINITY_TEXT: JsString := [0x49, 0x6E, 0x66, 0x69, 0x6E, 0x69, 0x74, 0x79]               // "Infinity"
  const PLUS_INFINITY_TEXT: JsString := [0x2B, 0x49, 0x6E, 0x66, 0x69, 0x6E, 0x69, 0x74, 0x79]    // "+Infinity"
  const MINUS_INFINITY_TEXT: JsString := [0x2D, 0x49, 0x6E, 0x66, 0x69, 0x6E, 0x69, 0x74, 0x79]   // "-Infinity"

  // ---------------------------------------------------------------------
  // Digits, as `parseInt` and `Number.prototype.toString(radix)` see them

  predicate ValidRadix(radix: int) {
    2 <= radix <= 36
  }

  function Pow(b: int, n: nat): int {
    if n == 0 then 1 else b * Pow(b, n - 1)
  }

  /** The code unit `toString(radix)` writes for a digit: `0`-`9`, then `a`-`z`. */
  function DigitUnit(d: nat): CodeUnit
    requires d < 36
  {
    if d < 10 then 0x30 + d else 0x57 + d
  }

  /** The value `parseInt` gives a code unit in any radix (letters in either
      case); 36 for a code unit that is a digit in no radix. */
  function DigitOf(c: CodeUnit): (d: nat)
    ensures d <= 36
  {
    if 0x30 <= c <= 0x39 then c - 0x30        // '0'..'9'
    else if 0x61 <= c <= 0x7A then c - 0x57   // 'a'..'z'
    else if 0x41 <= c <= 0x5A then c - 0x37   // 'A'..'Z'
    else 36
  }

  predicate AllDigits(s: JsString, radix: int) {
    forall i :: 0 <= i < |s| ==> DigitOf(s[i]) < radix
  }

  /** The code units `toString` writes: decimal digits and lower-case letters. */
  predicate LowerDigit(c: CodeUnit) {
    0x30 <= c <= 0x39 || 0x61 <= c <= 0x7A
  }

  /** The positional value of a digit string, most significant digit first. */
  function DigitsValue(s: JsString, radix: int): int {
    if |s| == 0 then 0 else DigitsValue(s[..|s| - 1], radix) * radix + DigitOf(s[|s| - 1])
  }

  /** The length of the longest prefix of s made of digits of the radix. */
  function DigitPrefix(s: JsString, radix: int): (k: nat)
    ensures k <= |s|
  {
    if |s| == 0 || DigitOf(s[0]) >= radix then 0 else 1 + DigitPrefix(s[1..], radix)
  }

  /** `parseInt(s, radix)` on one group: the value of its longest digit prefix,
      NaN when the group does not start with a digit. */
  function ParseInt(s: JsString, radix: int): JsNumber {
    var k := DigitPrefix(s, radix);
    if k == 0 then NaN else IntValue(DigitsValue(s[..k], radix))
  }

  /** What `fromNumber(parseInt(group, radix))` contributes: NaN becomes ZERO. */
  function GroupValue(g: JsString, radix: int): int {
    match ParseInt(g, radix)
    case IntValue(v) => v
    case _ => 0
  }

  /** The value `fromStringToNum` accumulates, before reduction to 64 bits,
      from acc on: the groups of eight code units, cut from the left (the last
      one may be shorter), each shift the value by radix^size and add their
      `parseInt` value. */
  function GroupsFrom(acc: int, s: JsString, radix: int): int
    decreases |s|
  {
    if |s| == 0 then acc
    else
      var size := Min(8, |s|);
      GroupsFrom(Shift(acc, s[..size], radix), s[size..], radix)
  }

  /** One group shifted into the accumulated value. */
  function Shift(acc: int, group: JsString, radix: int): int {
    acc * Pow(radix, |group|) + GroupValue(group, radix)
  }

  function GroupsValue(s: JsString, radix: int): int {
    GroupsFrom(0, s, radix)
  }

  /** The first index of c in s, -1 when c does not occur (`indexOf`). */
  function IndexOf(s: JsString, c: CodeUnit): (p: int)
    ensures -1 <= p < |s|
    ensures p == -1 <==> c !in s
    ensures p >= 0 ==> s[p] == c && c !in s[..p]
  {
    if |s| == 0 then -1
    else if s[0] == c then 0
    else
      var p := IndexOf(s[1..], c);
      assert p >= 0 ==> s[..p + 1] == [s[0]] + s[1..][..p];
      if p == -1 then -1 else p + 1
  }

  /** The strings `fromStringToNum` maps to ZERO before looking at the radix. */
  predicate IsSpecial(s: JsString) {
    s == NAN_TEXT || s == INFINITY_TEXT || s == PLUS_INFINITY_TEXT || s == MINUS_INFINITY_TEXT
  }

  /** `fromStringToNum` on integers: the errors it throws, in the order it checks
      them, and otherwise the value it reads, not yet reduced to 64 bits. */
  function Parse(str: JsString, radix: int): Result<int>
    decreases |str|
  {
    if |str| == 0 then Failure(EmptyString)
    else if IsSpecial(str) then Success(0)
    else if !ValidRadix(radix) then Failure(InvalidRadix(radix))
    else
      var p := IndexOf(str, MINUS);
      if p > 0 then Failure(InteriorMinus)
      else if p == 0 then
        match Parse(str[1..], radix)
        case Success(x) => Success(-x)
        case Failure(e) => Failure(e)
      else Success(GroupsValue(str, radix))
  }

  /** `Number.prototype.toString(radix)` on a non-negative integer: its digits
      without leading zeros. */
  function Digits(n: nat, radix: int): (s: JsString)
    requires ValidRadix(radix)
    ensures |s| >= 1
    decreases n
  {
    if n < radix then [DigitUnit(n)]
    else
      Shrink(n, radix);
      Digits(n / radix, radix) + [DigitUnit(n % radix)]
  }

  /** `Number.prototype.toString(radix)` on an integer: a minus sign, then the digits. */
  function Render(x: int, radix: int): JsString
    requires ValidRadix(radix)
  {
    if x < 0 then [MINUS] + Digits(-x, radix) else Digits(x, radix)
  }

  /** The k low digits of n, with leading zeros. */
  function Fixed(n: nat, k: nat, radix: int): (s: JsString)
    requires ValidRadix(radix)
    ensures |s| == k
  {
    if k == 0 then []
    else
      DivBounds(n, radix);
      Fixed(n / radix, k - 1, radix) + [DigitUnit(n % radix)]
  }

  function Zeros(n: nat): (s: JsString)
    ensures |s| == n && forall i :: 0 <= i < n ==> s[i] == DIGIT_ZERO
  {
    seq(n, _ => DIGIT_ZERO)
  }

  // ---------------------------------------------------------------------
  // fromStringToNum

  /** `fromStringToNum`: the errors of Parse, in its order, and otherwise the
      value Parse reads reduced to 64 bits. */
  method FromString(str: JsString, radix: int) returns (r: Result<Num>)
    ensures Parse(str, radix).Failure? ==> r == Failure(Parse(str, radix).error)
    ensures Parse(str, radix).Success? ==> r.Success? && Signed(r.value) == Wrap(Parse(str, radix).value)
    decreases |str|
  {
    if |str| == 0 {
      return Failure(EmptyString);
    }
    if str == NAN_TEXT || str == INFINITY_TEXT || str == PLUS_INFINITY_TEXT || str == MINUS_INFINITY_TEXT {
      ConstantValues();
      WrapInRange(0);
      return Success(ZERO);
    }
    if radix < 2 || radix > 36 {
      return Failure(InvalidRadix(radix));
    }
    var p := IndexOf(str, MINUS);
    if p > 0 {
      return Failure(InteriorMinus);
    } else if p == 0 {
      var rest := FromString(str[1..], radix);
      if rest.Failure? {
        return rest;
      }
      WrapNegate(Parse(str[1..], radix).value);
      return Success(Negate(rest.value));
    }
    var result := ParseGroups(str, radix);
    return Success(result);
  }

  /** The loop of `fromStringToNum`: groups of eight code units from the left. */
  method ParseGroups(str: JsString, radix: int) returns (result: Num)
    requires ValidRadix(radix)
    ensures Signed(result) == Wrap(GroupsValue(str, radix))
  {
    var radixToPower := RadixToPower(radix, 8);
    result := ZERO;
    assert Signed(result) == Wrap(0) by {
      ConstantValues();
      WrapInRange(0);
    }
    var i := 0;
    ghost var acc := 0;
    while i < |str|
      invariant 0 <= i
      invariant GroupsValue(str, radix) == GroupsFrom(acc, str[Min(i, |str|)..], radix)
      invariant Signed(result) == Wrap(acc)
    {
      var size := Min(8, |str| - i);
      var group := str[i..i + size];
      result := ShiftGroup(result, group, radix, radixToPower, acc);
      GroupAt(str, radix, i, acc);
      acc := Shift(acc, group, radix);
      i := i + 8;
    }
  }

  /** `radixToPower`: radix^k as a CypherNum, for the eight-code-unit groups of
      `fromStringToNum` and the six-digit blocks of `fromNumToString`. */
  method RadixToPower(radix: int, k: nat) returns (p: Num)
    requires ValidRadix(radix) && (k == 6 || k == 8)
    ensures Signed(p) == Pow(radix, k) && 2 <= Signed(p)
    ensures k == 6 ==> Signed(p) < TWO32
  {
    PowBounds(radix);
    p := FromNumber(IntValue(Pow(radix, k)));
  }

  /** One round of the loop of `fromStringToNum`: the group's `parseInt` value
      is added to the result shifted by radix^8, or by radix^size for a last,
      shorter group. */
  method ShiftGroup(result: Num, group: JsString, radix: int, radixToPower: Num, ghost acc: int) returns (next: Num)
    requires ValidRadix(radix) && 1 <= |group| <= 8 && Signed(radixToPower) == Pow(radix, 8)
    requires Signed(result) == Wrap(acc)
    ensures Signed(next) == Wrap(Shift(acc, group, radix))
  {
    var size := |group|;
    var value := ParseInt(group, radix);
    ghost var g, p := GroupValue(group, radix), Pow(radix, size);
    GroupRange(group, radix);
    PowBounds(radix);
    assert Signed(FromNumber(value)) == g by {
      ConstantValues();
    }
    var scaled;
    if size < 8 {
      var power := FromNumber(IntValue(Pow(radix, size)));
      assert Signed(power) == p by {
        PowAtMost(radix, size, 8);
      }
      scaled := Multiply(result, power);
    } else {
      scaled := Multiply(result, radixToPower);
    }
    next := Add(scaled, FromNumber(value));
    WrapAdd(Signed(result) * p, g);
    WrapShift(Signed(next), Signed(result), acc, p, g);
  }

  function Min(a: int, b: int): int {
    if a < b then a else b
  }

  // ---------------------------------------------------------------------
  // fromNumToString

  /** The recursion in `fromNumToString` goes from MIN_VALUE to a negative
      quotient, and from negative values to their negation. */
  function RenderRank(v: Num): nat {
    if v == MIN_VALUE then 2 else if IsNegative(v) then 1 else 0
  }

  /** `fromNumToString`: RangeError outside radix 2 to 36, otherwise exactly what
      `Number.prototype.toString(radix)` writes for the 64-bit value. */
  method ToString(val: Num, radix: int) returns (r: Result<JsString>)
    ensures !ValidRadix(radix) ==> r == Failure(RadixRange(radix))
    ensures ValidRadix(radix) ==> r == Success(Render(Signed(val), radix))
    decreases RenderRank(val)
  {
    if radix < 2 || radix > 36 {
      return Failure(RadixRange(radix));
    }
    SignMeaning(val);
    if IsZero(val) {
      return Success([DIGIT_ZERO]);
    }
    if IsNegative(val) {
      if val == MIN_VALUE {
        // MIN_VALUE has no negation: split off its last digit first
        var radixNum := FromNumber(IntValue(radix));
        var div := Divide(val, radixNum);
        var product := Multiply(div.value, radixNum);
        var rem := Subtract(product, val);
        ghost var q := MinValueDigit(radix, Signed(radixNum), Signed(div.value), Signed(product), Signed(rem));
        SignMeaning(div.value);
        SmallToInt(rem);
        var head := ToString(div.value, radix);
        MinValueRender(radix, q, Signed(rem));
        return Success(head.value + Render(ToInt(rem), radix));
      }
      NegateExact(val);
      SignMeaning(Negate(val));
      var tail := ToString(Negate(val), radix);
      return Success([MINUS] + tail.value);
    }
    var digits := ToStringPositive(val, radix);
    return Success(digits);
  }

  /** The loop of `fromNumToString` for a positive value: each round divides by
      radix^6 and prepends the remainder's six digits, zero-padded, until the
      quotient is zero; the last (leading) block is not padded. */
  method ToStringPositive(val: Num, radix: int) returns (s: JsString)
    requires ValidRadix(radix) && Signed(val) > 0
    ensures s == Digits(Signed(val), radix)
  {
    var radixToPower := RadixToPower(radix, 6);
    var rem := val;
    var result: JsString := [];
    while true
      invariant Signed(rem) > 0
      invariant Digits(Signed(val), radix) == Digits(Signed(rem), radix) + result
      decreases Signed(rem)
    {
      var remDiv, intval := LowBlock(rem, radixToPower, radix);
      var digits := Render(intval, radix);
      rem := remDiv;
      SignMeaning(rem);
      if IsZero(rem) {
        return digits + result;
      }
      PaddedDigits(intval, 6, radix);
      digits := PadBlock(digits);
      NextBlock(Signed(val), Signed(rem), intval, Signed(radixToPower), radix, result, digits);
      result := digits + result;
    }
  }

  /** One round of the loop of `fromNumToString`: the quotient by radix^6 and
      the remainder `intval`, computed as divide, multiply, subtract and `>>> 0`. */
  method LowBlock(rem: Num, radixToPower: Num, radix: int) returns (q: Num, intval: nat)
    requires ValidRadix(radix) && Signed(rem) > 0
    requires Signed(radixToPower) == Pow(radix, 6) && 2 <= Signed(radixToPower) < TWO32
    ensures 0 <= Signed(q) < Signed(rem) && intval < Pow(radix, 6)
    ensures Signed(rem) == Signed(q) * Pow(radix, 6) + intval
  {
    var remDiv := Divide(rem, radixToPower);
    var product := Multiply(remDiv.value, radixToPower);
    var low := Subtract(rem, product);
    BlockValues(Signed(rem), Signed(radixToPower), Signed(remDiv.value), Signed(product), Signed(low));
    LowWord(low);
    intval := UShr(ToInt(low), 0);
    q := remDiv.value;
  }

  /** The padding loop of `fromNumToString`: zeros in front up to six digits. */
  method PadBlock(digits: JsString) returns (padded: JsString)
    requires |digits| <= 6
    ensures padded == Zeros(6 - |digits|) + digits
  {
    padded := digits;
    assert Zeros(0) + digits == digits;
    while |padded| < 6
      invariant |digits| <= |padded| <= 6
      invariant padded == Zeros(|padded| - |digits|) + digits
    {
      assert [DIGIT_ZERO] + Zeros(|padded| - |digits|) == Zeros(|padded| + 1 - |digits|);
      padded := [DIGIT_ZERO] + padded;
    }
  }

  /** `fromStringToNum(fromNumToString(v, radix), radix) == v` for every value and radix. */
  method RoundTrip(v: Num, radix: int) returns (back: Result<Num>)
    requires ValidRadix(radix)
    ensures back == Success(v)
  {
    var text := ToString(v, radix);
    back := FromString(text.value, radix);
    ParseRender(Signed(v), radix);
    WrapInRange(Signed(v));
    SignedInjective(back.value, v);
  }

  // ---------------------------------------------------------------------
  // Properties of the text functions

  lemma DigitRoundTrip(d: nat)
    requires d < 36
    ensures DigitOf(DigitUnit(d)) == d && LowerDigit(DigitUnit(d))
    ensures DigitUnit(d) == DIGIT_ZERO <==> d == 0
  {
  }

  /** The prefix `parseInt` reads is all digits and stops at the first code unit
      that is not one. */
  lemma {:induction false} DigitPrefixSpec(s: JsString, radix: int)
    ensures AllDigits(s[..DigitPrefix(s, radix)], radix)
    ensures DigitPrefix(s, radix) < |s| ==> DigitOf(s[DigitPrefix(s, radix)]) >= radix
    ensures AllDigits(s, radix) ==> DigitPrefix(s, radix) == |s|
    decreases |s|
  {
    if |s| > 0 && DigitOf(s[0]) < radix {
      var k := DigitPrefix(s, radix);
      DigitPrefixSpec(s[1..], radix);
      assert forall i :: 1 <= i < k ==> s[..k][i] == s[1..][..k - 1][i - 1];
      assert AllDigits(s, radix) ==> AllDigits(s[1..], radix);
    }
  }

  /** `parseInt` gives NaN exactly when the first code unit is not a digit, and
      the value of the whole string when every code unit is one. */
  lemma ParseIntSpec(s: JsString, radix: int)
    ensures ParseInt(s, radix).IntValue? <==> |s| > 0 && DigitOf(s[0]) < radix
    ensures AllDigits(s, radix) && |s| > 0 ==> ParseInt(s, radix) == IntValue(DigitsValue(s, radix))
  {
    DigitPrefixSpec(s, radix);
    assert AllDigits(s, radix) ==> s[..|s|] == s;
  }

  /** Appending digits shifts the value of what is before them. */
  lemma {:induction false} DigitsConcat(a: JsString, b: JsString, radix: int)
    ensures DigitsValue(a + b, radix) == DigitsValue(a, radix) * Pow(radix, |b|) + DigitsValue(b, radix)
    decreases |b|
  {
    var ab := a + b;
    if |b| == 0 {
      assert ab == a;
    } else {
      var b', c := b[..|b| - 1], b[|b| - 1];
      assert ab[..|ab| - 1] == a + b' && ab[|ab| - 1] == c;
      DigitsConcat(a, b', radix);
      Horner(DigitsValue(a, radix), Pow(radix, |b'|), DigitsValue(b', radix), radix, DigitOf(c));
    }
  }

  lemma Horner(x: int, p: int, y: int, r: int, d: int)
    ensures (x * p + y) * r + d == x * (r * p) + (y * r + d)
  {
  }

  /** Cutting a digit string into groups of eight does not change its value:
      groups read after a digit prefix continue its digits. */
  lemma {:induction false} GroupsOfDigits(w: JsString, k: nat, radix: int)
    requires ValidRadix(radix) && k <= |w| && AllDigits(w, radix)
    ensures GroupsFrom(DigitsValue(w[..k], radix), w[k..], radix) == DigitsValue(w, radix)
    decreases |w| - k
  {
    if k == |w| {
      assert w[..k] == w;
    } else {
      var size := Min(8, |w| - k);
      var x, y := DigitsValue(w[..k], radix), DigitsValue(w[..k + size], radix);
      assert GroupsFrom(x, w[k..], radix) == GroupsFrom(Shift(x, w[k..k + size], radix), w[k + size..], radix) by {
        assert w[k..][..size] == w[k..k + size] && w[k..][size..] == w[k + size..];
      }
      ShiftDigits(w, k, k + size, radix);
      GroupsOfDigits(w, k + size, radix);
    }
  }

  /** A group of digits shifted in continues the digits read so far. */
  lemma ShiftDigits(w: JsString, k: nat, m: nat, radix: int)
    requires ValidRadix(radix) && k < m <= |w| && AllDigits(w, radix)
    ensures Shift(DigitsValue(w[..k], radix), w[k..m], radix) == DigitsValue(w[..m], radix)
  {
    var a := w[k..m];
    assert AllDigits(a, radix);
    assert w[..k] + a == w[..m];
    ParseIntSpec(a, radix);
    DigitsConcat(w[..k], a, radix);
  }

  /** The digits `toString` writes read back as the number. */
  lemma {:induction false} DigitsInverse(n: nat, radix: int)
    requires ValidRadix(radix)
    ensures DigitsValue(Digits(n, radix), radix) == n
    ensures AllDigits(Digits(n, radix), radix)
    ensures forall i :: 0 <= i < |Digits(n, radix)| ==> LowerDigit(Digits(n, radix)[i])
    decreases n
  {
    var q, t := n / radix, n % radix;
    DivMod(n, radix);
    DigitRoundTrip(t);
    if n < radix {
      DivModUnique(n, radix, 0, n);
      assert Digits(n, radix) == [DigitUnit(n)];
      assert [DigitUnit(n)][..0] == [];
    } else {
      Shrink(n, radix);
      var d := Digits(q, radix);
      DigitsInverse(q, radix);
      var s := d + [DigitUnit(t)];
      assert Digits(n, radix) == s;
      assert s[..|s| - 1] == d && s[|s| - 1] == DigitUnit(t);
    }
  }

  /** Division by the radix makes a positive number smaller. */
  lemma Shrink(n: int, radix: int)
    requires n >= 1 && radix >= 2
    ensures 0 <= n / radix < n
  {
    DivMod(n, radix);
    DivBounds(n, radix);
    if n / radix >= n {
      MulLe(n, 2, radix);
    }
  }

  /** `toString` never writes a leading zero, except for zero itself. */
  lemma {:induction false} NoLeadingZero(n: nat, radix: int)
    requires ValidRadix(radix)
    ensures Digits(n, radix)[0] == DIGIT_ZERO <==> n == 0
    decreases n
  {
    if n < radix {
      DigitRoundTrip(n);
    } else {
      Shrink(n, radix);
      NoLeadingZero(n / radix, radix);
      assert n / radix != 0 by {
        DivMod(n, radix);
      }
    }
  }

  /** Digit strings that `toString` writes are read back by `fromStringToNum`. */
  lemma ParseDigits(n: nat, radix: int)
    requires ValidRadix(radix)
    ensures Parse(Digits(n, radix), radix) == Success(n)
    ensures Digits(n, radix)[0] != MINUS && Digits(n, radix)[0] != INFINITY_TEXT[0]
  {
    var d := Digits(n, radix);
    DigitsInverse(n, radix);
    GroupsOfDigits(d, 0, radix);
    assert d[..0] == [] && d[0..] == d;
    assert LowerDigit(d[0]);
    assert !IsSpecial(d);
    assert MINUS !in d by {
      forall i | 0 <= i < |d|
        ensures d[i] != MINUS
      {
        assert LowerDigit(d[i]);
      }
    }
  }

  /** Reading back what `fromNumToString` writes gives the value back, for any integer. */
  lemma ParseRender(x: int, radix: int)
    requires ValidRadix(radix)
    ensures Parse(Render(x, radix), radix) == Success(x)
  {
    if x < 0 {
      var d := Digits(-x, radix);
      ParseDigits(-x, radix);
      var s := [MINUS] + d;
      assert s[1..] == d && s[0] == MINUS && s[1] == d[0];
      assert !IsSpecial(s) by {
        assert s != MINUS_INFINITY_TEXT by {
          assert MINUS_INFINITY_TEXT[1] == INFINITY_TEXT[0];
        }
      }
      assert IndexOf(s, MINUS) == 0;
      assert Parse(s[1..], radix) == Success(-x);
      assert Render(x, radix) == s;
    } else {
      ParseDigits(x, radix);
    }
  }

  /** The k low digits of q * radix^k + t are the k digits of t. */
  lemma {:induction false} BlockSplit(q: int, t: int, k: nat, radix: int)
    requires ValidRadix(radix) && q > 0 && 0 <= t < Pow(radix, k)
    ensures Digits(q * Pow(radix, k) + t, radix) == Digits(q, radix) + Fixed(t, k, radix)
    decreases k
  {
    if k == 0 {
      assert t == 0;
    } else {
      var n := q * Pow(radix, k) + t;
      BlockArith(q, t, radix, Pow(radix, k - 1), Pow(radix, k));
      assert Digits(n, radix) == Digits(n / radix, radix) + [DigitUnit(n % radix)];
      BlockSplit(q, t / radix, k - 1, radix);
    }
  }

  /** Dividing q * radix^k + t by the radix, for t < radix^k. */
  lemma BlockArith(q: int, t: int, radix: int, p: int, pk: int)
    requires 2 <= radix && q > 0 && 0 <= t < pk && pk == radix * p
    ensures (q * pk + t) / radix == q * p + t / radix && (q * pk + t) % radix == t % radix
    ensures q * pk + t >= radix && 0 <= t / radix < p
  {
    var n, m := q * pk + t, q * p + t / radix;
    assert p > 0 by {
      if p <= 0 {
        MulLe(radix, p, 0);
      }
    }
    assert 0 <= t / radix < p by {
      DivBounds(t, radix);
      if t / radix >= p {
        DivMod(t, radix);
        MulLe(radix, p, t / radix);
      }
    }
    assert n == m * radix + t % radix && 0 <= t % radix < radix by {
      DivMod(t, radix);
      assert q * pk == (q * p) * radix;
    }
    DivModUnique(n, radix, m, t % radix);
    assert n >= radix by {
      MulAtLeast(q, p);
      MulAtLeast(m, radix);
    }
  }

  /** One round of ToStringPositive: the padded block goes in front of the result. */
  lemma NextBlock(v: nat, q: int, t: nat, p: int, radix: int, result: JsString, block: JsString)
    requires ValidRadix(radix) && q > 0 && t < p && p == Pow(radix, 6)
    requires Digits(v, radix) == Digits(q * p + t, radix) + result
    requires |Digits(t, radix)| <= 6 && block == Zeros(6 - |Digits(t, radix)|) + Digits(t, radix)
    ensures Digits(v, radix) == Digits(q, radix) + (block + result)
  {
    PaddedDigits(t, 6, radix);
    BlockSplit(q, t, 6, radix);
  }

  /** The padding loop: the k low digits of t < radix^k are the digits of t
      after as many zeros as they fall short of k. */
  lemma {:induction false} PaddedDigits(t: nat, k: nat, radix: int)
    requires ValidRadix(radix) && k >= 1 && t < Pow(radix, k)
    ensures |Digits(t, radix)| <= k
    ensures Fixed(t, k, radix) == Zeros(k - |Digits(t, radix)|) + Digits(t, radix)
    decreases k
  {
    DivMod(t, radix);
    if t < radix {
      DivModUnique(t, radix, 0, t);
      FixedZero(k - 1, radix);
    } else {
      var p := Pow(radix, k - 1);
      assert k >= 2;
      assert t / radix < p by {
        if t / radix >= p {
          MulLe(radix, p, t / radix);
        }
      }
      PaddedDigits(t / radix, k - 1, radix);
    }
  }

  lemma {:induction false} FixedZero(k: nat, radix: int)
    requires ValidRadix(radix)
    ensures Fixed(0, k, radix) == Zeros(k)
  {
    if k > 0 {
      FixedZero(k - 1, radix);
    }
  }

  /** A string of characters of the Basic Multilingual Plane is one code unit
      per character, each the character's own code. */
  lemma {:induction false} BmpUnits(s: string)
    requires forall i :: 0 <= i < |s| ==> (s[i] as int) < 0x1_0000
    ensures |Utf16(s)| == |s|
    ensures forall i :: 0 <= i < |s| ==> Utf16(s)[i] == s[i] as int
    decreases |s|
  {
    if |s| > 0 {
      BmpUnits(s[1..]);
      assert forall i :: 1 <= i < |s| ==> s[1..][i - 1] == s[i];
    }
  }

  /** The literals the source compares against and writes, as the code units they are. */
  lemma SpecialTexts()
    ensures Utf16("NaN") == NAN_TEXT && Utf16("Infinity") == INFINITY_TEXT
    ensures Utf16("+Infinity") == PLUS_INFINITY_TEXT && Utf16("-Infinity") == MINUS_INFINITY_TEXT
    ensures Utf16("-") == [MINUS] && Utf16("0") == [DIGIT_ZERO]
  {
    NanText("NaN");
    InfinityText("Infinity");
    PlusInfinityText("+Infinity");
    MinusInfinityText("-Infinity");
  }

  // One literal per lemma, named by a parameter so that the verifier follows
  // BmpUnits instead of evaluating Utf16 on the literal.
  lemma NanText(t: string) requires t == "NaN" ensures Utf16(t) == NAN_TEXT { BmpUnits(t); }
  lemma InfinityText(t: string) requires t == "Infinity" ensures Utf16(t) == INFINITY_TEXT { BmpUnits(t); }
  lemma PlusInfinityText(t: string) requires t == "+Infinity" ensures Utf16(t) == PLUS_INFINITY_TEXT { BmpUnits(t); }
  lemma MinusInfinityText(t: string) requires t == "-Infinity" ensures Utf16(t) == MINUS_INFINITY_TEXT { BmpUnits(t); }

  /** `fromStringToNum` quirk: each '-' at the front negates once more, so "--5" reads as 5. */
  lemma DoubleMinus()
    ensures Parse(Utf16("--5"), 10) == Success(5)
  {
    QuirkTexts("--5", "12z", "z");
    DoubleMinusUnits();
  }

  /** `fromStringToNum` quirk: `parseInt` stops at the first code unit that is not a
      digit, so "12z" reads as 12 and a group that starts with one reads as 0. */
  lemma DigitPrefixQuirk()
    ensures Parse(Utf16("12z"), 10) == Success(12)
    ensures Parse(Utf16("z"), 10) == Success(0)
  {
    QuirkTexts("--5", "12z", "z");
    DigitPrefixUnits();
  }

  lemma QuirkTexts(a: string, b: string, c: string)
    requires a == "--5" && b == "12z" && c == "z"
    ensures Utf16(a) == [MINUS, MINUS, 0x35] && Utf16(b) == [0x31, 0x32, 0x7A] && Utf16(c) == [0x7A]
  {
    BmpUnits(a);
    BmpUnits(b);
    BmpUnits(c);
  }

  lemma DoubleMinusUnits()
    ensures Parse([MINUS, MINUS, 0x35], 10) == Success(5)
  {
    var s: JsString := [MINUS, MINUS, 0x35];
    var t, five: JsString := [MINUS, 0x35], [0x35];
    assert s[1..] == t && t[1..] == five;
    assert IndexOf(five, MINUS) == -1;
    assert DigitPrefix(five, 10) == 1;
    assert Parse(five, 10) == Success(5) by {
      assert five[..1] == five && five[1..] == [];
    }
    assert Parse(t, 10) == Success(-5);
    assert Parse(s, 10) == Success(5);
  }

  lemma DigitPrefixUnits()
    ensures Parse([0x31, 0x32, 0x7A], 10) == Success(12)
    ensures Parse([0x7A], 10) == Success(0)
  {
    var s: JsString := [0x31, 0x32, 0x7A];
    assert IndexOf(s, MINUS) == -1 by {
      assert s[1..] == [0x32, 0x7A] && s[1..][1..] == [0x7A] && s[1..][1..][1..] == [];
    }
    assert DigitPrefix(s, 10) == 2 by {
      assert s[1..] == [0x32, 0x7A] && s[1..][1..] == [0x7A];
    }
    assert DigitsValue(s[..2], 10) == 12 by {
      var e: JsString := [];
      DigitSnoc(e, 0x31, 10);
      DigitSnoc(e + [0x31], 0x32, 10);
      assert e + [0x31] + [0x32] == s[..2];
    }
    assert s[..Min(8, |s|)] == s && s[Min(8, |s|)..] == [];
    assert GroupsValue(s, 10) == 12;
    var z: JsString := [0x7A];
    assert IndexOf(z, MINUS) == -1;
    assert z[..Min(8, 1)] == z && z[Min(8, 1)..] == [];
    assert GroupsValue(z, 10) == 0;
  }

  /** `fromStringToNum` groups code units, not characters: a character outside
      the Basic Multilingual Plane is two code units, so the eight characters
      "1234567😀" are cut into "1234567" plus the high surrogate, then the low
      surrogate alone, and read as 1234567 * 10 + 0. */
  lemma SurrogatePairGroups()
    ensures |"1234567\U{1F600}"| == 8
    ensures Parse(Utf16("1234567\U{1F600}"), 10) == Success(12345670)
  {
    SurrogateText("1234567\U{1F600}");
    SurrogateUnitsGroups();
  }

  const SURROGATE_TEXT: JsString := [0x31, 0x32, 0x33, 0x34, 0x35, 0x36, 0x37, 0xD83D, 0xDE00]

  lemma SurrogateText(t: string)
    requires t == "1234567\U{1F600}"
    ensures Utf16(t) == SURROGATE_TEXT
  {
    var d, e := t[..7], t[7..];
    BmpUnits(d);
    Utf16Append(d, e);
    assert t == d + e;
  }

  /** The encoding of a concatenation is the concatenation of the encodings. */
  lemma {:induction false} Utf16Append(a: string, b: string)
    ensures Utf16(a + b) == Utf16(a) + Utf16(b)
    decreases |a|
  {
    if |a| == 0 {
      assert a + b == b;
    } else {
      Utf16Append(a[1..], b);
      calc {
        Utf16(a + b);
        { assert (a + b)[0] == a[0] && (a + b)[1..] == a[1..] + b; }
        CodeUnits(a[0]) + Utf16(a[1..] + b);
        CodeUnits(a[0]) + (Utf16(a[1..]) + Utf16(b));
        (CodeUnits(a[0]) + Utf16(a[1..])) + Utf16(b);
      }
    }
  }

  lemma SurrogateUnitsGroups()
    ensures Parse(SURROGATE_TEXT, 10) == Success(12345670)
  {
    var s := SURROGATE_TEXT;
    var g, h := s[..8], s[8..];
    assert h == [0xDE00];
    assert MINUS !in s;
    assert !IsSpecial(s) by {
      assert s[0] != NAN_TEXT[0] && s[0] != INFINITY_TEXT[0] && s[0] != PLUS_INFINITY_TEXT[0] && s[0] != MINUS_INFINITY_TEXT[0];
    }
    assert DigitPrefix(g, 10) == 7 by {
      assert DigitOf(g[7]) == 36;
      assert forall i :: 0 <= i < 7 ==> DigitOf(g[i]) < 10;
      PrefixAllDigits(g, 7, 10);
    }
    assert DigitsValue(g[..7], 10) == 1234567 by {
      DigitsOfSeven(g[..7]);
    }
    assert GroupValue(h, 10) == 0 by {
      assert DigitPrefix(h, 10) == 0;
    }
    assert GroupsFrom(0, s, 10) == GroupsFrom(1234567, h, 10);
    assert GroupsFrom(1234567, h, 10) == 12345670 by {
      assert h[..Min(8, |h|)] == h && h[Min(8, |h|)..] == [];
    }
  }

  /** A prefix of digits followed by a non-digit is exactly what `parseInt` reads. */
  lemma {:induction false} PrefixAllDigits(s: JsString, k: nat, radix: int)
    requires k < |s| && DigitOf(s[k]) >= radix
    requires forall i :: 0 <= i < k ==> DigitOf(s[i]) < radix
    ensures DigitPrefix(s, radix) == k
    decreases k
  {
    if k > 0 {
      PrefixAllDigits(s[1..], k - 1, radix);
    }
  }

  lemma DigitsOfSeven(d: JsString)
    requires d == [0x31, 0x32, 0x33, 0x34, 0x35, 0x36, 0x37]
    ensures DigitsValue(d, 10) == 1234567
  {
    var e: JsString := [];
    DigitSnoc(e, 0x31, 10);
    e := e + [0x31];
    DigitSnoc(e, 0x32, 10);
    e := e + [0x32];
    DigitSnoc(e, 0x33, 10);
    e := e + [0x33];
    DigitSnoc(e, 0x34, 10);
    e := e + [0x34];
    DigitSnoc(e, 0x35, 10);
    e := e + [0x35];
    DigitSnoc(e, 0x36, 10);
    e := e + [0x36];
    DigitSnoc(e, 0x37, 10);
    e := e + [0x37];
    assert e == d;
  }

  /** A digit appended at the end: the value so far times the radix, plus the digit. */
  lemma DigitSnoc(a: JsString, c: CodeUnit, radix: int)
    ensures DigitsValue(a + [c], radix) == DigitsValue(a, radix) * radix + DigitOf(c)
  {
    assert (a + [c])[..|a|] == a;
  }

  /** The errors of `fromStringToNum`, in the order it checks them: the empty
      string, the four special literals (whatever the radix), a radix out of
      range, and a '-' anywhere but at the start. A '-' at the start negates. */
  lemma ParseErrors(s: JsString, radix: int)
    ensures Parse([], radix) == Failure(EmptyString)
    ensures IsSpecial(s) ==> Parse(s, radix) == Success(0)
    ensures |s| > 0 && !IsSpecial(s) && !ValidRadix(radix) ==> Parse(s, radix) == Failure(InvalidRadix(radix))
    ensures |s| > 0 && !IsSpecial(s) && ValidRadix(radix) && MINUS in s && s[0] != MINUS ==>
      Parse(s, radix) == Failure(InteriorMinus)
    ensures |s| > 0 && !IsSpecial(s) && ValidRadix(radix) && s[0] == MINUS ==>
      Parse(s, radix) == (match Parse(s[1..], radix) case Success(x) => Success(-x) case Failure(e) => Failure(e))
  {
  }

  // ---------------------------------------------------------------------
  // Arithmetic behind FromString and ToString

  lemma {:induction false} PowPositive(b: int, n: nat)
    requires b >= 1
    ensures Pow(b, n) >= 1
  {
    if n > 0 {
      PowPositive(b, n - 1);
      MulAtLeast(b, Pow(b, n - 1));
    }
  }

  lemma {:induction false} PowAtMost(b: int, n: nat, m: nat)
    requires b >= 1 && n <= m
    ensures 1 <= Pow(b, n) <= Pow(b, m)
    decreases m
  {
    PowPositive(b, n);
    if n < m {
      PowAtMost(b, n, m - 1);
      PowPositive(b, m - 1);
      MulLe(Pow(b, m - 1), 1, b);
    }
  }

  lemma {:induction false} PowMono(a: int, b: int, n: nat)
    requires 1 <= a <= b
    ensures Pow(a, n) <= Pow(b, n)
  {
    if n > 0 {
      PowMono(a, b, n - 1);
      PowPositive(a, n - 1);
      MulLe(a, Pow(a, n - 1), Pow(b, n - 1));
      MulLe(Pow(b, n - 1), a, b);
    }
  }

  /** radix^6 fits an unsigned 32-bit word and radix^8 is far inside 64 bits. */
  lemma PowBounds(radix: int)
    requires ValidRadix(radix)
    ensures 2 <= Pow(radix, 6) < TWO32 && 2 <= Pow(radix, 8) < TWO48
  {
    PowMono(radix, 36, 6);
    PowMono(radix, 36, 8);
    PowAtMost(radix, 1, 6);
    PowAtMost(radix, 1, 8);
    assert Pow(36, 6) == 2176782336 by {
      assert Pow(36, 2) == 1296;
      assert Pow(36, 4) == 1296 * Pow(36, 2) by { assert Pow(36, 4) == 36 * (36 * Pow(36, 2)); }
      assert Pow(36, 6) == 1296 * Pow(36, 4) by { assert Pow(36, 6) == 36 * (36 * Pow(36, 4)); }
    }
    assert Pow(36, 8) == 1296 * Pow(36, 6) by { assert Pow(36, 8) == 36 * (36 * Pow(36, 6)); }
  }

  /** A digit string is below radix^length. */
  lemma {:induction false} DigitsBelow(s: JsString, radix: int)
    requires ValidRadix(radix) && AllDigits(s, radix)
    ensures 0 <= DigitsValue(s, radix) < Pow(radix, |s|)
    decreases |s|
  {
    if |s| > 0 {
      var s' := s[..|s| - 1];
      assert AllDigits(s', radix);
      DigitsBelow(s', radix);
      BelowStep(DigitsValue(s', radix), Pow(radix, |s'|), radix, DigitOf(s[|s| - 1]));
    }
  }

  lemma BelowStep(v: int, p: int, r: int, d: int)
    requires 0 <= v < p && 0 <= d < r
    ensures 0 <= v * r + d < r * p
  {
    MulLe(r, v, p - 1);
    MulLe(r, 0, v);
  }

  /** A group of at most eight code units contributes a value below radix^size. */
  lemma GroupRange(g: JsString, radix: int)
    requires ValidRadix(radix) && |g| <= 8
    ensures 0 <= GroupValue(g, radix) < Pow(radix, |g|) <= Pow(radix, 8)
  {
    PowAtMost(radix, |g|, 8);
    var k := DigitPrefix(g, radix);
    DigitPrefixSpec(g, radix);
    if k > 0 {
      DigitsBelow(g[..k], radix);
      PowAtMost(radix, k, |g|);
    }
  }

  /** Reading the groups from position i (a multiple of 8) on is shifting in
      the group that starts there and reading on from i + 8. */
  lemma GroupAt(s: JsString, radix: int, i: nat, acc: int)
    requires i < |s|
    ensures GroupsFrom(acc, s[Min(i, |s|)..], radix)
         == GroupsFrom(Shift(acc, s[i..i + Min(8, |s| - i)], radix), s[Min(i + 8, |s|)..], radix)
  {
    var rest, size := s[i..], Min(8, |s| - i);
    assert Min(i, |s|) == i && Min(8, |rest|) == size;
    assert rest[..size] == s[i..i + size] && rest[size..] == s[Min(i + 8, |s|)..];
  }

  /** Shifting in a group commutes with the reduction to 64 bits. */
  lemma WrapShift(r: int, w: int, g: int, p: int, v: int)
    requires w == Wrap(g) && r == Wrap(w * p + v)
    ensures r == Wrap(g * p + v)
  {
    WrapDistance(g);
    var k := (g + TWO63) / TWO64;
    assert g * p + v == w * p + v + (k * p) * TWO64;
    WrapCongruent(g * p + v, w * p + v, k * p);
  }

  /** A CypherNum whose value fits 32 unsigned bits has a zero high word. */
  lemma LowWord(v: Num)
    requires 0 <= Signed(v) < TWO32
    ensures ToUint32(v.low) == Signed(v) && UShr(v.low, 0) == Signed(v)
  {
    SmallMultiple(v.high, TWO32);
    ShiftCountSmall(0);
  }

  /** `toInt().get()` of a value that fits 31 bits is the value. */
  lemma SmallToInt(v: Num)
    requires 0 <= Signed(v) < TWO31
    ensures ToInt(v) == Signed(v)
  {
    LowWord(v);
    UnsignedOfSigned(v.low);
  }

  /** One round of ToStringPositive: rem = q * radix^6 + t without wrapping. */
  lemma BlockValues(rem: int, p: int, q: int, prod: int, t: int)
    requires 0 < rem < TWO63 && 2 <= p < TWO32
    requires q == Wrap(TruncDiv(rem, p)) && prod == Wrap(q * p) && t == Wrap(rem - prod)
    ensures 0 <= q < rem && rem == q * p + t && 0 <= t < p
  {
    DivMod(rem, p);
    DivBounds(rem, p);
    WrapInRange(rem / p);
    MulLe(rem / p, 1, p);
    WrapInRange(q * p);
    WrapInRange(rem - q * p);
    assert q < rem by {
      if q > 0 {
        MulLe(q, 2, p);
      }
    }
  }

  /** The MIN_VALUE branch of `fromNumToString`: MIN_VALUE / radix and the last digit. */
  lemma MinValueDigit(radix: int, rn: int, d: int, prod: int, rem: int) returns (q: int)
    requires ValidRadix(radix) && rn == radix
    requires d == Wrap(TruncDiv(-TWO63, rn)) && prod == Wrap(d * rn) && rem == Wrap(prod - -TWO63)
    ensures q == TWO63 / radix && d == -q && 0 < q && -TWO63 < d < 0
    ensures rem == TWO63 % radix && 0 <= rem < radix
  {
    var r;
    q, r := MinQuotient(radix);
    assert d == -q by {
      WrapInRange(-q);
    }
    MinLastDigit(q, r, rn, d, prod, rem);
  }

  /** MIN_VALUE's magnitude divided by the radix. */
  lemma MinQuotient(radix: int) returns (q: int, r: int)
    requires ValidRadix(radix)
    ensures q == TWO63 / radix && r == TWO63 % radix
    ensures TWO63 == q * radix + r && 0 <= r < radix && 0 < q < TWO63
  {
    q, r := TWO63 / radix, TWO63 % radix;
    DivMod(TWO63, radix);
    DivBounds(TWO63, radix);
    if q <= 0 {
      MulLe(radix, q, 0);
    }
  }

  lemma MinLastDigit(q: int, r: int, rn: int, d: int, prod: int, rem: int)
    requires TWO63 == q * rn + r && 0 <= r < rn && 0 < q < TWO63 && d == -q
    requires prod == Wrap(d * rn) && rem == Wrap(prod - -TWO63)
    ensures rem == r
  {
    assert d * rn == -TWO63 + r;
    WrapInRange(-TWO63 + r);
    WrapInRange(r);
  }

  lemma MinValueRender(radix: int, q: int, t: int)
    requires ValidRadix(radix) && q == TWO63 / radix && t == TWO63 % radix && 0 <= t < radix
    ensures Render(-q, radix) + Render(t, radix) == Render(-TWO63, radix)
  {
    DivMod(TWO63, radix);
    assert 0 < q by {
      if q <= 0 {
        MulLe(radix, q, 0);
      }
    }
  }
}
