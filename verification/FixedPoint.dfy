/** 16.16 fixed-point numbers (FLOAT.h and FLOAT.c): a FLOAT f stands for f / 65536. */
module FixedPoint {
  import opened Int32

  // ----- conversions between int and FLOAT -----

  function FToInt(a: int32): int32 {
    ShiftRight(a - a % 0x1_0000, 16)
  }

  function IntToF(n: int32): int32 {
    ShiftLeft(n, 16)
  }

  lemma Pow2Of16()
    ensures Pow2(0) == 1 && Pow2(16) == 0x1_0000 && Pow2(ShiftCount(16)) == 0x1_0000
  {
    assert ShiftCount(16) == 16;
    assert Pow2(4) == 0x10;
    assert Pow2(8) == 0x100;
    assert Pow2(12) == 0x1000;
  }

  /** int2F multiplies by 65536 exactly while the product is an int, and modulo 2^32 beyond. */
  lemma IntToFIsExact(n: int32)
    ensures -0x8000 <= n < 0x8000 <==> IntToF(n) == n * 0x1_0000
    ensures (IntToF(n) - n * 0x1_0000) % 0x1_0000_0000 == 0
  {
    Pow2Of16();
    hide Pow2;
    var k := WrapQuotient(n * 0x1_0000);
  }

  /** Integer parts survive the round trip exactly when they fit in 16 bits with sign. */
  lemma IntRoundTrip(n: int32)
    ensures FToInt(IntToF(n)) == n <==> -0x8000 <= n < 0x8000
  {
    Pow2Of16();
    hide Pow2;
  }

  lemma FToIntIsFloor(a: int32)
    ensures FToInt(a) * 0x1_0000 <= a < (FToInt(a) + 1) * 0x1_0000
  {
    Pow2Of16();
  }

  // ----- multiplication -----

  /** The product is formed in 64 bits, shifted right arithmetically, and cut to 32 bits. */
  function MulF(a: int32, b: int32): int32 {
    Wrap((a * b) / 0x1_0000)
  }

  /** The product is the exact one rounded toward minus infinity, whenever that is a FLOAT, and its low
      32 bits otherwise. */
  lemma MulFIsFloor(a: int32, b: int32)
    ensures MulF(a, b) * 0x1_0000 <= a * b < (MulF(a, b) + 1) * 0x1_0000 <==> Fits((a * b) / 0x1_0000)
    ensures (MulF(a, b) - (a * b) / 0x1_0000) % 0x1_0000_0000 == 0
  {
    var n := a * b;
    var k := WrapQuotient(n / 0x1_0000);
    assert MulF(a, b) - n / 0x1_0000 == -k * 0x1_0000_0000;
    if MulF(a, b) * 0x1_0000 <= n < (MulF(a, b) + 1) * 0x1_0000 {
      assert n / 0x1_0000 == MulF(a, b);
    }
  }

  // ----- division -----

  /** a / b in FLOAT: the quotient of the encoded values, truncated toward zero. */
  function Quotient(a: int, b: int): int
    requires b != 0
  {
    TruncDiv(a * 0x1_0000, b)
  }

  /** The first `steps` of the 16 steps that divide n by b double a remainder below 2^30. */
  predicate StepsFit(n: nat, b: int, steps: nat)
    requires b > 0
  {
    forall i :: 0 <= i < steps ==> 2 * ((n * Pow2(i)) % b) < 0x8000_0000
  }

  /** No operation of the division leaves the int range: nothing is negated that has no negative,
      every doubled remainder is an int, and so is the quotient. */
  predicate DivSafe(a: int32, b: int32) {
    && a != INT_MIN && b != INT_MIN && b != 0
    && Abs(a) * 0x1_0000 < 0x8000_0000 * Abs(b)
    && StepsFit(Abs(a), Abs(b), 16)
  }

  /** The operands for which the result is the truncated quotient.  INT_MIN stays negative when it is
      negated: as a dividend it is divided correctly by 1.0 only, as a divisor it always gives
      65535 units (131071 for INT_MIN itself), which is right for the largest magnitudes only. */
  predicate DivExact(a: int32, b: int32)
    requires b != 0
  {
    if b == INT_MIN then a != INT_MIN && Abs(a) >= 0x7FFF_8000
    else if a == INT_MIN then b == 0x1_0000
    else StepsFit(Abs(a), Abs(b), 16) && Fits(Quotient(a, b))
  }

  /** r lies between 0 and the exact quotient, less than 1.0 away from it. */
  predicate TooSmallByLessThanOne(r: int, exact: int) {
    if exact >= 0 then 0 <= r && exact - 0x1_0000 < r <= exact
    else r <= 0 && exact <= r < exact + 0x1_0000
  }

  predicate WrongSign(r: int, exact: int) {
    r < 0 < exact || exact < 0 < r
  }

  /** Operands for which every intermediate value of the division stays in range. */
  predicate DivInRange(a: int32, b: int32) {
    && a != INT_MIN && b != INT_MIN
    && 0 < Abs(b) <= 0x4000_0000
    && Abs(a) * 0x1_0000 < 0x8000_0000 * Abs(b)
  }

  /** The one quotient the hardware division does not represent needs b == -1,
      which has been negated away before the division. */
  lemma TruncDivFits(a: int32, b: int32)
    requires b != 0 && b != -1
    ensures Fits(TruncDiv(a, b)) && Fits(TruncRem(a, b))
  {
    DivNatBounds(Abs(a), Abs(b));
  }

  lemma ShiftOnce(n: int32)
    ensures ShiftLeft(n, 1) == Wrap(2 * n)
  {
    assert ShiftCount(1) == 1 && Pow2(1) == 2;
    hide Pow2, ShiftCount, Wrap;
  }

  lemma Pow2Step(i: nat)
    requires i < 16
    ensures Pow2(i + 1) == 2 * Pow2(i) <= 0x1_0000
  {
    Pow2Monotone(i + 1, 16);
    Pow2Of16();
  }

  /** What the shift of a remainder loses: a multiple of 2^32. */
  ghost function Carry(a: int32): int {
    if 2 * a >= 0x8000_0000 then 1 else if 2 * a < -0x8000_0000 then -1 else 0
  }

  lemma ShiftedRemainder(a: int32)
    ensures ShiftLeft(a, 1) == 2 * a - Carry(a) * 0x1_0000_0000
    ensures Carry(a) == 0 <==> Fits(2 * a)
  {
    ShiftOnce(a);
    WrapUnique(2 * a, 2 * a - Carry(a) * 0x1_0000_0000, Carry(a));
  }

  /** The digit the machine brings down. */
  ghost function NextDigit(b: int, a: int32): int {
    if 2 * a - Carry(a) * 0x1_0000_0000 >= b then 1 else 0
  }

  /** The state of the division of d by b > 0 after i steps: m is the quotient brought down so far
      from q0, a the machine remainder, and k what the shifts have lost.  For d >= 0 nothing is lost
      as long as the steps fit, and what is lost is never regained. */
  ghost predicate Dividing(d: int, b: int, i: nat, m: int, a: int, k: int, q0: int, a0: int) {
    && b > 0
    && d * Pow2(i) == m * b + a + k * 0x1_0000_0000
    && q0 * Pow2(i) <= m < (q0 + 1) * Pow2(i)
    && (d >= 0 ==> q0 >= 0 && d < (q0 + 1) * b && k >= 0 && (k == 0 <==> StepsFit(d, b, i)) && (k == 0 ==> 0 <= a < b))
    && (a0 == 0 ==> a == 0 && k == 0 && m == q0 * Pow2(i))
  }

  lemma NegatedDivision(d: int, b: int, q: int, rem: int)
    requires -d == q * b + rem
    ensures d == (0 - q) * b + (0 - rem)
  {
  }

  lemma StartDividing(d: int32, b: int32)
    requires b > 0
    ensures Dividing(d, b, 0, TruncDiv(d, b), TruncRem(d, b), 0, TruncDiv(d, b), TruncRem(d, b))
  {
    var n: nat := Abs(d);
    var q, rem := n / b, n % b;
    assert TruncDiv(d, b) == if d < 0 then 0 - q else q;
    assert TruncRem(d, b) == if d < 0 then 0 - rem else rem;
    assert Pow2(0) == 1 && StepsFit(n, b, 0);
    DivNatBounds(n, b);
    hide TruncDiv, TruncRem, Pow2, StepsFit, Abs;
    OneMoreTimes(q, b);
    if d < 0 {
      NegatedDivision(d, b, q, rem);
    }
  }

  lemma OneMoreTimes(q: int, b: int)
    ensures (q + 1) * b == q * b + b
  {
  }

  lemma RemainderUnique(n: nat, b: int, q: int, rem: int)
    requires 0 <= rem < b && n == q * b + rem
    ensures q == n / b && rem == n % b
  {
    DivNatBounds(n, b);
    var k := n / b;
    assert (k + 1) * b == k * b + b && (q + 1) * b == q * b + b;
    if k < q {
      MulMonotone(k + 1, q, b);
    } else if q < k {
      MulMonotone(q + 1, k, b);
    }
  }

  lemma StepEquation(d: int, b: int, scale: nat, m: int, a: int, k: int, c: int, digit: int)
    requires d * scale == m * b + a + k * 0x1_0000_0000
    ensures d * (2 * scale) == (2 * m + digit) * b + (2 * a - c * 0x1_0000_0000 - digit * b) + (2 * k + c) * 0x1_0000_0000
  {
    assert d * (2 * scale) == 2 * (d * scale);
    assert (2 * m + digit) * b == 2 * (m * b) + digit * b;
  }

  lemma StepRange(q0: int, scale: nat, m: int, digit: int)
    requires q0 * scale <= m < (q0 + 1) * scale && 0 <= digit <= 1
    ensures q0 * (2 * scale) <= 2 * m + digit < (q0 + 1) * (2 * scale)
    ensures digit == 0 && m == q0 * scale ==> 2 * m == q0 * (2 * scale)
  {
    assert q0 * (2 * scale) == 2 * (q0 * scale);
    assert (q0 + 1) * (2 * scale) == 2 * ((q0 + 1) * scale);
  }

  /** What is lost for a dividend d >= 0 is never regained. */
  lemma NothingRegained(d: nat, b: int32, i: nat, m: int, a: int32, k: int)
    requires b > 0 && d * Pow2(i) == m * b + a + k * 0x1_0000_0000
    requires k >= 0 && (k == 0 <==> StepsFit(d, b, i)) && (k == 0 ==> 0 <= a < b)
    ensures var c := Carry(a);
            && 2 * k + c >= 0 && (2 * k + c == 0 <==> StepsFit(d, b, i + 1))
            && (2 * k + c == 0 ==> 0 <= 2 * a - c * 0x1_0000_0000 - NextDigit(b, a) * b < b)
  {
    StepsFitNext(d, b, i);
    hide StepsFit, Pow2;
    if k == 0 {
      RemainderUnique(d * Pow2(i), b, m, a);
    }
  }

  lemma DividingStep(d: int, b: int32, i: nat, m: int, a: int32, k: int, q0: int, a0: int)
    requires Dividing(d, b, i, m, a, k, q0, a0) && i < 16
    ensures var c, digit := Carry(a), NextDigit(b, a);
            Dividing(d, b, i + 1, 2 * m + digit, 2 * a - c * 0x1_0000_0000 - digit * b, 2 * k + c, q0, a0)
  {
    var c, digit := Carry(a), NextDigit(b, a);
    Pow2Step(i);
    hide StepsFit, Pow2;
    StepEquation(d, b, Pow2(i), m, a, k, c, digit);
    StepRange(q0, Pow2(i), m, digit);
    if d >= 0 {
      NothingRegained(d, b, i, m, a, k);
    }
    assert a0 == 0 ==> c == 0 && digit == 0;
    hide Carry, NextDigit;
  }

  lemma StepsFitNext(n: nat, b: int, i: nat)
    requires b > 0
    ensures StepsFit(n, b, i + 1) <==> StepsFit(n, b, i) && 2 * ((n * Pow2(i)) % b) < 0x8000_0000
  {
  }

  /** After 16 steps that all fit the quotient is exact; otherwise it is too small, by less than 2^16. */
  lemma DividingEnd(d: nat, b: int32, m: int, a: int32, k: int, q0: int, a0: int)
    requires Dividing(d, b, 16, m, a, k, q0, a0)
    ensures var exact := (d * 0x1_0000) / b;
            0 <= m && if StepsFit(d, b, 16) then m == exact else exact - 0x1_0000 < m < exact
  {
    Pow2Of16();
    hide Pow2, StepsFit;
    var n := d * 0x1_0000;
    var exact := n / b;
    DivBounds(n, b);
    if k == 0 {
      RemainderUnique(n, b, m, a);
    } else {
      LostSteps(d, b, m, a, k, q0, exact);
    }
  }

  lemma LostSteps(d: nat, b: int32, m: int, a: int32, k: int, q0: int, exact: int)
    requires b > 0 && k >= 1 && d < (q0 + 1) * b && q0 * 0x1_0000 <= m
    requires d * 0x1_0000 == m * b + a + k * 0x1_0000_0000
    requires exact * b <= d * 0x1_0000 < (exact + 1) * b
    ensures exact - 0x1_0000 < m < exact
  {
    assert d * 0x1_0000 >= m * b + b;
    assert (m + 1) * b == m * b + b;
    if exact <= m {
      MulMonotone(exact + 1, m + 1, b);
    }
    assert ((q0 + 1) * b) * 0x1_0000 == ((q0 + 1) * 0x1_0000) * b;
    if (q0 + 1) * 0x1_0000 <= exact {
      MulMonotone((q0 + 1) * 0x1_0000, exact, b);
    }
  }

  // ----- what the quotient brought down means for the result -----

  lemma QuotientOfMagnitudes(a: int, b: int)
    requires b != 0
    ensures Quotient(a, b) == if (a < 0) == (b < 0) then (Abs(a) * 0x1_0000) / Abs(b) else -((Abs(a) * 0x1_0000) / Abs(b))
  {
    assert Abs(a * 0x1_0000) == Abs(a) * 0x1_0000;
    if a == 0 {
      DivNatBounds(0, Abs(b));
    }
  }

  lemma WrapDouble(n: int)
    ensures Wrap(2 * Wrap(n)) == Wrap(2 * n)
  {
    var k := WrapQuotient(n);
    var j := WrapQuotient(2 * n);
    WrapUnique(2 * Wrap(n), Wrap(2 * n), j - 2 * k);
  }

  lemma WrapIncrement(n: int)
    ensures Wrap(Wrap(n) + 1) == Wrap(n + 1)
  {
    var k := WrapQuotient(n);
    var j := WrapQuotient(n + 1);
    WrapUnique(Wrap(n) + 1, Wrap(n + 1), j - k);
  }

  lemma WrapNegate(n: int)
    ensures Wrap(-1 * Wrap(n)) == Wrap(-n)
  {
    var k := WrapQuotient(n);
    var j := WrapQuotient(-n);
    WrapUnique(-1 * Wrap(n), Wrap(-n), j + k);
  }

  /** Numbers less than 2^32 apart have different low words. */
  lemma WrapDiffers(m: int, n: int)
    requires 0 < Abs(n - m) < 0x1_0000_0000
    ensures Wrap(m) != Wrap(n)
  {
    var k := WrapQuotient(m);
    var j := WrapQuotient(n);
  }

  lemma SignedWrap(m: int, sign: int32, res: int32)
    requires res == Wrap(m) && (sign == 1 || sign == -1)
    ensures Wrap(res * sign) == Wrap(sign * m)
  {
    if sign == -1 {
      WrapNegate(m);
    }
  }

  /** Neither operand is INT_MIN: the result is right exactly if the steps fit and the quotient does. */
  lemma OrdinaryResult(a: int32, b: int32, m: int, sign: int32, r: int32)
    requires a != INT_MIN && b != INT_MIN && b != 0
    requires sign == if (a < 0) == (b < 0) then 1 else -1
    requires r == Wrap(sign * m)
    requires var exact := (Abs(a) * 0x1_0000) / Abs(b);
             0 <= m && if StepsFit(Abs(a), Abs(b), 16) then m == exact else exact - 0x1_0000 < m < exact
    ensures StepsFit(Abs(a), Abs(b), 16) ==> r == Wrap(Quotient(a, b))
    ensures Fits(Quotient(a, b)) ==> TooSmallByLessThanOne(r, Quotient(a, b))
    ensures r == Quotient(a, b) <==> DivExact(a, b)
  {
    QuotientOfMagnitudes(a, b);
    hide StepsFit, Wrap;
    if m != (Abs(a) * 0x1_0000) / Abs(b) {
      WrapDiffers(sign * m, Quotient(a, b));
    }
  }

  /** INT_MIN as a dividend keeps its sign when negated, so the result has the wrong one, except
      that -32768.0 / 1.0 wraps around to the right value. */
  lemma MinimumDividend(b: int32, m: int, sign: int32, r: int32)
    requires b != INT_MIN && b != 0
    requires sign == if b > 0 then -1 else 1
    requires r == Wrap(sign * m)
    requires var q0 := TruncDiv(INT_MIN, Abs(b));
             q0 * 0x1_0000 <= m < (q0 + 1) * 0x1_0000 && (TruncRem(INT_MIN, Abs(b)) == 0 ==> m == q0 * 0x1_0000)
    ensures r == Quotient(INT_MIN, b) <==> b == 0x1_0000
    ensures b != 0x1_0000 && Fits(Quotient(INT_MIN, b)) ==> WrongSign(r, Quotient(INT_MIN, b))
  {
    QuotientOfMagnitudes(INT_MIN, b);
    var p := 0x8000_0000 / Abs(b);
    var large := 0x8000_0000_0000 / Abs(b);
    DivBounds(0x8000_0000, Abs(b));
    DivBounds(0x8000_0000_0000, Abs(b));
    ScaledQuotient(Abs(b), p, large);
    assert TruncDiv(INT_MIN, Abs(b)) == -p;
    if b != 0x1_0000 && Fits(sign * large) {
      MinimumApart(Abs(b), p, large, m, sign);
      WrapDiffers(sign * m, sign * large);
    }
  }

  /** 2^47 / b begins with the digits of 2^31 / b. */
  lemma ScaledQuotient(b: int, p: int, large: int)
    requires b > 0 && p * b <= 0x8000_0000 < (p + 1) * b
    requires large * b <= 0x8000_0000_0000 < (large + 1) * b
    ensures p * 0x1_0000 <= large < (p + 1) * 0x1_0000
  {
    assert (p * 0x1_0000) * b == (p * b) * 0x1_0000;
    assert ((p + 1) * 0x1_0000) * b == ((p + 1) * b) * 0x1_0000;
    if large < p * 0x1_0000 {
      MulMonotone(large + 1, p * 0x1_0000, b);
    } else if (p + 1) * 0x1_0000 <= large {
      MulMonotone((p + 1) * 0x1_0000, large, b);
    }
  }

  lemma MinimumApart(b: int32, p: int, large: int, m: int, sign: int)
    requires b > 0 && p * b <= 0x8000_0000 < (p + 1) * b
    requires large * b <= 0x8000_0000_0000 < (large + 1) * b
    requires (sign == 1 || sign == -1) && Fits(sign * large) && !(b == 0x1_0000 && sign == -1)
    requires (0 - p) * 0x1_0000 <= m < (0 - p + 1) * 0x1_0000
    ensures 0 < large - m < 0x1_0000_0000
    ensures INT_MIN < m < 0 < large
  {
    ScaledQuotient(b, p, large);
    if p <= 0 {
      MulMonotone(p + 1, 1, b);
    }
  }

  /** Every step subtracts when INT_MIN stands for the divisor, so the 16 digits are all ones. */
  lemma MinimumDivisor(a: int32, res0: int32, sign: int32, r: int32)
    requires res0 == if a == INT_MIN then 1 else 0
    requires sign == if a < 0 then 1 else -1
    requires r == Wrap(sign * (res0 * 0x1_0000 + 0xFFFF))
    ensures r == Quotient(a, INT_MIN) <==> DivExact(a, INT_MIN)
    ensures r == if a == INT_MIN then 131071 else if a < 0 then 65535 else -65535
  {
    QuotientOfMagnitudes(a, INT_MIN);
    var n: int := Abs(a);
    assert (n * 0x1_0000) / 0x8000_0000 == n / 0x8000;
    hide Abs;
  }

  /** The whole quotient is an int exactly when the scaled dividend is below 2^31 times b. */
  lemma QuotientFits(n: nat, b: int, q: int)
    requires b > 0 && q == n / b
    ensures Fits(q) <==> n < 0x8000_0000 * b
  {
    DivBounds(n, b);
    if q >= 0x8000_0000 {
      MulMonotone(0x8000_0000, q, b);
    } else {
      MulMonotone(q + 1, 0x8000_0000, b);
    }
  }

  /** The quotient the machine shifts and increments is m modulo 2^32. */
  lemma ShiftedQuotient(m: int, res: int32)
    requires res == Wrap(m)
    ensures ShiftLeft(res, 1) == Wrap(2 * m)
    ensures Wrap(ShiftLeft(res, 1) + 1) == Wrap(2 * m + 1)
  {
    ShiftOnce(res);
    WrapDouble(m);
    WrapIncrement(2 * m);
  }

  lemma NoStepYet(d: int, b: int32)
    requires b > 0
    ensures d >= 0 ==> StepsFit(d, b, 0)
  {
  }

  /** A step stays in range exactly if the remainder leaves room and the quotient is still an int. */
  lemma SafeStep(d: nat, b: int32, i: nat, m: int, a: int32, k: int, res: int32, q0: int, a0: int)
    requires Dividing(d, b, i, m, a, k, q0, a0) && i < 16 && res == Wrap(m)
    ensures var digit := NextDigit(b, a);
            StepsFit(d, b, i) && Fits(m) && Fits(2 * a) && Fits(2 * res) && Fits(2 * res + digit)
            <==> StepsFit(d, b, i + 1) && Fits(2 * m + digit)
  {
    var p := Pow2(i);
    assert d * p == m * b + a + k * 0x1_0000_0000;
    assert 0 <= m by {
      MulMonotone(0, q0, p);
    }
    NothingRegained(d, b, i, m, a, k);
    StepsFitNext(d, b, i);
    ShiftedRemainder(a);
    hide Dividing, StepsFit, Pow2, NextDigit;
    assert NextDigit(b, a) == 0 || NextDigit(b, a) == 1;
  }

  /** The 16 shift-and-subtract steps that bring down the fraction of d / b, for any dividend and
      divisor the sign handling leaves.  The ghost results are the quotient before it wraps around,
      the last remainder, what the shifts lost, and whether every step stayed in the int range. */
  method BringDownFraction(d: int32, b: int32, res0: int32, a0: int32)
    returns (res: int32, ghost m: int, ghost rest: int32, ghost k: int, ghost safe: bool)
    requires b > 0 ==> res0 == TruncDiv(d, b) && a0 == TruncRem(d, b)
    requires b > 0 || b == INT_MIN
    ensures res == Wrap(m)
    ensures b > 0 ==> Dividing(d, b, 16, m, rest, k, res0, a0)
    ensures b < 0 ==> m == res0 * 0x1_0000 + 0xFFFF
    ensures b < 0 ==> res == Wrap(res0 * 0x1_0000 + 0xFFFF)
    ensures b > 0 && d >= 0 && StepsFit(d, b, 16) ==> res == Wrap((d * 0x1_0000) / b)
    ensures b > 0 && d >= 0 ==> (safe <==> StepsFit(d, b, 16) && Fits(m))
  {
    hide StepsFit, Dividing, Wrap, ShiftLeft, Pow2, TruncDiv, TruncRem;
    res := res0;
    var a: int32 := a0;
    m, k, safe := res0, 0, true;
    ghost var scale: nat := 1;
    Pow2Of16();
    if b > 0 {
      StartDividing(d, b);
      NoStepYet(d, b);
    }
    var i := 0;
    while i < 16
      invariant 0 <= i <= 16 && scale == Pow2(i)
      invariant res == Wrap(m)
      invariant b > 0 ==> Dividing(d, b, i, m, a, k, res0, a0)
      invariant b < 0 ==> m == res0 * scale + scale - 1
      invariant b > 0 && d >= 0 ==> (safe <==> StepsFit(d, b, i) && Fits(m))
    {
      ghost var c, digit := Carry(a), NextDigit(b, a);
      Pow2Step(i);
      ShiftedRemainder(a);
      ShiftedQuotient(m, res);
      safe := safe && Fits(2 * a) && Fits(2 * res) && Fits(2 * res + digit);
      if b > 0 {
        DividingStep(d, b, i, m, a, k, res0, a0);
        if d >= 0 {
          SafeStep(d, b, i, m, a, k, res, res0, a0);
        }
      }
      a := ShiftLeft(a, 1);
      res := ShiftLeft(res, 1);
      if a >= b {
        a := Wrap(a - b);
        res := Wrap(res + 1);
      }
      m, k, scale := 2 * m + digit, 2 * k + c, 2 * scale;
      i := i + 1;
    }
    rest := a;
    if b > 0 && d >= 0 {
      DividingEnd(d, b, m, rest, k, res0, a0);
    }
  }

  /** Divisors up to 2^30 leave room for every shift. */
  lemma InRangeIsSafe(a: int32, b: int32)
    requires b != 0 && Abs(b) <= 0x4000_0000
    ensures StepsFit(Abs(a), Abs(b), 16)
    ensures DivSafe(a, b) <==> DivInRange(a, b)
  {
  }

  /** INT_MIN has no negative in range: negation leaves it alone. */
  lemma NegateMinimum()
    ensures Wrap(-INT_MIN) == INT_MIN
    ensures TruncDiv(INT_MIN, INT_MIN) == 1 && forall d: int32 :: 0 <= d ==> TruncDiv(d, INT_MIN) == 0
  {
  }

  /** What holds when the steps are over decides whether the result is the quotient. */
  lemma DivisionResult(a: int32, b: int32, d: int32, m: int, rest: int32, k: int, sign: int32, r: int32, fits: bool)
    requires b != 0 && sign == if (a < 0) == (b < 0) then 1 else -1
    requires d == if a == INT_MIN then INT_MIN else Abs(a)
    requires r == Wrap(sign * m)
    requires b == INT_MIN ==> m == TruncDiv(d, b) * 0x1_0000 + 0xFFFF
    requires b != INT_MIN ==> Dividing(d, Abs(b), 16, m, rest, k, TruncDiv(d, Abs(b)), TruncRem(d, Abs(b)))
    requires b != INT_MIN && d >= 0 ==> (fits <==> StepsFit(d, Abs(b), 16) && Fits(m))
    ensures r == Quotient(a, b) <==> DivExact(a, b)
    ensures fits && a != INT_MIN && b != INT_MIN <==> DivSafe(a, b)
    ensures DivSafe(a, b) ==> IsTruncatedQuotient(a * 0x1_0000, b, r)
    ensures DivInRange(a, b) ==> DivSafe(a, b)
    ensures a != INT_MIN && Abs(b) <= 0x4000_0000 ==> r == Wrap(Quotient(a, b))
    ensures a != INT_MIN && b != INT_MIN && Fits(Quotient(a, b)) ==> TooSmallByLessThanOne(r, Quotient(a, b))
    ensures a == INT_MIN && b != INT_MIN && b != 0x1_0000 && Fits(Quotient(a, b)) ==> WrongSign(r, Quotient(a, b))
    ensures b == INT_MIN ==> r == if a == INT_MIN then 131071 else if a < 0 then 65535 else -65535
  {
    NegateMinimum();
    hide StepsFit, IsTruncatedQuotient, TooSmallByLessThanOne, WrongSign, TruncDiv, TruncRem, Wrap;
    if b == INT_MIN {
      MinimumDivisor(a, TruncDiv(d, b), sign, r);
    } else if a == INT_MIN {
      Pow2Of16();
      MinimumDividend(b, m, sign, r);
    } else {
      DividingEnd(d, Abs(b), m, rest, k, TruncDiv(d, Abs(b)), TruncRem(d, Abs(b)));
      OrdinaryResult(a, b, m, sign, r);
      QuotientFits(d * 0x1_0000, Abs(b), (d * 0x1_0000) / Abs(b));
      QuotientOfMagnitudes(a, b);
      TruncDivCorrect(a * 0x1_0000, b);
      if Abs(b) <= 0x4000_0000 {
        InRangeIsSafe(a, b);
      }
    }
  }

  /** Beyond 2^30 the result can be wrong although the quotient is a FLOAT: (2^30 + 2^28) / (2^30 + 2^29). */
  lemma LargeDivisorWrong()
    ensures Fits(Quotient(0x5000_0000, 0x6000_0000)) && !DivExact(0x5000_0000, 0x6000_0000)
  {
    assert 2 * ((0x5000_0000 * Pow2(0)) % 0x6000_0000) >= 0x8000_0000;
  }

  /** INT_MIN / 3.0 is a FLOAT too, and comes out positive. */
  lemma MinimumDividendWrong()
    ensures Fits(Quotient(INT_MIN, 0x3_0000)) && !DivExact(INT_MIN, 0x3_0000)
  {
  }

  /** F_div_F.  `safe` records that no negation, shift, increment or final product left the int range. */
  method DivF(a0: int32, b0: int32) returns (r: int32, ghost safe: bool)
    requires b0 != 0
    ensures r == Quotient(a0, b0) <==> DivExact(a0, b0)
    ensures safe <==> DivSafe(a0, b0)
    ensures safe ==> IsTruncatedQuotient(a0 * 0x1_0000, b0, r)
    ensures DivInRange(a0, b0) ==> safe
    ensures a0 != INT_MIN && Abs(b0) <= 0x4000_0000 ==> r == Wrap(Quotient(a0, b0))
    ensures a0 != INT_MIN && b0 != INT_MIN && Fits(Quotient(a0, b0)) ==> TooSmallByLessThanOne(r, Quotient(a0, b0))
    ensures a0 == INT_MIN && b0 != INT_MIN && b0 != 0x1_0000 && Fits(Quotient(a0, b0)) ==> WrongSign(r, Quotient(a0, b0))
    ensures b0 == INT_MIN ==> r == if a0 == INT_MIN then 131071 else if a0 < 0 then 65535 else -65535
  {
    hide StepsFit, Dividing, DivSafe, DivExact, DivInRange, TooSmallByLessThanOne, WrongSign, IsTruncatedQuotient, Quotient, TruncDiv, TruncRem, Wrap;
    NegateMinimum();
    var a: int32, b: int32 := a0, b0;
    var sign: int32 := 1;
    if a < 0 {
      sign := -sign;
      a := Wrap(0 - a);
    }
    if b < 0 {
      sign := -sign;
      b := Wrap(0 - b);
    }
    TruncDivFits(a, b);
    var res, m, rest, k, fits := BringDownFraction(a, b, TruncDiv(a, b), TruncRem(a, b));
    r := Wrap(res * sign);
    safe := fits && a0 != INT_MIN && b0 != INT_MIN;
    SignedWrap(m, sign, res);
    DivisionResult(a0, b0, a, m, rest, k, sign, r, fits);
  }
}
