/** f2F: reading an IEEE 754 single through its bits and turning it into a FLOAT with
    integer shifts only.  The fields are those of section 3.4 of IEEE 754-2008. */
module FloatBits {
  import opened Int32

  function Exponent(bits: int32): nat {
    (bits / 0x80_0000) % 256
  }

  function Fraction(bits: int32): nat {
    bits % 0x80_0000
  }

  /** The significand as an integer, with the hidden bit of a normal number. */
  function Significand(bits: int32): nat {
    if Exponent(bits) == 0 then Fraction(bits) else Fraction(bits) + 0x80_0000
  }

  function Max(a: int, b: int): int {
    if a < b then b else a
  }

  /** The power of two that scales the significand to 2^16 times the encoded magnitude; a
      subnormal number has exponent 1. */
  function Scale(bits: int32): int {
    Max(Exponent(bits), 1) - 134
  }

  /** m is 2^16 times the encoded magnitude, rounded down. */
  ghost predicate IsTruncatedMagnitude(sig: nat, scale: int, m: nat) {
    if scale >= 0 then
      m == sig * Pow2(scale)
    else
      m * Pow2(-scale) <= sig < (m + 1) * Pow2(-scale)
  }

  /** r is 2^16 times the encoded value, rounded toward zero. */
  ghost predicate IsTruncatedValue(bits: int32, r: int) {
    && Exponent(bits) < 255
    && (r != 0 ==> ((r < 0) <==> (bits < 0)))
    && IsTruncatedMagnitude(Significand(bits), Scale(bits), Abs(r))
  }

  lemma TruncatedMagnitudeUnique(sig: nat, scale: int, m: nat, n: nat)
    requires IsTruncatedMagnitude(sig, scale, m) && IsTruncatedMagnitude(sig, scale, n)
    ensures m == n
  {
    if scale < 0 {
      if m < n {
        MulMonotone(m + 1, n, Pow2(-scale));
      } else if n < m {
        MulMonotone(n + 1, m, Pow2(-scale));
      }
    }
  }

  lemma TruncatedValueUnique(bits: int32, p: int, r: int)
    requires IsTruncatedValue(bits, p) && IsTruncatedValue(bits, r)
    ensures p == r
  {
    TruncatedMagnitudeUnique(Significand(bits), Scale(bits), Abs(p), Abs(r));
  }

  // ----- the encoding, from the fields of section 3.4 to the value -----

  /** The pattern with the given sign, biased exponent and fraction, as an int. */
  function Pattern(negative: bool, exp: nat, frac: nat): int32
    requires exp < 256 && frac < 0x80_0000
  {
    (if negative then INT_MIN else 0) + 0x80_0000 * exp + frac
  }

  /** Taking a pattern apart and composing one are inverse. */
  lemma FieldsMakePattern(bits: int32)
    ensures Exponent(bits) < 256 && Fraction(bits) < 0x80_0000
    ensures (if bits < 0 then bits + 0x1_0000_0000 else bits)
            == (if bits < 0 then 0x8000_0000 else 0) + 0x80_0000 * Exponent(bits) + Fraction(bits)
    ensures Pattern(bits < 0, Exponent(bits), Fraction(bits)) == bits
  {
  }

  lemma FieldsOfPattern(negative: bool, exp: nat, frac: nat)
    requires exp < 256 && frac < 0x80_0000
    ensures var bits := Pattern(negative, exp, frac);
            Exponent(bits) == exp && Fraction(bits) == frac && (bits < 0 <==> negative)
  {
    var bits := Pattern(negative, exp, frac);
    var e := if negative then exp - 256 else exp;
    assert bits == 0x80_0000 * e + frac;
    assert bits / 0x80_0000 == e && bits % 0x80_0000 == frac;
  }

  /** 2^e */
  ghost function PowerOfTwo(e: int): real {
    if e >= 0 then Pow2(e) as real else 1.0 / Pow2(-e) as real
  }

  /** The magnitude of a finite number: 1.frac times 2^(exp - 127), or 0.frac times 2^-126 if subnormal. */
  ghost function Magnitude(exp: nat, frac: nat): real {
    if exp == 0 then (frac as real / 8388608.0) * PowerOfTwo(-126)
    else (1.0 + frac as real / 8388608.0) * PowerOfTwo(exp - 127)
  }

  lemma NextPower(e: int)
    ensures PowerOfTwo(e + 1) == 2.0 * PowerOfTwo(e)
  {
    if e < -1 {
      assert Pow2(-e) == 2 * Pow2(-(e + 1));
    }
  }

  lemma SevenPowers(e: int)
    ensures PowerOfTwo(e + 7) == 128.0 * PowerOfTwo(e)
  {
    NextPower(e);
    NextPower(e + 1);
    NextPower(e + 2);
    NextPower(e + 3);
    NextPower(e + 4);
    NextPower(e + 5);
    NextPower(e + 6);
    hide PowerOfTwo;
  }

  /** sig * 2^scale */
  ghost function ScaledBy(sig: nat, scale: int): real {
    sig as real * PowerOfTwo(scale)
  }

  lemma ScaledMagnitude(sig: nat, e: int)
    ensures 65536.0 * ((sig as real / 8388608.0) * PowerOfTwo(e - 127)) == ScaledBy(sig, e - 134)
  {
    SevenPowers(e - 134);
    hide PowerOfTwo;
    var p, x := PowerOfTwo(e - 134), sig as real;
    assert (x / 8388608.0) * (128.0 * p) == (x * p) * 128.0 / 8388608.0;
  }

  lemma RealQuotient(m: nat, sig: nat, p: nat)
    requires p >= 1
    ensures m * p <= sig < (m + 1) * p <==> m as real <= sig as real * (1.0 / p as real) < m as real + 1.0
  {
    var x, y := sig as real, p as real;
    var q := x * (1.0 / y);
    var low, high := m * p, (m + 1) * p;
    Reciprocal(x, y);
    RealProduct(m, p);
    RealProduct(m + 1, p);
    OrderedBy(m as real, q, y, low as real, x);
    OrderedBy((m + 1) as real, q, y, high as real, x);
  }

  lemma OrderedBy(a: real, b: real, c: real, ac: real, bc: real)
    requires c > 0.0 && ac == a * c && bc == b * c
    ensures a <= b <==> ac <= bc
  {
    RealOrder(a, b, c);
  }

  lemma Reciprocal(x: real, y: real)
    requires y > 0.0
    ensures (x * (1.0 / y)) * y == x
  {
    assert (1.0 / y) * y == 1.0;
    assert (x * (1.0 / y)) * y == x * ((1.0 / y) * y);
  }

  lemma RealProduct(a: int, b: int)
    ensures (a * b) as real == a as real * b as real
  {
  }

  lemma RealOrder(a: real, b: real, c: real)
    requires c > 0.0
    ensures a <= b <==> a * c <= b * c
  {
    if a < b {
      PositiveProduct(b - a, c);
      RealDifference(b, a, c);
    } else if b < a {
      PositiveProduct(a - b, c);
      RealDifference(a, b, c);
    }
  }

  lemma PositiveProduct(x: real, y: real)
    requires x > 0.0 && y > 0.0
    ensures x * y > 0.0
  {
  }

  lemma RealDifference(a: real, b: real, c: real)
    ensures (a - b) * c == a * c - b * c
  {
  }

  lemma TruncatedMagnitudeIsReal(sig: nat, scale: int, m: nat)
    ensures IsTruncatedMagnitude(sig, scale, m) <==>
            m as real <= ScaledBy(sig, scale) < m as real + 1.0
  {
    if scale < 0 {
      RealQuotient(m, sig, Pow2(-scale));
    } else {
      assert (sig * Pow2(scale)) as real == sig as real * PowerOfTwo(scale);
    }
  }

  /** What the specification of f2F means for every finite number, said in reals about the fields the
      pattern is composed of: r is 2^16 times the number, rounded toward zero. */
  lemma ValueOfPattern(negative: bool, exp: nat, frac: nat, r: int)
    requires exp < 255 && frac < 0x80_0000
    ensures IsTruncatedValue(Pattern(negative, exp, frac), r) <==>
            && (r != 0 ==> (r < 0 <==> negative))
            && Abs(r) as real <= 65536.0 * Magnitude(exp, frac) < Abs(r) as real + 1.0
  {
    var sig, e := if exp == 0 then frac else frac + 0x80_0000, Max(exp, 1);
    PatternParts(negative, exp, frac);
    MagnitudeParts(exp, frac);
    TruncatedMagnitudeIsReal(sig, e - 134, Abs(r));
    hide Pattern, Exponent, Significand, Scale, ScaledBy, Magnitude, IsTruncatedMagnitude, Abs, Max;
  }

  lemma PatternParts(negative: bool, exp: nat, frac: nat)
    requires exp < 256 && frac < 0x80_0000
    ensures var bits := Pattern(negative, exp, frac);
            && Exponent(bits) == exp && (bits < 0 <==> negative)
            && Significand(bits) == (if exp == 0 then frac else frac + 0x80_0000)
            && Scale(bits) == Max(exp, 1) - 134
  {
    FieldsOfPattern(negative, exp, frac);
    hide Pattern, Exponent, Fraction;
  }

  /** 2^16 times a magnitude is the integer significand times 2^scale. */
  lemma MagnitudeParts(exp: nat, frac: nat)
    ensures var sig := if exp == 0 then frac else frac + 0x80_0000;
            65536.0 * Magnitude(exp, frac) == ScaledBy(sig, Max(exp, 1) - 134)
  {
    hide PowerOfTwo, ScaledBy;
    ScaledMagnitude(if exp == 0 then frac else frac + 0x80_0000, Max(exp, 1));
    assert (frac + 0x80_0000) as real / 8388608.0 == 1.0 + frac as real / 8388608.0;
  }

  /** The bit patterns that are converted correctly: a biased exponent from 103 to 141, the tiny
      numbers whose over-long shift happens to leave nothing, and the pattern of -32768.0. */
  predicate Convertible(bits: int32) {
    var e := Exponent(bits);
    || 103 <= e <= 141
    || (e == 0 && Fraction(bits) < 64)
    || (1 <= e <= 102 && (134 - e) % 32 >= 24)
    || (e == 142 && bits < 0 && Fraction(bits) == 0)
  }

  lemma PowersUsed()
    ensures Pow2(0) == 1 && Pow2(6) == 64 && Pow2(7) == 0x80 && Pow2(8) == 0x100
    ensures Pow2(23) == 0x80_0000 && Pow2(24) == 0x100_0000
  {
    assert Pow2(4) == 0x10;
    assert Pow2(8) == 0x100;
    assert Pow2(12) == 0x1000;
    assert Pow2(16) == 0x1_0000;
    assert Pow2(20) == 0x10_0000;
  }

  lemma SignificandBounds(bits: int32)
    ensures Significand(bits) < 0x100_0000
    ensures Exponent(bits) > 0 ==> Significand(bits) >= 0x80_0000
  {
  }

  /** A right shift by an in-range count rounds down. */
  lemma RightShiftInRange(sig: int32, count: nat)
    requires 0 <= sig && 0 < count < 32
    ensures 0 <= ShiftRight(sig, count)
    ensures IsTruncatedMagnitude(sig, 0 - count, ShiftRight(sig, count))
  {
    hide Pow2, ShiftRight;
    ShiftRightFloor(sig, count);
  }

  /** A right shift by 32 or more should leave nothing, but the hardware shifts by the count
      modulo 32, so the result is zero only if the significand is short enough. */
  lemma RightShiftTooLong(sig: int32, count: int, scale: int)
    requires 0 <= sig < 0x100_0000 && scale <= -32
    ensures 0 <= ShiftRight(sig, count)
    ensures IsTruncatedMagnitude(sig, scale, ShiftRight(sig, count)) <==> sig < Pow2(ShiftCount(count))
  {
    var p := Pow2(ShiftCount(count));
    assert ShiftRight(sig, count) == sig / p;
    TooSmallToShow(sig, scale);
    hide Pow2, ShiftCount, ShiftRight, IsTruncatedMagnitude;
    DivNatBounds(sig, p);
    if IsTruncatedMagnitude(sig, scale, sig / p) {
      TruncatedMagnitudeUnique(sig, scale, 0, sig / p);
    }
  }

  lemma TooSmallToShow(sig: nat, scale: int)
    requires sig < 0x100_0000 && scale <= -32
    ensures IsTruncatedMagnitude(sig, scale, 0)
  {
    PowersUsed();
    Pow2Monotone(24, -scale);
    hide Pow2;
  }

  lemma TinyNumbers(bits: int32)
    requires Exponent(bits) < 103
    ensures Significand(bits) < Pow2(ShiftCount(134 - Exponent(bits))) <==> Convertible(bits)
  {
    var e := Exponent(bits);
    PowersUsed();
    SignificandBounds(bits);
    hide Pow2;
    if e > 0 && ShiftCount(134 - e) < 24 {
      Pow2Monotone(ShiftCount(134 - e), 23);
    } else if e > 0 {
      Pow2Monotone(24, ShiftCount(134 - e));
    }
  }

  lemma LeftShift(sig: int32, count: nat)
    requires 0 <= sig < 0x100_0000 && count <= 7
    ensures 0 <= sig * Pow2(count) < 0x8000_0000
    ensures ShiftLeft(sig, count) == sig * Pow2(count)
  {
    PowersUsed();
    Pow2Monotone(count, 7);
    assert ShiftCount(count) == count;
    assert ShiftLeft(sig, count) == Wrap(sig * Pow2(count));
    hide Pow2, Wrap, ShiftCount, ShiftLeft;
    MulBounds(sig, Pow2(count), 0x80);
  }

  /** From exponent 142 the magnitude is at least 2^31, and it is 2^31 for one significand only. */
  lemma LeftShiftOverflows(sig: int32, count: nat)
    requires 0x80_0000 <= sig < 0x100_0000 && count >= 8
    ensures sig * Pow2(count) >= 0x8000_0000
    ensures sig * Pow2(count) == 0x8000_0000 <==> count == 8 && sig == 0x80_0000
  {
    PowersUsed();
    Pow2Monotone(8, count);
    MulMonotone(0x100, Pow2(count), sig);
    if count > 8 {
      Pow2Monotone(9, count);
      assert Pow2(9) == 0x200;
      MulMonotone(0x200, Pow2(count), sig);
    }
  }

  lemma ApplySign(bits: int32, m: int32, r: int32)
    requires 0 <= m && r == if bits < 0 then -m else m
    ensures IsTruncatedValue(bits, r) <==>
            Exponent(bits) < 255 && IsTruncatedMagnitude(Significand(bits), Scale(bits), m)
  {
  }

  lemma SmallNumber(bits: int32)
    requires Exponent(bits) < 134
    ensures var k := ShiftRight(Significand(bits), 134 - Exponent(bits));
            0 <= k && (IsTruncatedMagnitude(Significand(bits), Scale(bits), k) <==> Convertible(bits))
  {
    SignificandBounds(bits);
    if Exponent(bits) < 103 {
      RightShiftTooLong(Significand(bits), 134 - Exponent(bits), Scale(bits));
      TinyNumbers(bits);
    } else {
      RightShiftInRange(Significand(bits), 134 - Exponent(bits));
    }
  }

  lemma LargeNumber(bits: int32)
    requires 134 <= Exponent(bits) < 142
    ensures var k := ShiftLeft(Significand(bits), Exponent(bits) - 134);
            0 <= k == Significand(bits) * Pow2(Exponent(bits) - 134) &&
            IsTruncatedMagnitude(Significand(bits), Scale(bits), k)
    ensures Exponent(bits) == 134 ==> ShiftLeft(Significand(bits), 0) == Significand(bits)
  {
    PowersUsed();
    SignificandBounds(bits);
    hide Pow2, ShiftLeft, Significand, Exponent;
    LeftShift(Significand(bits), Exponent(bits) - 134);
  }

  lemma TooLarge(bits: int32, r: int32)
    requires Exponent(bits) >= 142
    requires r == var k := ShiftLeft(Significand(bits), Exponent(bits) - 134); if bits < 0 then Wrap(0 - k) else k
    ensures IsTruncatedValue(bits, r) <==> Convertible(bits)
    ensures Significand(bits) * Pow2(Exponent(bits) - 134) >= 0x8000_0000
  {
    SignificandBounds(bits);
    LeftShiftOverflows(Significand(bits), Scale(bits));
    MinimumPattern();
  }

  lemma MinimumPattern()
    ensures ShiftLeft(0x80_0000, 8) == INT_MIN && Wrap(0 - INT_MIN) == INT_MIN
  {
    PowersUsed();
    assert ShiftCount(8) == 8;
  }

  lemma FieldsByShifting(bits: int32)
    ensures ShiftRight(bits, 31) == if bits < 0 then -1 else 0
    ensures ShiftRight(bits, 23) % 256 == Exponent(bits) < 256
  {
    PowersUsed();
    assert ShiftCount(31) == 31 && ShiftCount(23) == 23;
    assert Pow2(26) == 0x400_0000;
    assert Pow2(29) == 0x2000_0000;
    assert Pow2(31) == 0x8000_0000;
  }

  lemma ConvertibleExponents(bits: int32)
    ensures 103 <= Exponent(bits) <= 141 ==> Convertible(bits)
  {
  }

  lemma TruncatedValueMeans(bits: int32)
    ensures forall r :: Convertible(bits) && IsTruncatedValue(bits, r) ==>
              && (r != 0 ==> (r < 0 <==> bits < 0))
              && Abs(r) as real <= 65536.0 * Magnitude(Exponent(bits), Fraction(bits)) < Abs(r) as real + 1.0
  {
    FieldsMakePattern(bits);
    hide Magnitude, Pattern;
    forall r | Convertible(bits) && IsTruncatedValue(bits, r)
      ensures r != 0 ==> (r < 0 <==> bits < 0)
      ensures Abs(r) as real <= 65536.0 * Magnitude(Exponent(bits), Fraction(bits)) < Abs(r) as real + 1.0
    {
      ValueOfPattern(bits < 0, Exponent(bits), Fraction(bits), r);
    }
  }

  /** What the i386 makes of any pattern: the significand shifted by a count modulo 32, in 32 bits. */
  function MachineResult(bits: int32): int32 {
    var e, sig := Exponent(bits), Significand(bits);
    var k := if e < 134 then sig / Pow2((134 - e) % 32) else Wrap(sig * Pow2((e - 134) % 32));
    Wrap(if bits < 0 then 0 - k else k)
  }

  lemma ShiftsMean(bits: int32)
    ensures var e, sig := Exponent(bits), Significand(bits); var sign := ShiftRight(bits, 31);
            && (e < 134 ==> MachineResult(bits) == if bits < 0 then Wrap(0 - ShiftRight(sig, 134 - e)) else ShiftRight(sig, 134 - e))
            && (e > 134 ==> MachineResult(bits) == if bits < 0 then Wrap(0 - ShiftLeft(sig, e - 134)) else ShiftLeft(sig, e - 134))
            && (e == 134 ==> MachineResult(bits) == if bits < 0 then Wrap(0 - sig) else sig)
  {
    SignificandBounds(bits);
    assert Pow2(0) == 1;
    hide Exponent, Significand, Pow2;
  }

  /** The sign, the biased exponent and the significand. */
  method Fields(bits: int32) returns (sign: int32, exp: int32, k: int32)
    ensures sign == if bits < 0 then -1 else 0
    ensures exp == Exponent(bits) < 256 && 0 <= k == Significand(bits) < 0x100_0000
  {
    FieldsByShifting(bits);
    SignificandBounds(bits);
    hide Pow2, ShiftRight;
    sign := ShiftRight(bits, 31);
    exp := ShiftRight(bits, 23) % 256;
    k := bits % 0x80_0000;
    if exp != 0 {
      k := k + 0x80_0000;
    }
  }

  /** f2F.  `safe` records that every shift count was below 32 and no value left the int range. */
  method FromFloat(bits: int32) returns (r: int32, ghost safe: bool)
    ensures IsTruncatedValue(bits, r) <==> Convertible(bits)
    ensures safe <==> 103 <= Exponent(bits) <= 141
    ensures Convertible(bits) ==>
              && (r != 0 ==> (r < 0 <==> bits < 0))
              && Abs(r) as real <= 65536.0 * Magnitude(Exponent(bits), Fraction(bits)) < Abs(r) as real + 1.0
    ensures r == MachineResult(bits)
  {
    TruncatedValueMeans(bits);
    ShiftsMean(bits);
    hide Magnitude, Fraction, MachineResult;
    hide Pow2, ShiftRight, ShiftLeft, Wrap, IsTruncatedMagnitude, IsTruncatedValue;
    hide Exponent, Significand, Convertible;
    var sign: int32, exp: int32, k: int32 := Fields(bits);
    ConvertibleExponents(bits);
    exp := exp - 150;
    safe := true;
    if exp < -16 {
      safe := -16 - exp < 32;
      SmallNumber(bits);
      k := ShiftRight(k, -16 - exp);
    }
    if exp > -16 {
      safe := exp + 16 < 32 && Fits(k * Pow2(exp + 16));
      k := ShiftLeft(k, exp + 16);
    }
    r := if sign == 0 then k else Wrap(0 - k);
    if Exponent(bits) >= 142 {
      TooLarge(bits, r);
    } else {
      if Exponent(bits) >= 134 {
        LargeNumber(bits);
      }
      ApplySign(bits, k, r);
    }
  }
}
