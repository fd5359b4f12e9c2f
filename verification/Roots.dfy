/** sqrt and pow of FLOAT.c: Newton iterations on truncated fixed-point arithmetic.
    With a FLOAT x standing for x / 2^16, the exact square root of x in FLOAT units is the root of
    x * 2^16, and the exact cube root is the cube root of x * 2^32. */
module Roots {
  import opened Int32
  import opened FixedPoint
  import FloatBits

  /** The IEEE pattern of the literal 1e-4, and the FLOAT it converts to. */
  const THRESHOLD_BITS: int32 := 0x38D1_B717

  lemma SixUnits()
    ensures FloatBits.Convertible(THRESHOLD_BITS)
    ensures FloatBits.IsTruncatedValue(THRESHOLD_BITS, 6)
  {
    FloatBits.PowersUsed();
    assert Pow2(21) == 0x20_0000;
    hide Pow2;
    assert FloatBits.Exponent(THRESHOLD_BITS) == 113;
    assert FloatBits.Significand(THRESHOLD_BITS) == 13743895;
  }

  lemma ThresholdIsSixUnits()
    ensures FloatBits.Convertible(THRESHOLD_BITS)
    ensures forall r :: FloatBits.IsTruncatedValue(THRESHOLD_BITS, r) ==> r == 6
  {
    hide *;
    SixUnits();
    forall r | FloatBits.IsTruncatedValue(THRESHOLD_BITS, r)
      ensures r == 6
    {
      FloatBits.TruncatedValueUnique(THRESHOLD_BITS, 6, r);
    }
  }

  /** f2F(1e-4) */
  method Threshold() returns (r: int32)
    ensures r == 6
  {
    ThresholdIsSixUnits();
    hide FloatBits.Convertible, FloatBits.IsTruncatedValue, FloatBits.Magnitude, FloatBits.MachineResult;
    var threshold, _ := FloatBits.FromFloat(THRESHOLD_BITS);
    r := threshold;
  }

  /** Fabs: the magnitude, except that INT_MIN stays negative. */
  function AbsF(a: int32): (r: int32)
    ensures r == Abs(a) <==> a != INT_MIN
  {
    if a < 0 then Wrap(0 - a) else a
  }

  lemma InitialGuess()
    ensures IntToF(2) == 0x2_0000 == Pow2(17) && Pow2(2) == 4
  {
    Pow2Of16();
  }

  lemma QuotientFits(n: int32, d: nat)
    requires d >= 1
    ensures Fits(TruncDiv(n, d))
  {
    DivNatBounds(Abs(n), d);
  }

  // ----- one step of the square root -----

  /** t is more than the exact root of x minus one unit. */
  ghost predicate ReachesSquareRoot(x: int, t: int) {
    x * 0x1_0000 < (t + 1) * (t + 1)
  }

  /** t is less than the exact root of x plus one unit. */
  ghost predicate WithinSquareRoot(x: int, t: int) {
    (t - 1) * (t - 1) < x * 0x1_0000
  }

  /** One Newton step never falls more than one unit below the root. */
  lemma SqrtStepAbove(X: int, t: int, q: int, u: int)
    requires 0 < t && 0 <= q && q * t <= X < (q + 1) * t
    requires u == t + TruncDiv(q - t, 2)
    ensures X < (u + 1) * (u + 1)
  {
    var s := t + q + 1;
    assert s <= 2 * (u + 1);
    hide TruncDiv;
    SquareOfSum(t, q + 1);
    SquareNonnegative(t - (q + 1));
    SquareMonotone(s, 2 * (u + 1));
    SquareOfDouble(u + 1);
    assert s * s >= 4 * ((q + 1) * t);
  }

  lemma SquareOfDouble(a: int)
    ensures (2 * a) * (2 * a) == 4 * (a * a)
  {
  }

  lemma SquareOfSum(a: int, b: int)
    ensures (a + b) * (a + b) == 4 * (b * a) + (a - b) * (a - b)
  {
  }

  lemma SquareNonnegative(a: int)
    ensures a * a >= 0
  {
  }

  lemma SquareMonotone(a: int, b: int)
    requires 0 <= a <= b
    ensures a * a <= b * b
  {
    MulMonotone(a, b, a);
    MulMonotone(a, b, b);
  }

  /** When the step was short enough to stop, the result is less than one unit above the root. */
  lemma SqrtStopBelow(X: int, t: int, q: int, u: int)
    requires 100 < t && 0 <= q && q * t <= X
    requires -13 <= q - t <= 13
    requires u == t + TruncDiv(q - t, 2)
    ensures (u - 1) * (u - 1) < X
  {
    var s := t + q - 1;
    assert 0 <= 2 * (u - 1) <= s;
    hide TruncDiv;
    SquareMonotone(2 * (u - 1), s);
    assert (2 * (u - 1)) * (2 * (u - 1)) == 4 * ((u - 1) * (u - 1));
    SquareMinusOne(t + q);
    SquareOfSum(t, q);
    SquareOfSum(q, t);
    SquareMonotone(Abs(t - q), 13);
  }

  lemma SquareMinusOne(a: int)
    ensures (a - 1) * (a - 1) == a * a - 2 * a + 1
  {
  }

  /** From the second step on the quotient exceeds the iterate by at most 2. */
  lemma SqrtQuotientBound(X: int, t: int, q: int)
    requires 1 < t && q * t <= X < (t + 1) * (t + 1)
    ensures q <= t + 2
  {
    if q >= t + 3 {
      MulMonotone(t + 3, q, t);
    }
  }

  lemma IterateAtLeast(n: int, t: int)
    requires 0 <= n && 0 <= t && n * n < (t + 1) * (t + 1)
    ensures n <= t
  {
    if t + 1 <= n {
      SquareMonotone(t + 1, n);
    }
  }

  /** The exact quotient satisfies the floor inequalities when both operands are positive. */
  lemma QuotientIsFloor(x: int, t: int, q: int)
    requires 0 <= x && 0 < t
    requires IsTruncatedQuotient(x * 0x1_0000, t, q)
    ensures 0 <= q && q * t <= x * 0x1_0000 < (q + 1) * t
  {
  }

  lemma SqrtDivisionInRange(x: int32, t: int32)
    requires 0 <= x && 0 < t <= 0x4000_0000
    requires t == 0x2_0000 || ReachesSquareRoot(x, t)
    ensures DivInRange(x, t)
  {
    if t != 0x2_0000 {
      assert (t + 1) * (t + 1) == t * t + 2 * t + 1;
      MulMonotone(t, 0x4000_0000, t);
    }
  }

  /** One step from a positive x: the iterate stays in range, it decreases unless this is the
      first step or the step is short, and after a short step it is next to the root. */
  lemma SqrtIteration(x: int32, t: int32, first: bool, q: int, dt: int)
    requires 0 < x && 0 < t <= 0x4000_0000
    requires if first then t == 0x2_0000 else ReachesSquareRoot(x, t)
    requires IsTruncatedQuotient(x * 0x1_0000, t, q) && dt == TruncDiv(q - t, 2)
    ensures 0 < t + dt <= 0x4000_0000
    ensures ReachesSquareRoot(x, t + dt)
    ensures !first && Abs(dt) > 6 ==> dt < 0
    ensures Abs(dt) <= 6 ==> WithinSquareRoot(x, t + dt)
  {
    var X := x * 0x1_0000;
    QuotientIsFloor(x, t, q);
    SqrtStepAbove(X, t, q, t + dt);
    if !first {
      IterateAtLeast(256, t);
      SqrtQuotientBound(X, t, q);
    }
    assert t - 13 <= 2 * t + 2 * dt - 13;
    if Abs(dt) <= 6 {
      SqrtStopBelow(X, t, q, t + dt);
    }
  }

  /** From x == 0 every step halves the iterate. */
  lemma SqrtOfZeroStep(t: int32, k: nat, q: int, dt: int)
    requires 3 <= k <= 17 && t == Pow2(k)
    requires IsTruncatedQuotient(0 * 0x1_0000, t, q) && dt == TruncDiv(q - t, 2)
    ensures t + dt == Pow2(k - 1) == -dt
    ensures -dt <= 6 <==> k == 3
    ensures ReachesSquareRoot(0, t + dt)
  {
    var h := Pow2(k - 1);
    assert Pow2(2) == 4 && Pow2(3) == 8;
    if k > 3 {
      Pow2Monotone(3, k - 1);
    }
    assert t == 2 * h;
    hide Pow2;
    HalvingStep(h, q, dt);
  }

  lemma HalvingStep(h: int, q: int, dt: int)
    requires 0 < h && IsTruncatedQuotient(0, 2 * h, q) && dt == TruncDiv(q - 2 * h, 2)
    ensures dt + h == 0 && ReachesSquareRoot(0, h)
  {
    QuotientIsFloor(0, 2 * h, q);
    hide IsTruncatedQuotient;
    if q > 0 {
      MulMonotone(1, q, 2 * h);
    }
    MulMonotone(1, h + 1, h + 1);
  }

  /** sqrt: for every x >= 1 unit the result is within one unit of the exact root; every
      assignment to a variable fits an int. */
  method Sqrt(x: int32) returns (t: int32)
    requires x >= 0
    ensures x > 0 ==> WithinSquareRoot(x, t) && ReachesSquareRoot(x, t)
    ensures x == 0 ==> t == 4
  {
    InitialGuess();
    hide ReachesSquareRoot, WithinSquareRoot, TruncDiv, IsTruncatedQuotient, DivInRange, Wrap, ShiftLeft, Pow2;
    t := IntToF(2);
    ghost var first := true;
    ghost var k: nat := 17;
    var more := true;
    while more
      invariant 0 < t <= 0x4000_0000
      invariant first ==> t == 0x2_0000 && more
      invariant !first ==> ReachesSquareRoot(x, t)
      invariant x == 0 ==> t == Pow2(k) && if more then 3 <= k <= 17 else k == 2
      invariant !more && x > 0 ==> WithinSquareRoot(x, t)
      decreases more, first, t
    {
      SqrtDivisionInRange(x, t);
      var quotient, _ := DivF(x, t);
      QuotientIsFloor(x, t, quotient);
      var diff: int32 := quotient - t;
      QuotientFits(diff, 2);
      var dt: int32 := TruncDiv(diff, 2);
      if x > 0 {
        SqrtIteration(x, t, first, quotient, dt);
      } else {
        SqrtOfZeroStep(t, k, quotient, dt);
      }
      t := t + dt;
      var threshold := Threshold();
      more := AbsF(dt) > threshold;
      first := false;
      k := if x == 0 then k - 1 else k;
    }
  }

  /** Below zero there is not always a result: around -4.0, and only there, the first step leads to 0,
      by which the second iteration divides. */
  lemma SqrtOfNegative(x: int32, q: int, u: int)
    requires x < 0 && IsTruncatedQuotient(x * 0x1_0000, 0x2_0000, q)
    requires u == 0x2_0000 + TruncDiv(q - 0x2_0000, 2)
    ensures u == 0 <==> -262147 <= x <= -262144
  {
    assert Abs(q) * 2 <= 0 - x < (Abs(q) + 1) * 2;
    hide IsTruncatedQuotient;
  }

  // ----- one step of the cube root -----

  function Cube(a: int): int {
    a * a * a
  }

  /** t is more than the exact cube root of x minus one unit. */
  ghost predicate ReachesCubeRoot(x: int, t: int) {
    x * 0x1_0000_0000 < Cube(t + 1)
  }

  /** t is less than the exact cube root of x plus k units. */
  ghost predicate WithinCubeRoot(x: int, t: int, k: int) {
    Cube(t - k) < x * 0x1_0000_0000
  }

  lemma CubeMonotone(a: int, b: int)
    requires 0 <= a && a <= b
    ensures Cube(a) <= Cube(b)
  {
    SquareMonotone(a, b);
    MulMonotone(a * a, b * b, a);
    MulMonotone(a, b, b * b);
  }

  /** The cube grows with its argument, whatever the signs. */
  lemma CubeReflects(a: int, b: int)
    requires 0 <= b
    requires Cube(b) < Cube(a + 1)
    ensures b <= a
  {
    if a + 1 <= b {
      if 0 <= a + 1 {
        CubeMonotone(a + 1, b);
      } else {
        NegativeCube(a + 1);
      }
    }
  }

  lemma NegativeCube(a: int)
    requires a <= 0
    ensures Cube(a) <= 0
  {
    SquareNonnegative(a);
    MulMonotone(0, a * a, -a);
  }

  /** The inequality of arithmetic and geometric means for t, t and s. */
  lemma MeansOfThree(t: int, s: int)
    requires 0 <= t && 0 <= s
    ensures 27 * (s * (t * t)) <= Cube(2 * t + s)
  {
    var d := (t - s) * (t - s);
    assert Cube(2 * t + s) - 27 * (s * (t * t)) == d * (8 * t + s) by {
      MeansIdentity(t, s);
    }
    SquareNonnegative(t - s);
    MulMonotone(0, d, 8 * t + s);
  }

  lemma MeansIdentity(t: int, s: int)
    ensures Cube(2 * t + s) - 27 * (s * (t * t)) == ((t - s) * (t - s)) * (8 * t + s)
  {
    var tt, ts, ss := t * t, t * s, s * s;
    assert (2 * t + s) * (2 * t + s) == 4 * tt + 4 * ts + ss;
    assert (t - s) * (t - s) == tt - 2 * ts + ss;
    ThreeTermProduct(4, tt, 4, ts, 1, ss, 2, t, s);
    ThreeTermProduct(1, tt, -2, ts, 1, ss, 8, t, s);
    SharedProducts(t, s);
  }

  lemma SharedProducts(t: int, s: int)
    ensures (t * t) * s == (t * s) * t == s * (t * t) && (s * s) * t == (t * s) * s
  {
  }

  lemma ThreeTermProduct(a: int, x: int, b: int, y: int, c: int, z: int, d: int, t: int, s: int)
    ensures (a * x + b * y + c * z) * (d * t + s) ==
            (a * d) * (x * t) + a * (x * s) + (b * d) * (y * t) + b * (y * s) + (c * d) * (z * t) + c * (z * s)
  {
    ProductOfSum(a * x, b * y, c * z, d * t + s);
    TermProduct(a, x, d, t, s);
    TermProduct(b, y, d, t, s);
    TermProduct(c, z, d, t, s);
  }

  lemma ProductOfSum(a: int, b: int, c: int, d: int)
    ensures (a + b + c) * d == a * d + b * d + c * d
  {
  }

  lemma TermProduct(a: int, x: int, d: int, t: int, s: int)
    ensures (a * x) * (d * t + s) == (a * d) * (x * t) + a * (x * s)
  {
    assert (a * x) * (d * t) == a * (d * (x * t)) == (a * d) * (x * t);
  }

  lemma CubeOfTriple(a: int)
    ensures Cube(3 * a) == 27 * Cube(a)
  {
    assert (3 * a) * (3 * a) == 9 * (a * a);
  }

  lemma ScaledProduct(s: int, t2: int, m: int)
    requires 0 <= s
    ensures t2 * 0x1_0000 <= m ==> (s * t2) * 0x1_0000 <= s * m
    ensures m <= t2 * 0x1_0000 ==> s * m <= (s * t2) * 0x1_0000
  {
    assert s * (t2 * 0x1_0000) == (s * t2) * 0x1_0000;
    if t2 * 0x1_0000 <= m {
      MulMonotone(t2 * 0x1_0000, m, s);
    }
    if m <= t2 * 0x1_0000 {
      MulMonotone(m, t2 * 0x1_0000, s);
    }
  }

  /** One Newton step never falls more than one unit below the cube root. */
  lemma CubeStepAbove(x: int, t: int, t2: int, q: int, u: int)
    requires 0 <= t && 0 <= q && t2 * 0x1_0000 <= t * t
    requires x * 0x1_0000 < (q + 1) * t2
    requires u == t + TruncDiv(q - t, 3)
    ensures ReachesCubeRoot(x, u)
  {
    var s := q + 1;
    assert 0 <= 2 * t + s <= 3 * (u + 1);
    hide TruncDiv, Cube;
    ScaledProduct(s, t2, t * t);
    MeansOfThree(t, s);
    CubeMonotone(2 * t + s, 3 * (u + 1));
    CubeOfTriple(u + 1);
  }

  /** From 12 units on the quotient exceeds the iterate by at most 20 after the first step. */
  lemma CubeQuotientBound(x: int, t: int, t2: int)
    requires 3721 <= t && t * t < (t2 + 1) * 0x1_0000
    requires ReachesCubeRoot(x, t)
    ensures x * 0x1_0000 < (t + 21) * t2
  {
    var tt := t * t;
    MulMonotone(3721, t, t);
    assert Cube(t + 1) == tt * t + 3 * tt + 3 * t + 1;
    assert (t + 21) * (tt - 65535) == tt * t + 21 * tt - 65535 * t - 1376235;
    ScaledProduct(t + 21, t2, tt - 65535);
  }

  /** How close to the cube root the iteration stops, in units, for a positive x. */
  function Precision(x: int): (k: nat)
    ensures k >= 1
  {
    if x < 12 then 15 else if x < 1040 then 7 else if x < 66112 then 2 else 1
  }

  lemma PrecisionTiers(x: int)
    ensures Precision(x) == if x < 12 then 15 else if x < 1040 then 7 else if x < 66112 then 2 else 1
  {
  }

  /** An iterate that reaches the cube root of x is at least this large. */
  function LeastIterate(x: int): (n: nat)
    ensures n >= 1625
  {
    if x < 12 then 1625 else if x < 1040 then 3721 else if x < 66112 then 16468 else 65720
  }

  /** A short step stops next to the root, as near as the precision of t2 allows. */
  lemma CubeStopBelow(x: int, t: int, t2: int, q: int, u: int)
    requires LeastIterate(x) <= t
    requires -20 <= q - t <= 20 && q * t2 <= x * 0x1_0000
    requires t * t < (t2 + 1) * 0x1_0000
    requires 0 <= q && u == t + TruncDiv(q - t, 3)
    ensures WithinCubeRoot(x, u, Precision(x))
  {
    var d, k := t - q, Precision(x);
    var w := 3 * t - d - (3 * k - 2);
    assert 0 <= 3 * (u - k) <= w;
    CubeGap(t, d, 3 * k - 2);
    hide TruncDiv, Cube, Precision, LeastIterate;
    CubeMonotone(3 * (u - k), w);
    CubeOfTriple(u - k);
    ScaledProduct(q, t2, t * t - 65535);
  }

  lemma CubeGap(t: int, d: int, e: int)
    requires -20 <= d <= 20
    requires (e == 43 && 1625 <= t) || (e == 19 && 3721 <= t) || (e == 4 && 16468 <= t) || (e == 1 && 65720 <= t)
    ensures Cube(3 * t - d - e) < 27 * ((t - d) * (t * t - 65535))
  {
    var c, tt := d + e, t * t;
    CubeOfDifference(t, c);
    SmallSquare(c, 20 + e);
    hide Cube;
    QuadraticPositive(t, e, 9 * (c * c));
    GapProducts(t, d, e);
  }

  lemma GapProducts(t: int, d: int, e: int)
    ensures (t - d) * (t * t - 65535) == t * t * t - d * (t * t) - 65535 * t + 65535 * d
    ensures (d + e) * (t * t) == d * (t * t) + e * (t * t)
  {
  }

  lemma QuadraticPositive(t: int, e: int, m: int)
    requires (e == 43 && 1625 <= t && m <= 9 * 3969) || (e == 19 && 3721 <= t && m <= 9 * 1521)
          || (e == 4 && 16468 <= t && m <= 9 * 576) || (e == 1 && 65720 <= t && m <= 9 * 441)
    ensures 27 * (e * (t * t)) - m * t - 1769445 * t > 35395759
  {
    var n := 27 * e * t - m - 1769445;
    var least := if e == 43 then 81459 else if e == 19 then 125739 else if e == 4 then 3915 else 1026;
    assert n >= least;
    MulMonotone(least, n, t);
    assert n * t == 27 * (e * (t * t)) - m * t - 1769445 * t by {
      QuadraticTerms(t, e, m);
    }
  }

  lemma QuadraticTerms(t: int, e: int, m: int)
    ensures (27 * e * t - m - 1769445) * t == 27 * (e * (t * t)) - m * t - 1769445 * t
  {
    assert (27 * e * t) * t == 27 * (e * (t * t));
  }

  lemma SmallSquare(c: int, n: int)
    requires -19 <= c <= n && 19 <= n
    ensures c * c <= n * n && Cube(c) >= -6859
  {
    if c >= 0 {
      SquareMonotone(c, n);
      CubeMonotone(0, c);
    } else {
      SquareMonotone(-c, 19);
      SquareMonotone(19, n);
      CubeMonotone(-c, 19);
      assert Cube(-c) == -Cube(c);
    }
  }

  lemma CubeOfDifference(t: int, c: int)
    ensures Cube(3 * t - c) == 27 * (t * t * t) - 27 * (c * (t * t)) + 9 * (c * c) * t - Cube(c)
  {
    var tt, tc, cc := t * t, t * c, c * c;
    SquareOfTripleMinus(t, c);
    assert Cube(3 * t - c) == (9 * tt - 6 * tc + cc) * (3 * t - c);
    ThreeTermProduct(9, tt, -6, tc, 1, cc, 3, t, -c);
    SharedProducts(t, c);
    NegatedProducts(tt, tc, cc, c);
    assert t * t * t == tt * t && (9 * (c * c)) * t == 9 * (cc * t);
  }

  lemma SquareOfTripleMinus(t: int, c: int)
    ensures (3 * t - c) * (3 * t - c) == 9 * (t * t) - 6 * (t * c) + c * c
  {
  }

  lemma NegatedProducts(x: int, y: int, z: int, c: int)
    ensures x * -c == -(x * c) && y * -c == -(y * c) && z * -c == -(z * c)
  {
  }

  // ----- the cube root iteration -----

  /** Arguments from 0 to 3055.8.  At 3056.0 and elsewhere above, the square of the second iterate
      wraps around to a number so small that the third iterate is useless. */
  predicate CubeRootDomain(x: int) {
    0 <= x <= 200264909
  }

  /** From 3 or 5 units the iterate can come down to where the coarse quotient sends it up once more. */
  predicate GoesUp(x: int, t: int) {
    (x == 3 && 2344 <= t <= 2346) || (x == 5 && t == 2779)
  }

  /** Where it is then. */
  predicate HasGoneUp(x: int, t: int) {
    (x == 3 && 2352 <= t <= 2353) || (x == 5 && t == 2786)
  }

  ghost predicate CubeRootState(x: int, t: int, first: bool, up: bool) {
    && 0 < t <= 0xFF_FBBB
    && (if first then t == 0x2_0000 && !up else ReachesCubeRoot(x, t))
    && (up ==> HasGoneUp(x, t))
  }

  /** The truncated square that the next quotient is divided by: exact up to 128.0, and beyond with
      its high bit taken for a sign. */
  ghost predicate IsSquare(t: int, t2: int32) {
    if t <= 0x80_0000 then 0 <= t2 <= 0x4000_0000 && t2 * 0x1_0000 <= t * t < (t2 + 1) * 0x1_0000
    else 0x4000_0000 <= t2 || (INT_MIN < t2 < 0 && 0x1_0000_0000_0000 - t * t <= 0x1_0000 * Abs(t2) && 11863284 <= t)
  }

  lemma SquareOfIterate(t: int32)
    requires 0 < t <= 0xFF_FBBB
    ensures IsSquare(t, MulF(t, t))
  {
    var square := t * t;
    SquareMonotone(t, 0xFF_FBBB);
    if t <= 0x80_0000 {
      SquareMonotone(t, 0x80_0000);
    } else {
      SquareMonotone(0x80_0000, t);
      if t <= 11863283 {
        SquareMonotone(t, 11863283);
      } else {
        SquareMonotone(11863284, t);
      }
    }
    WrappedSquare(t, square, MulF(t, t));
  }

  lemma WrappedSquare(t: int32, square: int, t2: int32)
    requires square == t * t && t2 == Wrap(square / 0x1_0000) && 0 < t <= 0xFF_FBBB
    requires if t <= 0x80_0000 then 0 <= square <= 0x4000_0000_0000
             else if t <= 11863283 then 0x4000_0000_0000 <= square < 0x8000_0000_0000
             else 0x8000_0001_0000 <= square < 0x1_0000_0000_0000
    ensures IsSquare(t, t2)
  {
    var n := square / 0x1_0000;
    assert n * 0x1_0000 <= square < (n + 1) * 0x1_0000;
  }

  /** What the division by the truncated square gives. */
  ghost predicate IsCubeQuotient(x: int, t: int, t2: int, q: int) {
    t2 != 0 && if t <= 0x80_0000 then 0 <= q && q * t2 <= x * 0x1_0000 < (q + 1) * t2 else TooSmallByLessThanOne(q, Quotient(x, t2))
  }

  lemma IterateAtLeastCube(x: int, t: int, n: nat, c: int)
    requires ReachesCubeRoot(x, t)
    requires c == Cube(n) && c <= x * 0x1_0000_0000
    ensures n <= t
  {
    CubeReflects(t, n);
  }

  /** Lower bounds on an iterate, from lower bounds on x. */
  lemma IterateBounds(x: int, t: int)
    requires x > 0 && ReachesCubeRoot(x, t)
    ensures LeastIterate(x) <= t
  {
    hide ReachesCubeRoot;
    if x < 12 {
      IterateAtLeastCube(x, t, 1625, 4291015625);
    } else if x < 1040 {
      IterateAtLeastCube(x, t, 3721, 51520374361);
    } else if x < 66112 {
      IterateAtLeastCube(x, t, 16468, 4466039655232);
    } else {
      IterateAtLeastCube(x, t, 65720, 283852461248000);
    }
  }

  // ----- iterates up to 128.0 -----

  lemma TinyQuotientBound(x: int, t: int, t2: int, n: nat, m: nat)
    requires n <= t && t * t < (t2 + 1) * 0x1_0000
    requires m * 0x1_0000 <= n * n && x * 0x1_0000 < (n + 21) * m
    ensures x * 0x1_0000 < (t + 21) * t2
  {
    SquareMonotone(n, t);
    MulMonotone(n + 21, t + 21, m);
    MulMonotone(m, t2, t + 21);
  }

  /** Below 12 units too, except where the iterate goes up. */
  lemma TinyQuotient(x: int, t: int, t2: int)
    requires 0 < x < 12 && t * t < (t2 + 1) * 0x1_0000 && ReachesCubeRoot(x, t)
    requires !GoesUp(x, t)
    ensures x * 0x1_0000 < (t + 21) * t2
  {
    hide ReachesCubeRoot;
    match x {
      case 1 => IterateAtLeastCube(x, t, 1625, 4291015625); TinyQuotientBound(x, t, t2, 1625, 40);
      case 2 => IterateAtLeastCube(x, t, 2048, 8589934592); TinyQuotientBound(x, t, t2, 2048, 64);
      case 3 => IterateAtLeastCube(x, t, 2344, 12878723584); TinyQuotientBound(x, t, t2, 2347, 84);
      case 4 => IterateAtLeastCube(x, t, 2580, 17173512000); TinyQuotientBound(x, t, t2, 2580, 101);
      case 5 => IterateAtLeastCube(x, t, 2779, 21461775139); TinyQuotientBound(x, t, t2, 2780, 117);
      case 6 => IterateAtLeastCube(x, t, 2953, 25750777177); TinyQuotientBound(x, t, t2, 2953, 133);
      case 7 => IterateAtLeastCube(x, t, 3109, 30051224029); TinyQuotientBound(x, t, t2, 3109, 147);
      case 8 => IterateAtLeastCube(x, t, 3250, 34328125000); TinyQuotientBound(x, t, t2, 3250, 161);
      case 9 => IterateAtLeastCube(x, t, 3381, 38648755341); TinyQuotientBound(x, t, t2, 3381, 174);
      case 10 => IterateAtLeastCube(x, t, 3502, 42948542008); TinyQuotientBound(x, t, t2, 3502, 187);
      case _ => IterateAtLeastCube(x, t, 3615, 47241633375); TinyQuotientBound(x, t, t2, 3615, 199);
    }
  }

  /** t2 is a positive divisor for which the division is exact, and the quotient exceeds the iterate
      by at most 20, after the first step and where it does not go up. */
  lemma SmallDivision(x: int32, t: int32, t2: int32, first: bool, up: bool)
    requires CubeRootDomain(x) && CubeRootState(x, t, first, up) && t <= 0x80_0000 && IsSquare(t, t2)
    ensures t2 == 0 <==> t < 256
    ensures x > 0 ==> t2 > 0
    ensures !first && !GoesUp(x, t) && t2 > 0 ==> x * 0x1_0000 < (t + 21) * t2
    ensures t2 > 0 ==> DivInRange(x, t2)
  {
    if t < 256 {
      SquareMonotone(t, 255);
    } else {
      SquareMonotone(256, t);
    }
    if !first && x > 0 {
      IterateBounds(x, t);
      if x >= 12 {
        CubeQuotientBound(x, t, t2);
        MulMonotone(t + 21, 0x7FFF_0000, t2);
      } else if !GoesUp(x, t) {
        TinyQuotient(x, t, t2);
      }
    }
    if !first && x == 0 && t2 > 0 {
      MulMonotone(1, t2, t + 21);
    }
  }

  lemma FirstQuotient(x: int, t2: int32, q: int, dt: int)
    requires CubeRootDomain(x) && IsSquare(0x2_0000, t2) && IsCubeQuotient(x, 0x2_0000, t2, q)
    requires dt == TruncDiv(q - 0x2_0000, 3)
    ensures 0x2_0000 + dt <= 0xFF_FBBB
  {
    assert t2 == 0x4_0000;
  }

  /** The quotient of a tiny x by the truncated square of a known iterate. */
  lemma TinyStep(x: int, t: int, square: int, t2: int32, m: int, q: int, n: int)
    requires 0 < x < 12 && 0 < t <= 0x80_0000 && square == t * t && m * 0x1_0000 <= square < (m + 1) * 0x1_0000
    requires 0 < m && n * m <= x * 0x1_0000 < (n + 1) * m
    requires IsSquare(t, t2) && IsCubeQuotient(x, t, t2, q)
    ensures q == n
  {
    assert t2 == m;
    if q < n {
      MulMonotone(q + 1, n, m);
    } else if n < q {
      MulMonotone(n + 1, q, m);
    }
  }

  /** It goes up once. */
  lemma GoneUp(x: int, t: int, t2: int32, q: int, dt: int)
    requires IsSquare(t, t2) && IsCubeQuotient(x, t, t2, q) && dt == TruncDiv(q - t, 3)
    ensures GoesUp(x, t) ==> HasGoneUp(x, t + dt)
    ensures HasGoneUp(x, t) ==> -6 <= dt <= 6
  {
    hide IsSquare, IsCubeQuotient;
    if GoesUp(x, t) || HasGoneUp(x, t) {
      match t {
        case 2344 => TinyStep(x, 2344, 5494336, t2, 83, q, 2368);
        case 2345 => TinyStep(x, 2345, 5499025, t2, 83, q, 2368);
        case 2346 => TinyStep(x, 2346, 5503716, t2, 83, q, 2368);
        case 2352 => TinyStep(x, 2352, 5531904, t2, 84, q, 2340);
        case 2353 => TinyStep(x, 2353, 5536609, t2, 84, q, 2340);
        case 2779 => TinyStep(x, 2779, 7722841, t2, 117, q, 2800);
        case _ => TinyStep(x, 2786, 7761796, t2, 118, q, 2776);
      }
    }
  }

  /** A step from an iterate up to 128.0: it goes down unless it is the first or short or goes up once,
      and after a short step the iterate is next to the root. */
  lemma SmallIteration(x: int32, t: int32, t2: int32, first: bool, up: bool, q: int, dt: int)
    requires CubeRootDomain(x) && CubeRootState(x, t, first, up) && t <= 0x80_0000
    requires IsSquare(t, t2) && IsCubeQuotient(x, t, t2, q) && dt == TruncDiv(q - t, 3)
    ensures CubeRootState(x, t + dt, false, GoesUp(x, t))
    ensures !first && !GoesUp(x, t) && Abs(dt) > 6 ==> dt < 0
    ensures x > 0 && Abs(dt) <= 6 ==> WithinCubeRoot(x, t + dt, Precision(x))
    ensures x == 0 ==> Abs(dt) > 6
    ensures up ==> Abs(dt) <= 6
  {
    SmallDivision(x, t, t2, first, up);
    CubeStepAbove(x, t, t2, q, t + dt);
    GoneUp(x, t, t2, q, dt);
    if first {
      FirstQuotient(x, t2, q, dt);
    } else if !GoesUp(x, t) && t + 21 <= q {
      MulMonotone(t + 21, q, t2);
    }
    if x > 0 {
      if !first {
        IterateBounds(x, t);
      }
      IterateBounds(x, t + dt);
      if Abs(dt) <= 6 {
        CubeStopBelow(x, t, t2, q, t + dt);
      }
    } else if q > 0 {
      MulMonotone(1, q, t2);
    }
  }

  // ----- iterates above 128.0 -----

  /** The wrapped square is far enough from zero. */
  lemma LargeSquare(t: int)
    requires 11863284 <= t <= 0xFF_FBBB
    ensures (2 * t - 2853300) * (0x1_0000_0000_0000 - t * t) > 200264909 * 0x1_0000_0000
  {
    var d := 0x1_0000_0000_0000 - t * t;
    if t <= 16000000 {
      SquareMonotone(t, 16000000);
      MulMonotone(20873268, 2 * t - 2853300, d);
    } else {
      assert d == (0x100_0000 - t) * (0x100_0000 + t);
      MulMonotone(1093, 0x100_0000 - t, 0x100_0000 + t);
      MulMonotone(29146700, 2 * t - 2853300, d);
    }
  }

  /** The quotient is too small to matter, whatever its sign. */
  lemma LargeDivision(x: int32, t: int32, t2: int32)
    requires CubeRootDomain(x) && 0x80_0000 < t <= 0xFF_FBBB && IsSquare(t, t2)
    ensures t2 != 0 && 2853300 - 2 * t <= Quotient(x, t2) <= 20000
  {
    var n := Abs(Quotient(x, t2));
    TruncDivCorrect(x * 0x1_0000, t2);
    assert n * Abs(t2) <= x * 0x1_0000;
    if t2 > 0 {
      if n > 20000 {
        MulMonotone(20000, n, t2);
      }
    } else {
      LargeSquare(t);
      if n > 2 * t - 2853300 {
        MulMonotone(2 * t - 2853300, n, Abs(t2));
        MulMonotone(0x1_0000_0000_0000 - t * t, 0x1_0000 * Abs(t2), 2 * t - 2853300);
      }
    }
  }

  /** A step from above 128.0 goes far down, and not below the root. */
  lemma LargeIteration(x: int32, t: int32, t2: int32, q: int, dt: int)
    requires CubeRootDomain(x) && 0x80_0000 < t <= 0xFF_FBBB
    requires IsSquare(t, t2) && IsCubeQuotient(x, t, t2, q) && dt == TruncDiv(q - t, 3)
    ensures CubeRootState(x, t + dt, false, false)
    ensures dt < -6
  {
    LargeDivision(x, t, t2);
    assert 951100 <= t + dt;
    CubeMonotone(951100, t + dt + 1);
  }

  // ----- the loop -----

  /** The division of one iteration is by zero exactly if x is 0 and the iterate below 256 units. */
  lemma CubeDivision(x: int32, t: int32, t2: int32, first: bool, up: bool)
    requires CubeRootDomain(x) && CubeRootState(x, t, first, up) && t2 == MulF(t, t)
    ensures IsSquare(t, t2) && 0 < t <= 0xFF_FBBB
    ensures t2 == 0 <==> t < 256
    ensures t2 == 0 ==> x == 0
    ensures t2 != 0 ==> if t <= 0x80_0000 then DivInRange(x, t2) else t2 != INT_MIN && Fits(Quotient(x, t2))
  {
    SquareOfIterate(t);
    if t <= 0x80_0000 {
      SmallDivision(x, t, t2, first, up);
    } else {
      LargeDivision(x, t, t2);
    }
  }

  /** One iteration: the iterate stays in range; it decreases unless this is the first step, the
      step is short or it goes up once; and after a short step it is next to the root. */
  lemma CubeIteration(x: int32, t: int32, t2: int32, first: bool, up: bool, q: int, dt: int)
    requires CubeRootDomain(x) && CubeRootState(x, t, first, up)
    requires IsSquare(t, t2) && IsCubeQuotient(x, t, t2, q) && dt == TruncDiv(q - t, 3)
    ensures CubeRootState(x, t + dt, false, GoesUp(x, t)) && Fits(t + dt)
    ensures !first && !GoesUp(x, t) && Abs(dt) > 6 ==> dt < 0
    ensures x > 0 && Abs(dt) <= 6 ==> WithinCubeRoot(x, t + dt, Precision(x))
    ensures x == 0 ==> Abs(dt) > 6
    ensures up ==> Abs(dt) <= 6
  {
    if t <= 0x80_0000 {
      SmallIteration(x, t, t2, first, up, q, dt);
    } else {
      LargeIteration(x, t, t2, q, dt);
    }
  }

  /** At -16.0 it leads to 0. */
  lemma CubeRootOfNegative(x: int32, q: int, u: int32)
    requires -1048587 <= x <= -1048576
    requires IsTruncatedQuotient(x * 0x1_0000, MulF(0x2_0000, 0x2_0000), q)
    requires u == 0x2_0000 + TruncDiv(q - 0x2_0000, 3)
    ensures u == 0 && MulF(u, u) == 0
  {
    assert MulF(0x2_0000, 0x2_0000) == 0x4_0000;
    assert Abs(q) * 4 <= -x < (Abs(q) + 1) * 4;
  }

  /** The division gives what it should, and the difference to the iterate is an int. */
  lemma CubeQuotient(x: int32, t: int32, t2: int32, q: int32)
    requires 0 <= x && 0 < t && t2 != 0 && IsSquare(t, t2)
    requires CubeRootDomain(x) && t <= 0xFF_FBBB
    requires if t <= 0x80_0000 then IsTruncatedQuotient(x * 0x1_0000, t2, q) else TooSmallByLessThanOne(q, Quotient(x, t2))
    ensures IsCubeQuotient(x, t, t2, q) && Fits(q - t)
  {
    if t <= 0x80_0000 {
      QuotientIsFloor(x, t2, q);
    } else {
      LargeDivision(x, t, t2);
    }
  }

  method DivideBySquare(x: int32, t: int32, t2: int32) returns (q: int32)
    requires CubeRootDomain(x) && 0 < t <= 0xFF_FBBB && t2 != 0 && IsSquare(t, t2)
    requires if t <= 0x80_0000 then DivInRange(x, t2) else t2 != INT_MIN && Fits(Quotient(x, t2))
    ensures IsCubeQuotient(x, t, t2, q) && Fits(q - t)
  {
    hide IsSquare, IsCubeQuotient, Quotient, DivInRange, TooSmallByLessThanOne, IsTruncatedQuotient, DivSafe, DivExact, Wrap;
    var quotient, _ := DivF(x, t2);
    q := quotient;
    CubeQuotient(x, t, t2, q);
  }

  /** The statements of one iteration; `trap` is a division by zero. */
  method CubeStep(x: int32, t: int32, ghost first: bool, ghost up: bool) returns (trap: bool, u: int32, more: bool)
    requires CubeRootDomain(x) && CubeRootState(x, t, first, up)
    ensures trap <==> x == 0 && t < 256
    ensures !trap ==> CubeRootState(x, u, false, GoesUp(x, t))
    ensures !trap && more ==> first || (GoesUp(x, t) && !up) || u < t
    ensures !trap ==> (x == 0 ==> more) && (up ==> !more)
    ensures !trap && !more ==> WithinCubeRoot(x, u, Precision(x))
  {
    hide ReachesCubeRoot, WithinCubeRoot, GoesUp, HasGoneUp, CubeRootState, IsSquare, IsCubeQuotient, Precision, Quotient, TruncDiv, DivInRange;
    hide Wrap, MulF, TooSmallByLessThanOne, IsTruncatedQuotient, DivSafe, DivExact;
    var t2 := MulF(t, t);
    CubeDivision(x, t, t2, first, up);
    if t2 == 0 {
      return true, t, false;
    }
    var quotient := DivideBySquare(x, t, t2);
    var diff: int32 := quotient - t;
    QuotientFits(diff, 3);
    var dt: int32 := TruncDiv(diff, 3);
    CubeIteration(x, t, t2, first, up, quotient, dt);
    u := t + dt;
    var threshold := Threshold();
    more := AbsF(dt) > threshold;
    trap := false;
  }

  /** At 3056.0 the first step leads to 256.0, whose square wraps around to 0: the second iteration
      divides by zero. */
  lemma SquareVanishes(x: int32, q: int, u: int32)
    requires 200278016 <= x <= 200278027
    requires IsTruncatedQuotient(x * 0x1_0000, MulF(0x2_0000, 0x2_0000), q)
    requires u == 0x2_0000 + TruncDiv(q - 0x2_0000, 3)
    ensures x / 0x1_0000 == 3056 && MulF(u, u) == 0
  {
    assert MulF(0x2_0000, 0x2_0000) == 0x4_0000;
    QuotientIsFloor(x, 0x4_0000, q);
    assert u == 0x100_0000;
  }

  /** A root, or the trap of a division by zero. */
  datatype Root = DivideError | Root(value: int32)

  /** pow, which ignores its second argument: a cube root. */
  method Pow(x: int32, y: int32) returns (r: Root)
    requires CubeRootDomain(x)
    ensures r == DivideError <==> x == 0
    ensures r.Root? ==> ReachesCubeRoot(x, r.value) && WithinCubeRoot(x, r.value, Precision(x))
    ensures r.Root? ==> WithinCubeRoot(x, r.value, if x < 12 then 15 else if x < 1040 then 7 else if x < 66112 then 2 else 1)
  {
    InitialGuess();
    hide ReachesCubeRoot, WithinCubeRoot, GoesUp, HasGoneUp, Precision;
    var t: int32 := IntToF(2);
    ghost var first, up := true, false;
    var more := true;
    while more
      invariant CubeRootState(x, t, first, up)
      invariant first || x == 0 ==> more
      invariant !more ==> WithinCubeRoot(x, t, Precision(x))
      decreases more, first, !up, t
    {
      ghost var t0 := t;
      var trap;
      trap, t, more := CubeStep(x, t, first, up);
      if trap {
        return DivideError;
      }
      first, up := false, GoesUp(x, t0);
    }
    assert Precision(x) == if x < 12 then 15 else if x < 1040 then 7 else if x < 66112 then 2 else 1 by {
      PrecisionTiers(x);
    }
    return Root(t);
  }
}
