/** The integrand and the trapezoid rule of integral.c, on top of FLOAT arithmetic.
    The exact values the results are compared with are reals, in FLOAT units. */
module Integral {
  import opened Int32
  import opened FixedPoint
  import FloatBits
  import Roots

  // ----- the integrand -----

  /** Arguments up to 25.5993, for which 1 + 25 x^2 is at most 2^30. */
  predicate InDomain(x: int) {
    -1677670 <= x <= 1677670
  }

  /** 1 + 25 x^2 as a FLOAT, with the square rounded down. */
  function Denominator(x: int): int {
    0x1_0000 + 25 * ((x * x) / 0x1_0000)
  }

  /** 2^16 times the exact 1 + 25 x^2 in FLOAT units. */
  function ExactDenominator(x: int): int {
    0x1_0000_0000 + 25 * (x * x)
  }

  lemma DenominatorBounds(x: int)
    ensures 0x1_0000 <= Denominator(x)
    ensures Denominator(x) * 0x1_0000 <= ExactDenominator(x) < Denominator(x) * 0x1_0000 + 25 * 0x1_0000
  {
    var xx := x * x;
    assert 0 <= xx;
  }

  /** These are the arguments for which 1 + 25 x^2 leaves room for every shift of the division. */
  lemma InDomainIff(x: int)
    ensures InDomain(x) <==> Denominator(x) <= 0x4000_0000
  {
    var m: int := Abs(x);
    assert m * m == x * x;
    if InDomain(x) {
      Roots.SquareMonotone(m, 1677670);
    } else {
      Roots.SquareMonotone(1677671, m);
    }
  }

  /** The value f computes for 1 / (1 + 25 x^2). */
  function Runge(x: int): (y: int)
    ensures 0 <= y <= 0x1_0000
  {
    DenominatorBounds(x);
    RatioAtMost(Denominator(x));
    0x1_0000_0000 / Denominator(x)
  }

  /** The computed value is the quotient, rounded down, of the encoded 1.0 by 1 + 25 x^2, whose square is
      rounded down first. */
  lemma RungeIsFloor(x: int)
    ensures var d := 0x1_0000 + 25 * ((x * x) / 0x1_0000);
            Runge(x) * d <= 0x1_0000_0000 < (Runge(x) + 1) * d
  {
    DenominatorBounds(x);
    RatioAtMost(Denominator(x));
  }

  /** computeT's sum starts with half the values at the end points, rounded toward zero, and adds the value
      at each inner sample point. */
  lemma SumMeans(fun: int32 -> int32, a: int32, b: int32, h: int, k: nat)
    requires 1 <= k && Fits(a + h * k)
    ensures var ends := fun(a) + fun(b); var half := Sum(fun, a, b, h, 1);
            2 * Abs(half) <= Abs(ends) <= 2 * Abs(half) + 1 && (half != 0 ==> (half < 0 <==> ends < 0))
    ensures Sum(fun, a, b, h, k + 1) == Sum(fun, a, b, h, k) + fun(a + h * k)
  {
    assert Sum(fun, a, b, h, 1) == TruncDiv(fun(a) + fun(b), 2);
  }

  lemma RatioAtMost(d: int)
    requires 0x1_0000 <= d
    ensures 0 <= 0x1_0000_0000 / d <= 0x1_0000
    ensures (0x1_0000_0000 / d) * d <= 0x1_0000_0000 < (0x1_0000_0000 / d + 1) * d
  {
    DivBounds(0x1_0000_0000, d);
    var q := 0x1_0000_0000 / d;
    if q > 0x1_0000 {
      MulMonotone(0x1_0001, q, d);
    }
  }

  /** f, for every argument whose 1 + 25 x^2 is an int: the result is the quotient exactly on the domain. */
  method F(x: int32) returns (y: int32)
    requires Denominator(x) < 0x8000_0000
    ensures y == Runge(x) <==> InDomain(x)
  {
    DenominatorBounds(x);
    InDomainIff(x);
    Pow2Of16();
    hide Wrap, Pow2;
    var one := IntToF(1);
    var square := MulF(x, x);
    var scaled: int32 := 25 * square;
    var denominator: int32 := one + scaled;
    RungeDivision(x, denominator);
    hide Quotient, DivExact, DivInRange, DivSafe, IsTruncatedQuotient, TooSmallByLessThanOne, InDomain, Runge, Denominator;
    var quotient, _ := DivF(one, denominator);
    y := quotient;
  }

  /** Runge(x) is the quotient of the encoded 1.0 by d = 1 + 25 x^2.  Beyond 2^30 the remainder before
      the 15th step is 2^30 < d, and doubling it overflows. */
  lemma RungeDivision(x: int, d: int32)
    requires d == Denominator(x)
    ensures d != 0 && Quotient(0x1_0000, d) == Runge(x)
    ensures DivExact(0x1_0000, d) <==> InDomain(x)
  {
    DenominatorBounds(x);
    InDomainIff(x);
    RatioAtMost(d);
    hide Denominator, InDomain;
    assert Quotient(0x1_0000, d) == 0x1_0000_0000 / d;
    hide Quotient;
    DivisionOfOne(d);
  }

  lemma DivisionOfOne(d: int32)
    requires 0x1_0000 <= d && Fits(Quotient(0x1_0000, d))
    ensures DivExact(0x1_0000, d) <==> d <= 0x4000_0000
  {
    hide Quotient, StepsFit;
    if d <= 0x4000_0000 {
      InRangeIsSafe(0x1_0000, d);
    } else {
      LateStepFails(d);
    }
  }

  lemma LateStepFails(d: int)
    requires 0x4000_0000 < d
    ensures !StepsFit(0x1_0000, d, 16)
  {
    Pow2Of14();
    hide Pow2;
    var n := 0x1_0000 * Pow2(14);
    RemainderUnique(n, d, 0, n);
    assert 2 * ((0x1_0000 * Pow2(14)) % d) >= 0x8000_0000;
  }

  lemma Pow2Of14()
    ensures Pow2(14) == 0x4000
  {
    assert Pow2(4) == 0x10;
    assert Pow2(8) == 0x100;
    assert Pow2(12) == 0x1000;
  }

  /** The exact 1 / (1 + 25 x^2) in FLOAT units. */
  ghost function Exact(x: int): (v: real)
    ensures v > 0.0
  {
    281474976710656.0 / (ExactDenominator(x) as real)
  }

  /** The computed value is less than 1 unit below and less than 25 units above the exact one. */
  lemma RungeError(x: int)
    ensures Runge(x) as real - 25.0 < Exact(x) < Runge(x) as real + 1.0
  {
    var y, d, e := Runge(x), Denominator(x), ExactDenominator(x);
    DenominatorBounds(x);
    RatioAtMost(d);
    assert y == 0x1_0000_0000 / d;
    hide Runge, Denominator, ExactDenominator;
    CrossProducts(y, d, e);
    RatioBounds(y - 25, y + 1, e);
  }

  lemma ProductFromBelow(y: int, d: int, e: int)
    requires 0 <= y && d * 0x1_0000 <= e
    ensures (y * d) * 0x1_0000 <= y * e
  {
    MulMonotone(d * 0x1_0000, e, y);
    assert (d * 0x1_0000) * y == (y * d) * 0x1_0000;
  }

  lemma ProductFromAbove(y: int, d: int, c: int, e: int)
    requires 0 <= y && e <= d * 0x1_0000 + c
    ensures y * e <= (y * d) * 0x1_0000 + y * c
  {
    MulMonotone(e, d * 0x1_0000 + c, y);
    assert (d * 0x1_0000 + c) * y == (y * d) * 0x1_0000 + y * c;
  }

  lemma FewerTimes(y: int, e: int)
    ensures (y - 25) * e == y * e - 25 * e
  {
  }

  lemma CrossProducts(y: int, d: int, e: int)
    requires 0 <= y <= 0x1_0000 && 0x1_0000 <= d && y * d <= 0x1_0000_0000 < (y + 1) * d
    requires d * 0x1_0000 <= e < d * 0x1_0000 + 25 * 0x1_0000
    ensures 0 < e && (y - 25) * e < 0x1_0000_0000_0000 < (y + 1) * e
  {
    ProductFromBelow(y + 1, d, e);
    ProductFromAbove(y, d, 25 * 0x1_0000 - 1, e);
    FewerTimes(y, e);
    assert y * (25 * 0x1_0000 - 1) == 1638399 * y;
  }

  lemma RatioBounds(low: int, high: int, e: int)
    requires 0 < e && low * e < 0x1_0000_0000_0000 < high * e
    ensures low as real < 281474976710656.0 / (e as real) < high as real
  {
    var v, r := 281474976710656.0 / (e as real), e as real;
    assert v * r == 281474976710656.0;
    assert low as real * r == (low * e) as real;
    assert high as real * r == (high * e) as real;
  }

  // ----- the trapezoid rule -----

  /** The running sum of computeT after the samples 1..k-1, for an arbitrary integrand. */
  function Sum(fun: int32 -> int32, a: int32, b: int32, h: int, k: nat): int {
    if k <= 1 then TruncDiv(fun(a) + fun(b), 2)
    else Sum(fun, a, b, h, k - 1) + fun(Wrap(a + h * (k - 1)))
  }

  /** No addition or multiplication of computeT overflows. */
  ghost predicate TrapezoidFits(n: int32, a: int32, b: int32, fun: int32 -> int32) {
    && n >= 1 && Fits(b - a) && Fits(fun(a) + fun(b))
    && forall k: nat {:trigger Sum(fun, a, b, TruncDiv(b - a, n), k)} :: 1 <= k <= n ==>
         && Fits(Sum(fun, a, b, TruncDiv(b - a, n), k))
         && (k < n ==> Fits(TruncDiv(b - a, n) * k) && Fits(a + TruncDiv(b - a, n) * k))
  }

  lemma StartFits(n: int32, a: int32, b: int32, fun: int32 -> int32)
    requires TrapezoidFits(n, a, b, fun)
    ensures n >= 1 && Fits(b - a) && Fits(fun(a) + fun(b)) && Fits(TruncDiv(b - a, n))
    ensures Fits(Sum(fun, a, b, TruncDiv(b - a, n), 1))
    ensures Sum(fun, a, b, TruncDiv(b - a, n), 1) == TruncDiv(fun(a) + fun(b), 2)
  {
    QuotientMagnitude(b - a, n);
    hide TruncDiv;
  }

  lemma SampleFits(n: int32, a: int32, b: int32, fun: int32 -> int32, k: nat)
    requires TrapezoidFits(n, a, b, fun) && 1 <= k < n
    ensures var h := TruncDiv(b - a, n);
            && Fits(h * k) && Fits(a + h * k) && Fits(Sum(fun, a, b, h, k + 1))
            && Sum(fun, a, b, h, k + 1) == Sum(fun, a, b, h, k) + fun(a + h * k)
  {
    hide TruncDiv, Wrap;
    var h := TruncDiv(b - a, n);
    assert Fits(Sum(fun, a, b, h, k)) && Fits(Sum(fun, a, b, h, k + 1));
  }

  /** computeT for any integrand whose sums stay in range. */
  method ComputeT(n: int32, a: int32, b: int32, fun: int32 -> int32) returns (s: int32)
    requires TrapezoidFits(n, a, b, fun)
    ensures s == MulF(Wrap(Sum(fun, a, b, TruncDiv(b - a, n), n)), Wrap(TruncDiv(b - a, n)))
  {
    StartFits(n, a, b, fun);
    hide TrapezoidFits, Sum, TruncDiv, MulF, Wrap;
    var width: int32 := b - a;
    var h: int32 := TruncDiv(width, n);
    var ends: int32 := fun(a) + fun(b);
    s := TruncDiv(ends, 2);
    var k: int32 := 1;
    while k < n
      invariant 1 <= k <= n
      invariant s == Sum(fun, a, b, h, k)
    {
      SampleFits(n, a, b, fun, k);
      var offset: int32 := h * k;
      var point: int32 := a + offset;
      s := s + fun(point);
      k := k + 1;
    }
    s := MulF(s, h);
  }

  lemma QuotientMagnitude(w: int, n: int)
    requires 1 <= n
    ensures Abs(TruncDiv(w, n)) * n <= Abs(w) && Abs(TruncDiv(w, n)) <= Abs(w)
    ensures TruncDiv(w, n) == 0 || (TruncDiv(w, n) < 0 <==> w < 0)
  {
    var q := Abs(w) / n;
    DivBounds(Abs(w), n);
    DivNatBounds(Abs(w), n);
    assert TruncDiv(w, n) == if w < 0 then 0 - q else q;
    hide TruncDiv;
  }

  /** A sample point lies between a and b. */
  lemma SampleBetween(a: int, b: int, n: int, k: int)
    requires 1 <= n && 0 <= k <= n
    ensures var h := TruncDiv(b - a, n); Abs(h * k) <= Abs(b - a)
    ensures var h := TruncDiv(b - a, n); a <= a + h * k <= b || b <= a + h * k <= a
  {
    var h := TruncDiv(b - a, n);
    QuotientMagnitude(b - a, n);
    hide TruncDiv;
    MulMonotone(k, n, Abs(h));
    SignedProduct(h, k);
  }

  lemma SignedProduct(h: int, k: int)
    requires 0 <= k
    ensures Abs(h * k) == k * Abs(h) && (h >= 0 ==> h * k >= 0) && (h <= 0 ==> h * k <= 0)
  {
    if h >= 0 {
      MulMonotone(0, h, k);
    } else {
      MulMonotone(h, 0, k);
      assert h * k == -(k * -h);
    }
  }

  /** The k-th of the n + 1 arguments at which computeT may evaluate its integrand. */
  function Sample(a: int, b: int, n: int, k: int): int
    requires n >= 1
  {
    a + TruncDiv(b - a, n) * k
  }

  /** On the domain f returns the integrand's value at every sample point. */
  lemma SamplesInDomain(a: int, b: int, n: int)
    requires n >= 1 && InDomain(a) && InDomain(b)
    ensures forall k :: 0 <= k <= n ==> InDomain(Sample(a, b, n, k))
  {
    forall k | 0 <= k <= n
      ensures InDomain(Sample(a, b, n, k))
    {
      SampleBetween(a, b, n, k);
      hide TruncDiv;
    }
  }

  /** The exact trapezoid sum at the sample points of computeT. */
  ghost function ExactSum(a: int, b: int, h: int, k: nat): real {
    if k <= 1 then (Exact(a) + Exact(b)) / 2.0
    else ExactSum(a, b, h, k - 1) + Exact(a + h * (k - 1))
  }

  /** computeT's integrand. */
  const INTEGRAND: int32 -> int32 := x => Runge(x)

  /** The sum stays below 65536 per sample, and less than 25 units per sample above and one unit
      per sample (and a half) below the exact sum. */
  lemma {:induction false} SumError(n: int32, a: int32, b: int32, k: nat)
    requires 1 <= k <= n && InDomain(a) && InDomain(b)
    ensures var h := TruncDiv(b - a, n);
            && 0 <= Sum(INTEGRAND, a, b, h, k) <= 0x1_0000 * k
            && Sum(INTEGRAND, a, b, h, k) as real - 25.0 * k as real
               < ExactSum(a, b, h, k)
               < Sum(INTEGRAND, a, b, h, k) as real + k as real + 0.5
  {
    var h := TruncDiv(b - a, n);
    if k == 1 {
      RungeError(a);
      RungeError(b);
      HalfSum(Runge(a), Runge(b));
      hide TruncDiv, Runge, Exact;
    } else {
      SumError(n, a, b, k - 1);
      SampleBetween(a, b, n, k - 1);
      var x := a + h * (k - 1);
      RungeError(x);
      assert Sum(INTEGRAND, a, b, h, k) == Sum(INTEGRAND, a, b, h, k - 1) + Runge(x);
      assert ExactSum(a, b, h, k) == ExactSum(a, b, h, k - 1) + Exact(x);
      hide TruncDiv, Sum, ExactSum, INTEGRAND, Runge, Exact;
    }
  }

  lemma HalfSum(p: nat, q: nat)
    ensures 2 * TruncDiv(p + q, 2) <= p + q <= 2 * TruncDiv(p + q, 2) + 1
  {
  }

  /** With at most 32767 intervals nothing overflows. */
  lemma RungeTrapezoidFits(n: int32, a: int32, b: int32)
    requires 1 <= n <= 0x7FFF && InDomain(a) && InDomain(b)
    ensures TrapezoidFits(n, a, b, INTEGRAND)
  {
    var h := TruncDiv(b - a, n);
    forall k: nat | 1 <= k <= n
      ensures Fits(Sum(INTEGRAND, a, b, h, k)) && Fits(h * k) && Fits(a + h * k)
    {
      SumError(n, a, b, k);
      SampleBetween(a, b, n, k);
    }
  }

  /** More intervals are too many: at the maximum of the integrand the sum reaches 2^31. */
  lemma TooManyIntervals(n: int32)
    requires 0x8000 <= n
    ensures !TrapezoidFits(n, 0, 0, INTEGRAND)
  {
    assert TruncDiv(0 - 0, n) == 0 by {
      QuotientMagnitude(0, n);
    }
    hide TruncDiv, Sum, INTEGRAND, Runge;
    SumAtZero(n);
    assert !Fits(Sum(INTEGRAND, 0, 0, TruncDiv(0 - 0, n), n));
  }

  lemma {:induction false} SumAtZero(k: nat)
    requires 1 <= k
    ensures Sum(INTEGRAND, 0, 0, 0, k) == 0x1_0000 * k
  {
    assert INTEGRAND(0) == 0x1_0000;
    assert TruncDiv(0x2_0000, 2) == 0x1_0000;
    hide INTEGRAND, TruncDiv, Runge;
    if k > 1 {
      SumAtZero(k - 1);
    }
  }

  /** s is sum * h in FLOAT units, up to 25 units per unit of length, plus one. */
  ghost predicate NearProduct(s: int, sum: real, h: int, width: int) {
    var bound := 25.0 * Abs(width) as real / 65536.0 + 1.0;
    -bound < s as real - sum * h as real / 65536.0 < bound
  }

  /** The value of computeT over f: the sum times the interval length, rounded down once more,
      against the exact trapezoid sum at the same sample points, at all of which f returns the
      integrand. */
  method Integrate(n: int32, a: int32, b: int32) returns (s: int32)
    requires 1 <= n <= 0x7FFF && InDomain(a) && InDomain(b)
    ensures NearProduct(s, ExactSum(a, b, TruncDiv(b - a, n), n), TruncDiv(b - a, n), b - a)
    ensures forall k :: 0 <= k <= n ==> InDomain(Sample(a, b, n, k))
  {
    RungeTrapezoidFits(n, a, b);
    SamplesInDomain(a, b, n);
    SumError(n, a, b, n);
    QuotientMagnitude(b - a, n);
    hide TruncDiv, Sum, ExactSum, TrapezoidFits, NearProduct, Sample, InDomain, INTEGRAND, Wrap;
    s := ComputeT(n, a, b, INTEGRAND);
    SumFits(n, a, b);
    ProductError(n, Sum(INTEGRAND, a, b, TruncDiv(b - a, n), n), ExactSum(a, b, TruncDiv(b - a, n), n),
                 TruncDiv(b - a, n), b - a, s);
  }

  lemma SumFits(n: int32, a: int32, b: int32)
    requires TrapezoidFits(n, a, b, INTEGRAND)
    ensures Fits(Sum(INTEGRAND, a, b, TruncDiv(b - a, n), n)) && Fits(TruncDiv(b - a, n))
  {
    QuotientMagnitude(b - a, n);
  }

  /** The final multiplication does not overflow and rounds down by less than a unit. */
  lemma ProductRounding(n: int, sum: int32, h: int32, width: int)
    requires 1 <= n && -0x40_0000 <= width <= 0x40_0000 && Abs(h) * n <= Abs(width)
    requires 0 <= sum <= 0x1_0000 * n
    ensures MulF(sum, h) * 0x1_0000 <= sum * h < (MulF(sum, h) + 1) * 0x1_0000
  {
    MulFIsFloor(sum, h);
    hide MulF, Wrap;
    MulMonotone(sum, 0x1_0000 * n, Abs(h));
    assert (0x1_0000 * n) * Abs(h) == 0x1_0000 * (Abs(h) * n);
    AbsProduct(sum, h);
    QuotientInRange(sum * h, width);
  }

  lemma AbsProduct(a: nat, h: int)
    ensures Abs(a * h) == a * Abs(h)
  {
    if h >= 0 {
      assert a * h >= 0;
    } else {
      assert a * h == -(a * -h);
    }
  }

  lemma QuotientInRange(product: int, width: int)
    requires Abs(product) <= 0x1_0000 * Abs(width) && Abs(width) <= 0x40_0000
    ensures Fits(product / 0x1_0000)
  {
  }

  lemma ProductError(n: int, sum: int32, exact: real, h: int32, width: int, s: int32)
    requires 1 <= n && -0x40_0000 <= width <= 0x40_0000 && Abs(h) * n <= Abs(width)
    requires 0 <= sum <= 0x1_0000 * n
    requires sum as real - 25.0 * n as real < exact < sum as real + n as real + 0.5
    requires s == MulF(sum, h)
    ensures NearProduct(s, exact, h, width)
  {
    ProductRounding(n, sum, h, width);
    hide MulF;
    var error := exact - sum as real;
    ScaledError(error, n, h);
    assert exact * h as real == (sum * h) as real + error * h as real by {
      assert (sum * h) as real == sum as real * h as real;
    }
    RoundedBound(s, sum * h, error * h as real, width, Abs(h) * n, exact * h as real);
  }

  lemma RoundedBound(s: int, product: int, scaled: real, width: int, length: int, target: real)
    requires s * 0x1_0000 <= product < (s + 1) * 0x1_0000
    requires 0 <= length <= Abs(width)
    requires -25.0 * length as real <= scaled <= 25.0 * length as real
    requires target == product as real + scaled
    ensures var bound := 25.0 * Abs(width) as real / 65536.0 + 1.0;
            -bound < s as real - target / 65536.0 < bound
  {
    assert s as real * 65536.0 <= product as real < (s + 1) as real * 65536.0;
  }

  lemma ScaledError(error: real, n: int, h: int)
    requires 1 <= n && -25.0 * n as real < error < 25.0 * n as real
    ensures -25.0 * (Abs(h) * n) as real <= error * h as real <= 25.0 * (Abs(h) * n) as real
  {
    var m, r := Abs(h) as real, n as real;
    FloatBits.RealProduct(Abs(h), n);
    ScaledBound(error, r, m);
    SignedRealProduct(error, h);
    hide Abs;
  }

  lemma ScaledBound(error: real, r: real, m: real)
    requires -25.0 * r < error < 25.0 * r && 0.0 <= m
    ensures -25.0 * (m * r) <= error * m <= 25.0 * (m * r)
  {
    RealMulMonotone(error, 25.0 * r, m);
    RealMulMonotone(-25.0 * r, error, m);
    assert (25.0 * r) * m == 25.0 * (m * r);
    assert (-25.0 * r) * m == -25.0 * (m * r);
  }

  lemma SignedRealProduct(error: real, h: int)
    ensures error * h as real == if h >= 0 then error * (Abs(h) as real) else -(error * (Abs(h) as real))
  {
    if h < 0 {
      assert h as real == -(Abs(h) as real);
    }
  }

  lemma RealMulMonotone(a: real, b: real, c: real)
    requires a <= b && 0.0 <= c
    ensures a * c <= b * c
  {
  }

  // ----- the test of integral.c -----

  /** The IEEE patterns of the literals -1.0, 1.0 and 0.551222. */
  const MINUS_ONE_BITS: int32 := -0x4080_0000
  const ONE_BITS: int32 := 0x3F80_0000
  const ANSWER_BITS: int32 := 0x3F0D_1CE3

  /** The patterns are those of the singles nearest to the decimal literals of the source: 0.551222, and 1e-4. */
  lemma NearestSingles()
    ensures FloatBits.Pattern(true, 127, 0) == MINUS_ONE_BITS && FloatBits.Pattern(false, 127, 0) == ONE_BITS
    ensures exists f: nat :: f < 0x80_0000 && FloatBits.Pattern(false, 126, f) == ANSWER_BITS
              && 2 * Abs(1000000 * (0x80_0000 + f) - 551222 * 0x100_0000) <= 1000000
    ensures exists f: nat :: f < 0x80_0000 && FloatBits.Pattern(false, 113, f) == Roots.THRESHOLD_BITS
              && 2 * Abs(10000 * (0x80_0000 + f) - 0x20_0000_0000) <= 10000
  {
    assert FloatBits.Pattern(false, 126, 859363) == ANSWER_BITS;
    assert FloatBits.Pattern(false, 113, 5355287) == Roots.THRESHOLD_BITS;
  }

  lemma ConvertedLiteral(bits: int32, value: int, r: int)
    requires FloatBits.IsTruncatedValue(bits, value) && FloatBits.IsTruncatedValue(bits, r)
    ensures r == value
  {
    FloatBits.TruncatedValueUnique(bits, value, r);
  }

  lemma Literals()
    ensures FloatBits.Convertible(MINUS_ONE_BITS) && FloatBits.IsTruncatedValue(MINUS_ONE_BITS, -0x1_0000)
    ensures FloatBits.Convertible(ONE_BITS) && FloatBits.IsTruncatedValue(ONE_BITS, 0x1_0000)
    ensures FloatBits.Convertible(ANSWER_BITS) && FloatBits.IsTruncatedValue(ANSWER_BITS, 36124)
  {
    assert FloatBits.Exponent(MINUS_ONE_BITS) == 127 && FloatBits.Significand(MINUS_ONE_BITS) == 0x80_0000;
    assert FloatBits.Exponent(ONE_BITS) == 127 && FloatBits.Significand(ONE_BITS) == 0x80_0000;
    assert FloatBits.Exponent(ANSWER_BITS) == 126 && FloatBits.Significand(ANSWER_BITS) == 9247971;
    hide FloatBits.Exponent, FloatBits.Significand;
    LiteralValue(MINUS_ONE_BITS, 7, 0x80, -0x1_0000);
    LiteralValue(ONE_BITS, 7, 0x80, 0x1_0000);
    LiteralValue(ANSWER_BITS, 8, 0x100, 36124);
  }

  lemma LiteralValue(bits: int32, shift: nat, p: nat, value: int)
    requires 103 <= FloatBits.Exponent(bits) == 134 - shift <= 141 && 1 <= shift && value != 0 && (value < 0 <==> bits < 0)
    requires (shift == 7 && p == 0x80) || (shift == 8 && p == 0x100)
    requires Abs(value) * p <= FloatBits.Significand(bits) < (Abs(value) + 1) * p
    ensures FloatBits.Convertible(bits) && FloatBits.IsTruncatedValue(bits, value)
  {
    FloatBits.PowersUsed();
    hide Pow2, FloatBits.Exponent, FloatBits.Significand;
    assert FloatBits.Scale(bits) == 0 - shift;
  }

  /** The literals of the test, converted by f2F. */
  method ConvertLiterals() returns (low: int32, high: int32, answer: int32)
    ensures low == -0x1_0000 && high == 0x1_0000 && answer == 36124
  {
    Literals();
    hide FloatBits.Convertible, FloatBits.IsTruncatedValue;
    var l, _ := FloatBits.FromFloat(MINUS_ONE_BITS);
    ConvertedLiteral(MINUS_ONE_BITS, -0x1_0000, l);
    var h, _ := FloatBits.FromFloat(ONE_BITS);
    ConvertedLiteral(ONE_BITS, 0x1_0000, h);
    var a, _ := FloatBits.FromFloat(ANSWER_BITS);
    ConvertedLiteral(ANSWER_BITS, 36124, a);
    low, high, answer := l, h, a;
  }

  /** The main function of the test: its assertion holds, with 36126 units against the 36124 of
      0.551222 and a threshold of 6. */
  method RunTest() returns (a: int32, answer: int32, passed: bool)
    ensures a == 36126 && answer == 36124 && passed
  {
    var low, high, ans := ConvertLiterals();
    answer := ans;
    RungeTrapezoidFits(10, low, high);
    TenIntervals();
    hide Sum, TrapezoidFits, INTEGRAND, MulF, TruncDiv;
    a := ComputeT(10, low, high, INTEGRAND);
    var threshold := Roots.Threshold();
    var difference: int32 := a - answer;
    passed := Roots.AbsF(difference) < threshold;
  }

  /** The length of an interval, the sum and the result of the test. */
  lemma TenIntervals()
    ensures TruncDiv(0x1_0000 - -0x1_0000, 10) == 13107
    ensures Sum(INTEGRAND, -0x1_0000, 0x1_0000, 13107, 10) == 180634
    ensures MulF(180634, 13107) == 36126
  {
    Samples();
    hide Runge, INTEGRAND;
    assert Sum(INTEGRAND, -0x1_0000, 0x1_0000, 13107, 1) == 2520;
    assert Sum(INTEGRAND, -0x1_0000, 0x1_0000, 13107, 3) == 2520 + 3855 + 6553;
    assert Sum(INTEGRAND, -0x1_0000, 0x1_0000, 13107, 5) == 12928 + 13106 + 32770;
    assert Sum(INTEGRAND, -0x1_0000, 0x1_0000, 13107, 7) == 58804 + 65536 + 32777;
    assert Sum(INTEGRAND, -0x1_0000, 0x1_0000, 13107, 9) == 157117 + 13108 + 6554;
  }

  lemma Samples()
    ensures INTEGRAND(-0x1_0000) == 2520 && INTEGRAND(0x1_0000) == 2520
    ensures INTEGRAND(-52429) == 3855 && INTEGRAND(-39322) == 6553 && INTEGRAND(-26215) == 13106
    ensures INTEGRAND(-13108) == 32770 && INTEGRAND(-1) == 65536 && INTEGRAND(13106) == 32777
    ensures INTEGRAND(26213) == 13108 && INTEGRAND(39320) == 6554 && INTEGRAND(52427) == 3855
  {
    SampleAt(-65536, 1703936, 2520);
    SampleAt(-52429, 1114111, 3855);
    SampleAt(-39322, 655361, 6553);
    SampleAt(-26215, 327686, 13106);
    SampleAt(-13108, 131061, 32770);
    SampleAt(-1, 65536, 65536);
    SampleAt(13106, 131036, 32777);
    SampleAt(26213, 327636, 13108);
    SampleAt(39320, 655311, 6554);
    SampleAt(52427, 1114036, 3855);
    SampleAt(65536, 1703936, 2520);
    hide Runge;
  }

  lemma SampleAt(x: int, d: int, y: int)
    requires Denominator(x) == d && y * d <= 0x1_0000_0000 < (y + 1) * d && 0x1_0000 <= d
    ensures Runge(x) == y
  {
    DivBounds(0x1_0000_0000, d);
    var q := 0x1_0000_0000 / d;
    if q < y {
      MulMonotone(q + 1, y, d);
    } else if y < q {
      MulMonotone(y + 1, q, d);
    }
  }
}
