/** The machine integers the C code computes with: 32-bit two's complement `int`,
    C's truncating division, and the i386 shifts. */
module Int32 {

  const INT_MIN: int := -0x8000_0000

  /** A value that a C `int` can hold.  A variable of this type that is assigned the result of
      an unbounded operation carries the proof that the operation did not overflow. */
  type int32 = x: int | -0x8000_0000 <= x < 0x8000_0000

  predicate Fits(n: int) {
    -0x8000_0000 <= n < 0x8000_0000
  }

  /** The `int` that the low 32 bits of n denote. */
  function Wrap(n: int): (r: int32)
    ensures Fits(n) ==> r == n
  {
    (n + 0x8000_0000) % 0x1_0000_0000 - 0x8000_0000
  }

  /** Wrap(n) is the only int that differs from n by a multiple of 2^32. */
  lemma WrapUnique(n: int, r: int32, k: int)
    requires n == r + k * 0x1_0000_0000
    ensures Wrap(n) == r
  {
  }

  lemma WrapQuotient(n: int) returns (k: int)
    ensures n == Wrap(n) + k * 0x1_0000_0000
  {
    k := (n + 0x8000_0000) / 0x1_0000_0000;
  }

  function Abs(n: int): nat {
    if n < 0 then -n else n
  }

  /** C's `/`: truncates toward zero. */
  function TruncDiv(n: int, d: int): int
    requires d != 0
  {
    var q := Abs(n) / Abs(d);
    if (n < 0) == (d < 0) then q else -q
  }

  /** C's `%`: the remainder takes the sign of the dividend. */
  function TruncRem(n: int, d: int): int
    requires d != 0
  {
    if n < 0 then -(Abs(n) % Abs(d)) else Abs(n) % Abs(d)
  }

  /** q is n / d rounded toward zero, said without dividing. */
  ghost predicate IsTruncatedQuotient(n: int, d: int, q: int)
    requires d != 0
  {
    && Abs(q) * Abs(d) <= Abs(n) < (Abs(q) + 1) * Abs(d)
    && (q != 0 ==> ((q < 0) <==> ((n < 0) != (d < 0))))
  }

  lemma DivBounds(n: nat, d: nat)
    requires d >= 1
    ensures (n / d) * d <= n < (n / d + 1) * d
  {
    assert n == (n / d) * d + n % d;
  }

  lemma QuotientBounds(n: nat, d: nat, q: nat, r: nat)
    requires r < d && n == q * d + r
    ensures q <= n && r <= n
    ensures d >= 2 ==> 2 * q <= n
    ensures q == 0 <==> n < d
  {
    MulMonotone(1, d, q);
    if d >= 2 {
      MulMonotone(2, d, q);
    }
    if q > 0 {
      MulMonotone(1, q, d);
    }
  }

  lemma DivNatBounds(n: nat, d: nat)
    requires d >= 1
    ensures n / d <= n && n % d <= n && n % d < d
    ensures d >= 2 ==> 2 * (n / d) <= n
    ensures n / d == 0 <==> n < d
    ensures n == (n / d) * d + n % d
  {
    QuotientBounds(n, d, n / d, n % d);
  }

  lemma TruncDivCorrect(n: int, d: int)
    requires d != 0
    ensures IsTruncatedQuotient(n, d, TruncDiv(n, d))
  {
    var q := Abs(n) / Abs(d);
    DivBounds(Abs(n), Abs(d));
    DivNatBounds(Abs(n), Abs(d));
    assert Abs(TruncDiv(n, d)) == q;
    assert TruncDiv(n, d) == if (n < 0) == (d < 0) then q else 0 - q;
    hide TruncDiv;
  }

  /** The truncated quotient is the only number with that property. */
  lemma TruncatedQuotientUnique(n: int, d: int, p: int, q: int)
    requires d != 0
    requires IsTruncatedQuotient(n, d, p) && IsTruncatedQuotient(n, d, q)
    ensures p == q
  {
    if Abs(p) < Abs(q) {
      MulMonotone(Abs(p) + 1, Abs(q), Abs(d));
    } else if Abs(q) < Abs(p) {
      MulMonotone(Abs(q) + 1, Abs(p), Abs(d));
    }
  }

  lemma MulMonotone(a: int, b: int, c: int)
    requires a <= b && 0 <= c
    ensures a * c <= b * c
  {
  }

  lemma MulBounds(a: nat, b: nat, c: nat)
    requires b <= c
    ensures 0 <= a * b <= a * c
  {
    MulMonotone(b, c, a);
  }

  function Pow2(n: nat): (p: nat)
    ensures p >= 1
  {
    if n == 0 then 1 else 2 * Pow2(n - 1)
  }

  lemma Pow2Monotone(m: nat, n: nat)
    requires m <= n
    ensures Pow2(m) <= Pow2(n)
  {
  }

  /** The i386 uses the low five bits of a shift count only. */
  function ShiftCount(count: int): (c: nat)
    ensures c < 32
  {
    count % 32
  }

  function ShiftLeft(n: int32, count: int): int32 {
    Wrap(n * Pow2(ShiftCount(count)))
  }

  /** The arithmetic right shift, which rounds toward minus infinity. */
  function ShiftRight(n: int32, count: int): (r: int32) {
    var p := Pow2(ShiftCount(count));
    assert -0x8000_0000 <= n / p < 0x8000_0000 by {
      ShiftRightFits(n, p);
    }
    n / p
  }

  lemma ShiftRightIsQuotient(n: int32, count: nat)
    requires count < 32
    ensures ShiftRight(n, count) == n / Pow2(count)
  {
    hide Pow2;
    assert ShiftCount(count) == count;
  }

  lemma ShiftRightFloor(n: int32, count: nat)
    requires 0 <= n && count < 32
    ensures 0 <= ShiftRight(n, count)
    ensures ShiftRight(n, count) * Pow2(count) <= n < (ShiftRight(n, count) + 1) * Pow2(count)
  {
    hide Pow2, ShiftRight;
    ShiftRightIsQuotient(n, count);
    DivBounds(n, Pow2(count));
  }

  lemma ShiftRightFits(n: int32, p: nat)
    requires p >= 1
    ensures -0x8000_0000 <= n / p < 0x8000_0000
  {
    var q := n / p;
    assert n == q * p + n % p;
    if q >= 0x8000_0000 {
      MulMonotone(1, p, q);
    } else if q < -0x8000_0000 {
      MulMonotone(1, p, -(q + 1));
    }
  }
}
