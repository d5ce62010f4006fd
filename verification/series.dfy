/**
 The four integer recurrence variables of the Chudnovsky step loop
 (pininfinity.py, chudnovsky_algorithm) as functions of the number of
 completed loop turns, and the running sum S they feed.

 Idealisation: the source keeps M, L, X and K in decimal.Decimal values under a
 context whose precision is finite, so they stay exact while their digits other
 than trailing zeros fit that precision (X_n ends in 3n zeros; from a base of
 1000 digits its coefficient outgrows the context from turn 127, but X is first
 inexact at turn 209). Here they are unbounded integers, and S is an exact real; the
 rounding of S += (M*L)/X and of pi = C/S is not modelled.
 */
module Series {
  import opened Combinatorics

  const KStart: int := 6
  const KStep: int := 12
  const LStart: int := 13591409
  const LStep: int := 545140134
  const XFactor: int := -262537412640768000

  /** K after n turns: starts at 6, grows by 12 per turn. */
  function KAt(n: nat): int
  {
    KStart + KStep * n
  }

  /** L after n turns: starts at 13591409, grows by 545140134 per turn. */
  function LAt(n: nat): int
  {
    LStart + LStep * n
  }

  function Power(b: int, n: nat): int
  {
    if n == 0 then 1 else b * Power(b, n - 1)
  }

  /** X after n turns: starts at 1, multiplied by -262537412640768000 per turn. */
  function XAt(n: nat): int
  {
    Power(XFactor, n)
  }

  /** The factor K^3 - 16K that multiplies M. */
  function Growth(k: int): int
  {
    k * k * k - 16 * k
  }

  /** Division truncating toward zero, as `//` does on decimal.Decimal. */
  function TruncDiv(a: int, b: int): int
    requires b > 0
  {
    if a >= 0 then a / b else -((-a) / b)
  }

  /** M after n turns: turn i sets M to M * (K^3 - 16K) // i^3, with K the
      value before that turn's K += 12. */
  function MAt(n: nat): int
  {
    if n == 0 then 1
    else TruncDiv(MAt(n - 1) * Growth(KAt(n - 1)), n * n * n)
  }

  lemma MulAtLeast(c: int, b: int)
    requires c >= 1 && b > 0
    ensures c * b >= b
  {
  }

  lemma MulMonotone(a: int, b: int, c: int, d: int)
    requires 0 <= a <= b && 0 <= c <= d
    ensures a * c <= b * d
  {
  }

  lemma DivideProduct(a: int, b: int)
    requires b > 0
    ensures (a * b) / b == a
    ensures (a * b) % b == 0
  {
    var q, r := (a * b) / b, (a * b) % b;
    assert (a - q) * b == r;
    if a - q >= 1 {
      MulAtLeast(a - q, b);
    } else if a - q <= -1 {
      MulAtLeast(q - a, b);
    }
  }

  lemma ExactQuotient(p: int, a: int, b: int)
    requires b > 0 && a >= 0 && p == a * b
    ensures TruncDiv(p, b) == a
  {
    DivideProduct(a, b);
  }

  /** The product M * (K^3 - 16K) that turn n >= 1 divides by n^3 is the
      n-th multinomial times n^3, given the previous M is the (n-1)-th. */
  lemma StepProduct(n: nat)
    requires n >= 1
    requires MAt(n - 1) == Multinomial(n - 1)
    ensures MAt(n - 1) * Growth(KAt(n - 1)) == Multinomial(n) * (n * n * n)
  {
    var k := KAt(n - 1);
    assert k == 12 * n - 6;
    var g := Growth(k);
    assert g == (12 * n - 6) * (12 * n - 6) * (12 * n - 6) - 16 * (12 * n - 6);
    MultinomialRatio(n);
  }

  /** M after n turns is the multinomial coefficient (6n)! / ((3n)! (n!)^3). */
  lemma {:induction false} MClosedForm(n: nat)
    ensures MAt(n) == Multinomial(n)
    ensures MAt(n) >= 1
  {
    MultinomialFact(n);
    if n > 0 {
      MClosedForm(n - 1);
      StepProduct(n);
      ExactQuotient(MAt(n - 1) * Growth(KAt(n - 1)), Multinomial(n), n * n * n);
    }
  }

  /** The `//` in the M update never discards a remainder: after turn n >= 1,
      M * n^3 equals the previous M times K^3 - 16K. */
  lemma MDivisionExact(n: nat)
    requires n >= 1
    ensures MAt(n) * (n * n * n) == MAt(n - 1) * Growth(KAt(n - 1))
    ensures (MAt(n - 1) * Growth(KAt(n - 1))) % (n * n * n) == 0
  {
    MClosedForm(n);
    MClosedForm(n - 1);
    MultinomialRatio(n);
    assert KAt(n - 1) == 12 * n - 6;
    DivideProduct(Multinomial(n), n * n * n);
  }

  /** M stays a positive integer and grows at least 120-fold per turn. */
  lemma MGrowsPositive(n: nat)
    requires n >= 1
    ensures MAt(n) >= 120 * MAt(n - 1) >= 120
  {
    MDivisionExact(n);
    MClosedForm(n - 1);
    MClosedForm(n);
    var k := KAt(n - 1);
    assert k == 12 * n - 6;
    GrowthBound(n, k);
    GrowthStep(MAt(n - 1), MAt(n), Growth(k), n * n * n);
  }

  lemma GrowthStep(m: int, m': int, g: int, n3: int)
    requires m >= 1 && n3 >= 1
    requires g >= 120 * n3
    requires m' * n3 == m * g
    ensures m' >= 120 * m
  {
    MulMonotone(m, m, 120 * n3, g);
    assert m' * n3 >= (120 * m) * n3;
    if m' < 120 * m {
      MulAtLeast(120 * m - m', n3);
    }
  }

  lemma GrowthBound(n: int, k: int)
    requires n >= 1 && k == 12 * n - 6
    ensures Growth(k) >= 120 * (n * n * n)
  {
    MulMonotone(6 * n, k, 6 * n, k);
    assert k * k - 16 >= 20 * (n * n);
    assert Growth(k) == k * (k * k - 16);
    MulMonotone(6 * n, k, 20 * (n * n), k * k - 16);
  }

  /** X alternates in sign and is never zero, so (M*L)/X is always defined. */
  lemma {:induction false} XSign(n: nat)
    ensures n % 2 == 0 ==> XAt(n) > 0
    ensures n % 2 == 1 ==> XAt(n) < 0
    ensures XAt(n) != 0
  {
    if n > 0 {
      XSign(n - 1);
      assert XAt(n) == XFactor * XAt(n - 1);
    }
  }

  /** Exact real quotient of two integers. */
  function Quotient(p: int, x: int): real
    requires x != 0
  {
    p as real / x as real
  }

  /** The n-th series term (M*L)/X for n >= 1, exact. */
  function Term(n: nat): real
  {
    XSign(n);
    Quotient(MAt(n) * LAt(n), XAt(n))
  }

  /** S after n turns: L's initial value plus the first n terms. */
  function PartialSum(n: nat): real
  {
    if n == 0 then LStart as real else PartialSum(n - 1) + Term(n)
  }
}

module SeriesBounds {
  import opened Series

  const XMagnitude: int := 262537412640768000

  function Pow2(n: nat): (r: nat)
    ensures r >= 1
  {
    if n == 0 then 1 else 2 * Pow2(n - 1)
  }

  function Abs(x: int): nat
  {
    if x < 0 then -x else x
  }

  lemma AbsX(n: nat)
    requires n >= 1
    ensures Abs(XAt(n)) == XMagnitude * Abs(XAt(n - 1))
  {
    XSign(n - 1);
    assert XAt(n) == XFactor * XAt(n - 1);
  }

  /** M at most multiplies by 1728 per turn, as K^3 - 16K < (12n)^3. */
  lemma MGrowsAtMost(n: nat)
    requires n >= 1
    ensures MAt(n) <= 1728 * MAt(n - 1)
  {
    MDivisionExact(n);
    MClosedForm(n - 1);
    var k := KAt(n - 1);
    assert k == 12 * n - 6;
    GrowthUpper(n, k);
    GrowthBound(n, k);
    ShrinkStep(MAt(n - 1), MAt(n), Growth(k), n * n * n);
  }

  lemma GrowthUpper(n: int, k: int)
    requires n >= 1 && k == 12 * n - 6
    ensures Growth(k) <= 1728 * (n * n * n)
  {
    assert 0 < k <= 12 * n;
    MulMonotone(k, 12 * n, k, 12 * n);
    MulMonotone(k * k, (12 * n) * (12 * n), k, 12 * n);
  }

  lemma ShrinkStep(m: int, m': int, g: int, n3: int)
    requires m >= 1 && n3 >= 1
    requires 0 <= g <= 1728 * n3
    requires m' * n3 == m * g
    ensures m' <= 1728 * m
  {
    MulMonotone(m, m, g, 1728 * n3);
    if m' > 1728 * m {
      MulAtLeast(m' - 1728 * m, n3);
    }
  }

  /** The numerator M*L times 2^(n+1) stays below |X| from the first term on. */
  lemma {:induction false} NumeratorBound(n: nat)
    requires n >= 1
    ensures MAt(n) * LAt(n) * Pow2(n + 1) <= Abs(XAt(n))
  {
    if n == 1 {
      assert Growth(KAt(0)) == 120;
      assert MAt(1) == 120;
      assert LAt(1) == 558731543;
      assert Pow2(2) == 4;
      assert XAt(1) == XFactor;
      assert Abs(XAt(1)) == XMagnitude;
    } else {
      NumeratorBound(n - 1);
      MGrowsAtMost(n);
      MClosedForm(n - 1);
      MClosedForm(n);
      AbsX(n);
      assert LAt(n) <= 42 * LAt(n - 1);
      assert Pow2(n + 1) == 2 * Pow2(n);
      StepBound(MAt(n - 1), MAt(n), LAt(n - 1), LAt(n), Pow2(n), Abs(XAt(n - 1)));
    }
  }

  lemma StepBound(m: int, m': int, l: int, l': int, p: int, x: int)
    requires 1 <= m && 0 <= m' <= 1728 * m
    requires 1 <= l && 0 <= l' <= 42 * l
    requires 1 <= p && m * l * p <= x
    ensures m' * l' * (2 * p) <= XMagnitude * x
  {
    MulMonotone(m', 1728 * m, l', 42 * l);
    MulMonotone(m' * l', 1728 * 42 * (m * l), 2 * p, 2 * p);
    assert (1728 * 42 * (m * l)) * (2 * p) == (1728 * 42 * 2) * (m * l * p);
    assert (1728 * 42 * 2) * (m * l * p) <= (1728 * 42 * 2) * x;
  }

  /** p / x lies in [-1/c, 1/c] when p * c <= |x|. */
  lemma QuotientBound(p: real, x: real, c: real)
    requires p >= 0.0 && x != 0.0 && c > 0.0
    requires p * c <= (if x < 0.0 then -x else x)
    ensures -(1.0 / c) <= p / x <= 1.0 / c
  {
    var ax := if x < 0.0 then -x else x;
    assert p / ax * c == (p * c) / ax;
    assert p / ax * c <= 1.0;
    assert p / ax <= 1.0 / c;
    if x < 0.0 {
      assert p / x == -(p / ax);
    }
  }

  lemma CastProduct(a: int, b: int)
    ensures (a * b) as real == a as real * b as real
  {
  }

  lemma QuotientOfIntegers(p: int, x: int, c: int)
    requires p >= 0 && x != 0 && c >= 1 && p * c <= Abs(x)
    ensures -(1.0 / c as real) <= Quotient(p, x) <= 1.0 / c as real
  {
    CastProduct(p, c);
    QuotientBound(p as real, x as real, c as real);
  }

  /** The bound 1/2^(n+1) on the magnitude of term n. */
  function Eps(n: nat): (e: real)
    ensures e > 0.0
  {
    1.0 / Pow2(n + 1) as real
  }

  lemma TermQuotientBound(n: nat)
    requires n >= 1
    ensures XAt(n) != 0
    ensures -(1.0 / Pow2(n + 1) as real) <= Quotient(MAt(n) * LAt(n), XAt(n)) <= 1.0 / Pow2(n + 1) as real
  {
    NumeratorBound(n);
    MClosedForm(n);
    XSign(n);
    MulAtLeast(MAt(n), LAt(n));
    QuotientOfIntegers(MAt(n) * LAt(n), XAt(n), Pow2(n + 1));
  }

  /** Term n (n >= 1) is at most 1/2^(n+1) in magnitude. */
  lemma TermBound(n: nat)
    requires n >= 1
    ensures -Eps(n) <= Term(n) <= Eps(n)
  {
    TermQuotientBound(n);
    assert Term(n) == Quotient(MAt(n) * LAt(n), XAt(n));
    assert Eps(n) == 1.0 / Pow2(n + 1) as real;
  }

  lemma SumStep(prev: real, t: real, e: real, e2: real)
    requires e2 == 2.0 * e
    requires LStart as real - 0.5 + e2 <= prev <= LStart as real + 0.5 - e2
    requires -e <= t <= e
    ensures LStart as real - 0.5 + e <= prev + t <= LStart as real + 0.5 - e
  {
  }

  lemma Halve(n: nat)
    requires n >= 1
    ensures Eps(n - 1) == 2.0 * Eps(n)
  {
    var a, b := Pow2(n) as real, Pow2(n + 1) as real;
    assert b == 2.0 * a;
  }

  /** The running sum S stays within 1/2 of its first value 13591409, so it is
      never zero and pi = C / S is always defined. */
  lemma {:induction false} PartialSumNear(n: nat)
    ensures LStart as real - 0.5 + Eps(n) <= PartialSum(n) <= LStart as real + 0.5 - Eps(n)
    ensures PartialSum(n) > 0.0
  {
    if n == 0 {
      assert Pow2(1) == 2;
      assert Eps(0) == 0.5;
    } else {
      PartialSumNear(n - 1);
      TermBound(n);
      Halve(n);
      assert PartialSum(n) == PartialSum(n - 1) + Term(n);
      SumStep(PartialSum(n - 1), Term(n), Eps(n), Eps(n - 1));
    }
  }
}
