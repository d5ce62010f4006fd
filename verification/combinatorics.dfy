/**
 Factorials and binomial coefficients, used to show that the integer
 recurrence for the Chudnovsky term numerator M is the multinomial
 coefficient (6n)! / ((3n)! (n!)^3), so its truncating division never discards a remainder.

 The ring identities are stated over plain integers in small helper lemmas,
 so that each proof obligation stays cheap for the solver.
 */
module Combinatorics {

  function Fact(n: nat): (r: nat)
    ensures r >= 1
  {
    if n == 0 then 1 else n * Fact(n - 1)
  }

  lemma FactUnfold(m: nat)
    requires m >= 1
    ensures Fact(m) == m * Fact(m - 1)
  {
  }

  /** Pascal's triangle; integral by construction. */
  function Binom(n: nat, k: nat): nat
  {
    if k == 0 then 1
    else if n == 0 then 0
    else Binom(n - 1, k - 1) + Binom(n - 1, k)
  }

  lemma {:induction false} BinomAbove(n: nat, k: nat)
    requires k > n
    ensures Binom(n, k) == 0
  {
    if n > 0 {
      BinomAbove(n - 1, k - 1);
      BinomAbove(n - 1, k);
    }
  }

  /** Cancelling a non-zero factor. */
  lemma Cancel(a: int, b: int, c: int)
    requires c != 0
    requires a * c == b * c
    ensures a == b
  {
  }

  lemma PascalAlgebra(n: int, k: int, a: int, b: int, fk: int, fk1: int, fnk: int, fnk1: int, f: int)
    requires fk == k * fk1 && fnk == (n - k) * fnk1
    requires a * fk1 * fnk == f
    requires b * fk * fnk1 == f
    ensures (a + b) * fk * fnk == n * f
  {
    calc {
      (a + b) * fk * fnk;
      k * (a * fk1 * fnk) + (n - k) * (b * fk * fnk1);
      k * f + (n - k) * f;
    }
  }

  lemma {:induction false} BinomDiagonal(n: nat)
    ensures Binom(n, n) == 1
  {
    if n > 0 {
      BinomDiagonal(n - 1);
      BinomAbove(n - 1, n);
    }
  }

  /** Binomial coefficients are quotients of factorials. */
  lemma {:induction false} BinomFact(n: nat, k: nat)
    requires k <= n
    ensures Binom(n, k) * Fact(k) * Fact(n - k) == Fact(n)
  {
    if k == n {
      BinomDiagonal(n);
      assert Fact(n - k) == 1;
    } else if k > 0 {
      BinomFact(n - 1, k - 1);
      BinomFact(n - 1, k);
      FactUnfold(n);
      FactUnfold(k);
      FactUnfold(n - k);
      assert n - 1 - (k - 1) == n - k;
      assert n - 1 - k == n - k - 1;
      var a, b := Binom(n - 1, k - 1), Binom(n - 1, k);
      PascalAlgebra(n, k, a, b, Fact(k), Fact(k - 1), Fact(n - k), Fact(n - k - 1), Fact(n - 1));
      assert Binom(n, k) == a + b;
    }
  }

  lemma BinomPositive(n: nat, k: nat)
    requires k <= n
    ensures Binom(n, k) >= 1
  {
    BinomFact(n, k);
  }

  /** (6n)! / ((3n)! (n!)^3), written as a product of three binomials. */
  function Multinomial(n: nat): nat
  {
    Binom(6 * n, 3 * n) * Binom(3 * n, n) * Binom(2 * n, n)
  }

  /** The denominator (3n)! (n!)^3. */
  function Denominator(n: nat): nat
  {
    Fact(3 * n) * (Fact(n) * Fact(n) * Fact(n))
  }

  lemma ThreeBinomials(b1: int, b2: int, b3: int, f3: int, f2: int, f1: int, f6: int)
    requires b1 * f3 * f3 == f6
    requires b2 * f1 * f2 == f3
    requires b3 * f1 * f1 == f2
    ensures b1 * b2 * b3 * (f3 * (f1 * f1 * f1)) == f6
  {
    calc {
      b1 * b2 * b3 * (f3 * (f1 * f1 * f1));
      b1 * f3 * (b2 * f1 * (b3 * f1 * f1));
      b1 * f3 * (b2 * f1 * f2);
      b1 * f3 * f3;
    }
  }

  lemma MultinomialFact(n: nat)
    ensures Multinomial(n) * Denominator(n) == Fact(6 * n)
    ensures Multinomial(n) >= 1
  {
    BinomFact(6 * n, 3 * n);
    BinomFact(3 * n, n);
    BinomFact(2 * n, n);
    BinomPositive(6 * n, 3 * n);
    BinomPositive(3 * n, n);
    BinomPositive(2 * n, n);
    assert 6 * n - 3 * n == 3 * n && 3 * n - n == 2 * n && 2 * n - n == n;
    ThreeBinomials(Binom(6 * n, 3 * n), Binom(3 * n, n), Binom(2 * n, n),
                   Fact(3 * n), Fact(2 * n), Fact(n), Fact(6 * n));
  }

  lemma SixFactors(m: int, f0: int, f1: int, f2: int, f3: int, f4: int, f5: int, f6: int)
    requires f0 == m * f1 && f1 == (m - 1) * f2 && f2 == (m - 2) * f3
    requires f3 == (m - 3) * f4 && f4 == (m - 4) * f5 && f5 == (m - 5) * f6
    ensures f0 == m * (m - 1) * (m - 2) * (m - 3) * (m - 4) * (m - 5) * f6
  {
  }

  /** Six consecutive factors of (6n)!. */
  lemma FactSix(n: nat)
    requires n >= 1
    ensures Fact(6 * n) == (6 * n) * (6 * n - 1) * (6 * n - 2) * (6 * n - 3) * (6 * n - 4) * (6 * n - 5) * Fact(6 * n - 6)
  {
    var m := 6 * n;
    FactUnfold(m);
    FactUnfold(m - 1);
    FactUnfold(m - 2);
    FactUnfold(m - 3);
    FactUnfold(m - 4);
    FactUnfold(m - 5);
    SixFactors(m, Fact(m), Fact(m - 1), Fact(m - 2), Fact(m - 3), Fact(m - 4), Fact(m - 5), Fact(m - 6));
  }

  lemma ThreeFactors(m: int, d: int, e1: int, e2: int, g: int)
    requires d == m * e1 && e1 == (m - 1) * e2 && e2 == (m - 2) * g
    ensures d == (m * (m - 1) * (m - 2)) * g
  {
  }

  lemma CubeOfProduct(fn: int, n: int, f: int)
    requires fn == n * f
    ensures fn * fn * fn == (n * n * n) * (f * f * f)
  {
  }

  lemma Regroup(a: int, b: int, c: int, d: int)
    ensures (a * b) * (c * d) == a * c * (b * d)
  {
  }

  lemma DenominatorStep(n: nat)
    requires n >= 1
    ensures Denominator(n) == (3 * n) * (3 * n - 1) * (3 * n - 2) * (n * n * n) * Denominator(n - 1)
  {
    var m := 3 * n;
    FactUnfold(m);
    FactUnfold(m - 1);
    FactUnfold(m - 2);
    FactUnfold(n);
    assert m - 3 == 3 * (n - 1);
    var q3, g, f := m * (m - 1) * (m - 2), Fact(m - 3), Fact(n - 1);
    ThreeFactors(m, Fact(m), Fact(m - 1), Fact(m - 2), g);
    CubeOfProduct(Fact(n), n, f);
    Regroup(q3, g, n * n * n, f * f * f);
    assert Denominator(n - 1) == g * (f * f * f);
  }

  /** (6n)(6n-1)...(6n-5) = (3n)(3n-1)(3n-2) * (K^3 - 16K) for K = 12n - 6. */
  lemma GrowthIdentity(n: int, k: int)
    requires k == 12 * n - 6
    ensures (6 * n) * (6 * n - 1) * (6 * n - 2) * (6 * n - 3) * (6 * n - 4) * (6 * n - 5)
         == ((3 * n) * (3 * n - 1) * (3 * n - 2)) * (k * k * k - 16 * k)
  {
  }

  lemma PositiveProduct(a: int, b: int)
    requires a >= 1 && b >= 1
    ensures a * b >= 1
  {
  }

  lemma RatioAlgebra(mn: int, mp: int, d: int, dn: int, n3: int, q3: int, p6: int, t: int, f6: int, f6p: int)
    requires d != 0 && q3 != 0
    requires mn * dn == f6 && mp * d == f6p
    requires f6 == p6 * f6p
    requires dn == q3 * n3 * d
    requires p6 == q3 * t
    ensures mn * n3 == mp * t
  {
    assert (mn * n3 * q3) * d == (mp * t * q3) * d;
    Cancel(mn * n3 * q3, mp * t * q3, d);
    assert (mn * n3) * q3 == (mp * t) * q3;
    Cancel(mn * n3, mp * t, q3);
  }

  /** The ratio of consecutive multinomials is the Chudnovsky growth factor
      K^3 - 16K over n^3, with K = 12n - 6. */
  lemma MultinomialRatio(n: nat)
    requires n >= 1
    ensures Multinomial(n) * (n * n * n) == Multinomial(n - 1) * ((12 * n - 6) * (12 * n - 6) * (12 * n - 6) - 16 * (12 * n - 6))
  {
    var k := 12 * n - 6;
    var p6 := (6 * n) * (6 * n - 1) * (6 * n - 2) * (6 * n - 3) * (6 * n - 4) * (6 * n - 5);
    var q3 := (3 * n) * (3 * n - 1) * (3 * n - 2);
    GrowthIdentity(n, k);
    FactSix(n);
    DenominatorStep(n);
    MultinomialFact(n);
    MultinomialFact(n - 1);
    assert 6 * n - 6 == 6 * (n - 1);
    PositiveProduct(3 * n, 3 * n - 1);
    PositiveProduct((3 * n) * (3 * n - 1), 3 * n - 2);
    assert Denominator(n - 1) >= 1;
    RatioAlgebra(Multinomial(n), Multinomial(n - 1), Denominator(n - 1), Denominator(n),
                 n * n * n, q3, p6, k * k * k - 16 * k, Fact(6 * n), Fact(6 * (n - 1)));
  }
}
