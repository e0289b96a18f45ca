/**
 Exact fractions: the meaning of a numerator/denominator pair as a real number,
 and the arithmetic of cross-multiplied integers that decides it.
 */
module Fractions {
  import opened NumberTheory

  /** The number that the pair n/d stands for. */
  function Frac(n: int, d: int): real
    requires d != 0
  {
    n as real / d as real
  }

  /** The invariant of `boost::rational` (`test_invariant`). */
  predicate Reduced(n: int, d: int) {
    d > 0 && Coprime(n, d)
  }

  /** Two fractions are the same number exactly when their cross products agree. */
  lemma FracEqual(n: int, e: int, m: int, k: int)
    requires e != 0 && k != 0
    ensures Frac(n, e) == Frac(m, k) <==> n * k == m * e
  {
  }

  /** With positive denominators, order is the order of the cross products. */
  lemma FracLess(n: int, e: int, m: int, k: int)
    requires e > 0 && k > 0
    ensures Frac(n, e) < Frac(m, k) <==> n * k < m * e
  {
  }

  lemma FracAdd(a: int, b: int, c: int, d: int)
    requires b != 0 && d != 0
    ensures b * d != 0 && Frac(a, b) + Frac(c, d) == Frac(a * d + c * b, b * d)
  {
  }

  lemma FracMul(a: int, b: int, c: int, d: int)
    requires b != 0 && d != 0
    ensures b * d != 0 && Frac(a, b) * Frac(c, d) == Frac(a * c, b * d)
  {
  }

  lemma FracNegate(a: int, b: int)
    requires b != 0
    ensures Frac(-a, b) == -Frac(a, b) == Frac(a, -b)
    ensures Frac(-a, -b) == Frac(a, b)
  {
  }

  /** The invariant means lowest terms: nothing but 1 and -1 divides both members. */
  lemma ReducedIsLowestTerms(n: int, d: int)
    ensures Reduced(n, d) <==> d > 0 && forall k :: CommonDivisor(k, n, d) ==> k == 1 || k == -1
  {
    if d > 0 {
      GcdIsGreatest(n, d);
    }
  }

  /**
   Reduced pairs are canonical: `operator==`, which compares members, decides
   equality of numbers.
   */
  lemma ReducedIsCanonical(n: int, d: int, m: int, e: int)
    requires Reduced(n, d) && Reduced(m, e)
    ensures Frac(n, d) == Frac(m, e) <==> n == m && d == e
  {
    FracEqual(n, d, m, e);
    if n * e == m * d {
      var k := CoprimeDivides(d, n, e, m);
      var l := CoprimeDivides(e, m, d, n);
      assert e == k * d == k * (l * e) == (k * l) * e;
      MulAtLeast(k * l - 1, e);
      assert (k * l - 1) * e == 0;
      MulAtLeast(k, d);
      MulAtLeast(l, e);
      assert k * d >= d && l * e >= e;
      assert d == e;
      assert (n - m) * d == 0;
      MulAtLeast(n - m, d);
    }
  }

  /** If d is coprime to n and n * e is a multiple of d, then e is. */
  lemma CoprimeDivides(d: int, n: int, e: int, m: int) returns (k: int)
    requires Coprime(n, d) && n * e == m * d
    ensures e == k * d
  {
    var u, v := Bezout(n, d);
    k := u * m + v * e;
    CombineProduct(u, v, n, d, e);
    FactorOut(u, m, v, e, d);
  }

  lemma CombineProduct(u: int, v: int, n: int, d: int, e: int)
    ensures (u * n + v * d) * e == u * (n * e) + v * (d * e)
  {
  }

  lemma FactorOut(u: int, m: int, v: int, e: int, d: int)
    ensures (u * m + v * e) * d == u * (m * d) + v * (d * e)
  {
  }
}
