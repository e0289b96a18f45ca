/**
 `boost::rational` over unbounded integers: arithmetic that divides only by small
 gcds and still leaves the fraction reduced, and comparison by continued
 fractions without cross-multiplying.
 */
module Rationals {
  import opened NumberTheory
  import opened Fractions
  import opened Wrappers

  /**
   The number theory behind `operator+=`: with g = gcd(b, d), b = b1 * g and
   d = d1 * g, the sum (a * d1 + c * b1) / (b1 * d) becomes reduced after
   dividing by gcd(a * d1 + c * b1, g) only.
   */
  lemma SumStaysReduced(a: int, b: int, c: int, d: int, b1: int, d1: int, g: int, t: int, t1: int, g1: int, h: int)
    requires Reduced(a, b) && Reduced(c, d)
    requires b == b1 * g && d == d1 * g && g > 0 && Coprime(b1, d1)
    requires t == a * d1 + c * b1
    requires t == t1 * h && g == g1 * h && h > 0 && Coprime(t1, g1)
    ensures Reduced(t1, b1 * (d1 * g1))
    ensures Frac(t1, b1 * (d1 * g1)) == Frac(a, b) + Frac(c, d)
  {
    hide Frac, Gcd;
    PositiveCofactor(b1, g);
    PositiveCofactor(d1, g);
    PositiveCofactor(g1, h);
    CoprimeFactor(a, b1, g);
    CoprimeFactor(c, d1, g);
    CoprimeSymmetric(b1, d1);
    // t is coprime to b1 and to d1, hence so is its divisor t1
    SumCoprime(a, d1, c, b1);
    assert c * b1 + a * d1 == t;
    SumCoprime(c, b1, a, d1);
    CoprimeDivisor(t1, h, b1);
    CoprimeDivisor(t1, h, d1);
    CoprimeProduct(t1, d1, g1);
    CoprimeProduct(t1, b1, d1 * g1);
    ProductPositive(d1, g1);
    ProductPositive(b1, d1 * g1);
    // the value is unchanged
    FracAdd(a, b, c, d);
    SumCross(a, b, c, d, b1, d1, g, t1, g1, h);
    FracEqual(t1, b1 * (d1 * g1), a * d + c * b, b * d);
  }

  lemma PositiveCofactor(x: int, g: int)
    requires g > 0 && x * g > 0
    ensures x > 0
  {
  }

  lemma ProductPositive(x: int, y: int)
    requires x > 0 && y > 0
    ensures x * y > 0
  {
  }

  /** a * d1 + c * b1 is coprime to b1 when a and d1 are. */
  lemma SumCoprime(a: int, d1: int, c: int, b1: int)
    requires Coprime(a, b1) && Coprime(b1, d1)
    ensures Coprime(a * d1 + c * b1, b1)
  {
    CoprimeSymmetric(a, b1);
    CoprimeProduct(b1, a, d1);
    CoprimeSymmetric(b1, a * d1);
    CoprimeShift(a * d1, b1, c);
  }

  lemma CoprimeDivisor(t1: int, h: int, x: int)
    requires Coprime(t1 * h, x)
    ensures Coprime(t1, x)
  {
    CoprimeSymmetric(t1 * h, x);
    CoprimeFactor(x, t1, h);
    CoprimeSymmetric(x, t1);
  }

  lemma SumCross(a: int, b: int, c: int, d: int, b1: int, d1: int, g: int, t1: int, g1: int, h: int)
    requires b == b1 * g && d == d1 * g && g == g1 * h
    requires a * d1 + c * b1 == t1 * h
    ensures t1 * (b * d) == (a * d + c * b) * (b1 * (d1 * g1))
  {
  }

  /** The same for `operator*=`: cross-cancelling suffices. */
  lemma ProductStaysReduced(a: int, b: int, c: int, d: int, a1: int, d1: int, c1: int, b1: int, p: int, q: int)
    requires Reduced(a, b) && Reduced(c, d)
    requires a == a1 * p && d == d1 * p && p > 0 && Coprime(a1, d1)
    requires c == c1 * q && b == b1 * q && q > 0 && Coprime(c1, b1)
    ensures Reduced(a1 * c1, b1 * d1)
    ensures Frac(a1 * c1, b1 * d1) == Frac(a, b) * Frac(c, d)
  {
    hide Frac, Gcd;
    PositiveCofactor(d1, p);
    PositiveCofactor(b1, q);
    ProductPositive(b1, d1);
    ProductCoprime(a, b, c, d, a1, d1, c1, b1, p, q);
    FracMul(a, b, c, d);
    MulSwap(a1, p, c1, q);
    MulSwap(b1, q, d1, p);
    ScaledCross(a1 * c1, b1 * d1, p * q);
    FracEqual(a1 * c1, b1 * d1, a * c, b * d);
  }

  lemma ProductCoprime(a: int, b: int, c: int, d: int, a1: int, d1: int, c1: int, b1: int, p: int, q: int)
    requires Coprime(a, b) && Coprime(c, d)
    requires a == a1 * p && d == d1 * p && Coprime(a1, d1)
    requires c == c1 * q && b == b1 * q && Coprime(c1, b1)
    ensures Coprime(a1 * c1, b1 * d1)
  {
    CoprimeFactor(a, b1, q);
    CoprimeDivisor(a1, p, b1);
    CoprimeFactor(c, d1, p);
    CoprimeDivisor(c1, q, d1);
    CoprimeProduct(a1, b1, d1);
    CoprimeProduct(c1, b1, d1);
    CoprimeSymmetric(a1, b1 * d1);
    CoprimeSymmetric(c1, b1 * d1);
    CoprimeProduct(b1 * d1, a1, c1);
    CoprimeSymmetric(b1 * d1, a1 * c1);
  }

  lemma ScaledCross(n: int, e: int, k: int)
    ensures n * (e * k) == (n * k) * e
  {
  }

  /** Multiplying by an integer divides only by gcd(i, den). */
  lemma IntProductStaysReduced(a: int, b: int, i: int, i1: int, b1: int, g: int)
    requires Reduced(a, b)
    requires i == i1 * g && b == b1 * g && g > 0 && Coprime(i1, b1)
    ensures Reduced(a * i1, b1)
    ensures Frac(a * i1, b1) == Frac(a, b) * i as real
  {
    hide Gcd;
    PositiveCofactor(b1, g);
    CoprimeFactor(a, b1, g);
    CoprimeSymmetric(a, b1);
    CoprimeSymmetric(i1, b1);
    CoprimeProduct(b1, a, i1);
    CoprimeSymmetric(b1, a * i1);
    FracMul(a, b, i, 1);
    MulSwap(a, i1, b1, g);
    Regroup(a, b1, i);
    FracEqual(a * i1, b1, a * i, b * 1);
  }

  lemma NegateLeft(x: int, y: int)
    ensures (-x) * y == -(x * y)
  {
  }

  lemma Regroup(x: int, y: int, z: int)
    ensures (x * y) * z == (x * z) * y
  {
  }

  /** The reciprocal of a nonzero reduced fraction, with the sign moved to the numerator. */
  lemma ReciprocalReduced(c: int, d: int)
    requires Reduced(c, d) && c != 0
    ensures c > 0 ==> Reduced(d, c) && Frac(d, c) * Frac(c, d) == 1.0
    ensures c < 0 ==> Reduced(-d, -c) && Frac(-d, -c) * Frac(c, d) == 1.0
  {
    CoprimeSymmetric(c, d);
    FracMul(d, c, c, d);
    FracMul(-d, -c, c, d);
    assert Frac(d * c, c * d) == 1.0 by { FracEqual(d * c, c * d, 1, 1); }
    assert Frac(-d * c, -c * d) == 1.0 by { FracEqual(-d * c, -c * d, 1, 1); }
  }

  /** Adding an integer keeps the denominator. */
  lemma IntSumStaysReduced(a: int, b: int, i: int)
    requires Reduced(a, b)
    ensures Reduced(a + i * b, b)
    ensures Frac(a + i * b, b) == Frac(a, b) + i as real
  {
    CoprimeShift(a, b, i);
    FracAdd(a, b, i, 1);
  }

  /** `operator/=`: dividing is multiplying by the reciprocal, up to the common sign. */
  lemma QuotientStaysReduced(a: int, b: int, c: int, d: int, a1: int, d1: int, c1: int, b1: int, p: int, q: int)
    requires Reduced(a, b) && Reduced(c, d) && c != 0
    requires a == a1 * p && c == c1 * p && p > 0 && Coprime(a1, c1)
    requires d == d1 * q && b == b1 * q && q > 0 && Coprime(d1, b1)
    ensures b1 * c1 != 0 && Frac(c, d) != 0.0
    ensures b1 * c1 > 0 ==> Reduced(a1 * d1, b1 * c1)
    ensures b1 * c1 > 0 ==> Frac(a1 * d1, b1 * c1) == Frac(a, b) / Frac(c, d)
    ensures b1 * c1 < 0 ==> Reduced(-(a1 * d1), -(b1 * c1))
    ensures b1 * c1 < 0 ==> Frac(-(a1 * d1), -(b1 * c1)) == Frac(a, b) / Frac(c, d)
  {
    hide Frac, Gcd, CDiv, CMod;
    ReciprocalReduced(c, d);
    PositiveCofactor(b1, q);
    var v := Frac(c, d);
    if c > 0 {
      PositiveCofactor(c1, p);
      ProductPositive(b1, c1);
      ProductStaysReduced(a, b, d, c, a1, c1, d1, b1, p, q);
      DivideByReciprocal(Frac(a, b), v, Frac(d, c));
    } else {
      PositiveCofactor(-c1, p);
      ProductPositive(b1, -c1);
      CoprimeNegate(a1, c1);
      CoprimeNegate(d1, b1);
      ProductStaysReduced(a, b, -d, -c, a1, -c1, -d1, b1, p, q);
      assert a1 * (-d1) == -(a1 * d1) && b1 * (-c1) == -(b1 * c1);
      DivideByReciprocal(Frac(a, b), v, Frac(-d, -c));
    }
  }

  lemma DivideByReciprocal(x: real, v: real, w: real)
    requires w * v == 1.0
    ensures v != 0.0 && x * w == x / v
  {
  }

  lemma IntQuotientStaysReduced(a: int, b: int, i: int, a1: int, i1: int, g: int)
    requires Reduced(a, b) && i != 0
    requires a == a1 * g && i == i1 * g && g > 0 && Coprime(a1, i1)
    ensures b * i1 != 0
    ensures b * i1 > 0 ==> Reduced(a1, b * i1) && Frac(a1, b * i1) == Frac(a, b) / i as real
    ensures b * i1 < 0 ==> Reduced(-a1, -(b * i1)) && Frac(-a1, -(b * i1)) == Frac(a, b) / i as real
  {
    CoprimeDivisor(a1, g, b);
    CoprimeProduct(a1, b, i1);
    CoprimeNegate(a1, b * i1);
    MulAtLeast(i1, b);
    FracNegate(a1, b * i1);
    IntQuotientValue(a, b, i, a1, i1, g);
  }

  lemma IntQuotientValue(a: int, b: int, i: int, a1: int, i1: int, g: int)
    requires b != 0 && i != 0 && b * i1 != 0
    requires a == a1 * g && i == i1 * g
    ensures Frac(a1, b * i1) == Frac(a, b) / i as real
  {
  }

  /** d1 * g1 is what remains of d = d1 * (g1 * h) after dividing by h. */
  lemma DivideTwice(d1: int, g1: int, h: int)
    requires h != 0
    ensures CDiv(d1 * (g1 * h), h) == d1 * g1
  {
    hide CDiv;
    Reassociate(d1, g1, h);
    CDivExact(d1 * g1, h);
  }

  lemma Reassociate(x: int, y: int, z: int)
    ensures x * (y * z) == (x * y) * z
  {
  }

  // ---------------------------------------------------------------------
  // One step of the continued-fraction comparison

  /** Different whole parts decide the order. */
  lemma QuotientsDecide(n: int, d: int, q: int, r: int, m: int, e: int, p: int, s: int)
    requires d > 0 && n == q * d + r && 0 <= r < d
    requires e > 0 && m == p * e + s && 0 <= s < e
    ensures q < p ==> n * e < m * d
    ensures q > p ==> m * d < n * e
    ensures q != p ==> n * e != m * d
    ensures e == 1 && q == p ==> n * e >= m * d
  {
    if q < p {
      LowerQuotient(n, d, q, r, m, e, p, s);
    } else if q > p {
      LowerQuotient(m, e, p, s, n, d, q, r);
    }
  }

  lemma LowerQuotient(n: int, d: int, q: int, r: int, m: int, e: int, p: int, s: int)
    requires d > 0 && n == q * d + r && 0 <= r < d
    requires e > 0 && m == p * e + s && 0 <= s < e
    requires q < p
    ensures n * e < m * d
  {
    assert n < (q + 1) * d;
    assert n * e < ((q + 1) * d) * e;
    assert m >= p * e;
    assert m * d >= (p * e) * d;
    assert (p * e) * d == p * (d * e) && ((q + 1) * d) * e == (q + 1) * (d * e);
    assert p * (d * e) >= (q + 1) * (d * e);
  }

  /** n/d is below m/e, for positive denominators. */
  predicate Below(n: int, d: int, m: int, e: int) {
    n * e < m * d
  }

  /**
   What one cycle of the comparison does to the answer: while both expansions
   go on, comparing n/d with m/e becomes comparing d/r with e/s, reversed; when
   one of them has ended, the remainders give the answer at once.
   */
  lemma NextCycle(n: int, d: int, r: int, m: int, e: int, s: int, q: int, want: bool, reverse: bool)
    requires d > 0 && n == q * d + r && 0 <= r < d
    requires e > 0 && m == q * e + s && 0 <= s < e
    requires want <==> if reverse then Below(m, e, n, d) else Below(n, d, m, e)
    ensures want <==> if reverse then Below(d, r, e, s) else Below(e, s, d, r)
    ensures r == 0 || s == 0 ==> (want <==> r != s && (r != 0) == reverse)
  {
  }

  /** The C++ operators `/` and `%` on a nonnegative dividend. */
  method Divide(n: int, d: int) returns (q: int, r: int)
    requires n >= 0 && d > 0
    ensures n == q * d + r && 0 <= r < d
  {
    CDivMod(n, d);
    q, r := CDiv(n, d), CMod(n, d);
  }

  /** Truncating division, corrected until the remainder is nonnegative. */
  method FloorDivide(n: int, d: int) returns (q: int, r: int)
    requires d > 0
    ensures n == q * d + r && 0 <= r < d
  {
    CDivMod(n, d);
    q, r := CDiv(n, d), CMod(n, d);
    while r < 0
      invariant n == q * d + r && -d < r < d
      decreases -r
    {
      assert (q - 1) * d == q * d - d;
      r := r + d;
      q := q - 1;
    }
  }

  // ---------------------------------------------------------------------
  // The invariant test used when converting between integer types

  /** Euclid with the C++ remainder, which may leave a negative result. */
  function InnerGcd(a: int, b: int): int
    decreases Abs(b)
  {
    if b == 0 then a else
      CDivMod(a, b);
      InnerGcd(b, CMod(a, b))
  }

  function InnerAbs(x: int): int {
    if x < 0 then -x else x
  }

  predicate IsNormalized(n: int, d: int) {
    d > 0 && (n != 0 || d == 1) && InnerAbs(InnerGcd(n, d)) == 1
  }

  lemma {:induction false} InnerGcdIsGcd(a: int, b: int)
    ensures Abs(InnerGcd(a, b)) == Gcd(a, b)
    decreases Abs(b)
  {
    if b == 0 {
    } else {
      CDivMod(a, b);
      InnerGcdIsGcd(b, CMod(a, b));
    }
  }

  /** `is_normalized` and `test_invariant` are the same test. */
  lemma IsNormalizedIsReduced(n: int, d: int)
    ensures IsNormalized(n, d) <==> Reduced(n, d)
  {
    InnerGcdIsGcd(n, d);
    if n == 0 && d > 0 {
      GcdOfZero(d);
    }
  }

  lemma GcdOfZero(d: nat)
    ensures Gcd(0, d) == d
  {
    assert Gcd(0, d) == GcdNat(0, d);
    if d > 0 {
      assert 0 % d == 0;
      assert GcdNat(0, d) == GcdNat(d, 0);
    }
  }

  // ---------------------------------------------------------------------
  // Sequences of compound assignments

  datatype Operand = Fraction(n: int, d: int) | Whole(i: int) | Itself

  datatype Operator = Plus | Minus | Times | Over

  datatype Assignment = Assignment(operator: Operator, operand: Operand)

  /** The rational field operation that an assignment stands for; undefined when `bad_rational` is thrown. */
  function Exact(x: real, a: Assignment): Option<real> {
    if a.operand.Fraction? && a.operand.d == 0 then None else
      var y := match a.operand
        case Fraction(n, d) => Frac(n, d)
        case Whole(i) => i as real
        case Itself => x;
      match a.operator
      case Plus => Some(x + y)
      case Minus => Some(x - y)
      case Times => Some(x * y)
      case Over => if y == 0.0 then None else Some(x / y)
  }

  /** The value reached, and the number of assignments made before the first exception. */
  function ExactRun(x: real, todo: seq<Assignment>, start: nat): (real, nat)
    requires start <= |todo|
    decreases |todo| - start
  {
    if start == |todo| then (x, start)
    else match Exact(x, todo[start])
      case None => (x, start)
      case Some(y) => ExactRun(y, todo, start + 1)
  }

  // ---------------------------------------------------------------------

  class Rational {
    var num: int
    var den: int

    ghost predicate Valid()
      reads this
    {
      Reduced(num, den)
    }

    /** The rational number that the members stand for. */
    ghost function Value(): real
      reads this
      requires den != 0
    {
      Frac(num, den)
    }

    /** Any pair; `Normalize` establishes the invariant. */
    constructor Raw(n: int, d: int)
      ensures num == n && den == d
    {
      num, den := n, d;
    }

    /** Fails, as `bad_rational` does, exactly on a zero denominator. */
    method Normalize() returns (ok: bool)
      modifies this
      ensures ok <==> old(den) != 0
      ensures ok ==> Valid() && Value() == Frac(old(num), old(den))
      ensures !ok ==> unchanged(this)
    {
      if den == 0 {
        return false;
      }
      if num == 0 {
        FracEqual(0, 1, num, den);
        den := 1;
        return true;
      }
      ghost var x, y := CoprimeCofactors(num, den);
      var g := Gcd(num, den);
      CDivExact(x, g);
      CDivExact(y, g);
      assert x * den == num * y by { ScaledCross(x, y, g); }
      FracEqual(x, if y == 0 then 1 else y, num, den);
      num := CDiv(num, g);
      den := CDiv(den, g);
      if den < 0 {
        CoprimeNegate(num, den);
        FracNegate(num, den);
        num := -num;
        den := -den;
      }
      return true;
    }

    /** `+=`; r may be this very object, hence the copies. */
    method AddAssign(r: Rational)
      requires Valid() && r.Valid()
      modifies this
      ensures Valid() && Value() == old(Value()) + old(r.Value())
    {
      hide CDiv, Frac, GcdNat;
      var rNum, rDen := r.num, r.den;
      ghost var a, b := num, den;
      ghost var b1, d1 := CoprimeCofactors(den, rDen);
      var g := Gcd(den, rDen);
      CDivExact(b1, g);
      CDivExact(d1, g);
      ghost var g0 := g;
      den := CDiv(den, g);
      num := num * CDiv(rDen, g) + rNum * den;
      ghost var t := num;
      ghost var t1, g1 := CoprimeCofactors(num, g);
      g := Gcd(num, g);
      CDivExact(t1, g);
      DivideTwice(d1, g1, g);
      num := CDiv(num, g);
      den := den * CDiv(rDen, g);
      SumStaysReduced(a, b, rNum, rDen, b1, d1, g0, t, t1, g1, g);
    }

    /** `-=`, which the source writes out again with the other sign. */
    method SubtractAssign(r: Rational)
      requires Valid() && r.Valid()
      modifies this
      ensures Valid() && Value() == old(Value()) - old(r.Value())
    {
      hide CDiv, Frac, GcdNat;
      var rNum, rDen := r.num, r.den;
      ghost var a, b := num, den;
      ghost var b1, d1 := CoprimeCofactors(den, rDen);
      var g := Gcd(den, rDen);
      CDivExact(b1, g);
      CDivExact(d1, g);
      ghost var g0 := g;
      den := CDiv(den, g);
      num := num * CDiv(rDen, g) - rNum * den;
      ghost var t := num;
      ghost var t1, g1 := CoprimeCofactors(num, g);
      g := Gcd(num, g);
      CDivExact(t1, g);
      DivideTwice(d1, g1, g);
      num := CDiv(num, g);
      den := den * CDiv(rDen, g);
      CoprimeNegate(rNum, rDen);
      FracNegate(rNum, rDen);
      NegateLeft(rNum, b1);
      SumStaysReduced(a, b, -rNum, rDen, b1, d1, g0, t, t1, g1, g);
    }

    method MultiplyAssign(r: Rational)
      requires Valid() && r.Valid()
      modifies this
      ensures Valid() && Value() == old(Value()) * old(r.Value())
    {
      hide CDiv, Frac, GcdNat;
      var rNum, rDen := r.num, r.den;
      ghost var a, b := num, den;
      ghost var a1, d1 := CoprimeCofactors(num, rDen);
      ghost var c1, b1 := CoprimeCofactors(rNum, den);
      var gcd1 := Gcd(num, rDen);
      var gcd2 := Gcd(rNum, den);
      CDivExact(a1, gcd1);
      CDivExact(d1, gcd1);
      CDivExact(c1, gcd2);
      CDivExact(b1, gcd2);
      num := CDiv(num, gcd1) * CDiv(rNum, gcd2);
      den := CDiv(den, gcd2) * CDiv(rDen, gcd1);
      ProductStaysReduced(a, b, rNum, rDen, a1, d1, c1, b1, gcd1, gcd2);
    }

    /** `/=`; `bad_rational` exactly when the divisor is zero. */
    method DivideAssign(r: Rational) returns (ok: bool)
      requires Valid() && r.Valid()
      modifies this
      ensures ok <==> old(r.num) != 0
      ensures ok <==> old(r.Value()) != 0.0
      ensures Valid()
      ensures ok ==> Value() == old(Value()) / old(r.Value())
      ensures !ok ==> unchanged(this)
    {
      hide CDiv, GcdNat;
      FracEqual(r.num, r.den, 0, 1);
      var rNum, rDen := r.num, r.den;
      if rNum == 0 {
        return false;
      }
      if num == 0 {
        return true;
      }
      ghost var a, b := num, den;
      ghost var a1, c1 := CoprimeCofactors(num, rNum);
      ghost var d1, b1 := CoprimeCofactors(rDen, den);
      var gcd1 := Gcd(num, rNum);
      var gcd2 := Gcd(rDen, den);
      CDivExact(a1, gcd1);
      CDivExact(c1, gcd1);
      CDivExact(d1, gcd2);
      CDivExact(b1, gcd2);
      num := CDiv(num, gcd1) * CDiv(rDen, gcd2);
      den := CDiv(den, gcd2) * CDiv(rNum, gcd1);
      QuotientStaysReduced(a, b, rNum, rDen, a1, d1, c1, b1, gcd1, gcd2);
      if den < 0 {
        num := -num;
        den := -den;
      }
      return true;
    }

    method AddInt(i: int)
      requires Valid()
      modifies this
      ensures Valid() && Value() == old(Value()) + i as real
    {
      IntSumStaysReduced(num, den, i);
      num := num + i * den;
    }

    method SubtractInt(i: int)
      requires Valid()
      modifies this
      ensures Valid() && Value() == old(Value()) - i as real
    {
      IntSumStaysReduced(num, den, -i);
      NegateLeft(i, den);
      num := num - i * den;
    }

    method MultiplyInt(i: int)
      requires Valid()
      modifies this
      ensures Valid() && Value() == old(Value()) * i as real
    {
      hide CDiv, Frac, GcdNat;
      ghost var i1, b1 := CoprimeCofactors(i, den);
      var gcd := Gcd(i, den);
      CDivExact(i1, gcd);
      CDivExact(b1, gcd);
      IntProductStaysReduced(num, den, i, i1, b1, gcd);
      num := num * CDiv(i, gcd);
      den := CDiv(den, gcd);
    }

    method DivideInt(i: int) returns (ok: bool)
      requires Valid()
      modifies this
      ensures ok <==> i != 0
      ensures Valid()
      ensures ok ==> Value() == old(Value()) / i as real
      ensures !ok ==> unchanged(this)
    {
      hide CDiv, GcdNat;
      if i == 0 {
        return false;
      }
      if num == 0 {
        return true;
      }
      ghost var a1, i1 := CoprimeCofactors(num, i);
      var gcd := Gcd(num, i);
      CDivExact(a1, gcd);
      CDivExact(i1, gcd);
      IntQuotientStaysReduced(num, den, i, a1, i1, gcd);
      num := CDiv(num, gcd);
      den := den * CDiv(i, gcd);
      if den < 0 {
        num := -num;
        den := -den;
      }
      return true;
    }

    /**
     `operator<`: both values are expanded into continued fractions, one
     quotient at a time, until the expansions differ or one of them ends.
     */
    method Less(r: Rational) returns (less: bool)
      requires den > 0 && r.den > 0
      ensures less <==> Value() < r.Value()
      ensures less <==> num * r.den < r.num * den
    {
      FracLess(num, den, r.num, r.den);
      ghost var want := num * r.den < r.num * den;
      var tn, td := num, den;
      var tq, tr := FloorDivide(tn, td);
      var rn, rd := r.num, r.den;
      var rq, rr := FloorDivide(rn, rd);
      var reverse := false;
      while true
        invariant td > 0 && tn == tq * td + tr && 0 <= tr < td
        invariant rd > 0 && rn == rq * rd + rr && 0 <= rr < rd
        invariant want <==> if reverse then Below(rn, rd, tn, td) else Below(tn, td, rn, rd)
        decreases td
      {
        if tq != rq {
          QuotientsDecide(tn, td, tq, tr, rn, rd, rq, rr);
          return if reverse then tq > rq else tq < rq;
        }
        NextCycle(tn, td, tr, rn, rd, rr, tq, want, reverse);
        reverse := !reverse;
        if tr == 0 || rr == 0 {
          break;
        }
        tn, td := td, tr;
        tq, tr := Divide(tn, td);
        rn, rd := rd, rr;
        rq, rr := Divide(rn, rd);
      }
      return if tr == rr then false else (tr != 0) != reverse;
    }

    /** The mixed comparison looks at the floor of the value only. */
    method LessThanInt(i: int) returns (less: bool)
      requires den > 0
      ensures less <==> Value() < i as real
    {
      FracLess(num, den, i, 1);
      var q, r := FloorDivide(num, den);
      QuotientsDecide(num, den, q, r, i, 1, i, 0);
      return q < i;
    }

    method PerformInt(operator: Operator, i: int) returns (ok: bool)
      requires Valid()
      modifies this
      ensures Valid()
      ensures match Exact(old(Value()), Assignment(operator, Whole(i)))
        case None => !ok && unchanged(this)
        case Some(y) => ok && Value() == y
    {
      ok := true;
      match operator {
        case Plus => AddInt(i);
        case Minus => SubtractInt(i);
        case Times => MultiplyInt(i);
        case Over => ok := DivideInt(i);
      }
    }

    /** One compound assignment with any kind of right-hand side, this object included. */
    method Perform(a: Assignment) returns (ok: bool)
      requires Valid()
      modifies this
      ensures Valid()
      ensures match Exact(old(Value()), a)
        case None => !ok && unchanged(this)
        case Some(y) => ok && Value() == y
    {
      if a.operand.Whole? {
        ok := PerformInt(a.operator, a.operand.i);
        return;
      }
      ok := true;
      var r := this;
      if a.operand.Fraction? {
        r := new Rational.Raw(a.operand.n, a.operand.d);
        ok := r.Normalize();
        if !ok {
          return;
        }
      }
      match a.operator {
        case Plus => AddAssign(r);
        case Minus => SubtractAssign(r);
        case Times => MultiplyAssign(r);
        case Over => ok := DivideAssign(r);
      }
    }

    /**
     Any sequence of assignments leaves the exact value, reduced; the run stops
     at the first exception, which changes nothing.
     */
    method PerformAll(todo: seq<Assignment>) returns (made: nat)
      requires Valid()
      modifies this
      ensures Valid()
      ensures (Value(), made) == ExactRun(old(Value()), todo, 0)
    {
      made := 0;
      while made < |todo|
        invariant made <= |todo| && Valid()
        invariant ExactRun(Value(), todo, made) == ExactRun(old(Value()), todo, 0)
      {
        var ok := Perform(todo[made]);
        if !ok {
          return;
        }
        made := made + 1;
      }
    }
  }
}
