/**
 Greatest common divisors over the unbounded integers, and the facts about
 coprime numbers that the proof sketch in `rational::operator+=` appeals to.
 Coprimality is always reasoned about through a Bezout combination
 `u * a + v * b == 1`, so no notion of prime number is needed.
 */
module NumberTheory {

  function Abs(x: int): nat {
    if x < 0 then -x else x
  }

  // Euclid's algorithm.
  function GcdNat(a: nat, b: nat): nat
    decreases b
  {
    if b == 0 then a else GcdNat(b, a % b)
  }

  /** The non-negative gcd, as `integer::gcd` returns it. */
  function Gcd(a: int, b: int): nat {
    GcdNat(Abs(a), Abs(b))
  }

  predicate Coprime(a: int, b: int) {
    Gcd(a, b) == 1
  }

  /** C++ integer division, truncating toward zero. */
  function CDiv(a: int, b: int): int
    requires b != 0
  {
    if (a < 0) == (b < 0) then Abs(a) / Abs(b) else -(Abs(a) / Abs(b))
  }

  /** C++ remainder, which takes the sign of the dividend. */
  function CMod(a: int, b: int): int
    requires b != 0
  {
    if a < 0 then -(Abs(a) % Abs(b)) else Abs(a) % Abs(b)
  }

  lemma CDivMod(a: int, b: int)
    requires b != 0
    ensures a == CDiv(a, b) * b + CMod(a, b)
    ensures Abs(CMod(a, b)) < Abs(b)
  {
  }

  /** A nonzero multiple is at least as large as what it multiplies. */
  lemma MulAtLeast(k: int, b: int)
    ensures k == 0 || Abs(k * b) >= Abs(b)
  {
  }

  lemma CDivExact(k: int, b: int)
    requires b != 0
    ensures CDiv(k * b, b) == k
  {
    CDivMod(k * b, b);
    assert (k - CDiv(k * b, b)) * b == CMod(k * b, b);
    MulAtLeast(k - CDiv(k * b, b), b);
  }

  lemma DivUnique(x: int, p: int, q: int, r: int)
    requires p > 0 && x == q * p + r && 0 <= r < p
    ensures x / p == q && x % p == r
  {
    assert (x / p - q) * p == r - x % p;
    MulAtLeast(x / p - q, p);
  }

  // ---------------------------------------------------------------------
  // Gcd is the greatest common divisor

  lemma {:induction false} BezoutNat(a: nat, b: nat) returns (u: int, v: int)
    ensures u * a + v * b == GcdNat(a, b)
    decreases b
  {
    if b == 0 {
      u, v := 1, 0;
    } else {
      var s, t := BezoutNat(b, a % b);
      u, v := t, s - t * (a / b);
      assert t * (a % b) == t * a - t * (a / b) * b;
    }
  }

  lemma {:induction false} GcdNatDivides(a: nat, b: nat) returns (x: int, y: int)
    ensures a == x * GcdNat(a, b) && b == y * GcdNat(a, b)
    decreases b
  {
    if b == 0 {
      x, y := 1, 0;
    } else {
      var p, q := GcdNatDivides(b, a % b);
      var g := GcdNat(b, a % b);
      x, y := (a / b) * p + q, p;
      assert a == (a / b) * b + a % b;
      assert ((a / b) * p + q) * g == (a / b) * (p * g) + q * g;
    }
  }

  /** Every gcd is an integer combination of its arguments. */
  lemma Bezout(a: int, b: int) returns (u: int, v: int)
    ensures u * a + v * b == Gcd(a, b)
  {
    var s, t := BezoutNat(Abs(a), Abs(b));
    u, v := if a < 0 then -s else s, if b < 0 then -t else t;
  }

  /** The gcd divides both arguments; the cofactors are returned. */
  lemma GcdDivides(a: int, b: int) returns (x: int, y: int)
    ensures a == x * Gcd(a, b) && b == y * Gcd(a, b)
  {
    var p, q := GcdNatDivides(Abs(a), Abs(b));
    x, y := if a < 0 then -p else p, if b < 0 then -q else q;
  }

  /** No common divisor exceeds the gcd: each one divides it. */
  lemma GcdGreatest(d: int, x: int, y: int) returns (k: int)
    ensures Gcd(x * d, y * d) == k * d
  {
    var u, v := Bezout(x * d, y * d);
    k := u * x + v * y;
    assert u * (x * d) + v * (y * d) == (u * x + v * y) * d;
  }

  lemma GcdPositive(a: int, b: int)
    requires a != 0 || b != 0
    ensures Gcd(a, b) > 0
  {
    var x, y := GcdDivides(a, b);
  }

  predicate CommonDivisor(k: int, a: int, b: int) {
    k != 0 && a % k == 0 && b % k == 0
  }

  /** The gcd is the greatest common divisor, in the order of size and in that of divisibility. */
  lemma GcdIsGreatest(a: int, b: int)
    requires a != 0 || b != 0
    ensures CommonDivisor(Gcd(a, b), a, b)
    ensures forall k :: CommonDivisor(k, a, b) ==> Gcd(a, b) % k == 0 && Abs(k) <= Gcd(a, b)
  {
    hide Gcd;
    GcdPositive(a, b);
    var x, y := GcdDivides(a, b);
    MultipleMod(x, Gcd(a, b));
    MultipleMod(y, Gcd(a, b));
    forall k | CommonDivisor(k, a, b)
      ensures Gcd(a, b) % k == 0 && Abs(k) <= Gcd(a, b)
    {
      CommonDividesGcd(k, a, b);
    }
  }

  lemma CommonDividesGcd(k: int, a: int, b: int)
    requires CommonDivisor(k, a, b) && Gcd(a, b) > 0
    ensures Gcd(a, b) % k == 0 && Abs(k) <= Gcd(a, b)
  {
    hide Gcd;
    var m := GcdGreatest(k, a / k, b / k);
    MulAtLeast(m, k);
    MultipleMod(m, k);
  }

  lemma MultipleMod(m: int, k: int)
    requires k != 0
    ensures m * k % k == 0
  {
    if k > 0 {
      DivUnique(m * k, k, m, 0);
    } else {
      assert m * k == (-m) * (-k);
      DivUnique(m * k, -k, -m, 0);
      assert m * k % k == m * k % -k;
    }
  }

  // ---------------------------------------------------------------------
  // Coprime numbers

  lemma UnitFactor(k: int, g: nat)
    requires k * g == 1
    ensures g == 1
  {
  }

  lemma CoprimeFromBezout(a: int, b: int, u: int, v: int)
    requires u * a + v * b == 1
    ensures Coprime(a, b)
  {
    var x, y := GcdDivides(a, b);
    var g := Gcd(a, b);
    hide Gcd;
    CollectFactor(u, x, v, y, g);
    UnitFactor(u * x + v * y, g);
  }

  lemma CollectFactor(u: int, x: int, v: int, y: int, g: int)
    ensures u * (x * g) + v * (y * g) == (u * x + v * y) * g
  {
    MulAssociative(u, x, g);
    MulAssociative(v, y, g);
  }

  lemma MulAssociative(a: int, b: int, c: int)
    ensures a * (b * c) == (a * b) * c
  {
  }

  lemma CoprimeSymmetric(a: int, b: int)
    requires Coprime(a, b)
    ensures Coprime(b, a)
  {
    var u, v := Bezout(a, b);
    CoprimeFromBezout(b, a, v, u);
  }

  lemma MulSwap(a: int, b: int, c: int, d: int)
    ensures (a * b) * (c * d) == (a * c) * (b * d)
  {
  }

  lemma CoprimeProduct(x: int, y: int, z: int)
    requires Coprime(x, y) && Coprime(x, z)
    ensures Coprime(x, y * z)
  {
    var u, v := Bezout(x, y);
    var s, t := Bezout(x, z);
    var p, q := v * y, t * z;
    MulSwap(v, t, y, z);
    ProductCombination(x, u, s, p, q);
    CoprimeFromBezout(x, y * z, u + p * s, v * t);
  }

  lemma ProductCombination(x: int, u: int, s: int, p: int, q: int)
    requires u * x + p == 1 && s * x + q == 1
    ensures (u + p * s) * x + p * q == 1
  {
  }

  lemma CoprimeFactor(x: int, y: int, z: int)
    requires Coprime(x, y * z)
    ensures Coprime(x, y) && Coprime(x, z)
  {
    var u, v := Bezout(x, y * z);
    assert v * (y * z) == (v * z) * y == (v * y) * z;
    CoprimeFromBezout(x, y, u, v * z);
    CoprimeFromBezout(x, z, u, v * y);
  }

  lemma CoprimeShift(x: int, y: int, k: int)
    requires Coprime(x, y)
    ensures Coprime(x + k * y, y)
  {
    var u, v := Bezout(x, y);
    assert u * (x + k * y) + (v - u * k) * y == u * x + v * y;
    CoprimeFromBezout(x + k * y, y, u, v - u * k);
  }

  lemma CoprimeNegate(x: int, y: int)
    requires Coprime(x, y)
    ensures Coprime(-x, y) && Coprime(x, -y) && Coprime(-x, -y)
  {
  }

  /** Dividing by the gcd leaves coprime cofactors. */
  lemma CoprimeCofactors(a: int, b: int) returns (x: int, y: int)
    requires a != 0 || b != 0
    ensures Gcd(a, b) > 0
    ensures a == x * Gcd(a, b) && b == y * Gcd(a, b)
    ensures Coprime(x, y)
  {
    GcdPositive(a, b);
    x, y := GcdDivides(a, b);
    var u, v := Bezout(a, b);
    var g := Gcd(a, b);
    assert u * (x * g) + v * (y * g) == (u * x + v * y) * g;
    var c := u * x + v * y;
    assert (c - 1) * g == 0;
    MulAtLeast(c - 1, g);
    CoprimeFromBezout(x, y, u, v);
  }
}
