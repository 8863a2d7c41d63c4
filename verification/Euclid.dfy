// Greatest common divisors and inverses modulo m, by Euclid's algorithm on three rotating slots.

module Euclid {
  import opened Numbers

  ghost predicate Divides(d: int, n: int) {
    exists k :: k * d == n
  }

  // The only units among the integers.
  predicate IsUnit(n: int) {
    n == 1 || n == -1
  }

  // a and b agree modulo m.
  ghost predicate Congruent(a: int, b: int, m: int) {
    Divides(m, a - b)
  }

  // g divides a and b, and every common divisor divides g.
  ghost predicate IsGcd(g: int, a: int, b: int) {
    && Divides(g, a) && Divides(g, b)
    && forall d :: Divides(d, a) && Divides(d, b) ==> Divides(d, g)
  }

  lemma DividesMultiple(d: int, k: int)
    ensures Divides(d, k * d)
  {
  }

  lemma DividesTrivially(d: int)
    ensures Divides(d, 0) && Divides(d, d) && Divides(1, d) && Divides(-1, d)
  {
    assert 0 * d == 0 && 1 * d == d && d * 1 == d && (-d) * -1 == d;
  }

  // A divisor of x and y divides x + k * y.
  lemma DividesCombination(d: int, x: int, y: int, k: int)
    requires Divides(d, x) && Divides(d, y)
    ensures Divides(d, x + k * y)
  {
    var i :| i * d == x;
    var j :| j * d == y;
    MulAssociates(k, j, d);
    MulDistributes(i, k * j, d);
    assert (i + k * j) * d == x + k * y;
  }

  // One division step keeps the common divisors.
  lemma StepKeepsDivisors(d: int, x: int, y: int, q: int)
    ensures Divides(d, x) && Divides(d, y) <==> Divides(d, y) && Divides(d, x - q * y)
  {
    if Divides(d, y) {
      if Divides(d, x) {
        DividesCombination(d, x, y, -q);
        assert x + (-q) * y == x - q * y;
      }
      if Divides(d, x - q * y) {
        DividesCombination(d, x - q * y, y, q);
      }
    }
  }

  ghost predicate SameCommonDivisors(a: int, b: int, x: int, y: int) {
    forall d :: Divides(d, a) && Divides(d, b) <==> Divides(d, x) && Divides(d, y)
  }

  lemma StepKeepsCommonDivisors(a: int, b: int, x: int, y: int, q: int)
    requires SameCommonDivisors(a, b, x, y)
    ensures SameCommonDivisors(a, b, y, x - q * y)
  {
    forall d
      ensures Divides(d, a) && Divides(d, b) <==> Divides(d, y) && Divides(d, x - q * y)
    {
      StepKeepsDivisors(d, x, y, q);
    }
  }

  lemma LastIsGcd(a: int, b: int, x: int)
    requires SameCommonDivisors(a, b, x, 0)
    ensures IsGcd(x, a, b)
  {
    DividesTrivially(x);
    forall d | Divides(d, a) && Divides(d, b)
      ensures Divides(d, x)
    {
    }
  }

  function Abs(n: int): nat {
    if n < 0 then 0 - n else n
  }

  // The remainder of the division algorithm is smaller than the divisor.
  lemma RemainderFacts(x: int, y: int)
    requires y != 0
    ensures x % y == x - (x / y) * y && 0 <= x % y < Abs(y)
    ensures x >= 0 && y > 0 ==> x / y >= 0
  {
    if x >= 0 && y > 0 && x / y < 0 {
      MulMonotonic(x / y, -1, y);
    }
  }

  // The slots in use take turns.
  ghost predicate Rotation(i0: nat, i1: nat, i2: nat) {
    i0 < 3 && i1 < 3 && i2 < 3 && i0 != i1 && i1 != i2 && i0 != i2
  }

  method Gcd(a: int, b: int) returns (result: int)
    ensures IsGcd(result, a, b)
  {
    var g := new int[3];
    g[0], g[1] := b, a;
    var i0, i1, i2 := 0, 1, 2;
    while g[i1] != 0
      invariant Rotation(i0, i1, i2)
      invariant SameCommonDivisors(a, b, g[i0], g[i1])
      decreases Abs(g[i1])
    {
      RemainderFacts(g[i0], g[i1]);
      StepKeepsCommonDivisors(a, b, g[i0], g[i1], g[i0] / g[i1]);
      g[i2] := g[i0] % g[i1];
      i0, i1, i2 := i1, i2, i0;
    }
    LastIsGcd(a, b, g[i0]);
    result := g[i0];
  }

  ghost predicate Coprime(a: int, b: int) {
    forall d :: Divides(d, a) && Divides(d, b) ==> IsUnit(d)
  }

  lemma UnitDivisors(d: int, u: int)
    requires Divides(d, u) && IsUnit(u)
    ensures IsUnit(d)
  {
    var k :| k * d == u;
    if d > 0 {
      MultipleWithin(k, d);
    } else if d < 0 {
      MultipleWithin(-k, -d);
    }
  }

  // Two numbers are coprime exactly when their greatest common divisor is a unit.
  lemma GcdDecidesCoprime(g: int, a: int, b: int)
    requires IsGcd(g, a, b)
    ensures IsUnit(g) <==> Coprime(a, b)
  {
    if IsUnit(g) {
      forall d | Divides(d, a) && Divides(d, b)
        ensures IsUnit(d)
      {
        UnitDivisors(d, g);
      }
    }
  }

  // An inverse modulo m exists only for what is coprime to m.
  lemma InverseNeedsCoprime(a: int, r: int, m: int)
    requires Congruent(r * a, 1, m)
    ensures Coprime(a, m)
  {
    forall d | Divides(d, a) && Divides(d, m)
      ensures IsUnit(d)
    {
      var k :| k * m == r * a - 1;
      DividesTrivially(d);
      DividesCombination(d, 0, a, r);
      DividesCombination(d, r * a, m, -k);
      assert r * a + (-k) * m == 1;
      UnitDivisors(d, 1);
    }
  }

  lemma CongruentStep(a: int, m: int, v0: int, v1: int, g0: int, g1: int, y: int)
    requires Congruent(v0 * a, g0, m) && Congruent(v1 * a, g1, m)
    ensures Congruent((v0 - v1 * y) * a, g0 - y * g1, m)
  {
    DividesCombination(m, v0 * a - g0, v1 * a - g1, -y);
    MulDistributes(v0, v1 * y, a);
    MulAssociates(y, v1, a);
    assert v0 * a - g0 + (-y) * (v1 * a - g1) == (v0 - v1 * y) * a - (g0 - y * g1);
  }

  // The coefficients alternate in sign, and with the remainders they always make up the modulus.
  ghost predicate Balanced(v0: int, v1: int, g0: int, g1: int, m: int) {
    && g0 >= 0 && g1 >= 0
    && (v0 <= 0 <= v1 || v1 <= 0 <= v0)
    && Abs(v1) * g0 + Abs(v0) * g1 == m
    && Abs(v0) <= m && Abs(v1) <= m
  }

  lemma BalancedStep(v0: int, v1: int, g0: int, g1: int, m: int)
    requires Balanced(v0, v1, g0, g1, m) && g1 > 0
    ensures Balanced(v1, v0 - v1 * (g0 / g1), g1, g0 % g1, m)
  {
    var y, r := g0 / g1, g0 % g1;
    RemainderFacts(g0, g1);
    SignedStep(v0, v1, y);
    ProductStep(Abs(v0), Abs(v1), y, g0, g1, r, m);
  }

  lemma ProductStep(p: nat, q: nat, y: nat, g0: int, g1: int, r: int, m: int)
    requires q * g0 + p * g1 == m && r == g0 - y * g1 && r >= 0 && g1 > 0
    ensures (p + q * y) * g1 + q * r == m && p + q * y <= m
  {
    MulDistributes(p, q * y, g1);
    MulAssociates(q, y, g1);
    MulDistributes(g0, y * g1, q);
    MulMonotonic(0, q, r);
    MulMonotonic(1, g1, p + q * y);
  }

  lemma SignedStep(v0: int, v1: int, y: nat)
    requires v0 <= 0 <= v1 || v1 <= 0 <= v0
    ensures Abs(v0 - v1 * y) == Abs(v0) + Abs(v1) * y
    ensures v1 <= 0 <= v0 - v1 * y || v0 - v1 * y <= 0 <= v1
  {
    if v1 >= 0 {
      MulMonotonic(0, v1, y);
    } else {
      MulMonotonic(v1, 0, y);
    }
  }

  method MultiplicativeInverse(a: int, modulus: int) returns (r: int)
    requires modulus >= 1
    ensures Congruent(r * a, 1, modulus) <==> Coprime(a, modulus)
    ensures !Coprime(a, modulus) ==> r == 0
    ensures a >= 0 ==> -modulus <= r <= modulus
  {
    var g, v := new int[3], new int[3];
    g[0], g[1] := modulus, a;
    v[0], v[1] := 0, 1;
    var i0, i1, i2 := 0, 1, 2;
    StartCongruent(a, modulus);
    while g[i1] != 0
      invariant Rotation(i0, i1, i2) && g != v
      invariant SameCommonDivisors(a, modulus, g[i0], g[i1])
      invariant Congruent(v[i0] * a, g[i0], modulus) && Congruent(v[i1] * a, g[i1], modulus)
      invariant a >= 0 ==> Balanced(v[i0], v[i1], g[i0], g[i1], modulus)
      decreases Abs(g[i1])
    {
      var y := g[i0] / g[i1];
      RemainderFacts(g[i0], g[i1]);
      StepKeepsCommonDivisors(a, modulus, g[i0], g[i1], y);
      CongruentStep(a, modulus, v[i0], v[i1], g[i0], g[i1], y);
      if a >= 0 {
        BalancedStep(v[i0], v[i1], g[i0], g[i1], modulus);
      }
      g[i2] := g[i0] % g[i1];
      v[i2] := v[i0] - v[i1] * y;
      i0, i1, i2 := i1, i2, i0;
    }
    LastIsGcd(a, modulus, g[i0]);
    GcdDecidesCoprime(g[i0], a, modulus);
    if IsUnit(g[i0]) {
      r := v[i0] / g[i0];
      UnitQuotient(a, modulus, v[i0], g[i0]);
    } else {
      r := 0;
    }
    if Congruent(r * a, 1, modulus) {
      InverseNeedsCoprime(a, r, modulus);
    }
  }

  lemma StartCongruent(a: int, m: int)
    ensures Congruent(0 * a, m, m) && Congruent(1 * a, a, m)
  {
    assert (-1) * m == 0 * a - m;
    assert 0 * m == 1 * a - a;
  }

  lemma UnitQuotient(a: int, m: int, v: int, g: int)
    requires IsUnit(g) && Congruent(v * a, g, m)
    ensures Congruent((v / g) * a, 1, m) && Abs(v / g) == Abs(v)
  {
    if g == -1 {
      DividesTrivially(m);
      DividesCombination(m, 0, v * a - g, -1);
      assert v / g == -v;
      assert (-v) * a - 1 == 0 + (-1) * (v * a - g);
    }
  }
}
