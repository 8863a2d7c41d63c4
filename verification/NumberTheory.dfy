// Powers modulo a prime and modulo a product of two primes: the theorems random access rests on.

module NumberTheory {
  import opened Numbers
  import opened Euclid

  ghost predicate IsPrime(p: int) {
    p > 1 && forall d: nat :: Divides(d, p) ==> d == 1 || d == p
  }

  function Pow(x: int, e: nat): int {
    if e == 0 then 1 else Pow(x, e - 1) * x
  }

  lemma {:induction false} PowAdds(x: int, a: nat, b: nat)
    ensures Pow(x, a + b) == Pow(x, a) * Pow(x, b)
  {
    if b > 0 {
      PowAdds(x, a, b - 1);
      MulAssociates(Pow(x, a), Pow(x, b - 1), x);
    }
  }

  // Congruences.

  lemma CongruentReflexive(a: int, m: int)
    ensures Congruent(a, a, m)
  {
    DividesTrivially(m);
  }

  lemma CongruentTransitive(a: int, b: int, c: int, m: int)
    requires Congruent(a, b, m) && Congruent(b, c, m)
    ensures Congruent(a, c, m)
  {
    DividesCombination(m, a - b, b - c, 1);
    assert a - b + 1 * (b - c) == a - c;
  }

  lemma CongruentProduct(a: int, b: int, c: int, d: int, m: int)
    requires Congruent(a, b, m) && Congruent(c, d, m)
    ensures Congruent(a * c, b * d, m)
  {
    DividesTrivially(m);
    DividesCombination(m, 0, a - b, c);
    DividesCombination(m, c * (a - b), c - d, b);
    MulDistributes(a, b, c);
    MulDistributes(c, d, b);
    assert 0 + c * (a - b) == c * (a - b);
    assert c * (a - b) + b * (c - d) == a * c - b * d;
  }

  lemma CongruentSum(a: int, b: int, c: int, d: int, m: int)
    requires Congruent(a, b, m) && Congruent(c, d, m)
    ensures Congruent(a + c, b + d, m)
  {
    DividesCombination(m, a - b, c - d, 1);
    assert a - b + 1 * (c - d) == (a + c) - (b + d);
  }

  // Congruence is having the same remainder.
  lemma CongruentIsSameRemainder(a: int, b: int, m: int)
    requires m > 0
    ensures Congruent(a, b, m) <==> a % m == b % m
    ensures Congruent(a % m, a, m)
  {
    var r := a % m;
    assert (-(a / m)) * m == r - a;
    if Congruent(a, b, m) {
      var k :| k * m == a - b;
      MulDistributes(k, b / m, m);
      DivIsUnique(a, m, k + b / m, b % m);
    }
    if a % m == b % m {
      MulDistributes(a / m, b / m, m);
      assert (a / m - b / m) * m == a - b;
    }
  }

  // Bezout's identity.
  lemma {:induction false} Bezout(a: int, b: nat) returns (x: int, y: int, g: int)
    ensures x * a + y * b == g && Divides(g, a) && Divides(g, b)
    decreases b
  {
    if b == 0 {
      x, y, g := 1, 0, a;
      DividesTrivially(a);
    } else {
      RemainderFacts(a, b);
      var q, r := a / b, a % b;
      var u, v;
      u, v, g := Bezout(b, r);
      x, y := v, u - v * q;
      StepKeepsDivisors(g, a, b, q);
      MulDistributes(u, v * q, b);
      MulAssociates(v, q, b);
      assert v * (a - q * b) == v * a - v * (q * b);
    }
  }

  // Euclid's lemma.
  lemma PrimeDividesFactor(p: int, a: int, b: int)
    requires IsPrime(p) && Divides(p, a * b) && !Divides(p, a)
    ensures Divides(p, b)
  {
    var x, y, g := Bezout(a, p);
    PrimeGcd(p, a, x, y, g);
    // a is a unit modulo p, so b is a combination of a * b and p.
    DividesTrivially(p);
    DividesCombination(p, 0, a * b, g * x);
    DividesCombination(p, (g * x) * (a * b), p, g * y * b);
    UnitTimes(a, b, p, x, y, g);
    assert 0 + (g * x) * (a * b) == (g * x) * (a * b);
  }

  lemma PrimeGcd(p: int, a: int, x: int, y: int, g: int)
    requires IsPrime(p) && !Divides(p, a)
    requires x * a + y * p == g && Divides(g, a) && Divides(g, p)
    ensures IsUnit(g)
  {
    var k :| k * g == p;
    assert (-k) * (-g) == p;
    assert Divides(Abs(g), p);
    if Abs(g) == p {
      SignedDivisor(g, p, a);
    }
  }

  lemma SignedDivisor(g: int, p: int, a: int)
    requires Divides(g, a) && (p == g || p == -g)
    ensures Divides(p, a)
  {
    var j :| j * g == a;
    assert (-j) * -g == a;
  }

  lemma UnitTimes(a: int, b: int, p: int, x: int, y: int, g: int)
    requires x * a + y * p == g && IsUnit(g)
    ensures (g * x) * (a * b) + (g * y * b) * p == b
  {
    calc {
      (g * x) * (a * b) + (g * y * b) * p;
      { MulAssociates(g, x, a * b); MulAssociates(x, a, b); MulAssociates(g * y, b, p); MulAssociates(g, y, b * p); }
      g * ((x * a) * b) + g * (y * (b * p));
      { MulAssociates(y, p, b); assert b * p == p * b; }
      g * ((x * a) * b) + g * ((y * p) * b);
      { MulDistributes(x * a, y * p, b); assert g * ((x * a) * b) + g * ((y * p) * b) == g * ((x * a) * b + (y * p) * b); }
      g * (g * b);
      { MulAssociates(g, g, b); assert g * g == 1; }
      b;
    }
  }

  // Binomial coefficients, by Pascal's rule.
  function Choose(n: nat, k: nat): nat {
    if k == 0 then 1 else if n == 0 then 0 else Choose(n - 1, k - 1) + Choose(n - 1, k)
  }

  lemma {:induction false} ChooseBeyond(n: nat, k: nat)
    requires n < k
    ensures Choose(n, k) == 0
  {
    if n > 0 {
      ChooseBeyond(n - 1, k - 1);
      ChooseBeyond(n - 1, k);
    }
  }

  lemma {:induction false} ChooseSelf(n: nat)
    ensures Choose(n, n) == 1
  {
    if n > 0 {
      ChooseSelf(n - 1);
      ChooseBeyond(n - 1, n);
    }
  }

  lemma {:induction false} Absorption(n: nat, k: nat)
    requires n >= 1 && k >= 1
    ensures k * Choose(n, k) == n * Choose(n - 1, k - 1)
  {
    var a, b := Choose(n - 1, k - 1), Choose(n - 1, k);
    assert k * (a + b) == k * a + k * b;
    if n == 1 {
      ChooseBeyond(0, k);
    } else {
      Absorption(n - 1, k);
      if k >= 2 {
        Absorption(n - 1, k - 1);
        AbsorptionStep(n, k, a, b, Choose(n - 2, k - 2), Choose(n - 2, k - 1));
      } else {
        assert a == 1 && Choose(n - 2, 0) == 1;
      }
    }
  }

  lemma AbsorptionStep(n: nat, k: nat, a: nat, b: nat, c: nat, d: nat)
    requires a == c + d && (k - 1) * a == (n - 1) * c && k * b == (n - 1) * d
    ensures k * a + k * b == n * a
  {
    MulDistributes(k, 1, a);
    MulDistributes(n, 1, a);
    assert (n - 1) * (c + d) == (n - 1) * c + (n - 1) * d;
  }

  // A prime divides its inner binomial coefficients.
  lemma PrimeDividesChoose(p: int, k: nat)
    requires IsPrime(p) && 0 < k < p
    ensures Divides(p, Choose(p, k))
  {
    Absorption(p, k);
    DividesMultiple(p, Choose(p - 1, k - 1));
    assert Choose(p - 1, k - 1) * p == k * Choose(p, k);
    if Divides(p, k) {
      var j :| j * p == k;
      MultipleWithin(j, p);
    } else {
      PrimeDividesFactor(p, k, Choose(p, k));
    }
  }

  // The first terms of the binomial expansion of (1 + x)^n, up to x^j.
  function BinomialSum(n: nat, x: int, j: nat): int {
    Choose(n, j) * Pow(x, j) + (if j == 0 then 0 else BinomialSum(n, x, j - 1))
  }

  lemma {:induction false} BinomialSumStep(n: nat, x: int, j: nat)
    requires n >= 1
    ensures BinomialSum(n, x, j) == BinomialSum(n - 1, x, j) + (if j == 0 then 0 else BinomialSum(n - 1, x, j - 1) * x)
  {
    if j > 0 {
      BinomialSumStep(n, x, j - 1);
      var a, b, s := Choose(n - 1, j - 1), Choose(n - 1, j), Pow(x, j - 1);
      MulDistributes(a, b, Pow(x, j));
      MulAssociates(a, s, x);
      if j > 1 {
        MulDistributes(a * s, BinomialSum(n - 1, x, j - 2), x);
      }
    }
  }

  lemma NoTopTerm(n: nat, x: int)
    requires n >= 1
    ensures BinomialSum(n - 1, x, n) == BinomialSum(n - 1, x, n - 1)
  {
    ChooseBeyond(n - 1, n);
  }

  lemma TimesNext(s: int, x: int)
    ensures s * (x + 1) == s + s * x
  {
  }

  lemma {:induction false} BinomialTheorem(n: nat, x: int)
    ensures Pow(x + 1, n) == BinomialSum(n, x, n)
  {
    if n > 0 {
      BinomialTheorem(n - 1, x);
      BinomialSumStep(n, x, n);
      NoTopTerm(n, x);
      TimesNext(BinomialSum(n - 1, x, n - 1), x);
    }
  }

  lemma {:induction false} InnerTermsVanish(p: int, x: int, j: nat)
    requires IsPrime(p) && j < p
    ensures Congruent(BinomialSum(p, x, j), 1, p)
  {
    if j == 0 {
      assert BinomialSum(p, x, 0) == 1;
      CongruentReflexive(1, p);
    } else {
      InnerTermsVanish(p, x, j - 1);
      PrimeDividesChoose(p, j);
      DividesTrivially(p);
      DividesCombination(p, 0, Choose(p, j), Pow(x, j));
      assert Choose(p, j) * Pow(x, j) - 0 == 0 + Pow(x, j) * Choose(p, j);
      CongruentSum(Choose(p, j) * Pow(x, j), 0, BinomialSum(p, x, j - 1), 1, p);
    }
  }

  // Fermat's little theorem.
  lemma {:induction false} Fermat(p: int, x: nat)
    requires IsPrime(p)
    ensures Congruent(Pow(x, p), x, p)
  {
    if x == 0 {
      assert Pow(0, p) == Pow(0, p - 1) * 0;
      CongruentReflexive(0, p);
    } else {
      Fermat(p, x - 1);
      BinomialTheorem(p, x - 1);
      InnerTermsVanish(p, x - 1, p - 1);
      ChooseSelf(p);
      CongruentSum(Pow(x - 1, p), x - 1, BinomialSum(p, x - 1, p - 1), 1, p);
    }
  }

  lemma FermatUnit(p: int, x: nat)
    requires IsPrime(p) && !Divides(p, x)
    ensures Congruent(Pow(x, p - 1), 1, p)
  {
    Fermat(p, x);
    var y := Pow(x, p - 1);
    assert y * x - x == x * (y - 1) by { MulDistributes(y, 1, x); }
    PrimeDividesFactor(p, x, y - 1);
  }

  // Modulo a prime, p - 1 more in the exponent changes nothing: always when the base is a unit, and
  // for exponents above zero also when it is not.
  lemma {:induction false} ExponentPeriod(p: int, x: nat, e: nat, t: nat)
    requires IsPrime(p) && (e >= 1 || !Divides(p, x))
    ensures t * (p - 1) >= 0 && Congruent(Pow(x, e + t * (p - 1)), Pow(x, e), p)
  {
    if t == 0 {
      assert t * (p - 1) == 0;
      CongruentReflexive(Pow(x, e), p);
    } else {
      ExponentPeriod(p, x, e, t - 1);
      MulDistributes(t, 1, p - 1);
      var f := e + (t - 1) * (p - 1);
      PowAdds(x, f, p - 1);
      PeriodStep(p, x, f);
      CongruentTransitive(Pow(x, f + (p - 1)), Pow(x, f), Pow(x, e), p);
    }
  }

  lemma PeriodStep(p: int, x: nat, f: nat)
    requires IsPrime(p) && (f >= 1 || !Divides(p, x))
    ensures Congruent(Pow(x, f) * Pow(x, p - 1), Pow(x, f), p)
  {
    if Divides(p, x) {
      DividesTrivially(p);
      DividesCombination(p, 0, x, Pow(x, f - 1));
      assert Pow(x, f) == 0 + Pow(x, f - 1) * x;
      DividesCombination(p, 0, Pow(x, f), Pow(x, p - 1) - 1);
      MulDistributes(Pow(x, p - 1), 1, Pow(x, f));
      assert 0 + (Pow(x, p - 1) - 1) * Pow(x, f) == Pow(x, f) * Pow(x, p - 1) - Pow(x, f);
    } else {
      FermatUnit(p, x);
      CongruentReflexive(Pow(x, f), p);
      CongruentProduct(Pow(x, f), Pow(x, f), Pow(x, p - 1), 1, p);
    }
  }

  lemma DistinctPrimes(q: int, p: int)
    requires IsPrime(p) && IsPrime(q) && p != q
    ensures !Divides(q, p)
  {
  }

  // What two different primes divide, their product divides.
  lemma ProductDivides(p: int, q: int, n: int)
    requires IsPrime(p) && IsPrime(q) && p != q && Divides(p, n) && Divides(q, n)
    ensures Divides(p * q, n)
  {
    var k :| k * p == n;
    assert p * k == n;
    DistinctPrimes(q, p);
    PrimeDividesFactor(q, p, k);
    var j :| j * q == k;
    MulAssociates(j, q, p);
    assert j * (p * q) == n;
  }

  // Euler's theorem in the form random access needs: modulo p * q, an exponent can be reduced modulo
  // (p - 1) * (q - 1), if the base is coprime to p * q or the reduced exponent is not zero.
  lemma EulerReduction(p: int, q: int, x: nat, e: nat)
    requires IsPrime(p) && IsPrime(q) && p != q
    requires (p - 1) * (q - 1) > 0
    requires e % ((p - 1) * (q - 1)) != 0 || (!Divides(p, x) && !Divides(q, x))
    ensures Congruent(Pow(x, e), Pow(x, e % ((p - 1) * (q - 1))), p * q)
  {
    var phi := (p - 1) * (q - 1);
    DivFacts(e, phi);
    ReduceByPhi(p, q, x, e % phi, e / phi);
  }

  lemma ReduceByPhi(p: int, q: int, x: nat, r: nat, t: nat)
    requires IsPrime(p) && IsPrime(q) && p != q
    requires r != 0 || (!Divides(p, x) && !Divides(q, x))
    ensures t * ((p - 1) * (q - 1)) >= 0
    ensures Congruent(Pow(x, r + t * ((p - 1) * (q - 1))), Pow(x, r), p * q)
  {
    ThreeFactors(t, p - 1, q - 1);
    MulMonotonic(0, t * (p - 1), q - 1);
    ExponentPeriod(q, x, r, t * (p - 1));
    ExponentPeriod(p, x, r, t * (q - 1));
    ProductDivides(p, q, Pow(x, r + t * ((p - 1) * (q - 1))) - Pow(x, r));
  }

  lemma ThreeFactors(t: nat, a: nat, b: nat)
    ensures t * (a * b) == (t * a) * b && t * (a * b) == (t * b) * a
    ensures t * a >= 0 && t * b >= 0
  {
    MulAssociates(t, a, b);
    MulAssociates(t, b, a);
    MulMonotonic(0, t, a);
    MulMonotonic(0, t, b);
  }

  // A common divisor with the modulus never disappears from a power: no positive power of a base that
  // is not coprime to p * q is congruent to 1.
  lemma NonUnitPower(p: int, q: int, x: nat, e: nat)
    requires IsPrime(p) && e >= 1 && Divides(p, x)
    ensures !Congruent(Pow(x, e), 1, p * q)
  {
    DividesTrivially(p);
    DividesCombination(p, 0, x, Pow(x, e - 1));
    assert Pow(x, e) == 0 + Pow(x, e - 1) * x;
    if Congruent(Pow(x, e), 1, p * q) {
      var k :| k * (p * q) == Pow(x, e) - 1;
      MulAssociates(k, q, p);
      DividesMultiple(p, k * q);
      DividesCombination(p, Pow(x, e), k * q * p, -1);
      assert Pow(x, e) + (-1) * (k * q * p) == 1;
      UnitDivisors(p, 1);
    }
  }
}
