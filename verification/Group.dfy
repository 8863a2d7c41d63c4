// The abstract group interface, and the integer multiples of an element.
//
// A group is a record of its operations. Each law is a predicate on the elements it speaks of, so
// that a proof names the instance of the law it uses.

module Groups {

  datatype Group<!T(!new)> = Group(identity: T, addition: (T, T) -> T, inversion: T -> T, inversionIsFast: bool) {

    ghost predicate AssociatesOn(a: T, b: T, c: T) {
      Add(Add(a, b), c) == Add(a, Add(b, c))
    }

    ghost predicate IdentityOn(a: T) {
      Add(identity, a) == a && Add(a, identity) == a
    }

    ghost predicate InverseOn(a: T) {
      Add(Inverse(a), a) == identity && Add(a, Inverse(a)) == identity
    }

    ghost predicate CommutesOn(a: T, b: T) {
      Add(a, b) == Add(b, a)
    }

    // The group laws.
    ghost predicate Valid() {
      && (forall a, b, c :: AssociatesOn(a, b, c))
      && (forall a :: IdentityOn(a))
      && (forall a :: InverseOn(a))
    }

    ghost predicate Abelian() {
      Valid() && forall a, b :: CommutesOn(a, b)
    }

    function Add(a: T, b: T): T {
      addition(a, b)
    }

    function Inverse(a: T): T {
      inversion(a)
    }

    function Double(a: T): T {
      Add(a, a)
    }

    // x added up n times.
    ghost function Sum(n: nat, x: T): T {
      if n == 0 then identity else Add(Sum(n - 1, x), x)
    }

    // k times x, for any integer k.
    ghost function Times(k: int, x: T): T {
      if k >= 0 then Sum(k, x) else Inverse(Sum(0 - k, x))
    }

    lemma {:induction false} SumCommutes(n: nat, x: T)
      requires Valid()
      ensures Add(x, Sum(n, x)) == Add(Sum(n, x), x)
    {
      if n == 0 {
        assert IdentityOn(x);
      } else {
        SumCommutes(n - 1, x);
        assert AssociatesOn(x, Sum(n - 1, x), x);
      }
    }

    // Whatever cancels a on the right is its inverse.
    lemma InverseIsUnique(a: T, b: T)
      requires Valid() && Add(b, a) == identity
      ensures b == Inverse(a)
    {
      assert AssociatesOn(b, a, Inverse(a));
      assert InverseOn(a);
      assert IdentityOn(b) && IdentityOn(Inverse(a));
    }

    lemma TimesSucc(k: int, x: T)
      requires Valid()
      ensures Times(k + 1, x) == Add(Times(k, x), x)
    {
      if k < 0 {
        var m := Sum(-1 - k, x);
        SumCommutes(-1 - k, x);
        assert InverseOn(Add(m, x));
        assert AssociatesOn(Inverse(Add(m, x)), x, m);
        InverseIsUnique(m, Add(Inverse(Add(m, x)), x));
        if k == -1 {
          assert IdentityOn(identity);
          InverseIsUnique(identity, identity);
        }
      }
    }

    lemma TimesPred(k: int, x: T)
      requires Valid()
      ensures Times(k - 1, x) == Add(Times(k, x), Inverse(x))
    {
      TimesSucc(k - 1, x);
      assert AssociatesOn(Times(k - 1, x), x, Inverse(x));
      assert InverseOn(x);
      assert IdentityOn(Times(k - 1, x));
    }

    lemma TimesOne(x: T)
      requires Valid()
      ensures Times(1, x) == x
    {
      assert Sum(1, x) == Add(Sum(0, x), x);
      assert IdentityOn(x);
    }

    lemma {:induction false} TimesAdds(a: int, b: int, x: T)
      requires Valid()
      ensures Times(a + b, x) == Add(Times(a, x), Times(b, x))
      decreases if b < 0 then -b else b
    {
      if b == 0 {
        assert IdentityOn(Times(a, x));
      } else if b > 0 {
        TimesAdds(a, b - 1, x);
        TimesSucc(a + b - 1, x);
        assert AssociatesOn(Times(a, x), Times(b - 1, x), x);
      } else {
        TimesAdds(a, b + 1, x);
        TimesPred(a + b + 1, x);
        TimesPred(b + 1, x);
        assert AssociatesOn(Times(a, x), Times(b + 1, x), Inverse(x));
      }
    }

    lemma TimesDoubles(a: int, x: T)
      requires Valid()
      ensures Times(2 * a, x) == Double(Times(a, x))
    {
      TimesAdds(a, a, x);
    }

    lemma TimesNegates(a: int, x: T)
      requires Valid()
      ensures Times(-a, x) == Inverse(Times(a, x))
    {
      TimesAdds(-a, a, x);
      InverseIsUnique(Times(a, x), Times(-a, x));
    }

    lemma {:induction false} TimesTimes(a: int, b: nat, x: T)
      requires Valid()
      ensures Times(b, Times(a, x)) == Times(a * b, x)
      decreases b
    {
      if b == 0 {
        assert a * b == 0;
      } else {
        TimesTimes(a, b - 1, x);
        assert a * (b - 1) + a == a * b;
        TimesAdds(a * (b - 1), a, x);
      }
    }

    lemma Interchange(a: T, b: T, c: T, d: T)
      requires Abelian()
      ensures Add(Add(a, b), Add(c, d)) == Add(Add(a, c), Add(b, d))
    {
      assert AssociatesOn(a, b, Add(c, d)) && AssociatesOn(b, c, d);
      assert CommutesOn(b, c);
      assert AssociatesOn(c, b, d) && AssociatesOn(a, c, Add(b, d));
    }

    // Multiples of a sum, in an abelian group.
    lemma {:induction false} TimesDistributes(k: nat, x: T, y: T)
      requires Abelian()
      ensures Times(k, Add(x, y)) == Add(Times(k, x), Times(k, y))
    {
      if k == 0 {
        assert IdentityOn(identity);
      } else {
        TimesDistributes(k - 1, x, y);
        Interchange(Times(k - 1, x), Times(k - 1, y), x, y);
      }
    }
  }

  // The laws hold of the integers under addition, where multiples are products.
  function Integers(): Group<int> {
    Group(0, (a: int, b: int) => a + b, (a: int) => -a, true)
  }

  lemma IntegersAreAbelian()
    ensures Integers().Abelian()
  {
  }

  lemma {:induction false} IntegerTimes(k: int, x: int)
    ensures Integers().Times(k, x) == k * x
    decreases if k < 0 then 1 - k else k
  {
    if k < 0 {
      IntegerTimes(-k, x);
    } else if k > 0 {
      IntegerTimes(k - 1, x);
    }
  }
}
