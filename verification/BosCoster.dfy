// A sum of many multiples by repeatedly dividing the largest exponent by the next largest. The two
// are found with the heap algorithms of the C++ standard library, which are a parameter here: what
// is proved holds for every implementation that keeps the library's contract.

module BosCoster {
  import opened Groups
  import opened Numbers
  import opened Simultaneous
  import opened Cascade

  datatype BaseAndExponent<T> = BaseAndExponent(base: T, exponent: nat)

  // The max-heap order on exponents: no element is above its parent.
  ghost predicate IsHeap<T>(s: seq<BaseAndExponent<T>>) {
    forall i | 1 <= i < |s| :: BelowParent(s, i)
  }

  ghost predicate BelowParent<T>(s: seq<BaseAndExponent<T>>, i: nat)
    requires 1 <= i < |s|
  {
    s[i].exponent <= s[(i - 1) / 2].exponent
  }

  // std::make_heap, std::push_heap and std::pop_heap on the whole of a range.
  datatype HeapAlgorithms<!T(!new)> = HeapAlgorithms(
    make: seq<BaseAndExponent<T>> -> seq<BaseAndExponent<T>>,
    push: seq<BaseAndExponent<T>> -> seq<BaseAndExponent<T>>,
    pop: seq<BaseAndExponent<T>> -> seq<BaseAndExponent<T>>)
  {
    // Any range is rearranged into a heap.
    ghost predicate MakesOn(s: seq<BaseAndExponent<T>>) {
      multiset(make(s)) == multiset(s) && IsHeap(make(s))
    }

    // A heap with one more element at the end is rearranged into a heap.
    ghost predicate PushesOn(s: seq<BaseAndExponent<T>>) {
      s != [] && IsHeap(s[..|s| - 1]) ==> multiset(push(s)) == multiset(s) && IsHeap(push(s))
    }

    // The first element of a heap goes to the end, and the others are rearranged into a heap.
    ghost predicate PopsOn(s: seq<BaseAndExponent<T>>) {
      s != [] && IsHeap(s) ==>
        && |pop(s)| == |s| && multiset(pop(s)) == multiset(s)
        && pop(s)[|s| - 1] == s[0] && IsHeap(pop(s)[..|s| - 1])
    }

    ghost predicate Valid() {
      && (forall s :: MakesOn(s))
      && (forall s :: PushesOn(s))
      && (forall s :: PopsOn(s))
    }
  }

  // Such algorithms exist: sorting by falling exponents makes heaps.
  ghost predicate Falls<T>(s: seq<BaseAndExponent<T>>) {
    forall i, j :: 0 <= i < j < |s| ==> s[i].exponent >= s[j].exponent
  }

  function Placed<T>(x: BaseAndExponent<T>, s: seq<BaseAndExponent<T>>): seq<BaseAndExponent<T>> {
    if s == [] || x.exponent >= s[0].exponent then [x] + s else [s[0]] + Placed(x, s[1..])
  }

  function Sorted<T>(s: seq<BaseAndExponent<T>>): seq<BaseAndExponent<T>> {
    if s == [] then [] else Placed(s[0], Sorted(s[1..]))
  }

  lemma {:induction false} PlacedKeeps<T>(x: BaseAndExponent<T>, s: seq<BaseAndExponent<T>>)
    ensures multiset(Placed(x, s)) == multiset(s) + multiset{x} && |Placed(x, s)| == |s| + 1
  {
    if s != [] {
      PlacedKeeps(x, s[1..]);
      assert s == [s[0]] + s[1..];
    }
  }

  lemma {:induction false} PlacedFalls<T>(x: BaseAndExponent<T>, s: seq<BaseAndExponent<T>>)
    requires Falls(s)
    ensures Falls(Placed(x, s)) && Placed(x, s) != []
    ensures Placed(x, s)[0] == x || (s != [] && Placed(x, s)[0] == s[0])
  {
    if s != [] && x.exponent < s[0].exponent {
      PlacedFalls(x, s[1..]);
      var rest := Placed(x, s[1..]);
      assert rest[0].exponent <= s[0].exponent;
    }
  }

  lemma {:induction false} SortedKeeps<T>(s: seq<BaseAndExponent<T>>)
    ensures multiset(Sorted(s)) == multiset(s) && |Sorted(s)| == |s|
  {
    if s != [] {
      SortedKeeps(s[1..]);
      PlacedKeeps(s[0], Sorted(s[1..]));
      assert s == [s[0]] + s[1..];
    }
  }

  lemma {:induction false} SortedFalls<T>(s: seq<BaseAndExponent<T>>)
    ensures Falls(Sorted(s))
  {
    if s != [] {
      SortedFalls(s[1..]);
      PlacedFalls(s[0], Sorted(s[1..]));
    }
  }

  lemma FallingIsHeap<T>(s: seq<BaseAndExponent<T>>)
    requires Falls(s)
    ensures IsHeap(s)
  {
  }

  function FirstToEnd<T>(s: seq<BaseAndExponent<T>>): seq<BaseAndExponent<T>> {
    if s == [] then s else Sorted(s[1..]) + [s[0]]
  }

  lemma EndIsPopped<T>(s: seq<BaseAndExponent<T>>)
    requires s != []
    ensures |FirstToEnd(s)| == |s| && multiset(FirstToEnd(s)) == multiset(s)
    ensures FirstToEnd(s)[|s| - 1] == s[0] && IsHeap(FirstToEnd(s)[..|s| - 1])
  {
    SortedKeeps(s[1..]);
    SortedFalls(s[1..]);
    FallingIsHeap(Sorted(s[1..]));
    assert s == [s[0]] + s[1..];
    assert FirstToEnd(s)[..|s| - 1] == Sorted(s[1..]);
  }

  lemma HeapAlgorithmsExist<T(!new)>() returns (heaps: HeapAlgorithms<T>)
    ensures heaps.Valid()
  {
    heaps := HeapAlgorithms(s => Sorted(s), s => Sorted(s), s => FirstToEnd(s));
    forall s ensures heaps.MakesOn(s) && heaps.PushesOn(s) {
      SortedKeeps(s);
      SortedFalls(s);
      FallingIsHeap(Sorted(s));
    }
    forall s ensures heaps.PopsOn(s) {
      if s != [] {
        EndIsPopped(s);
      }
    }
  }

  // The root of a heap is its largest element.
  lemma {:induction false} RootIsLargest<T>(s: seq<BaseAndExponent<T>>, i: nat)
    requires IsHeap(s) && i < |s|
    ensures s[i].exponent <= s[0].exponent
  {
    if i > 0 {
      assert BelowParent(s, i);
      RootIsLargest(s, (i - 1) / 2);
    }
  }

  // The sum of all exponent * base.
  ghost function TotalMultiple<T(!new)>(g: Group<T>, s: seq<BaseAndExponent<T>>): T {
    if s == [] then g.identity
    else g.Add(TotalMultiple(g, s[..|s| - 1]), g.Times(s[|s| - 1].exponent, s[|s| - 1].base))
  }

  ghost function TotalExponent<T>(s: seq<BaseAndExponent<T>>): nat {
    if s == [] then 0 else TotalExponent(s[..|s| - 1]) + s[|s| - 1].exponent
  }

  ghost function Without<E>(s: seq<E>, k: nat): seq<E>
    requires k < |s|
  {
    s[..k] + s[k + 1..]
  }

  // Any element can be taken out of the two sums.
  lemma {:induction false} TakeOut<T(!new)>(g: Group<T>, s: seq<BaseAndExponent<T>>, k: nat)
    requires g.Abelian() && k < |s|
    ensures TotalMultiple(g, s) == g.Add(TotalMultiple(g, Without(s, k)), g.Times(s[k].exponent, s[k].base))
    ensures TotalExponent(s) == TotalExponent(Without(s, k)) + s[k].exponent
  {
    var n := |s| - 1;
    if k == n {
      assert Without(s, k) == s[..n];
    } else {
      var front := s[..n];
      TakeOut(g, front, k);
      assert Without(s, k)[..n - 1] == Without(front, k);
      var rest, a, b := TotalMultiple(g, Without(front, k)), g.Times(s[k].exponent, s[k].base), g.Times(s[n].exponent, s[n].base);
      assert g.AssociatesOn(rest, a, b) && g.CommutesOn(a, b) && g.AssociatesOn(rest, b, a);
    }
  }

  lemma SplitAt<E>(s: seq<E>, k: nat)
    requires k < |s|
    ensures multiset(Without(s, k)) == multiset(s) - multiset{s[k]}
  {
    assert s == s[..k] + [s[k]] + s[k + 1..];
  }

  // The sums do not depend on the order.
  lemma {:induction false} OrderIsIrrelevant<T(!new)>(g: Group<T>, s: seq<BaseAndExponent<T>>, t: seq<BaseAndExponent<T>>)
    requires g.Abelian() && multiset(s) == multiset(t)
    ensures |s| == |t|
    ensures TotalMultiple(g, s) == TotalMultiple(g, t)
    ensures TotalExponent(s) == TotalExponent(t)
    decreases |s|
  {
    assert |multiset(s)| == |s| && |multiset(t)| == |t|;
    if s != [] {
      var n := |s| - 1;
      assert s[n] in multiset(t);
      var k :| 0 <= k < |t| && t[k] == s[n];
      SplitAt(s, n);
      SplitAt(t, k);
      assert Without(s, n) == s[..n];
      OrderIsIrrelevant(g, s[..n], Without(t, k));
      TakeOut(g, t, k);
    }
  }

  // Dividing the last exponent by the first, and adding the quotient's share of the last base to the
  // first, keeps the sum.
  lemma DivideStep<T(!new)>(g: Group<T>, s: seq<BaseAndExponent<T>>, q: nat, r: nat)
    requires g.Abelian() && |s| >= 2
    requires s[|s| - 1].exponent == q * s[0].exponent + r
    ensures var n := |s| - 1;
      var s' := s[n := s[n].(exponent := r)][0 := s[0].(base := g.Add(s[0].base, g.Times(q, s[n].base)))];
      && TotalMultiple(g, s') == TotalMultiple(g, s)
      && TotalExponent(s') == TotalExponent(s) - s[n].exponent + r
  {
    var n := |s| - 1;
    var b, x, y := s[0].exponent, s[0].base, s[n].base;
    var s' := s[n := s[n].(exponent := r)][0 := s[0].(base := g.Add(x, g.Times(q, y)))];
    TakeOut(g, s, n);
    TakeOut(g, s', n);
    TakeOut(g, Without(s, n), 0);
    TakeOut(g, Without(s', n), 0);
    var rest := Without(Without(s, n), 0);
    assert rest == Without(Without(s', n), 0);
    var m := TotalMultiple(g, rest);
    g.TimesDistributes(b, x, g.Times(q, y));
    g.TimesTimes(q, b, y);
    g.TimesAdds(q * b, r, y);
    assert g.AssociatesOn(g.Times(b, x), g.Times(q * b, y), g.Times(r, y));
    assert g.AssociatesOn(m, g.Times(b, g.Add(x, g.Times(q, y))), g.Times(r, y));
    assert g.AssociatesOn(m, g.Times(b, x), g.Times(s[n].exponent, y));
  }

  // With all other exponents zero, only the last term counts.
  lemma OnlyLastCounts<T(!new)>(g: Group<T>, s: seq<BaseAndExponent<T>>)
    requires g.Valid() && s != [] && forall i | 0 <= i < |s| - 1 :: s[i].exponent == 0
    ensures TotalMultiple(g, s) == g.Times(s[|s| - 1].exponent, s[|s| - 1].base)
  {
    AllZero(g, s[..|s| - 1]);
    assert g.IdentityOn(g.Times(s[|s| - 1].exponent, s[|s| - 1].base));
  }

  lemma {:induction false} AllZero<T(!new)>(g: Group<T>, s: seq<BaseAndExponent<T>>)
    requires g.Valid() && forall i | 0 <= i < |s| :: s[i].exponent == 0
    ensures TotalMultiple(g, s) == g.identity
  {
    if s != [] {
      AllZero(g, s[..|s| - 1]);
      assert g.Times(0, s[|s| - 1].base) == g.identity;
      assert g.IdentityOn(g.identity);
    }
  }

  ghost predicate LastIsLargest<T>(s: seq<BaseAndExponent<T>>) {
    s != [] && forall i | 0 <= i < |s| :: s[i].exponent <= s[|s| - 1].exponent
  }

  // The largest element at the end and a heap of all others before it.
  ghost predicate Popped<T>(s: seq<BaseAndExponent<T>>) {
    LastIsLargest(s) && IsHeap(s[..|s| - 1])
  }

  // Popping a heap brings the largest element to the end.
  lemma PopBringsLargest<T(!new)>(g: Group<T>, heaps: HeapAlgorithms<T>, s: seq<BaseAndExponent<T>>)
    requires g.Abelian() && heaps.Valid() && s != [] && IsHeap(s)
    ensures Popped(heaps.pop(s)) && |heaps.pop(s)| == |s|
    ensures TotalMultiple(g, heaps.pop(s)) == TotalMultiple(g, s)
    ensures TotalExponent(heaps.pop(s)) == TotalExponent(s)
  {
    assert heaps.PopsOn(s);
    var t := heaps.pop(s);
    OrderIsIrrelevant(g, t, s);
    forall i | 0 <= i < |t|
      ensures t[i].exponent <= s[0].exponent
    {
      assert t[i] in multiset(s);
      var j :| 0 <= j < |s| && s[j] == t[i];
      RootIsLargest(s, j);
    }
  }

  lemma PushAndPop<T(!new)>(g: Group<T>, heaps: HeapAlgorithms<T>, s: seq<BaseAndExponent<T>>)
    requires g.Abelian() && heaps.Valid() && s != [] && IsHeap(s[..|s| - 1])
    ensures var t := heaps.pop(heaps.push(s));
      Popped(t) && |t| == |s| && TotalMultiple(g, t) == TotalMultiple(g, s) && TotalExponent(t) == TotalExponent(s)
  {
    assert heaps.PushesOn(s);
    OrderIsIrrelevant(g, heaps.push(s), s);
    PopBringsLargest(g, heaps, heaps.push(s));
  }

  // One division, and the heap restored: the sum stays and the exponents shrink.
  method DivideLargest<T(!new)>(g: Group<T>, heaps: HeapAlgorithms<T>, s: seq<BaseAndExponent<T>>, wordBits: nat)
    returns (t: seq<BaseAndExponent<T>>)
    requires g.Abelian() && heaps.Valid() && wordBits > 0
    requires |s| >= 2 && Popped(s) && s[0].exponent > 0
    ensures |t| == |s| && Popped(t)
    ensures TotalMultiple(g, t) == TotalMultiple(g, s)
    ensures TotalExponent(t) < TotalExponent(s)
  {
    t := s;
    var last := |s| - 1;
    var dividend := t[last].exponent;
    var q, r := dividend / t[0].exponent, dividend % t[0].exponent;
    QuotientIsPositive(dividend, t[0].exponent);
    DivideStep(g, s, q, r);
    t := t[last := t[last].(exponent := r)];
    if q == 1 {
      g.TimesOne(t[last].base);
      t := t[0 := t[0].(base := g.Add(t[0].base, t[last].base))];
    } else {
      var share := ScalarMultiply(g, t[last].base, q, wordBits);
      t := t[0 := t[0].(base := g.Add(t[0].base, share))];
    }
    SameExponentsSameHeap(s[..last], t[..last]);
    PushAndPop(g, heaps, t);
    t := heaps.push(t);
    t := heaps.pop(t);
  }

  lemma QuotientIsPositive(a: nat, b: nat)
    requires 0 < b <= a
    ensures a / b > 0 && a == (a / b) * b + a % b && a % b < a
  {
    if a / b <= 0 {
      MulMonotonic(a / b, 0, b);
    }
  }

  lemma SameExponentsSameHeap<T>(s: seq<BaseAndExponent<T>>, t: seq<BaseAndExponent<T>>)
    requires IsHeap(s) && |s| == |t| && forall i | 0 <= i < |s| :: t[i].exponent == s[i].exponent
    ensures IsHeap(t)
  {
    forall i | 1 <= i < |t|
      ensures BelowParent(t, i)
    {
      assert BelowParent(s, i);
    }
  }

  // exponent_1 * base_1 + ... for one or more terms.
  method GeneralCascadeMultiplication<T(!new)>(g: Group<T>, heaps: HeapAlgorithms<T>, terms: seq<BaseAndExponent<T>>,
                                               blank: T, wordBits: nat)
    returns (result: T)
    requires g.Abelian() && heaps.Valid() && wordBits > 0 && terms != []
    ensures result == TotalMultiple(g, terms)
  {
    var n := |terms|;
    if n == 1 {
      OnlyLastCounts(g, terms);
      result := ScalarMultiply(g, terms[0].base, terms[0].exponent, wordBits);
    } else if n == 2 {
      OnlyLastCounts(g, terms[..1]);
      result := CascadeScalarMultiply(g, terms[0].base, terms[0].exponent, terms[1].base, terms[1].exponent, blank);
    } else {
      assert heaps.MakesOn(terms);
      OrderIsIrrelevant(g, heaps.make(terms), terms);
      PopBringsLargest(g, heaps, heaps.make(terms));
      var s := heaps.make(terms);
      s := heaps.pop(s);
      while s[0].exponent != 0
        invariant |s| == n && Popped(s)
        invariant TotalMultiple(g, s) == TotalMultiple(g, terms)
        decreases TotalExponent(s)
      {
        s := DivideLargest(g, heaps, s, wordBits);
      }
      forall i | 0 <= i < n - 1
        ensures s[i].exponent == 0
      {
        RootIsLargest(s[..n - 1], i);
      }
      OnlyLastCounts(g, s);
      result := ScalarMultiply(g, s[n - 1].base, s[n - 1].exponent, wordBits);
    }
  }
}
