// Many multiples of one base at once: the exponents are recoded with sliding windows, every window
// is added to a bucket while the base is doubled, and each bucket array is combined at the end.

module Simultaneous {
  import opened Groups
  import opened Numbers
  import opened WindowSliders

  // c[j] + c[j + 1] + ...
  ghost function SuffixSum(c: seq<int>, j: nat): int
    requires j <= |c|
    decreases |c| - j
  {
    if j == |c| then 0 else c[j] + SuffixSum(c, j + 1)
  }

  // The sum of the suffix sums from j on.
  ghost function SuffixSums(c: seq<int>, j: nat): int
    requires j <= |c|
    decreases |c| - j
  {
    if j == |c| then 0 else SuffixSum(c, j) + SuffixSums(c, j + 1)
  }

  // (2j + 1) * c[j] + (2j + 3) * c[j + 1] + ...: bucket j collects the digits with value 2j + 1.
  ghost function OddWeighted(c: seq<int>, j: nat): int
    requires j <= |c|
    decreases |c| - j
  {
    if j == |c| then 0 else (2 * j + 1) * c[j] + OddWeighted(c, j + 1)
  }

  lemma {:induction false} SuffixSumsWeigh(c: seq<int>, j: nat)
    requires j < |c|
    ensures OddWeighted(c, j) == 2 * SuffixSums(c, j + 1) + (2 * j + 1) * SuffixSum(c, j)
    decreases |c| - j
  {
    if j + 1 == |c| {
      assert SuffixSum(c, j) == c[j];
    } else {
      SuffixSumsWeigh(c, j + 1);
      var s := SuffixSum(c, j + 1);
      assert (2 * (j + 1) + 1) * s == (2 * j + 1) * s + 2 * s;
      MulDistributesLeft(2 * j + 1, c[j], s);
    }
  }

  lemma MulDistributesLeft(a: int, b: int, c: int)
    ensures a * (b + c) == a * b + a * c
  {
  }

  lemma {:induction false} OddWeightedUpdate(c: seq<int>, k: nat, d: int, j: nat)
    requires k < |c| && j <= |c|
    ensures OddWeighted(c[k := c[k] + d], j) == OddWeighted(c, j) + (if j <= k then (2 * k + 1) * d else 0)
    decreases |c| - j
  {
    if j < |c| {
      OddWeightedUpdate(c, k, d, j + 1);
      MulDistributesLeft(2 * k + 1, c[k], d);
    }
  }

  lemma {:induction false} OddWeightedZero(c: seq<int>, j: nat)
    requires j <= |c| && forall k | 0 <= k < |c| :: c[k] == 0
    ensures OddWeighted(c, j) == 0
    decreases |c| - j
  {
    if j < |c| {
      OddWeightedZero(c, j + 1);
    }
  }

  // Bucket k holds c[k] times the base.
  ghost predicate BucketsHold<T(!new)>(g: Group<T>, base: T, bucket: seq<T>, c: seq<int>) {
    |bucket| == |c| && forall k | 0 <= k < |c| :: bucket[k] == g.Times(c[k], base)
  }

  // The suffix-sum pass over one bucket array.
  method CombineBuckets<T(!new)>(g: Group<T>, ghost base: T, bucketIn: seq<T>, ghost c: seq<int>) returns (r: T)
    requires g.Valid() && |bucketIn| > 0 && BucketsHold(g, base, bucketIn, c)
    ensures r == g.Times(OddWeighted(c, 0), base)
  {
    var bucket := bucketIn;
    var size := |bucket|;
    r := bucket[size - 1];
    assert SuffixSum(c, size - 1) == c[size - 1];
    SuffixSumsWeigh(c, 0);
    if size > 1 {
      var j := size - 2;
      while j >= 1
        invariant 0 <= j <= size - 2 && |bucket| == size
        invariant forall k | 0 <= k <= j :: bucket[k] == bucketIn[k]
        invariant bucket[j + 1] == g.Times(SuffixSum(c, j + 1), base)
        invariant r == g.Times(SuffixSums(c, j + 1), base)
      {
        g.TimesAdds(c[j], SuffixSum(c, j + 1), base);
        bucket := bucket[j := g.Add(bucket[j], bucket[j + 1])];
        g.TimesAdds(SuffixSums(c, j + 1), SuffixSum(c, j), base);
        r := g.Add(r, bucket[j]);
        j := j - 1;
      }
      g.TimesAdds(c[0], SuffixSum(c, 1), base);
      bucket := bucket[0 := g.Add(bucket[0], bucket[1])];
      g.TimesDoubles(SuffixSums(c, 1), base);
      g.TimesAdds(2 * SuffixSums(c, 1), SuffixSum(c, 0), base);
      r := g.Add(g.Double(r), bucket[0]);
    }
  }

  // What the buckets of one exponent and its slider still owe make up the exponent.
  ghost predicate Accounts<T(!new)>(g: Group<T>, base: T, s: WindowSlider, bucket: seq<T>, c: seq<int>, e: nat)
    reads s
  {
    && s.Valid() && !s.firstTime && s.fastNegate == g.inversionIsFast
    && |bucket| == Pow2(s.windowSize - 1)
    && BucketsHold(g, base, bucket, c)
    && OddWeighted(c, 0) + s.Pending() == e
    && (!s.finished ==> s.expWindow / 2 < |bucket|)
  }

  // Adding the base, doubled windowBegin times, to the bucket of the current digit.
  lemma DigitIntoBucket(c: seq<int>, k: nat, expWindow: nat, negate: bool, position: nat)
    requires expWindow % 2 == 1 && k == expWindow / 2 < |c|
    ensures var d := Shl(if negate then 0 - 1 else 1, position);
      OddWeighted(c[k := c[k] + d], 0)
      == OddWeighted(c, 0) + Shl(if negate then 0 - expWindow else expWindow, position)
  {
    var sign := if negate then 0 - 1 else 1;
    OddWeightedUpdate(c, k, Shl(sign, position), 0);
    ShlIsProduct(sign, position);
    ShlIsProduct(sign * expWindow, position);
    MulAssociates(expWindow, sign, Pow2(position));
  }

  // One window of one exponent goes into its bucket.
  method TakeWindow<T(!new)>(g: Group<T>, ghost base: T, power: T, s: WindowSlider, bucketIn: seq<T>,
                             ghost c: seq<int>, ghost e: nat)
    returns (bucket: seq<T>, ghost c': seq<int>)
    requires g.Valid() && Accounts(g, base, s, bucketIn, c, e) && !s.finished
    requires power == g.Times(Shl(1, s.windowBegin), base)
    modifies s
    ensures Accounts(g, base, s, bucket, c', e)
    ensures !s.finished ==> s.windowBegin > old(s.windowBegin) && s.windowBegin <= s.bitCount
  {
    var k := s.expWindow / 2;
    bucket := bucketIn;
    ghost var position := s.windowBegin;
    ghost var d := Shl(if s.negateNext then 0 - 1 else 1, position);
    g.TimesAdds(c[k], d, base);
    if s.negateNext {
      ShlAdds(0, 1, position);
      ShlMonotonic(0, 0, position);
      g.TimesNegates(Shl(1, position), base);
      bucket := bucket[k := g.Add(bucket[k], g.Inverse(power))];
    } else {
      bucket := bucket[k := g.Add(bucket[k], power)];
    }
    DigitIntoBucket(c, k, s.expWindow, s.negateNext, position);
    c' := c[k := c[k] + d];
    s.FindNextWindow();
    HalfDigit(s.expWindow, s.windowSize);
  }

  lemma HalfDigit(digit: nat, w: nat)
    requires w >= 1 && digit < Pow2(w)
    ensures digit / 2 < Pow2(w - 1)
  {
  }

  // Every slider is at its own place, so they are different objects, and accounts for its exponent.
  ghost predicate AllAccount<T(!new)>(g: Group<T>, base: T, sliders: seq<WindowSlider>, buckets: seq<seq<T>>,
                                      coefs: seq<seq<int>>, exps: seq<nat>)
    reads sliders
  {
    && |buckets| == |coefs| == |sliders| == |exps|
    && (forall k | 0 <= k < |sliders| :: sliders[k].place == k)
    && forall k | 0 <= k < |sliders| :: Accounts(g, base, sliders[k], buckets[k], coefs[k], exps[k])
  }

  // Sliders lo to hi have no window before position p, and none after the given bound.
  ghost predicate WindowsFrom(sliders: seq<WindowSlider>, lo: nat, hi: nat, p: nat, bound: nat)
    requires hi <= |sliders|
    reads sliders
  {
    forall k | lo <= k < hi && !sliders[k].finished :: p <= sliders[k].windowBegin <= bound
  }

  ghost predicate BitCountsWithin(sliders: seq<WindowSlider>, bound: nat)
    reads sliders
  {
    forall k | 0 <= k < |sliders| :: sliders[k].bitCount <= bound
  }

  lemma AppendSlider<T(!new)>(g: Group<T>, base: T, sliders: seq<WindowSlider>, buckets: seq<seq<T>>,
                              coefs: seq<seq<int>>, exps: seq<nat>, s: WindowSlider, bucket: seq<T>, c: seq<int>, e: nat)
    requires AllAccount(g, base, sliders, buckets, coefs, exps)
    requires Accounts(g, base, s, bucket, c, e) && s.place == |sliders|
    ensures AllAccount(g, base, sliders + [s], buckets + [bucket], coefs + [c], exps + [e])
  {
  }

  lemma AppendBound(sliders: seq<WindowSlider>, s: WindowSlider, bound: nat, bound': nat)
    requires WindowsFrom(sliders, 0, |sliders|, 0, bound) && BitCountsWithin(sliders, bound)
    requires !s.finished ==> s.windowBegin <= s.bitCount
    requires s.bitCount <= bound' && bound <= bound'
    ensures WindowsFrom(sliders + [s], 0, |sliders| + 1, 0, bound') && BitCountsWithin(sliders + [s], bound')
  {
  }

  lemma TakeOneMore<U>(s: seq<U>, i: nat)
    requires i < |s|
    ensures s[..i + 1] == s[..i] + [s[i]]
  {
  }

  method StartSlider<T(!new)>(g: Group<T>, ghost base: T, e: nat, wordBits: nat, ghost place: nat)
    returns (s: WindowSlider, bucket: seq<T>, ghost c: seq<int>)
    requires g.Valid() && wordBits > 0
    ensures fresh(s) && s.place == place && Accounts(g, base, s, bucket, c, e)
    ensures !s.finished ==> s.windowBegin <= s.bitCount
  {
    s := new WindowSlider(e, g.inversionIsFast, 0, wordBits, place);
    s.FindNextWindow();
    HalfDigit(s.expWindow, s.windowSize);
    var size := Pow2(s.windowSize - 1);
    c := seq(size, _ => 0);
    OddWeightedZero(c, 0);
    bucket := seq(size, _ => g.identity);
  }

  // A slider and empty buckets for every exponent.
  method MakeSliders<T(!new)>(g: Group<T>, ghost base: T, expBegin: seq<nat>, wordBits: nat)
    returns (exponents: seq<WindowSlider>, buckets: seq<seq<T>>, ghost coefs: seq<seq<int>>, ghost bound: nat)
    requires g.Valid() && wordBits > 0
    ensures fresh(exponents)
    ensures AllAccount(g, base, exponents, buckets, coefs, expBegin)
    ensures WindowsFrom(exponents, 0, |exponents|, 0, bound) && BitCountsWithin(exponents, bound)
  {
    exponents, buckets, coefs, bound := [], [], [], 0;
    var i := 0;
    while i < |expBegin|
      invariant 0 <= i <= |expBegin|
      invariant fresh(exponents)
      invariant AllAccount(g, base, exponents, buckets, coefs, expBegin[..i])
      invariant WindowsFrom(exponents, 0, |exponents|, 0, bound) && BitCountsWithin(exponents, bound)
    {
      var s, bucket;
      ghost var zeros;
      s, bucket, zeros := StartSlider(g, base, expBegin[i], wordBits, i);
      AppendSlider(g, base, exponents, buckets, coefs, expBegin[..i], s, bucket, zeros, expBegin[i]);
      TakeOneMore(expBegin, i);
      ghost var bound' := if s.bitCount > bound then s.bitCount else bound;
      AppendBound(exponents, s, bound, bound');
      exponents, buckets, coefs, bound := exponents + [s], buckets + [bucket], coefs + [zeros], bound';
      i := i + 1;
    }
    assert expBegin[..i] == expBegin;
  }

  // One slider is looked at when the doubling loop is at position p.
  method VisitSlider<T(!new)>(g: Group<T>, ghost base: T, power: T, p: nat, exponents: seq<WindowSlider>, i: nat,
                              bucketsIn: seq<seq<T>>, ghost coefsIn: seq<seq<int>>, ghost exps: seq<nat>,
                              ghost bound: nat)
    returns (buckets: seq<seq<T>>, ghost coefs: seq<seq<int>>)
    requires g.Valid() && AllAccount(g, base, exponents, bucketsIn, coefsIn, exps)
    requires i < |exponents| && power == g.Times(Shl(1, p), base)
    requires WindowsFrom(exponents, i, i + 1, p, bound) && exponents[i].bitCount <= bound
    modifies exponents[i]
    ensures AllAccount(g, base, exponents, buckets, coefs, exps)
    ensures WindowsFrom(exponents, i, i + 1, p + 1, bound)
    ensures forall k | 0 <= k < |exponents| && k != i ::
      exponents[k].finished == old(exponents[k].finished) && exponents[k].windowBegin == old(exponents[k].windowBegin)
  {
    buckets, coefs := bucketsIn, coefsIn;
    assert Accounts(g, base, exponents[i], buckets[i], coefs[i], exps[i]);
    if !exponents[i].finished && p == exponents[i].windowBegin {
      var bucket;
      ghost var c;
      bucket, c := TakeWindow(g, base, power, exponents[i], buckets[i], coefs[i], exps[i]);
      buckets, coefs := buckets[i := bucket], coefs[i := c];
    }
  }

  lemma JoinWindows(sliders: seq<WindowSlider>, i: nat, p: nat, bound: nat)
    requires i < |sliders|
    requires WindowsFrom(sliders, 0, i, p, bound) && WindowsFrom(sliders, i, i + 1, p, bound)
    ensures WindowsFrom(sliders, 0, i + 1, p, bound)
  {
  }

  // One round of the shared doubling loop: all windows that begin at position p are taken.
  method TakeWindowsAt<T(!new)>(g: Group<T>, ghost base: T, power: T, p: nat, exponents: seq<WindowSlider>,
                                bucketsIn: seq<seq<T>>, ghost coefsIn: seq<seq<int>>, ghost exps: seq<nat>,
                                ghost bound: nat)
    returns (buckets: seq<seq<T>>, ghost coefs: seq<seq<int>>, notDone: bool)
    requires g.Valid() && AllAccount(g, base, exponents, bucketsIn, coefsIn, exps)
    requires power == g.Times(Shl(1, p), base)
    requires WindowsFrom(exponents, 0, |exponents|, p, bound) && BitCountsWithin(exponents, bound)
    modifies exponents
    ensures AllAccount(g, base, exponents, buckets, coefs, exps)
    ensures WindowsFrom(exponents, 0, |exponents|, p + 1, bound)
    ensures !notDone ==> forall k | 0 <= k < |exponents| :: exponents[k].finished
    ensures notDone ==> p < bound
  {
    buckets, coefs, notDone := bucketsIn, coefsIn, false;
    var i := 0;
    while i < |exponents|
      invariant 0 <= i <= |exponents|
      invariant AllAccount(g, base, exponents, buckets, coefs, exps)
      invariant WindowsFrom(exponents, 0, i, p + 1, bound)
      invariant WindowsFrom(exponents, i, |exponents|, p, bound)
      invariant !notDone ==> forall k | 0 <= k < i :: exponents[k].finished
      invariant notDone ==> p < bound
    {
      assert exponents[i].bitCount <= bound;
      buckets, coefs := VisitSlider(g, base, power, p, exponents, i, buckets, coefs, exps, bound);
      JoinWindows(exponents, i, p + 1, bound);
      notDone := notDone || !exponents[i].finished;
      i := i + 1;
    }
  }

  lemma NextPower<T(!new)>(g: Group<T>, base: T, p: nat)
    requires g.Valid()
    ensures g.Double(g.Times(Shl(1, p), base)) == g.Times(Shl(1, p + 1), base)
  {
    g.TimesDoubles(Shl(1, p), base);
  }

  // The shared doubling loop.
  method TakeAllWindows<T(!new)>(g: Group<T>, base: T, exponents: seq<WindowSlider>, bucketsIn: seq<seq<T>>,
                                 ghost coefsIn: seq<seq<int>>, ghost exps: seq<nat>, ghost bound: nat)
    returns (buckets: seq<seq<T>>, ghost coefs: seq<seq<int>>)
    requires g.Valid() && AllAccount(g, base, exponents, bucketsIn, coefsIn, exps)
    requires WindowsFrom(exponents, 0, |exponents|, 0, bound) && BitCountsWithin(exponents, bound)
    modifies exponents
    ensures AllAccount(g, base, exponents, buckets, coefs, exps)
    ensures forall k | 0 <= k < |exponents| :: exponents[k].finished
  {
    buckets, coefs := bucketsIn, coefsIn;
    var expBitPosition := 0;
    var power := base;
    g.TimesOne(base);
    assert Shl(1, 0) == 1;
    var notDone := true;
    while notDone
      invariant AllAccount(g, base, exponents, buckets, coefs, exps)
      invariant power == g.Times(Shl(1, expBitPosition), base)
      invariant WindowsFrom(exponents, 0, |exponents|, expBitPosition, bound)
      invariant expBitPosition <= bound
      invariant !notDone ==> forall k | 0 <= k < |exponents| :: exponents[k].finished
      decreases bound - expBitPosition + (if notDone then 1 else 0)
    {
      buckets, coefs, notDone :=
        TakeWindowsAt(g, base, power, expBitPosition, exponents, buckets, coefs, exps, bound);
      if notDone {
        NextPower(g, base, expBitPosition);
        power := g.Double(power);
        expBitPosition := expBitPosition + 1;
      }
    }
  }

  lemma BucketsAreComplete<T(!new)>(g: Group<T>, base: T, sliders: seq<WindowSlider>, buckets: seq<seq<T>>,
                                    coefs: seq<seq<int>>, exps: seq<nat>)
    requires AllAccount(g, base, sliders, buckets, coefs, exps)
    requires forall k | 0 <= k < |sliders| :: sliders[k].finished
    ensures forall k | 0 <= k < |sliders| ::
      BucketsHold(g, base, buckets[k], coefs[k]) && |buckets[k]| > 0 && OddWeighted(coefs[k], 0) == exps[k]
  {
    forall k | 0 <= k < |sliders|
      ensures BucketsHold(g, base, buckets[k], coefs[k]) && |buckets[k]| > 0
      ensures OddWeighted(coefs[k], 0) == exps[k]
    {
      assert Accounts(g, base, sliders[k], buckets[k], coefs[k], exps[k]);
    }
  }

  // The buckets of every exponent are combined into its result.
  method CombineAll<T(!new)>(g: Group<T>, ghost base: T, results: array<T>, buckets: seq<seq<T>>,
                             ghost coefs: seq<seq<int>>, ghost exps: seq<nat>)
    requires g.Valid() && results.Length == |buckets| == |coefs| == |exps|
    requires forall k | 0 <= k < |exps| ::
      BucketsHold(g, base, buckets[k], coefs[k]) && |buckets[k]| > 0 && OddWeighted(coefs[k], 0) == exps[k]
    modifies results
    ensures forall i | 0 <= i < results.Length :: results[i] == g.Times(exps[i], base)
  {
    var i := 0;
    while i < |buckets|
      invariant 0 <= i <= |buckets|
      invariant forall k | 0 <= k < i :: results[k] == g.Times(exps[k], base)
    {
      var r := CombineBuckets(g, base, buckets[i], coefs[i]);
      results[i] := r;
      i := i + 1;
    }
  }

  // results[i] becomes expBegin[i] times the base.
  method SimultaneousMultiply<T(!new)>(g: Group<T>, results: array<T>, base: T, expBegin: seq<nat>, wordBits: nat)
    requires g.Valid() && results.Length == |expBegin| && wordBits > 0
    modifies results
    ensures forall i | 0 <= i < results.Length :: results[i] == g.Times(expBegin[i], base)
  {
    var exponents, buckets;
    ghost var coefs, bound;
    exponents, buckets, coefs, bound := MakeSliders(g, base, expBegin, wordBits);
    buckets, coefs := TakeAllWindows(g, base, exponents, buckets, coefs, expBegin, bound);
    BucketsAreComplete(g, base, exponents, buckets, coefs, expBegin);
    CombineAll(g, base, results, buckets, coefs, expBegin);
  }

  // One multiple of one base.
  method ScalarMultiply<T(!new)>(g: Group<T>, base: T, exponent: nat, wordBits: nat) returns (result: T)
    requires g.Valid() && wordBits > 0
    ensures result == g.Times(exponent, base)
  {
    var results := new T[1](_ => base);
    SimultaneousMultiply(g, results, base, [exponent], wordBits);
    result := results[0];
  }
}
