// Numbers as strings of digits in a base that is a power of two.

module DigitStrings {
  import opened Numbers

  type octet = n: nat | n < 256

  ghost predicate AllBelow(ds: seq<octet>, bound: nat) {
    forall i :: 0 <= i < |ds| ==> ds[i] < bound
  }

  // The bits in so many digits.
  function Bits(count: nat, width: nat): nat {
    if count == 0 then 0 else Bits(count - 1, width) + width
  }

  // The number that digits of so many bits make, most significant digit first.
  function Value(ds: seq<octet>, width: nat): nat {
    if ds == [] then 0
    else
      ShlMonotonic(0, Value(ds[..|ds| - 1], width), width);
      Shl(Value(ds[..|ds| - 1], width), width) + ds[|ds| - 1]
  }

  function LowOctet(v: nat, width: nat): octet
    requires width <= 8
  {
    Pow2Monotonic(width, 8);
    assert Pow2(8) == 256;
    Low(v, width)
  }

  // The last count digits of a number.
  function Digits(v: nat, count: nat, width: nat): (ds: seq<octet>)
    requires width <= 8
    ensures |ds| == count
    decreases count, v
  {
    if count == 0 then [] else Digits(Shr(v, width), count - 1, width) + [LowOctet(v, width)]
  }

  lemma {:induction false} BitsIsProduct(count: nat, width: nat)
    ensures Bits(count, width) == count * width
  {
    if count > 0 {
      BitsIsProduct(count - 1, width);
      MulDistributes(count - 1, 1, width);
    }
  }

  lemma ValueOneMore(ds: seq<octet>, d: octet, width: nat)
    ensures Value(ds + [d], width) == Shl(Value(ds, width), width) + d
  {
    assert (ds + [d])[..|ds|] == ds;
  }

  lemma {:induction false} DigitsOfValue(ds: seq<octet>, width: nat)
    requires width <= 8 && AllBelow(ds, Pow2(width))
    ensures Digits(Value(ds, width), |ds|, width) == ds
  {
    if ds != [] {
      var init := ds[..|ds| - 1];
      DigitsOfValue(init, width);
      SplitIsUnique(Value(ds, width), width, Value(init, width), ds[|ds| - 1]);
    }
  }

  lemma ShlPow2(a: nat, b: nat)
    ensures Shl(Pow2(a), b) == Pow2(a + b)
  {
    ShlOne(a);
    ShlOne(a + b);
    ShlShl(1, a, b);
  }

  lemma ShlBelow(v: nat, a: nat, b: nat, low: nat)
    requires v < Pow2(a) && low < Pow2(b)
    ensures 0 <= Shl(v, b) + low < Pow2(a + b)
  {
    ShlPow2(a, b);
    ShlMonotonic(v + 1, Pow2(a), b);
    ShlMonotonic(0, v, b);
    ShlAdds(v, 1, b);
    ShlOne(b);
  }

  lemma ShlWithin(v: nat, a: nat, b: nat)
    requires v < Pow2(a)
    ensures 0 <= Shl(v, b) < Pow2(a + b)
  {
    ShlBelow(v, a, b, 0);
  }

  lemma ShrBelow(v: nat, a: nat, b: nat)
    requires v < Pow2(a + b)
    ensures Shr(v, b) < Pow2(a)
  {
    ShrSplit(v, b);
    ShlPow2(a, b);
    if Shr(v, b) >= Pow2(a) {
      ShlMonotonic(Pow2(a), Shr(v, b), b);
    }
  }

  lemma {:induction false} ValueOfDigits(v: nat, count: nat, width: nat)
    requires width <= 8 && v < Pow2(Bits(count, width))
    decreases count
    ensures Value(Digits(v, count, width), width) == v && AllBelow(Digits(v, count, width), Pow2(width))
  {
    if count > 0 {
      ShrBelow(v, Bits(count - 1, width), width);
      ValueOfDigits(Shr(v, width), count - 1, width);
      ValueOneMore(Digits(Shr(v, width), count - 1, width), LowOctet(v, width), width);
      ShrSplit(v, width);
    }
  }

  lemma {:induction false} ValueBelow(ds: seq<octet>, width: nat)
    requires AllBelow(ds, Pow2(width))
    ensures Value(ds, width) < Pow2(Bits(|ds|, width))
  {
    if ds != [] {
      var init := ds[..|ds| - 1];
      ValueBelow(init, width);
      ShlBelow(Value(init, width), Bits(|init|, width), width, ds[|ds| - 1]);
    }
  }

  lemma BytesBelow(bytes: seq<octet>)
    ensures AllBelow(bytes, Pow2(8))
  {
    assert Pow2(8) == 256;
  }

  lemma BytesValueBelow(bytes: seq<octet>)
    ensures Value(bytes, 8) < Pow2(8 * |bytes|)
  {
    BytesBelow(bytes);
    ValueBelow(bytes, 8);
    BitsIsProduct(|bytes|, 8);
  }

  lemma WidthFits(width: nat)
    requires width <= 8
    ensures Pow2(width) <= 256
  {
    Pow2Monotonic(width, 8);
    assert Pow2(8) == 256;
  }

  lemma {:induction false} BitsAdd(a: nat, b: nat, width: nat)
    ensures Bits(a + b, width) == Bits(a, width) + Bits(b, width)
  {
    if b > 0 {
      BitsAdd(a, b - 1, width);
    }
  }

  lemma ShrLess(n: nat, width: nat)
    requires n > 0 && width > 0
    ensures Shr(n, width) < n
  {
    ShrIsDiv(n, width);
    Pow2Monotonic(1, width);
    assert Pow2(1) == 2;
    DivFacts(n, Pow2(width));
    MulMonotonic(2, Pow2(width), n / Pow2(width));
  }

  // The digits that are needed to write n; zero needs none.
  function DigitCount(n: nat, width: nat): nat
    requires width > 0
    decreases n, width
  {
    if n == 0 then 0
    else
      ShrLess(n, width);
      1 + DigitCount(Shr(n, width), width)
  }

  lemma {:induction false} DigitCountBounds(n: nat, width: nat)
    requires width > 0
    ensures n < Pow2(Bits(DigitCount(n, width), width))
    ensures n > 0 ==> DigitCount(n, width) > 0 && Pow2(Bits(DigitCount(n, width) - 1, width)) <= n
    decreases n
  {
    if n > 0 {
      ShrLess(n, width);
      var high := Shr(n, width);
      var c := DigitCount(high, width);
      DigitCountBounds(high, width);
      ShrSplit(n, width);
      ShlBelow(high, Bits(c, width), width, Low(n, width));
      if high > 0 {
        ShlPow2(Bits(c - 1, width), width);
        ShlMonotonic(Pow2(Bits(c - 1, width)), high, width);
      }
    }
  }

  // A number below a power has no more digits.
  lemma DigitCountWithin(n: nat, width: nat, count: nat)
    requires width > 0 && n < Pow2(Bits(count, width))
    ensures DigitCount(n, width) <= count
  {
    if DigitCount(n, width) > count {
      DigitCountBounds(n, width);
      BitsAdd(count, DigitCount(n, width) - 1 - count, width);
      Pow2Monotonic(Bits(count, width), Bits(DigitCount(n, width) - 1, width));
    }
  }

  // The first digit weighs most.
  lemma {:induction false} ValueFirst(d: octet, ds: seq<octet>, width: nat)
    ensures Value([d] + ds, width) == Shl(d, Bits(|ds|, width)) + Value(ds, width)
  {
    if ds == [] {
      assert [d] + ds == [] + [d];
      ValueOneMore([], d, width);
      ShlMonotonic(0, 0, width);
    } else {
      var init, last := ds[..|ds| - 1], ds[|ds| - 1];
      ValueFirst(d, init, width);
      assert [d] + ds == ([d] + init) + [last];
      ValueOneMore([d] + init, last, width);
      ShlAdds(Shl(d, Bits(|init|, width)), Value(init, width), width);
      ShlShl(d, Bits(|init|, width), width);
    }
  }

  // The digits one by one.
  lemma {:induction false} DigitAt(v: nat, count: nat, width: nat, k: nat)
    requires width <= 8 && k < count
    ensures Digits(v, count, width)[k] == LowOctet(Shr(v, Bits(count - 1 - k, width)), width)
    decreases count
  {
    if k < count - 1 {
      DigitAt(Shr(v, width), count - 1, width, k);
      ShrShr(v, width, Bits(count - 2 - k, width));
    }
  }

  // The bits of the digits are those of the number.
  lemma BitOfDigit(v: nat, count: nat, width: nat, k: nat, b: nat)
    requires width <= 8 && k < count && b < width
    ensures GetBit(Digits(v, count, width)[k], b) <==> GetBit(v, Bits(count - 1 - k, width) + b)
  {
    var behind := Bits(count - 1 - k, width);
    DigitAt(v, count, width, k);
    LowBit(Shr(v, behind), width, b);
    ShrShr(v, behind, b);
  }

  lemma BitOfDigits(v: nat, ds: seq<octet>, width: nat, k: nat, b: nat)
    requires width <= 8 && ds == Digits(v, |ds|, width) && k < |ds| && b < width
    ensures GetBit(v, Bits(|ds| - 1 - k, width) + b) <==> GetBit(ds[k], b)
  {
    BitOfDigit(v, |ds|, width, k, b);
  }

  lemma BitOfValue(ds: seq<octet>, width: nat, k: nat, b: nat)
    requires width <= 8 && AllBelow(ds, Pow2(width)) && k < |ds| && b < width
    ensures GetBit(Value(ds, width), Bits(|ds| - 1 - k, width) + b) <==> GetBit(ds[k], b)
  {
    DigitsOfValue(ds, width);
    BitOfDigits(Value(ds, width), ds, width, k, b);
  }

  lemma TimesOctet(s: seq<octet>, d: octet)
    ensures Value(s + [d], 8) == Value(s, 8) * 256 + d
  {
    ValueOneMore(s, d, 8);
    ShlIsProduct(Value(s, 8), 8);
    assert Pow2(8) == 256;
  }

  lemma FourOctets(a: octet, b: octet, c: octet, d: octet)
    ensures Value([a, b, c, d], 8) == ((a * 256 + b) * 256 + c) * 256 + d
  {
    TimesOctet([], a);
    TimesOctet([a], b);
    TimesOctet([a, b], c);
    TimesOctet([a, b, c], d);
    assert [] + [a] == [a] && [a] + [b] == [a, b] && [a, b] + [c] == [a, b, c] && [a, b, c] + [d] == [a, b, c, d];
  }
}
