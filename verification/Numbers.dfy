// Powers of two, shifts and bit counts of the non-negative big integers the library computes with.

module Numbers {

  function Pow2(n: nat): (p: nat)
    ensures p > 0
  {
    if n == 0 then 1 else Pow2(n - 1) + Pow2(n - 1)
  }

  // v shifted left by b bits.
  function Shl(v: int, b: nat): int {
    if b == 0 then v else Shl(v, b - 1) + Shl(v, b - 1)
  }

  // n shifted right by i bits.
  function Shr(n: nat, i: nat): nat {
    if i == 0 then n else Shr(n, i - 1) / 2
  }

  // Bit i of n; bits beyond the top word read as zero.
  predicate GetBit(n: nat, i: nat) {
    Shr(n, i) % 2 == 1
  }

  // The low i bits of n.
  function Low(n: nat, i: nat): (low: nat)
    ensures low < Pow2(i)
  {
    if i == 0 then 0
    else if GetBit(n, i - 1) then Low(n, i - 1) + Pow2(i - 1)
    else Low(n, i - 1)
  }

  // The number of bits needed to write n; zero needs none.
  function BitCount(n: nat): nat {
    if n == 0 then 0 else 1 + BitCount(n / 2)
  }

  // Facts about products, kept apart so that each proof multiplies only what it names.

  lemma MulAssociates(a: int, b: int, c: int)
    ensures (a * b) * c == a * (b * c)
  {
  }

  lemma MulDistributes(a: int, b: int, c: int)
    ensures (a + b) * c == a * c + b * c
    ensures (a - b) * c == a * c - b * c
  {
  }

  lemma MulMonotonic(a: int, b: int, c: int)
    requires a <= b && c >= 0
    ensures a * c <= b * c
  {
    assert (b - a) * c >= 0;
  }

  lemma MultipleWithin(k: int, d: int)
    requires d > 0
    ensures k != 0 ==> k * d >= d || k * d <= -d
  {
    if k > 0 {
      MulMonotonic(1, k, d);
    } else if k < 0 {
      MulMonotonic(k, -1, d);
    }
  }

  // The quotient and remainder of a division are the only ones that fit.
  lemma DivIsUnique(n: int, d: int, q: int, r: int)
    requires d > 0 && n == q * d + r && 0 <= r < d
    ensures n / d == q && n % d == r
  {
    MulDistributes(n / d, q, d);
    MultipleWithin(n / d - q, d);
  }

  lemma DivFacts(n: nat, d: int)
    requires d > 0
    ensures n / d >= 0 && n == (n / d) * d + n % d && 0 <= n % d < d && n % d <= n
  {
    if n / d < 0 {
      MulMonotonic(n / d, -1, d);
    } else {
      MulMonotonic(0, n / d, d);
    }
  }

  lemma {:induction false} Pow2Adds(a: nat, b: nat)
    ensures Pow2(a + b) == Pow2(a) * Pow2(b)
  {
    if a > 0 {
      Pow2Adds(a - 1, b);
      MulAssociates(2, Pow2(a - 1), Pow2(b));
    }
  }

  lemma {:induction false} Pow2Monotonic(a: nat, b: nat)
    requires a <= b
    ensures Pow2(a) <= Pow2(b)
    ensures a < b ==> Pow2(a) < Pow2(b)
  {
    if a < b {
      Pow2Monotonic(a, b - 1);
    }
  }

  lemma Pow2Dominates(a: nat, b: nat)
    requires Pow2(a) < Pow2(b)
    ensures a < b
  {
    if b <= a {
      Pow2Monotonic(b, a);
    }
  }

  lemma {:induction false} ShlIsProduct(v: int, b: nat)
    ensures Shl(v, b) == v * Pow2(b)
  {
    if b > 0 {
      ShlIsProduct(v, b - 1);
      MulAssociates(v, Pow2(b - 1), 2);
    }
  }

  lemma {:induction false} ShlOne(b: nat)
    ensures Shl(1, b) == Pow2(b)
  {
    if b > 0 {
      ShlOne(b - 1);
    }
  }

  lemma {:induction false} ShlAdds(u: int, v: int, b: nat)
    ensures Shl(u + v, b) == Shl(u, b) + Shl(v, b)
    ensures Shl(u - v, b) == Shl(u, b) - Shl(v, b)
  {
    if b > 0 {
      ShlAdds(u, v, b - 1);
    }
  }

  lemma {:induction false} ShlShl(v: int, a: nat, b: nat)
    ensures Shl(Shl(v, a), b) == Shl(v, a + b)
  {
    if b > 0 {
      ShlShl(v, a, b - 1);
    }
  }

  lemma {:induction false} ShlMonotonic(u: int, v: int, b: nat)
    requires u <= v
    ensures Shl(u, b) <= Shl(v, b)
    ensures u < v ==> Shl(u, b) < Shl(v, b)
    ensures Shl(0, b) == 0
  {
    if b > 0 {
      ShlMonotonic(u, v, b - 1);
    }
  }

  lemma {:induction false} ShrShr(n: nat, a: nat, b: nat)
    ensures Shr(Shr(n, a), b) == Shr(n, a + b)
  {
    if b > 0 {
      ShrShr(n, a, b - 1);
    }
  }

  lemma ShrHalf(n: nat, i: nat)
    requires i > 0
    ensures Shr(n, i) == Shr(n / 2, i - 1)
  {
    ShrShr(n, 1, i - 1);
  }

  // The high and low part make up the number.
  lemma {:induction false} ShrSplit(n: nat, i: nat)
    ensures n == Shl(Shr(n, i), i) + Low(n, i)
  {
    if i > 0 {
      ShrSplit(n, i - 1);
      var h := Shr(n, i - 1);
      ShlShl(h / 2, 1, i - 1);
      assert Shl(h / 2, 1) == 2 * (h / 2);
      ShlAdds(2 * (h / 2), h % 2, i - 1);
      ShlOne(i - 1);
      ShlMonotonic(0, 0, i - 1);
    }
  }

  lemma LowHalf(n: nat, i: nat)
    requires i > 0
    ensures Low(n, i) % 2 == n % 2 && Low(n, i) / 2 == Low(n / 2, i - 1)
  {
    ShrSplit(n, i);
    var high, low, s := Shr(n, i), Low(n, i), Shl(Shr(n, i), i - 1);
    ShlMonotonic(0, high, i - 1);
    HalfOf(s, low);
    SplitIsUnique(n / 2, i - 1, high, low / 2);
  }

  // The bits of the low part are those of the number.
  lemma {:induction false} LowBit(n: nat, i: nat, b: nat)
    requires b < i
    ensures GetBit(Low(n, i), b) <==> GetBit(n, b)
    decreases i
  {
    LowHalf(n, i);
    if b > 0 {
      LowBit(n / 2, i - 1, b - 1);
      ShrHalf(n, b);
      ShrHalf(Low(n, i), b);
    }
  }

  // The bits of a number that was shifted left.
  lemma ShlBit(n: nat, z: nat, b: nat)
    ensures Shl(n, z) >= 0 && (GetBit(Shl(n, z), z + b) <==> GetBit(n, b))
  {
    ShlMonotonic(0, n, z);
    SplitIsUnique(Shl(n, z), z, n, 0);
    ShrShr(Shl(n, z), z, b);
  }

  lemma ShlBelowBit(n: nat, z: nat, b: nat)
    requires b < z
    ensures Shl(n, z) >= 0 && !GetBit(Shl(n, z), b)
  {
    ShlMonotonic(0, n, z);
    SplitIsUnique(Shl(n, z), z, n, 0);
    LowBit(Shl(n, z), z, b);
    NoBits(b);
  }

  lemma {:induction false} NoBits(b: nat)
    ensures Shr(0, b) == 0 && !GetBit(0, b)
  {
    if b > 0 {
      NoBits(b - 1);
    }
  }

  // The shifts and the low part are the division by a power of two.
  lemma ShrIsDiv(n: nat, i: nat)
    ensures Shr(n, i) == n / Pow2(i) && Low(n, i) == n % Pow2(i)
  {
    ShrSplit(n, i);
    ShlIsProduct(Shr(n, i), i);
    DivIsUnique(n, Pow2(i), Shr(n, i), Low(n, i));
  }

  // There is one way to split a number at bit i.
  lemma SplitIsUnique(n: nat, i: nat, high: nat, low: nat)
    requires n == Shl(high, i) + low && low < Pow2(i)
    ensures Shr(n, i) == high && Low(n, i) == low
  {
    ShlIsProduct(high, i);
    ShrIsDiv(n, i);
    DivIsUnique(n, Pow2(i), high, low);
  }

  lemma {:induction false} BitCountBounds(n: nat)
    ensures n < Pow2(BitCount(n))
    ensures n > 0 ==> BitCount(n) > 0 && Pow2(BitCount(n) - 1) <= n
  {
    if n > 1 {
      BitCountBounds(n / 2);
    }
  }

  lemma ShrBeyond(n: nat, i: nat)
    requires i >= BitCount(n)
    ensures Shr(n, i) == 0
  {
    BitCountBounds(n);
    Pow2Monotonic(BitCount(n), i);
    ShlMonotonic(0, 0, i);
    SplitIsUnique(n, i, 0, n);
  }

  // The top bit is set.
  lemma BitCountTop(n: nat)
    requires n > 0
    ensures BitCount(n) > 0 && Shr(n, BitCount(n) - 1) == 1
  {
    BitCountBounds(n);
    var i := BitCount(n) - 1;
    ShlOne(i);
    SplitIsUnique(n, i, 1, n - Pow2(i));
  }

  // Bitwise or.
  function BitOr(a: nat, b: nat): nat
    decreases a + b
  {
    if a == 0 && b == 0 then 0
    else
      var half := BitOr(a / 2, b / 2);
      half + half + if a % 2 == 1 || b % 2 == 1 then 1 else 0
  }

  lemma {:induction false} OrZero(a: nat)
    ensures BitOr(a, 0) == a
  {
    if a > 0 {
      OrZero(a / 2);
    }
  }

  // Where the bits of one are below those of the other, or is addition.
  lemma {:induction false} OrBelow(high: nat, i: nat, low: nat)
    requires low < Pow2(i)
    ensures Shl(high, i) >= 0 && BitOr(Shl(high, i), low) == Shl(high, i) + low
  {
    if i == 0 {
      OrZero(high);
    } else {
      OrBelow(high, i - 1, low / 2);
      var s := Shl(high, i - 1);
      assert (s + s) / 2 == s && (s + s) % 2 == 0;
    }
  }

  // Bitwise exclusive or.
  function BitXor(a: nat, b: nat): nat
    decreases a + b
  {
    if a == 0 && b == 0 then 0
    else
      var half := BitXor(a / 2, b / 2);
      half + half + if a % 2 != b % 2 then 1 else 0
  }

  // The first step of it, whatever the numbers.
  lemma XorStep(a: nat, b: nat)
    ensures BitXor(a, b) / 2 == BitXor(a / 2, b / 2)
    ensures BitXor(a, b) % 2 == if a % 2 != b % 2 then 1 else 0
  {
  }

  lemma SameHalves(a: nat, b: nat)
    requires a / 2 == b / 2 && a % 2 == b % 2
    ensures a == b
  {
  }

  lemma {:induction false} XorCommutes(a: nat, b: nat)
    ensures BitXor(a, b) == BitXor(b, a)
    decreases a + b
  {
    if a > 0 || b > 0 {
      XorCommutes(a / 2, b / 2);
    }
  }

  lemma {:induction false} XorZero(a: nat)
    ensures BitXor(a, 0) == a && BitXor(0, a) == a
  {
    if a > 0 {
      XorZero(a / 2);
    }
  }

  lemma {:induction false} XorSelf(a: nat)
    ensures BitXor(a, a) == 0
  {
    if a > 0 {
      XorSelf(a / 2);
    }
  }

  lemma {:induction false} XorAssociates(a: nat, b: nat, c: nat)
    ensures BitXor(BitXor(a, b), c) == BitXor(a, BitXor(b, c))
    decreases a + b + c
  {
    if a > 0 || b > 0 || c > 0 {
      XorAssociates(a / 2, b / 2, c / 2);
      XorStep(a, b);
      XorStep(b, c);
      XorStep(BitXor(a, b), c);
      XorStep(a, BitXor(b, c));
      SameHalves(BitXor(BitXor(a, b), c), BitXor(a, BitXor(b, c)));
    } else {
      XorZero(0);
    }
  }

  lemma {:induction false} XorBelow(a: nat, b: nat, i: nat)
    requires a < Pow2(i) && b < Pow2(i)
    ensures BitXor(a, b) < Pow2(i)
    decreases i
  {
    if i == 0 {
      XorZero(0);
    } else {
      XorBelow(a / 2, b / 2, i - 1);
      XorStep(a, b);
    }
  }

  // With all bits set in the one, it takes the other away.
  lemma {:induction false} XorOnes(c: nat, n: nat)
    requires c < Pow2(n)
    ensures BitXor(c, Pow2(n) - 1) == Pow2(n) - 1 - c
  {
    if n == 0 {
      XorZero(0);
    } else {
      XorStep(c, Pow2(n) - 1);
      XorOnes(c / 2, n - 1);
      HalfOf(Pow2(n - 1) - 1, 1);
      SameHalves(BitXor(c, Pow2(n) - 1), Pow2(n) - 1 - c);
    }
  }

  lemma HalfOf(s: nat, k: nat)
    ensures (s + s + k) / 2 == s + k / 2 && (s + s + k) % 2 == k % 2
  {
  }

  // Where the bits of one are below those of the other, exclusive or is addition.
  lemma {:induction false} XorIsSum(high: nat, i: nat, low: nat)
    requires low < Pow2(i)
    ensures Shl(high, i) >= 0 && BitXor(Shl(high, i), low) == Shl(high, i) + low
  {
    if i == 0 {
      XorZero(high);
    } else {
      XorIsSum(high, i - 1, low / 2);
      var s := Shl(high, i - 1);
      assert (s + s) / 2 == s && (s + s) % 2 == 0;
    }
  }

  lemma {:induction false} XorShifted(g: nat, h: nat, i: nat)
    ensures Shl(g, i) >= 0 && Shl(h, i) >= 0 && BitXor(Shl(g, i), Shl(h, i)) == Shl(BitXor(g, h), i)
  {
    if i > 0 {
      XorShifted(g, h, i - 1);
      XorDoubled(Shl(g, i - 1), Shl(h, i - 1));
    }
  }

  lemma XorDoubled(s: nat, t: nat)
    ensures BitXor(s + s, t + t) == BitXor(s, t) + BitXor(s, t)
  {
    XorStep(s + s, t + t);
    SameHalves(BitXor(s + s, t + t), BitXor(s, t) + BitXor(s, t));
  }

  // Every bit by itself.
  lemma {:induction false} XorBits(a: nat, b: nat, i: nat)
    ensures GetBit(BitXor(a, b), i) <==> GetBit(a, i) != GetBit(b, i)
    decreases i
  {
    XorStep(a, b);
    if i > 0 {
      XorBits(a / 2, b / 2, i - 1);
      ShrHalf(a, i);
      ShrHalf(b, i);
      ShrHalf(BitXor(a, b), i);
    }
  }

  lemma XorInterchanges(a: nat, b: nat, c: nat, d: nat)
    ensures BitXor(BitXor(a, b), BitXor(c, d)) == BitXor(BitXor(a, c), BitXor(b, d))
  {
    XorAssociates(a, b, BitXor(c, d));
    XorAssociates(b, c, d);
    XorCommutes(b, c);
    XorAssociates(c, b, d);
    XorAssociates(a, c, BitXor(b, d));
  }

  // High and low parts are combined by themselves.
  lemma XorSplit(g: nat, h: nat, i: nat, k: nat, l: nat)
    requires k < Pow2(i) && l < Pow2(i)
    ensures Shl(g, i) >= 0 && Shl(h, i) >= 0 && Shl(BitXor(g, h), i) >= 0
    ensures BitXor(Shl(g, i) + k, Shl(h, i) + l) == Shl(BitXor(g, h), i) + BitXor(k, l)
  {
    XorIsSum(g, i, k);
    XorIsSum(h, i, l);
    XorShifted(g, h, i);
    XorBelow(k, l, i);
    XorIsSum(BitXor(g, h), i, BitXor(k, l));
    XorInterchanges(Shl(g, i), k, Shl(h, i), l);
  }
}
