// The Blum-Blum-Shub generator: a stream of the low bits of repeated squares modulo n, and random
// access into it for those who know the factors of n.

module BlumBlumShub {
  import opened Numbers
  import opened Euclid
  import opened NumberTheory

  function SquareMod(a: nat, n: nat): nat
    requires n > 0
  {
    a * a % n
  }

  // The state after k squarings of the first one, which is the seed squared twice.
  ghost function StateAt(n: nat, seed: nat, k: nat): nat
    requires n > 0
  {
    if k == 0 then SquareMod(SquareMod(seed, n), n) else SquareMod(StateAt(n, seed, k - 1), n)
  }

  // Bit j of the stream: each state gives bits maxBits - 1 down to 0.
  ghost predicate StreamBit(n: nat, seed: nat, maxBits: nat, j: nat)
    requires n > 0 && maxBits > 0
  {
    RoundFacts(j, maxBits);
    GetBit(StateAt(n, seed, j / maxBits), maxBits - 1 - j % maxBits)
  }

  // The count bits from position j on, the first one on top.
  ghost function StreamBits(n: nat, seed: nat, maxBits: nat, j: nat, count: nat): bv8
    requires n > 0 && maxBits > 0
  {
    if count == 0 then 0
    else (StreamBits(n, seed, maxBits, j, count - 1) << 1)
         | (if StreamBit(n, seed, maxBits, j + count - 1) then 1 else 0)
  }

  // The weight of bit i of a byte, from the top one on.
  function Weight(i: nat): bv8 {
    match i
    case 0 => 128
    case 1 => 64
    case 2 => 32
    case 3 => 16
    case 4 => 8
    case 5 => 4
    case 6 => 2
    case _ => 1
  }

  predicate BitFromTop(b: bv8, i: nat) {
    b & Weight(i) != 0
  }

  lemma ShiftedIn(b: bv8, bit: bool, i: nat)
    requires i < 8
    ensures BitFromTop((b << 1) | (if bit then 1 else 0), i) <==> if i == 7 then bit else BitFromTop(b, i + 1)
  {
  }

  lemma XoredWeight(a: bv8, b: bv8, m: bv8)
    requires m & (m - 1) == 0
    ensures (a ^ b) & m != 0 <==> (a & m != 0) != (b & m != 0)
  {
  }

  lemma XoredBit(a: bv8, b: bv8, i: nat)
    ensures BitFromTop(a ^ b, i) <==> BitFromTop(a, i) != BitFromTop(b, i)
  {
    XoredWeight(a, b, Weight(i));
  }

  ghost function StreamByte(n: nat, seed: nat, maxBits: nat, j: nat): bv8
    requires n > 0 && maxBits > 0
  {
    StreamBits(n, seed, maxBits, j, 8)
  }

  lemma {:induction false} BitsInOrder(n: nat, seed: nat, maxBits: nat, j: nat, count: nat, i: nat)
    requires n > 0 && maxBits > 0 && i < count <= 8
    ensures BitFromTop(StreamBits(n, seed, maxBits, j, count), 8 - count + i) <==> StreamBit(n, seed, maxBits, j + i)
    decreases count
  {
    ShiftedIn(StreamBits(n, seed, maxBits, j, count - 1), StreamBit(n, seed, maxBits, j + count - 1), 8 - count + i);
    if i < count - 1 {
      BitsInOrder(n, seed, maxBits, j, count - 1, i);
    }
  }

  // The bits of the byte, from the top one on, are the next eight of the stream.
  ghost predicate HoldsNext(b: bv8, n: nat, seed: nat, maxBits: nat, j: nat)
    requires n > 0 && maxBits > 0
  {
    forall i :: 0 <= i < 8 ==> (BitFromTop(b, i) <==> StreamBit(n, seed, maxBits, j + i))
  }

  // And the bits of another byte changed where those of the stream are set.
  ghost predicate HoldsMasked(c: bv8, b: bv8, n: nat, seed: nat, maxBits: nat, j: nat)
    requires n > 0 && maxBits > 0
  {
    forall i :: 0 <= i < 8 ==> (BitFromTop(c, i) <==> BitFromTop(b, i) != StreamBit(n, seed, maxBits, j + i))
  }

  lemma MaskedHoldsNext(b: bv8, n: nat, seed: nat, maxBits: nat, j: nat)
    requires n > 0 && maxBits > 0
    ensures HoldsMasked(b ^ StreamByte(n, seed, maxBits, j), b, n, seed, maxBits, j)
  {
    var mask := StreamByte(n, seed, maxBits, j);
    ByteHoldsNext(n, seed, maxBits, j);
    forall i | 0 <= i < 8 ensures BitFromTop(b ^ mask, i) <==> BitFromTop(b, i) != StreamBit(n, seed, maxBits, j + i) {
      XoredBit(b, mask, i);
    }
  }

  lemma ByteHoldsNext(n: nat, seed: nat, maxBits: nat, j: nat)
    requires n > 0 && maxBits > 0
    ensures HoldsNext(StreamByte(n, seed, maxBits, j), n, seed, maxBits, j)
  {
    forall i | 0 <= i < 8 ensures BitFromTop(StreamByte(n, seed, maxBits, j), i) <==> StreamBit(n, seed, maxBits, j + i) {
      BitsInOrder(n, seed, maxBits, j, 8, i);
    }
  }

  lemma RoundFacts(j: nat, maxBits: int)
    requires maxBits > 0
    ensures j / maxBits >= 0 && 0 <= j % maxBits < maxBits
    ensures j == (j / maxBits) * maxBits + j % maxBits
  {
    DivFacts(j, maxBits);
  }

  // The state is a power of the squared seed.
  lemma {:induction false} StateIsPower(n: nat, seed: nat, k: nat)
    requires n > 0
    ensures StateAt(n, seed, k) == Pow(SquareMod(seed, n), Pow2(k + 1)) % n
  {
    var x := SquareMod(seed, n);
    if k == 0 {
      assert Pow(x, 2) == Pow(x, 1) * x && Pow(x, 1) == Pow(x, 0) * x;
      assert Pow2(1) == Pow2(0) + Pow2(0);
    } else {
      StateIsPower(n, seed, k - 1);
      var h := Pow(x, Pow2(k));
      PowAdds(x, Pow2(k), Pow2(k));
      CongruentIsSameRemainder(h, h, n);
      CongruentProduct(h % n, h, h % n, h, n);
      CongruentIsSameRemainder((h % n) * (h % n), h * h, n);
    }
  }

  // The number that bits make, the first one on top.
  function Number(bits: seq<bool>): nat {
    if bits == [] then 0 else Number(bits[..|bits| - 1]) + Number(bits[..|bits| - 1]) + if bits[|bits| - 1] then 1 else 0
  }

  lemma {:induction false} NumberOfBits(v: nat, count: nat, bits: seq<bool>)
    requires |bits| <= count && forall i :: 0 <= i < |bits| ==> (bits[i] <==> GetBit(v, count - 1 - i))
    ensures Number(bits) == Low(Shr(v, count - |bits|), |bits|)
    decreases |bits|
  {
    if bits != [] {
      var k := |bits| - 1;
      NumberOfBits(v, count, bits[..k]);
      LowHalf(Shr(v, count - |bits|), |bits|);
    }
  }

  // What the generator puts out of each state: its low maxBits bits, from the top one on.
  lemma StateInStream(n: nat, seed: nat, maxBits: nat, round: nat) returns (bits: seq<bool>)
    requires n > 0 && maxBits > 0
    ensures |bits| == maxBits && round * maxBits >= 0
    ensures forall i :: 0 <= i < maxBits ==> (bits[i] <==> StreamBit(n, seed, maxBits, round * maxBits + i))
    ensures Number(bits) == Low(StateAt(n, seed, round), maxBits)
  {
    MulMonotonic(0, round, maxBits);
    bits := seq(maxBits, i requires 0 <= i < maxBits => GetBit(StateAt(n, seed, round), maxBits - 1 - i));
    forall i | 0 <= i < maxBits ensures bits[i] <==> StreamBit(n, seed, maxBits, round * maxBits + i) {
      DivIsUnique(round * maxBits + i, maxBits, round, i);
    }
    NumberOfBits(StateAt(n, seed, round), maxBits, bits);
  }

  // The largest number whose power of two is not above the number of bits of n.
  lemma MaxBitsIs(n: nat)
    requires n >= 2
    ensures BitCount(n) >= 2 && BitCount(BitCount(n)) >= 2
    ensures var maxBits := BitCount(BitCount(n)) - 1;
            Pow2(maxBits) <= BitCount(n) < Pow2(maxBits + 1)
  {
    BitCountBounds(BitCount(n));
  }

  class PublicBlumBlumShub {
    const n: nat
    const maxBits: nat
    var current: nat
    var bitsLeft: nat

    // What the generator was seeded with, how many squarings it has made, and how many bits of the
    // stream lie behind it.
    ghost const seed: nat
    ghost var round: nat
    ghost var position: nat

    ghost predicate Valid()
      reads this
    {
      && n >= 2 && maxBits > 0 && maxBits == BitCount(BitCount(n)) - 1
      && bitsLeft <= maxBits
      && current == StateAt(n, seed, round)
      && position == round * maxBits + (maxBits - bitsLeft)
    }

    constructor (n: nat, seed: nat)
      requires n >= 2
      ensures Valid() && this.n == n && this.seed == seed && position == 0
      ensures Pow2(maxBits) <= BitCount(n) < Pow2(maxBits + 1)
    {
      this.n := n;
      maxBits := BitCount(BitCount(n)) - 1;
      current := SquareMod(SquareMod(seed, n), n);
      bitsLeft := BitCount(BitCount(n)) - 1;
      this.seed := seed;
      round, position := 0, 0;
      new;
      MaxBitsIs(n);
    }

    method GenerateBit() returns (bit: bool)
      requires Valid()
      modifies this
      ensures Valid() && position == old(position) + 1
      ensures bit == StreamBit(n, seed, maxBits, old(position))
    {
      if bitsLeft == 0 {
        current := SquareMod(current, n);
        bitsLeft := maxBits;
        MulDistributes(round, 1, maxBits);
        round := round + 1;
      }
      DivIsUnique(position, maxBits, round, maxBits - bitsLeft);
      bitsLeft := bitsLeft - 1;
      bit := GetBit(current, bitsLeft);
      position := position + 1;
    }

    method GenerateByte() returns (b: bv8)
      requires Valid()
      modifies this
      ensures Valid() && position == old(position) + 8
      ensures b == StreamByte(n, seed, maxBits, old(position)) && HoldsNext(b, n, seed, maxBits, old(position))
    {
      ByteHoldsNext(n, seed, maxBits, position);
      b := 0;
      var i := 0;
      while i < 8
        invariant 0 <= i <= 8 && Valid() && position == old(position) + i
        invariant b == StreamBits(n, seed, maxBits, old(position), i)
      {
        var bit := GenerateBit();
        b := (b << 1) | (if bit then 1 else 0);
        i := i + 1;
      }
    }

    method GenerateBlock(output: array<bv8>)
      requires Valid()
      modifies this, output
      ensures Valid() && position == old(position) + 8 * output.Length
      ensures forall k | 0 <= k < output.Length :: output[k] == StreamByte(n, seed, maxBits, old(position) + 8 * k)
      ensures forall k | 0 <= k < output.Length :: HoldsNext(output[k], n, seed, maxBits, old(position) + 8 * k)
    {
      var i := 0;
      while i < output.Length
        invariant 0 <= i <= output.Length && Valid() && position == old(position) + 8 * i
        invariant forall k | 0 <= k < i :: output[k] == StreamByte(n, seed, maxBits, old(position) + 8 * k)
      {
        var b := GenerateByte();
        output[i] := b;
        i := i + 1;
      }
      forall k | 0 <= k < output.Length ensures HoldsNext(output[k], n, seed, maxBits, old(position) + 8 * k) {
        ByteHoldsNext(n, seed, maxBits, old(position) + 8 * k);
      }
    }

    // The stream xored over the input, which may be the output buffer itself.
    method ProcessData(outString: array<bv8>, inString: array<bv8>)
      requires Valid() && outString.Length == inString.Length
      modifies this, outString
      ensures Valid() && position == old(position) + 8 * outString.Length
      ensures outString[..] == Masked(n, seed, maxBits, old(position), old(inString[..]))
      ensures forall k | 0 <= k < outString.Length ::
        HoldsMasked(outString[k], old(inString[k]), n, seed, maxBits, old(position) + 8 * k)
    {
      var i := 0;
      while i < outString.Length
        invariant 0 <= i <= outString.Length && Valid() && position == old(position) + 8 * i
        invariant forall k | i <= k < inString.Length :: inString[k] == old(inString[k])
        invariant forall k | 0 <= k < i ::
          outString[k] == old(inString[k]) ^ StreamByte(n, seed, maxBits, old(position) + 8 * k)
      {
        var b := GenerateByte();
        outString[i] := inString[i] ^ b;
        i := i + 1;
      }
      forall k | 0 <= k < outString.Length
        ensures HoldsMasked(outString[k], old(inString[k]), n, seed, maxBits, old(position) + 8 * k)
      {
        MaskedHoldsNext(old(inString[k]), n, seed, maxBits, old(position) + 8 * k);
      }
    }
  }

  ghost function Masked(n: nat, seed: nat, maxBits: nat, position: nat, s: seq<bv8>): (t: seq<bv8>)
    requires n > 0 && maxBits > 0
  {
    seq(|s|, k requires 0 <= k < |s| => s[k] ^ StreamByte(n, seed, maxBits, position + 8 * k))
  }

  // Processing twice from the same position gives the input back.
  lemma MaskedTwice(n: nat, seed: nat, maxBits: nat, position: nat, s: seq<bv8>)
    requires n > 0 && maxBits > 0
    ensures Masked(n, seed, maxBits, position, Masked(n, seed, maxBits, position, s)) == s
  {
  }

  // Whether Seek lands on the right state: the exponent it computes with, reduced modulo
  // (p - 1) * (q - 1), is not zero, or the seed shares no factor with p * q.
  ghost predicate SeekIsExact(p: nat, q: nat, seed: nat, maxBits: nat, index: nat)
    requires maxBits > 0 && p > 1 && q > 1 && (p - 1) * (q - 1) > 0
  {
    RoundFacts(8 * index, maxBits);
    || Pow2(8 * index / maxBits + 1) % ((p - 1) * (q - 1)) != 0
    || (!Divides(p, seed) && !Divides(q, seed))
  }

  lemma PhiIsPositive(p: int, q: int)
    requires p > 1 && q > 1
    ensures (p - 1) * (q - 1) > 0 && p * q >= 2
  {
    MulMonotonic(1, p - 1, q - 1);
    MulMonotonic(1, p, q);
  }

  // A prime factor of the modulus divides the squared seed exactly when it divides the seed.
  lemma SquareKeepsFactor(p: int, m: int, seed: nat, n: nat)
    requires IsPrime(p) && n > 0 && m * p == n
    ensures Divides(p, SquareMod(seed, n)) <==> Divides(p, seed)
  {
    var s, k := seed * seed, seed * seed / n;
    assert SquareMod(seed, n) == s - k * n by { DivFacts(s, n); }
    MulAssociates(k, m, p);
    assert Divides(p, k * n) by { DividesMultiple(p, k * m); }
    if Divides(p, seed) {
      DividesTrivially(p);
      DividesCombination(p, 0, seed, seed);
      assert 0 + seed * seed == s;
      DividesCombination(p, s, k * n, -1);
    }
    if Divides(p, SquareMod(seed, n)) {
      DividesCombination(p, SquareMod(seed, n), k * n, 1);
      if !Divides(p, seed) {
        PrimeDividesFactor(p, seed, seed);
      }
    }
  }

  // The state Seek computes is the state after as many squarings exactly when SeekIsExact.
  lemma SeekLandsOnState(p: nat, q: nat, seed: nat, e: nat)
    requires IsPrime(p) && IsPrime(q) && p != q && e >= 1
    requires p * q >= 2 && (p - 1) * (q - 1) > 0
    ensures var x0, n, phi := SquareMod(seed, p * q), p * q, (p - 1) * (q - 1);
      Pow(x0, e % phi) % n == Pow(x0, e) % n
      <==> e % phi != 0 || (!Divides(p, seed) && !Divides(q, seed))
  {
    var x0, n, phi := SquareMod(seed, p * q), p * q, (p - 1) * (q - 1);
    SquareKeepsFactor(p, q, seed, n);
    SquareKeepsFactor(q, p, seed, n);
    if e % phi != 0 || (!Divides(p, seed) && !Divides(q, seed)) {
      EulerReduction(p, q, x0, e);
      CongruentIsSameRemainder(Pow(x0, e), Pow(x0, e % phi), n);
    } else {
      assert Pow(x0, 0) == 1;
      CongruentIsSameRemainder(Pow(x0, e), 1, n);
      if Divides(p, seed) {
        NonUnitPower(p, q, x0, e);
      } else {
        NonUnitPower(q, p, x0, e);
        assert q * p == n;
      }
    }
  }

  class BlumBlumShub {
    // The base object: the generator for the product of the primes.
    const stream: PublicBlumBlumShub
    const p: nat
    const q: nat
    const x0: nat

    ghost predicate Linked()
      reads this
    {
      && IsPrime(p) && IsPrime(q) && p != q
      && stream.n == p * q && stream.n >= 2 && (p - 1) * (q - 1) > 0
      && stream.maxBits > 0 && stream.maxBits == BitCount(BitCount(stream.n)) - 1
      && x0 == SquareMod(stream.seed, stream.n)
    }

    constructor (p: nat, q: nat, seed: nat)
      requires IsPrime(p) && IsPrime(q) && p != q
      ensures Linked() && fresh(stream) && stream.Valid() && stream.position == 0
      ensures this.p == p && this.q == q && stream.seed == seed
      ensures Pow2(stream.maxBits) <= BitCount(p * q) < Pow2(stream.maxBits + 1)
    {
      PhiIsPositive(p, q);
      this.p, this.q := p, q;
      stream := new PublicBlumBlumShub(p * q, seed);
      x0 := SquareMod(seed, p * q);
    }

    // After Seek the stream goes on at byte index: exactly when SeekIsExact.
    method Seek(index: nat)
      requires Linked()
      modifies stream
      ensures stream.Valid() <==> SeekIsExact(p, q, stream.seed, stream.maxBits, index)
      ensures stream.position == 8 * index
    {
      var i := 8 * index;
      RoundFacts(i, stream.maxBits);
      var e := Pow2(i / stream.maxBits + 1) % ((p - 1) * (q - 1));
      PowIsNonNegative(x0, e);
      stream.current := Pow(x0, e) % stream.n;
      stream.bitsLeft := stream.maxBits - i % stream.maxBits;
      stream.round, stream.position := i / stream.maxBits, i;
      StateIsPower(stream.n, stream.seed, stream.round);
      SeekLandsOnState(p, q, stream.seed, Pow2(i / stream.maxBits + 1));
    }
  }

  // What is generated after Seek is the sequential stream from that byte on.
  method SeekAndGenerate(generator: BlumBlumShub, index: nat, output: array<bv8>)
    requires generator.Linked()
    requires SeekIsExact(generator.p, generator.q, generator.stream.seed, generator.stream.maxBits, index)
    modifies generator.stream, output
    ensures forall k | 0 <= k < output.Length ::
      output[k] == StreamByte(generator.stream.n, generator.stream.seed, generator.stream.maxBits, 8 * index + 8 * k)
    ensures forall k | 0 <= k < output.Length ::
      HoldsNext(output[k], generator.stream.n, generator.stream.seed, generator.stream.maxBits, 8 * index + 8 * k)
  {
    generator.Seek(index);
    generator.stream.GenerateBlock(output);
  }

  lemma {:induction false} PowIsNonNegative(x: nat, e: nat)
    ensures Pow(x, e) >= 0
  {
    if e > 0 {
      PowIsNonNegative(x, e - 1);
      MulMonotonic(0, Pow(x, e - 1), x);
    }
  }

  // A power of two has no odd divisor but 1.
  lemma {:induction false} OddDivisorOfPower(d: nat, k: nat)
    requires d % 2 == 1 && Divides(d, Pow2(k))
    ensures d == 1
  {
    var j :| j * d == Pow2(k);
    if k == 0 {
      UnitDivisors(d, 1);
    } else {
      var h := Pow2(k - 1);
      assert j * d == h + h;
      HalveFactor(j, d, h);
      OddDivisorOfPower(d, k - 1);
    }
  }

  lemma HalveFactor(j: int, d: nat, h: nat)
    requires d % 2 == 1 && j * d == h + h
    ensures Divides(d, h)
  {
    if j % 2 == 1 {
      OddProduct(j, d);
    } else {
      var i := j / 2;
      MulAssociates(2, i, d);
      assert i * d == h;
    }
  }

  lemma OddProduct(j: int, d: int)
    requires j % 2 == 1 && d % 2 == 1
    ensures j * d % 2 == 1
  {
    var i, c := j / 2, d / 2;
    assert j == 2 * i + 1 && d == 2 * c + 1;
    MulDistributes(2 * i, 1, d);
    MulAssociates(2, i, d);
    assert j * d == 2 * (i * d + c) + 1;
  }

  // The primes the documentation asks for, both 3 modulo 4: Seek is exact for every seed and index.
  lemma BlumPrimesSeekExactly(p: nat, q: nat, seed: nat, maxBits: nat, index: nat)
    requires IsPrime(p) && IsPrime(q) && p != q && p % 4 == 3 && q % 4 == 3 && maxBits > 0
    ensures (p - 1) * (q - 1) > 0 && SeekIsExact(p, q, seed, maxBits, index)
  {
    PhiIsPositive(p, q);
    RoundFacts(8 * index, maxBits);
    var k := 8 * index / maxBits + 1;
    var phi := (p - 1) * (q - 1);
    if Pow2(k) % phi == 0 {
      var t := Pow2(k) / phi;
      assert t * phi == Pow2(k);
      OddHalf(p, q, t, k);
      OddHalf(q, p, t, k);
    }
  }

  // If (p - 1) * (q - 1) divides a power of two, then p is 3.
  lemma OddHalf(p: nat, q: nat, t: int, k: nat)
    requires p % 4 == 3 && q > 1 && t * ((p - 1) * (q - 1)) == Pow2(k)
    ensures p == 3
  {
    var d := p / 2;
    assert p - 1 == 2 * d && d % 2 == 1;
    MulAssociates(2, d, q - 1);
    MulAssociates(t, 2 * (q - 1), d);
    assert (2 * d) * (q - 1) == (2 * (q - 1)) * d;
    DividesMultiple(d, t * (2 * (q - 1)));
    OddDivisorOfPower(d, k);
  }

  lemma SmallPrime(p: nat)
    requires p == 3 || p == 5
    ensures IsPrime(p)
  {
    forall d: nat | Divides(d, p)
      ensures d == 1 || d == p
    {
      var k :| k * d == p;
      if d > 5 {
        MultipleWithin(k, d);
      }
      assert k <= 5 by {
        if k > 5 { MulMonotonic(6, k, d); }
      }
      assert k >= 0 by {
        if k < 0 { MulMonotonic(k, -1, d); }
      }
    }
  }

  // Without that, Seek can go wrong: for p = 3, q = 5 and seed 3, seeking to byte 1 gives state 1 where
  // the stream is in state 6, and the next bit differs.
  lemma SeekCanMiss()
    ensures IsPrime(3) && IsPrime(5) && BitCount(BitCount(3 * 5)) - 1 == 2
    ensures !SeekIsExact(3, 5, 3, 2, 1)
    ensures !GetBit(Pow(SquareMod(3, 15), 0) % 15, 1)
    ensures StreamBit(15, 3, 2, 8)
  {
    SmallPrime(3);
    SmallPrime(5);
    assert Pow2(5) == 32 && 8 * 1 / 2 + 1 == 5;
    assert 1 * 3 == 3;
    assert Pow(9, 0) == 1;
    assert StateAt(15, 3, 0) == 6;
    assert StateAt(15, 3, 1) == 6 && StateAt(15, 3, 2) == 6 && StateAt(15, 3, 3) == 6 && StateAt(15, 3, 4) == 6;
    assert Shr(6, 1) == 3 && Shr(1, 1) == 0;
  }
}
