// CMAC: a streaming message authentication code whose last block is always held back, because it is
// treated differently depending on whether it is complete.

module Cmac {
  import Numbers
  import opened Blocks
  import opened Wrappers

  // The block sizes the subkey doubling supports.
  predicate Supported(size: nat) {
    size == 8 || size == 16 || size == 32
  }

  // The constant a doubling with overflow is reduced by: 0x1b, 0x87 or 0x0423, at the end.
  function ReductionByte(size: nat, i: nat): byte {
    if i + 1 == size then (if size == 8 then 0x1b else if size == 16 then 0x87 else 0x23)
    else if i + 2 == size && size == 32 then 4
    else 0
  }

  function Reduction(size: nat): (r: seq<byte>)
    ensures |r| == size
  {
    seq(size, i requires 0 <= i < size => ReductionByte(size, i))
  }

  // The top bit of a byte, as the carry into the byte before it.
  function TopBit(b: byte): byte {
    b >> 7
  }

  // A byte shifted left by one bit, with a carry from the byte after it.
  function ShiftIn(b: byte, carry: byte): byte {
    (b << 1) | carry
  }

  // Byte i of the bit string shifted left by one bit, with a bit shifted in at the end.
  function ShiftedByte(k: seq<byte>, carry: byte, i: nat): byte
    requires i < |k|
  {
    ShiftIn(k[i], if i + 1 < |k| then TopBit(k[i + 1]) else carry)
  }

  function ShiftLeft(k: seq<byte>, carry: byte): (r: seq<byte>)
    ensures |r| == |k|
  {
    seq(|k|, i requires 0 <= i < |k| => ShiftedByte(k, carry, i))
  }

  // Doubling in the field of the block size: a shift, and a reduction if the top bit was set.
  function Doubled(k: seq<byte>): (r: seq<byte>)
    requires k != [] && (Supported(|k|) || TopBit(k[0]) != 1)
    ensures |r| == |k|
  {
    if TopBit(k[0]) == 1 then Xor(ShiftLeft(k, 0), Reduction(|k|)) else ShiftLeft(k, 0)
  }

  lemma ByteShift(b: byte, carry: byte)
    requires carry <= 1
    ensures ShiftIn(b, carry) == b + (b + carry)
    ensures TopBit(b) <= 1 && TopBit(b) == (if b < 128 then 0 else 1)
  {
  }

  lemma ByteShiftValue(b: byte, carry: byte)
    requires carry <= 1
    ensures ShiftIn(b, carry) as nat == 2 * (b as nat) + (carry as nat) - 256 * (TopBit(b) as nat)
  {
    ByteShift(b, carry);
  }

  function Power256(n: nat): nat {
    if n == 0 then 1 else 256 * Power256(n - 1)
  }

  // What is shifted out at the front.
  function CarryOut(k: seq<byte>, carry: byte): byte {
    if k == [] then carry else TopBit(k[0])
  }

  // Without its last byte, a shifted string is that string shifted with the carry from the last byte.
  lemma ShiftedFront(k: seq<byte>, carry: byte)
    requires k != []
    ensures var front, b := k[..|k| - 1], k[|k| - 1];
      && ShiftLeft(k, carry)[..|k| - 1] == ShiftLeft(front, TopBit(b))
      && ShiftLeft(k, carry)[|k| - 1] == ShiftIn(b, carry)
      && CarryOut(k, carry) == CarryOut(front, TopBit(b))
  {
  }

  lemma OneDigitMore(shifted: nat, front: nat, b: nat, top: nat, carry: nat, out: nat, power: nat)
    requires shifted + out * power == 2 * front + top && 2 * b + carry >= 256 * top
    ensures (256 * shifted + (2 * b + carry - 256 * top)) + out * (256 * power) == 2 * (256 * front + b) + carry
  {
    Numbers.MulAssociates(out, power, 256);
  }

  // The shift doubles the number, up to the bit shifted out.
  lemma {:induction false} ShiftLeftDoubles(k: seq<byte>, carry: byte)
    requires carry <= 1
    ensures BigEndian(ShiftLeft(k, carry)) + (CarryOut(k, carry) as nat) * Power256(|k|)
         == 2 * BigEndian(k) + carry as nat
  {
    if k == [] {
      assert ShiftLeft(k, carry) == [];
    } else {
      var front, b := k[..|k| - 1], k[|k| - 1];
      ShiftedFront(k, carry);
      ByteShift(b, carry);
      ByteShiftValue(b, carry);
      ShiftLeftDoubles(front, TopBit(b));
      OneDigitMore(BigEndian(ShiftLeft(front, TopBit(b))), BigEndian(front), b as nat, TopBit(b) as nat, carry as nat,
                   CarryOut(k, carry) as nat, Power256(|front|));
    }
  }

  // Doubling in the field: twice the number, less the bit that does not fit, xored with the number of the reducing
  // polynomial without its top term if there was such a bit.
  lemma DoubledIs(k: seq<byte>) returns (shifted: seq<byte>, constant: seq<byte>)
    requires |k| == 8 || |k| == 16 || |k| == 32
    ensures |shifted| == |constant| == |k| && Doubled(k) == Xor(shifted, constant)
    ensures k[0] < 0x80 ==> BigEndian(shifted) == 2 * BigEndian(k) && BigEndian(constant) == 0
    ensures k[0] >= 0x80 ==>
      && BigEndian(shifted) == 2 * BigEndian(k) - Numbers.Pow2(8 * |k|)
      && BigEndian(constant) == if |k| == 8 then 0x1b else if |k| == 16 then 0x87 else 0x423
  {
    ShiftedValue(k);
    shifted := ShiftLeft(k, 0);
    constant := if TopBit(k[0]) == 1 then Reduction(|k|) else Zeros(|k|);
    ReductionIs(|k|);
    ZerosValue(|k|);
    XorZeros(shifted);
  }

  lemma XorZeros(k: seq<byte>)
    ensures Xor(k, Zeros(|k|)) == k
  {
  }

  lemma ShiftedValue(k: seq<byte>)
    requires k != []
    ensures k[0] < 0x80 ==> TopBit(k[0]) != 1 && BigEndian(ShiftLeft(k, 0)) == 2 * BigEndian(k)
    ensures k[0] >= 0x80 ==> TopBit(k[0]) == 1 && BigEndian(ShiftLeft(k, 0)) == 2 * BigEndian(k) - Numbers.Pow2(8 * |k|)
  {
    ShiftLeftDoubles(k, 0);
    PowerIs(|k|);
    ByteShift(k[0], 0);
    OneOrNone(TopBit(k[0]), Power256(|k|));
  }

  lemma OneOrNone(b: byte, power: nat)
    requires b <= 1
    ensures (b as nat) * power == if b == 1 then power else 0
  {
    if b == 1 {
      assert b as nat == 1;
    } else {
      assert b == 0 && b as nat == 0;
    }
  }

  lemma {:induction false} PowerIs(n: nat)
    ensures Power256(n) == Numbers.Pow2(8 * n)
  {
    if n > 0 {
      PowerIs(n - 1);
      Numbers.Pow2Adds(8 * (n - 1), 8);
      assert Numbers.Pow2(8) == 256;
    }
  }

  lemma {:induction false} ZerosValue(n: nat)
    ensures BigEndian(Zeros(n)) == 0
  {
    if n > 0 {
      ZerosValue(n - 1);
      assert Zeros(n)[..n - 1] == Zeros(n - 1);
    }
  }

  // Zeros, and two bytes at the end.
  lemma EndValue(k: seq<byte>)
    requires |k| >= 2 && k[..|k| - 2] == Zeros(|k| - 2)
    ensures BigEndian(k) == 256 * (k[|k| - 2] as nat) + k[|k| - 1] as nat
  {
    var front := k[..|k| - 1];
    ZerosValue(|k| - 2);
    assert front[..|front| - 1] == k[..|k| - 2];
  }

  lemma ReductionIs(size: nat)
    requires size == 8 || size == 16 || size == 32
    ensures BigEndian(Reduction(size)) == if size == 8 then 0x1b else if size == 16 then 0x87 else 0x423
  {
    assert Reduction(size)[..size - 2] == Zeros(size - 2);
    EndValue(Reduction(size));
  }

  // The reduction constant is xored into the last bytes, where there is one.
  method Reduce(k: array<byte>) returns (ok: bool)
    modifies k
    ensures ok == Supported(k.Length) == (k.Length == 8 || k.Length == 16 || k.Length == 32)
    ensures k[..] == if ok then Xor(old(k[..]), Reduction(k.Length)) else old(k[..])
  {
    ok := true;
    match k.Length {
      case 8 =>
        k[7] := k[7] ^ 0x1b;
      case 16 =>
        k[15] := k[15] ^ 0x87;
      case 32 =>
        k[30] := k[30] ^ 4;
        k[31] := k[31] ^ 0x23;
      case _ =>
        ok := false;
    }
  }

  // Two bytes shifted, the later one first.
  method ShiftPair(k: array<byte>, i: nat, carryIn: byte) returns (carry: byte)
    requires 1 <= i < k.Length && carryIn <= 1
    modifies k
    ensures carry == TopBit(old(k[i - 1])) && carry <= 1
    ensures k[i] == ShiftIn(old(k[i]), carryIn) && k[i - 1] == ShiftIn(old(k[i - 1]), TopBit(old(k[i])))
    ensures forall j | 0 <= j < k.Length && j != i && j != i - 1 :: k[j] == old(k[j])
  {
    var b, before := k[i], k[i - 1];
    var carry2 := b >> 7;
    ByteShift(b, carryIn);
    k[i] := b + (b + carryIn);
    carry := before >> 7;
    ByteShift(before, carry2);
    k[i - 1] := before + (before + carry2);
  }

  // The bytes behind i are shifted.
  ghost predicate Shifting(start: seq<byte>, now: seq<byte>, i: int, carry: byte) {
    && |now| == |start| && -1 <= i < |start| && carry <= 1
    && carry == (if i + 1 == |start| then 0 else TopBit(start[i + 1]))
    && (forall j | 0 <= j <= i :: now[j] == start[j])
    && (forall j | i < j < |start| :: now[j] == ShiftedByte(start, 0, j))
  }

  lemma ShiftingOn(start: seq<byte>, now: seq<byte>, next: seq<byte>, i: nat, carry: byte)
    requires Shifting(start, now, i, carry) && 1 <= i && |next| == |now|
    requires next[i] == ShiftIn(now[i], carry) && next[i - 1] == ShiftIn(now[i - 1], TopBit(now[i]))
    requires forall j | 0 <= j < |now| && j != i && j != i - 1 :: next[j] == now[j]
    ensures Shifting(start, next, i - 2, TopBit(start[i - 1]))
  {
    ByteShift(start[i - 1], 0);
  }

  // The shift in place, two bytes at a time from the end; the first of an odd number is not reached. Returns the
  // bit shifted out.
  method ShiftInPlace(k: array<byte>) returns (carry: byte)
    modifies k
    ensures carry == CarryOut(old(k[k.Length % 2..]), 0)
    ensures k[..] == old(k[..k.Length % 2]) + ShiftLeft(old(k[k.Length % 2..]), 0)
  {
    ghost var start, odd, pairs := k[..], k.Length % 2, k.Length / 2;
    carry := 0;
    var i := k.Length - 1;
    while i >= 1
      invariant i == odd + pairs + pairs - 1 && 0 <= pairs && Shifting(start, k[..], i, carry)
    {
      ghost var now, carried := k[..], carry;
      carry := ShiftPair(k, i, carry);
      ShiftingOn(start, now, k[..], i, carried);
      i := i - 2;
      pairs := pairs - 1;
    }
    ShiftedTail(start, k[..], odd, carry);
    assert old(k[..k.Length % 2]) == start[..odd] && old(k[k.Length % 2..]) == start[odd..];
  }

  lemma ShiftedTail(start: seq<byte>, shifted: seq<byte>, odd: nat, carry: byte)
    requires odd <= |start| && Shifting(start, shifted, odd - 1, carry)
    ensures shifted == start[..odd] + ShiftLeft(start[odd..], 0) && carry == CarryOut(start[odd..], 0)
  {
    var tail := start[odd..];
    forall j | 0 <= j < |tail| ensures shifted[odd + j] == ShiftLeft(tail, 0)[j] {
      assert ShiftedByte(tail, 0, j) == ShiftedByte(start, 0, odd + j);
    }
  }

  lemma NoOtherCarry(k: seq<byte>)
    ensures CarryOut(k, 0) != 0 ==> k != [] && TopBit(k[0]) == 1
    ensures CarryOut(k, 0) == 0 ==> k == [] || TopBit(k[0]) != 1
  {
    if k != [] {
      ByteShift(k[0], 0);
    }
  }

  // Doubling in place. A carry out of a block whose size has no constant is an error, after the shift.
  method MulU(k: array<byte>) returns (ok: bool)
    modifies k
    ensures ok == (k.Length <= 1 || Supported(k.Length) || TopBit(old(k[k.Length % 2])) != 1)
    ensures ok && k.Length > 0 && k.Length % 2 == 0 ==> k[..] == Doubled(old(k[..]))
    ensures !ok || k.Length == 0 || k.Length % 2 == 1
      ==> k[..] == old(k[..k.Length % 2]) + ShiftLeft(old(k[k.Length % 2..]), 0)
  {
    ghost var start := k[..];
    ok := true;
    var carry := ShiftInPlace(k);
    NoOtherCarry(start[k.Length % 2..]);
    assert k.Length % 2 == 0 ==> start[k.Length % 2..] == start && start[..k.Length % 2] == [];
    if carry != 0 {
      ok := Reduce(k);
    }
  }

  // How many bytes of n belong to the last block: a full block when n is a multiple of the block size,
  // and none only when there are no bytes at all.
  function LastLength(n: nat, blockSize: nat): (r: nat)
    requires blockSize > 0
    ensures r <= blockSize && r <= n && (n > 0 ==> r > 0)
  {
    LastBlockFacts(n, blockSize);
    if n == 0 then 0 else (n - 1) % blockSize + 1
  }

  lemma LastBlockFacts(n: nat, blockSize: int)
    requires blockSize > 0
    ensures n > 0 ==> 0 <= (n - 1) % blockSize < blockSize && (n - 1) % blockSize <= n - 1
  {
    if n > 0 {
      Numbers.DivFacts(n - 1, blockSize);
    }
  }

  // The only way to cut off a nonempty last block of at most the block size after full blocks.
  lemma LastLengthIsUnique(blocks: nat, tail: nat, blockSize: int)
    requires blockSize > 0 && 0 < tail <= blockSize
    ensures blocks * blockSize >= 0 && LastLength(blocks * blockSize + tail, blockSize) == tail
  {
    Numbers.MulMonotonic(0, blocks, blockSize);
    Numbers.DivIsUnique(blocks * blockSize + tail - 1, blockSize, blocks, tail - 1);
  }

  ghost function SubKey1(cipher: BlockCipher): (k: seq<byte>)
    requires cipher.Valid() && Supported(cipher.blockSize)
    ensures |k| == cipher.blockSize
  {
    Doubled(cipher.Encrypt(Zeros(cipher.blockSize)))
  }

  ghost function SubKey2(cipher: BlockCipher): (k: seq<byte>)
    requires cipher.Valid() && Supported(cipher.blockSize)
    ensures |k| == cipher.blockSize
  {
    Doubled(SubKey1(cipher))
  }

  // A one bit and zeros up to the block size.
  function Padded(tail: seq<byte>, blockSize: nat): (r: seq<byte>)
    requires |tail| < blockSize
    ensures |r| == blockSize
  {
    tail + [0x80] + Zeros(blockSize - |tail| - 1)
  }

  lemma {:induction false} BehindZeros(s: seq<byte>, n: nat)
    ensures BigEndian(s + Zeros(n)) == BigEndian(s) * Numbers.Pow2(8 * n)
  {
    if n == 0 {
      assert s + Zeros(0) == s;
    } else {
      BehindZeros(s, n - 1);
      var all := s + Zeros(n);
      assert all[..|all| - 1] == s + Zeros(n - 1);
      Numbers.Pow2Adds(8 * (n - 1), 8);
      assert Numbers.Pow2(8) == 256;
      Numbers.MulAssociates(BigEndian(s), Numbers.Pow2(8 * (n - 1)), 256);
    }
  }

  // The bits of the tail, a one bit, and zeros.
  lemma PaddedValue(tail: seq<byte>, blockSize: nat)
    requires |tail| < blockSize
    ensures BigEndian(Padded(tail, blockSize)) == (2 * BigEndian(tail) + 1) * Numbers.Pow2(8 * (blockSize - |tail|) - 1)
  {
    var n := blockSize - |tail| - 1;
    BehindZeros(tail + [0x80], n);
    assert (tail + [0x80])[..|tail|] == tail;
    Numbers.Pow2Adds(7, 8 * n);
    assert Numbers.Pow2(7) == 128;
    Numbers.MulAssociates(2 * BigEndian(tail) + 1, 128, Numbers.Pow2(8 * n));
  }

  // The last block, padded if it is not complete, and masked with the subkey that says which.
  ghost function LastBlock(cipher: BlockCipher, tail: seq<byte>): (r: seq<byte>)
    requires cipher.Valid() && Supported(cipher.blockSize) && |tail| <= cipher.blockSize
    ensures |r| == cipher.blockSize
  {
    if |tail| == cipher.blockSize then Xor(SubKey1(cipher), tail)
    else Xor(SubKey2(cipher), Padded(tail, cipher.blockSize))
  }

  // The tag of a message in one piece: all blocks but the last are chained, and then the last one.
  ghost function Tag(cipher: BlockCipher, message: seq<byte>): (r: seq<byte>)
    requires cipher.Valid() && Supported(cipher.blockSize)
    ensures |r| == cipher.blockSize
  {
    var cut := |message| - LastLength(|message|, cipher.blockSize);
    cipher.Encrypt(Xor(cipher.Chain(Zeros(cipher.blockSize), message[..cut]), LastBlock(cipher, message[cut..])))
  }

  lemma BytesRegroup(a: byte, b: byte, c: byte)
    ensures (a ^ b) ^ c == a ^ (c ^ b)
  {
  }

  lemma XorRegroups(state: seq<byte>, mask: seq<byte>, key: seq<byte>)
    requires |state| == |mask| == |key|
    ensures Xor(Xor(state, mask), key) == Xor(state, Xor(key, mask))
  {
    forall i | 0 <= i < |state| ensures Xor(Xor(state, mask), key)[i] == Xor(state, Xor(key, mask))[i] {
      BytesRegroup(state[i], mask[i], key[i]);
    }
  }

  lemma CompleteBlock(state: seq<byte>, tail: seq<byte>, key: seq<byte>)
    requires |state| == |tail| == |key|
    ensures Xor(Overlay(state, 0, tail), key) == Xor(state, Xor(key, tail))
  {
    OverlayWhole(state, tail);
    XorRegroups(state, tail, key);
  }

  lemma PaddedBlock(state: seq<byte>, tail: seq<byte>, key: seq<byte>)
    requires |tail| < |state| == |key|
    ensures Xor(Overlay(state, 0, tail + [0x80]), key) == Xor(state, Xor(key, Padded(tail, |state|)))
  {
    OverlayPads(state, tail);
    XorRegroups(state, Padded(tail, |state|), key);
  }

  lemma OverlayPads(state: seq<byte>, tail: seq<byte>)
    requires |tail| < |state|
    ensures Overlay(state, 0, tail + [0x80]) == Xor(state, Padded(tail, |state|))
  {
  }

  // The encrypted zero block doubled once and twice.
  method DeriveKeys(cipher: BlockCipher, key1: array<byte>, key2: array<byte>)
    requires cipher.Valid() && Supported(cipher.blockSize)
    requires key1 != key2 && key1.Length == key2.Length == cipher.blockSize
    requires key1[..] == Zeros(cipher.blockSize)
    modifies key1, key2
    ensures key1[..] == SubKey1(cipher) && key2[..] == SubKey2(cipher)
  {
    ProcessBlock(cipher, key1);
    DoubleInPlace(key1);
    Store(key2, 0, key1[..]);
    assert key2[..] == key1[..];
    DoubleInPlace(key2);
  }

  method DoubleInPlace(k: array<byte>)
    requires Supported(k.Length)
    modifies k
    ensures k[..] == Doubled(old(k[..]))
  {
    EvenSize(k.Length);
    var ok := MulU(k);
  }

  lemma EvenSize(size: nat)
    requires Supported(size)
    ensures size > 0 && size % 2 == 0
  {
  }

  class CmacBase {
    const cipher: BlockCipher
    // The three blocks of m_reg: the chaining state, and the two subkeys.
    const reg: array<byte>
    const key1: array<byte>
    const key2: array<byte>
    var counter: nat

    // The bytes received since the last tag, cut where the chaining stands: after front the state was
    // encrypted, and tail is xored into it.
    ghost var front: seq<byte>
    ghost var tail: seq<byte>
    ghost var blocks: nat

    ghost function Message(): seq<byte>
      reads this
    {
      front + tail
    }

    ghost predicate Keyed()
      reads this, reg, key1, key2
    {
      && cipher.Valid() && Supported(cipher.blockSize)
      && reg.Length == key1.Length == key2.Length == cipher.blockSize
      && reg != key1 && reg != key2
      && key1[..] == SubKey1(cipher) && key2[..] == SubKey2(cipher)
    }

    // The state agrees with front and tail.
    ghost predicate Chained()
      requires Keyed()
      reads this, reg, key1, key2
    {
      && |front| == blocks * cipher.blockSize
      && counter == |tail| <= cipher.blockSize
      && reg[..] == Overlay(cipher.Chain(Zeros(cipher.blockSize), front), 0, tail)
    }

    // Between calls the last block is held back.
    ghost predicate Valid()
      reads this, reg, key1, key2
    {
      Keyed() && Chained() && (tail == [] ==> front == [])
    }

    constructor (cipher: BlockCipher)
      requires cipher.Valid() && Supported(cipher.blockSize)
      ensures Valid() && Message() == [] && this.cipher == cipher
      ensures fresh(reg) && fresh(key1) && fresh(key2)
    {
      this.cipher := cipher;
      var m, k1, k2 := new byte[cipher.blockSize](_ => 0), new byte[cipher.blockSize](_ => 0), new byte[cipher.blockSize](_ => 0);
      reg, key1, key2 := m, k1, k2;
      counter := 0;
      front, tail, blocks := [], [], 0;
      new;
      assert k1[..] == Zeros(cipher.blockSize);
      DeriveKeys(cipher, k1, k2);
      assert m[..] == Zeros(cipher.blockSize);
      OverlayWhole(Zeros(cipher.blockSize), Zeros(cipher.blockSize));
    }

    // Input is xored into the block under way.
    method Absorb(input: seq<byte>)
      requires Keyed() && Chained() && counter + |input| <= cipher.blockSize
      modifies this, reg
      ensures Keyed() && Chained()
      ensures front == old(front) && tail == old(tail) + input && blocks == old(blocks)
    {
      OverlayAppends(cipher.Chain(Zeros(cipher.blockSize), front), tail, input);
      XorBuf(reg, counter, input);
      counter := counter + |input|;
      tail := tail + input;
    }

    // A full block under way is finished.
    method FinishBlock()
      requires Keyed() && Chained() && counter == cipher.blockSize
      modifies this, reg
      ensures Keyed() && Chained() && counter == 0 && front == old(front) + old(tail) && tail == []
    {
      var state := cipher.Chain(Zeros(cipher.blockSize), front);
      cipher.ChainOneMore(Zeros(cipher.blockSize), front + tail, |front|, blocks);
      assert (front + tail)[..|front|] == front && (front + tail)[|front|..|front| + |tail|] == tail;
      assert front + tail == (front + tail)[..|front| + |tail|];
      OverlayWhole(state, tail);
      ProcessBlock(cipher, reg);
      counter := 0;
      front, tail, blocks := front + tail, [], blocks + 1;
      OverlayWhole(cipher.Chain(Zeros(cipher.blockSize), front), Zeros(cipher.blockSize));
    }

    // As many full blocks as leave at least one byte over.
    method ChainBlocks(input: seq<byte>) returns (leftOver: nat)
      requires Keyed() && Chained() && counter == 0 && |input| > cipher.blockSize
      modifies this, reg
      ensures Keyed() && Chained() && counter == 0
      ensures 0 < leftOver <= cipher.blockSize && leftOver <= |input|
      ensures Message() + input[|input| - leftOver..] == old(Message()) + input
    {
      ghost var before := front;
      var left := AdvancedProcessBlocks(cipher, reg, input[..|input| - 1]);
      leftOver := 1 + left;
      var zero, done := Zeros(cipher.blockSize), input[..|input| - leftOver];
      assert input[..|input| - 1][..|input| - 1 - left] == done;
      OverlayWhole(cipher.Chain(zero, front), zero);
      Numbers.DivFacts(|input| - 1, cipher.blockSize);
      WholeBlocks(|front|, blocks, cipher.blockSize, |done|, (|input| - 1) / cipher.blockSize);
      cipher.ChainAppends(zero, front, done);
      front, blocks := front + done, blocks + (|input| - 1) / cipher.blockSize;
      Regroup(before, [], input, |input| - leftOver);
      assert tail == [];
      OverlayWhole(cipher.Chain(zero, front), zero);
    }

    // The block under way is filled up first, and finished if more input follows.
    method FillBlock(input: seq<byte>) returns (rest: seq<byte>)
      requires Valid() && counter > 0
      modifies this, reg
      ensures Valid() || (Keyed() && Chained() && rest != [])
      ensures Message() + rest == old(Message()) + input
      ensures rest != [] ==> counter == 0
    {
      var len := if cipher.blockSize - counter < |input| then cipher.blockSize - counter else |input|;
      rest := input[len..];
      Absorb(input[..len]);
      Regroup(front, old(tail), input, len);
      if counter == cipher.blockSize && |rest| > 0 {
        FinishBlock();
        assert front + tail == front;
      }
    }

    method Update(input: seq<byte>)
      requires Valid()
      modifies this, reg
      ensures Valid() && Message() == old(Message()) + input
    {
      if input == [] {
        assert Message() + [] == Message();
        return;
      }
      var rest := input;
      if counter > 0 {
        rest := FillBlock(rest);
      }
      if |rest| > cipher.blockSize {
        var leftOver := ChainBlocks(rest);
        rest := rest[|rest| - leftOver..];
      }
      if |rest| > 0 {
        AbsorbLast(rest);
      } else {
        assert Message() + [] == Message();
      }
    }

    // What is left goes into the block under way.
    method AbsorbLast(rest: seq<byte>)
      requires Keyed() && Chained() && rest != [] && counter + |rest| <= cipher.blockSize
      modifies this, reg
      ensures Valid() && Message() == old(Message()) + rest
    {
      Regroup(front, tail, rest, |rest|);
      Absorb(rest);
    }

    // The tag, cut to size, and a fresh start. A size above the block size is an error.
    method TruncatedFinal(size: nat) returns (mac: Option<seq<byte>>)
      requires Valid()
      modifies this, reg
      ensures Valid()
      ensures size > cipher.blockSize ==> mac == None && Message() == old(Message())
      ensures size <= cipher.blockSize ==>
        mac == Some(Tag(cipher, old(Message()))[..size]) && Message() == []
    {
      if size > cipher.blockSize {
        return None;
      }
      FinishTag();
      mac := Some(reg[..size]);
      counter := 0;
      Store(reg, 0, Zeros(cipher.blockSize));
      front, tail, blocks := [], [], 0;
      OverlayWhole(Zeros(cipher.blockSize), Zeros(cipher.blockSize));
      assert reg[..] == Zeros(cipher.blockSize);
    }

    // The last block is completed, masked and encrypted.
    method FinishTag()
      requires Valid()
      modifies reg
      ensures Keyed() && reg[..] == Tag(cipher, Message())
    {
      TagOfParts(cipher, front, tail, blocks);
      LastBlockInSteps(cipher, cipher.Chain(Zeros(cipher.blockSize), front), tail);
      if counter < cipher.blockSize {
        OverlayAppends(cipher.Chain(Zeros(cipher.blockSize), front), tail, [0x80]);
        XorBuf(reg, counter, [0x80]);
        FinalBlock(key2[..]);
      } else {
        FinalBlock(key1[..]);
      }
    }

    // The last block, masked with a subkey.
    method FinalBlock(key: seq<byte>)
      requires cipher.Valid() && reg.Length == |key| == cipher.blockSize
      modifies reg
      ensures reg[..] == cipher.Encrypt(Xor(old(reg[..]), key))
    {
      OverlayWhole(reg[..], key);
      XorBuf(reg, 0, key);
      ProcessBlock(cipher, reg);
    }
  }

  // What the tag of a message is, in terms of the state after its full blocks.
  lemma TagOfParts(cipher: BlockCipher, front: seq<byte>, tail: seq<byte>, blocks: nat)
    requires cipher.Valid() && Supported(cipher.blockSize)
    requires |front| == blocks * cipher.blockSize && |tail| <= cipher.blockSize && (tail == [] ==> front == [])
    ensures Tag(cipher, front + tail)
         == cipher.Encrypt(Xor(cipher.Chain(Zeros(cipher.blockSize), front), LastBlock(cipher, tail)))
  {
    if tail != [] {
      LastLengthIsUnique(blocks, |tail|, cipher.blockSize);
    }
    assert LastLength(|front + tail|, cipher.blockSize) == |tail|;
    assert (front + tail)[..|front|] == front && (front + tail)[|front|..] == tail;
  }

  // Section 6.2 of NIST SP 800-38B: the last block is masked with the first subkey if it is complete, and else padded with
  // a one bit and zeros and masked with the second; the subkeys are the encrypted zero block doubled once and twice.
  lemma TagIs(cipher: BlockCipher, front: seq<byte>, tail: seq<byte>, blocks: nat, key1: seq<byte>, key2: seq<byte>)
    requires cipher.Valid() && Supported(cipher.blockSize)
    requires |front| == blocks * cipher.blockSize && |tail| <= cipher.blockSize && (tail == [] ==> front == [])
    requires key1 == Doubled(cipher.Encrypt(Zeros(cipher.blockSize))) && key2 == Doubled(key1)
    ensures |tail| == cipher.blockSize
      ==> Tag(cipher, front + tail) == cipher.Encrypt(Xor(cipher.Chain(Zeros(cipher.blockSize), front), Xor(key1, tail)))
    ensures |tail| < cipher.blockSize ==>
      Tag(cipher, front + tail)
        == cipher.Encrypt(Xor(cipher.Chain(Zeros(cipher.blockSize), front),
                              Xor(key2, tail + [0x80] + Zeros(cipher.blockSize - |tail| - 1))))
  {
    TagOfParts(cipher, front, tail, blocks);
    LastBlockIs(cipher, tail, key1, key2);
  }

  lemma LastBlockIs(cipher: BlockCipher, tail: seq<byte>, key1: seq<byte>, key2: seq<byte>)
    requires cipher.Valid() && Supported(cipher.blockSize) && |tail| <= cipher.blockSize
    requires key1 == Doubled(cipher.Encrypt(Zeros(cipher.blockSize))) && key2 == Doubled(key1)
    ensures |tail| == cipher.blockSize ==> LastBlock(cipher, tail) == Xor(key1, tail)
    ensures |tail| < cipher.blockSize
      ==> LastBlock(cipher, tail) == Xor(key2, tail + [0x80] + Zeros(cipher.blockSize - |tail| - 1))
  {
  }

  // The masked last block is what the two steps of xoring make of the state.
  lemma LastBlockInSteps(cipher: BlockCipher, state: seq<byte>, tail: seq<byte>)
    requires cipher.Valid() && Supported(cipher.blockSize)
    requires |state| == cipher.blockSize && |tail| <= cipher.blockSize
    ensures Xor(state, LastBlock(cipher, tail))
         == if |tail| < cipher.blockSize then Xor(Overlay(state, 0, tail + [0x80]), SubKey2(cipher))
            else Xor(Overlay(state, 0, tail), SubKey1(cipher))
  {
    if |tail| < cipher.blockSize {
      PaddedBlock(state, tail, SubKey2(cipher));
    } else {
      CompleteBlock(state, tail, SubKey1(cipher));
    }
  }

  lemma Regroup(front: seq<byte>, tail: seq<byte>, input: seq<byte>, len: nat)
    requires len <= |input|
    ensures (front + (tail + input[..len])) + input[len..] == (front + tail) + input
    ensures ((front + input[..len]) + []) + input[len..] == (front + []) + input
    ensures (front + (tail + input)) == (front + tail) + input
  {
  }

  lemma WholeBlocks(n: nat, blocks: nat, blockSize: int, m: nat, more: nat)
    requires blockSize > 0 && n == blocks * blockSize && m == more * blockSize
    ensures n + m == (blocks + more) * blockSize && n % blockSize == 0
  {
    Numbers.MulDistributes(blocks, more, blockSize);
    Numbers.DivIsUnique(n, blockSize, blocks, 0);
  }
}
