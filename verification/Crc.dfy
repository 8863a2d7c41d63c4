// CRC-32 and CRC-32C: the bitwise division by the reflected polynomial, and the table-driven update that
// takes an octet or four at a time, on machines of either byte order. Words are numbers below 2^32.

module Crc {
  import opened Numbers
  import opened DigitStrings

  // The reflected polynomials of the two checksums.
  const CRC32_POLYNOMIAL: nat := 0xEDB88320
  const CRC32C_POLYNOMIAL: nat := 0x82F63B78

  const NEGL: nat := 0xffff_ffff

  // One step of the division.
  function BitStep(c: nat, polynomial: nat): nat {
    if c % 2 == 1 then BitXor(c / 2, polynomial) else c / 2
  }

  function BitSteps(c: nat, polynomial: nat, n: nat): nat
    decreases n, c
  {
    if n == 0 then c else BitSteps(BitStep(c, polynomial), polynomial, n - 1)
  }

  // The division goes on with n bits of b, one by one, the least significant one first.
  function Divide(c: nat, b: nat, polynomial: nat, n: nat): nat
    decreases n, c
  {
    if n == 0 then c else Divide(BitStep(BitXor(c, b % 2), polynomial), b / 2, polynomial, n - 1)
  }

  // The state of the division after a message.
  function Divided(s: seq<octet>, polynomial: nat): nat {
    if s == [] then NEGL else Divide(Divided(s[..|s| - 1], polynomial), s[|s| - 1], polynomial, 8)
  }

  lemma BitStepIs(c: nat, polynomial: nat)
    ensures BitStep(c, polynomial) == BitXor(c / 2, if c % 2 == 1 then polynomial else 0)
  {
    XorZero(c / 2);
  }

  lemma Feedback(a: nat, b: nat, polynomial: nat)
    ensures (if (a % 2 == 1) != (b % 2 == 1) then polynomial else 0)
         == BitXor(if a % 2 == 1 then polynomial else 0, if b % 2 == 1 then polynomial else 0)
  {
    XorZero(polynomial);
    XorSelf(polynomial);
    XorZero(0);
  }

  // The division is linear.
  lemma BitStepIsLinear(a: nat, b: nat, polynomial: nat)
    ensures BitStep(BitXor(a, b), polynomial) == BitXor(BitStep(a, polynomial), BitStep(b, polynomial))
  {
    var f, g := if a % 2 == 1 then polynomial else 0, if b % 2 == 1 then polynomial else 0;
    BitStepIs(a, polynomial);
    BitStepIs(b, polynomial);
    BitStepIs(BitXor(a, b), polynomial);
    XorStep(a, b);
    Feedback(a, b, polynomial);
    XorInterchanges(a / 2, f, b / 2, g);
  }

  lemma {:induction false} BitStepsAreLinear(a: nat, b: nat, polynomial: nat, n: nat)
    ensures BitSteps(BitXor(a, b), polynomial, n) == BitXor(BitSteps(a, polynomial, n), BitSteps(b, polynomial, n))
    decreases n
  {
    if n > 0 {
      BitStepIsLinear(a, b, polynomial);
      BitStepsAreLinear(BitStep(a, polynomial), BitStep(b, polynomial), polynomial, n - 1);
    }
  }

  // Bits that are not reached yet are only moved.
  lemma {:induction false} HighBitsMove(h: nat, polynomial: nat, n: nat)
    ensures Shl(h, n) >= 0 && BitSteps(Shl(h, n), polynomial, n) == h
    decreases n
  {
    ShlMonotonic(0, h, n);
    if n > 0 {
      ShlMonotonic(0, h, n - 1);
      HalfOf(Shl(h, n - 1), 0);
      assert Shl(h, n) == Shl(h, n - 1) + Shl(h, n - 1) + 0;
      HighBitsMove(h, polynomial, n - 1);
    }
  }

  // A step over n bits looks at the low n bits only.
  lemma StepsSplit(high: nat, low: nat, polynomial: nat, n: nat)
    requires low < Pow2(n)
    ensures Shl(high, n) >= 0 && BitSteps(Shl(high, n) + low, polynomial, n) == BitXor(BitSteps(low, polynomial, n), high)
  {
    XorIsSum(high, n, low);
    BitStepsAreLinear(Shl(high, n), low, polynomial, n);
    HighBitsMove(high, polynomial, n);
    XorCommutes(high, BitSteps(low, polynomial, n));
  }

  // Dividing bit by bit is the same as combining all bits first.
  lemma {:induction false} DivideAtOnce(c: nat, b: nat, polynomial: nat, n: nat)
    requires b < Pow2(n)
    ensures Divide(c, b, polynomial, n) == BitSteps(BitXor(c, b), polynomial, n)
    decreases n
  {
    if n == 0 {
      XorZero(c);
    } else {
      OneBit(c, b % 2, b / 2, polynomial);
      DivideAtOnce(BitStep(BitXor(c, b % 2), polynomial), b / 2, polynomial, n - 1);
    }
  }

  lemma LastBit(bit: nat, h: nat)
    requires bit < 2
    ensures BitXor(bit, h + h) == h + h + bit
  {
    XorStep(bit, h + h);
    XorZero(h);
    HalfOf(h, bit);
    var x := BitXor(bit, h + h);
    assert x / 2 == h && x % 2 == bit;
    SameHalves(x, h + h + bit);
  }

  lemma OneBit(c: nat, bit: nat, h: nat, polynomial: nat)
    requires bit < 2
    ensures BitStep(BitXor(c, h + h + bit), polynomial) == BitXor(BitStep(BitXor(c, bit), polynomial), h)
  {
    LastBit(bit, h);
    XorAssociates(c, bit, h + h);
    BitStepIsLinear(BitXor(c, bit), h + h, polynomial);
    EvenStep(h, polynomial);
  }

  lemma EvenStep(h: nat, polynomial: nat)
    ensures BitStep(h + h, polynomial) == h
  {
  }

  const WORD: nat := 0x1_0000_0000

  // A word of four octets, the least significant one first.
  function Word(c0: octet, c1: octet, c2: octet, c3: octet): nat {
    c0 + 256 * (c1 + 256 * (c2 + 256 * c3))
  }

  // The word with its octets in the opposite order.
  function Swap(c: nat): (r: nat)
    requires c < WORD
  {
    Word(c / 256 / 256 / 256, c / 256 / 256 % 256, c / 256 % 256, c % 256)
  }

  lemma XorOctet(a: nat, b: nat, k: octet, l: octet)
    ensures BitXor(k, l) < 256 && BitXor(k + 256 * a, l + 256 * b) == BitXor(k, l) + 256 * BitXor(a, b)
  {
    EightBits();
    XorBelow(k, l, 8);
    XorSplit(a, b, 8, k, l);
    ShlIsProduct(a, 8);
    ShlIsProduct(b, 8);
    ShlIsProduct(BitXor(a, b), 8);
  }

  lemma EightBits()
    ensures Pow2(8) == 256
  {
  }

  lemma XorOctets(a: octet, b: octet)
    ensures BitXor(a, b) < 256
  {
    EightBits();
    XorBelow(a, b, 8);
  }

  // A step of it: low octets and what is above them, where the outcome above is known.
  lemma XorAbove(a: nat, b: nat, x: nat, k: octet, l: octet)
    requires BitXor(a, b) == x
    ensures BitXor(k, l) < 256 && BitXor(k + 256 * a, l + 256 * b) == BitXor(k, l) + 256 * x
  {
    XorOctet(a, b, k, l);
  }

  lemma XorTwoAbove(a: nat, b: nat, x: nat, k: octet, l: octet, m: octet, n: octet)
    requires BitXor(a, b) == x
    ensures BitXor(k, l) < 256 && BitXor(m, n) < 256
    ensures BitXor(m + 256 * (k + 256 * a), n + 256 * (l + 256 * b)) == BitXor(m, n) + 256 * (BitXor(k, l) + 256 * x)
  {
    XorAbove(a, b, x, k, l);
    XorAbove(k + 256 * a, l + 256 * b, BitXor(k, l) + 256 * x, m, n);
  }

  lemma XorWords(a0: octet, a1: octet, a2: octet, a3: octet, b0: octet, b1: octet, b2: octet, b3: octet)
    ensures BitXor(a0, b0) < 256 && BitXor(a1, b1) < 256 && BitXor(a2, b2) < 256 && BitXor(a3, b3) < 256
    ensures BitXor(Word(a0, a1, a2, a3), Word(b0, b1, b2, b3))
      == Word(BitXor(a0, b0), BitXor(a1, b1), BitXor(a2, b2), BitXor(a3, b3))
  {
    XorOctets(a3, b3);
    XorTwoAbove(a3, b3, BitXor(a3, b3), a2, b2, a1, b1);
    var x := BitXor(a1, b1) + 256 * (BitXor(a2, b2) + 256 * BitXor(a3, b3));
    var a, b := a1 + 256 * (a2 + 256 * a3), b1 + 256 * (b2 + 256 * b3);
    XorAbove(a, b, x, a0, b0);
    assert Word(a0, a1, a2, a3) == a0 + 256 * a && Word(b0, b1, b2, b3) == b0 + 256 * b;
  }

  lemma OctetsOf(c0: octet, c1: octet, c2: octet, c3: octet)
    ensures var c := Word(c0, c1, c2, c3);
            && c < WORD && c % 256 == c0 && c / 256 == Word(c1, c2, c3, 0) && c / 256 % 256 == c1
            && c / 256 / 256 % 256 == c2 && c / 256 / 256 / 256 == c3 && Swap(c) == Word(c3, c2, c1, c0)
  {
    DivIsUnique(Word(c0, c1, c2, c3), 256, c1 + 256 * (c2 + 256 * c3), c0);
    DivIsUnique(c1 + 256 * (c2 + 256 * c3), 256, c2 + 256 * c3, c1);
    DivIsUnique(c2 + 256 * c3, 256, c3, c2);
  }

  lemma AsOctets(c: nat) returns (c0: octet, c1: octet, c2: octet, c3: octet)
    requires c < WORD
    ensures c == Word(c0, c1, c2, c3)
  {
    c0, c1, c2, c3 := c % 256, c / 256 % 256, c / 256 / 256 % 256, c / 256 / 256 / 256;
  }

  // A word as a machine of either byte order holds it when its octets are in memory in this order.
  function Machine(c: nat, bigEndian: bool): nat
    requires c < WORD
  {
    if bigEndian then Swap(c) else c
  }

  // CRC32_INDEX, CRC32_SHIFTED, a word loaded from memory, and octet i of a word in memory.
  function Index(c: nat, bigEndian: bool): nat {
    if bigEndian then c / 256 / 256 / 256 else c % 256
  }

  function Shifted(c: nat, bigEndian: bool): nat {
    if bigEndian then 256 * c % WORD else c / 256
  }

  function Load(b0: octet, b1: octet, b2: octet, b3: octet, bigEndian: bool): nat {
    if bigEndian then Word(b3, b2, b1, b0) else Word(b0, b1, b2, b3)
  }

  function CrcOctet(c: nat, i: nat, bigEndian: bool): octet
    requires i < 4
  {
    (if i == (if bigEndian then 3 else 0) then c
     else if i == (if bigEndian then 2 else 1) then c / 256
     else if i == (if bigEndian then 1 else 2) then c / 256 / 256
     else c / 256 / 256 / 256) % 256
  }

  // The operations on the word a machine holds are those on the word itself.
  lemma MachineOperations(c: nat, bigEndian: bool)
    requires c < WORD
    ensures Machine(c, bigEndian) < WORD && Index(Machine(c, bigEndian), bigEndian) == c % 256
    ensures c / 256 < WORD && Shifted(Machine(c, bigEndian), bigEndian) == Machine(c / 256, bigEndian)
  {
    var c0, c1, c2, c3 := AsOctets(c);
    OctetsOf(c0, c1, c2, c3);
    OctetsOf(c3, c2, c1, c0);
    OctetsOf(c1, c2, c3, 0);
    OctetsOf(0, c3, c2, c1);
    DivIsUnique(256 * Word(c3, c2, c1, c0), WORD, c0, Word(0, c3, c2, c1));
  }

  lemma MachineLoads(b0: octet, b1: octet, b2: octet, b3: octet, bigEndian: bool)
    ensures Word(b0, b1, b2, b3) < WORD && Load(b0, b1, b2, b3, bigEndian) == Machine(Word(b0, b1, b2, b3), bigEndian)
  {
    OctetsOf(b0, b1, b2, b3);
  }

  lemma MachineXor(a: nat, b: nat, bigEndian: bool)
    requires a < WORD && b < WORD
    ensures BitXor(a, b) < WORD && BitXor(Machine(a, bigEndian), Machine(b, bigEndian)) == Machine(BitXor(a, b), bigEndian)
  {
    var a0, a1, a2, a3 := AsOctets(a);
    var b0, b1, b2, b3 := AsOctets(b);
    XorWords(a0, a1, a2, a3, b0, b1, b2, b3);
    XorWords(a3, a2, a1, a0, b3, b2, b1, b0);
    OctetsOf(a0, a1, a2, a3);
    OctetsOf(b0, b1, b2, b3);
    OctetsOf(BitXor(a0, b0), BitXor(a1, b1), BitXor(a2, b2), BitXor(a3, b3));
  }

  lemma {:induction false} BitStepsFit(c: nat, polynomial: nat, n: nat)
    requires c < WORD && polynomial < WORD
    ensures BitSteps(c, polynomial, n) < WORD
    decreases n
  {
    if n > 0 {
      MachineXor(c / 2, polynomial, false);
      BitStepsFit(BitStep(c, polynomial), polynomial, n - 1);
    }
  }

  // The table holds eight steps of the division for every octet.
  ghost predicate IsTable(table: seq<nat>, polynomial: nat, bigEndian: bool) {
    && |table| == 256 && polynomial < WORD
    && forall i: octet :: BitSteps(i, polynomial, 8) < WORD && table[i] == Machine(BitSteps(i, polynomial, 8), bigEndian)
  }

  // A table of this kind exists for every polynomial and byte order.
  lemma TableExists(polynomial: nat, bigEndian: bool) returns (table: seq<nat>)
    requires polynomial < WORD
    ensures IsTable(table, polynomial, bigEndian)
  {
    forall i: octet ensures BitSteps(i, polynomial, 8) < WORD {
      BitStepsFit(i, polynomial, 8);
    }
    table := seq(256, i requires 0 <= i < 256 => Machine(BitSteps(i, polynomial, 8), bigEndian));
  }

  // The last step of several.
  lemma {:induction false} StepsThenOne(c: nat, polynomial: nat, n: nat)
    ensures BitSteps(c, polynomial, n + 1) == BitStep(BitSteps(c, polynomial, n), polynomial)
    decreases n
  {
    if n > 0 {
      StepsThenOne(BitStep(c, polynomial), polynomial, n - 1);
    }
  }

  // Halving an octet puts one more step behind those of the octet.
  lemma HalfEntry(j: nat, polynomial: nat)
    ensures BitSteps(j, polynomial, 8) == BitStep(BitSteps(2 * j, polynomial, 8), polynomial)
  {
    EvenStep(j, polynomial);
    StepsThenOne(2 * j, polynomial, 8);
    assert BitSteps(2 * j, polynomial, 9) == BitSteps(j, polynomial, 8);
  }

  lemma TopEntry(polynomial: nat)
    ensures BitSteps(128, polynomial, 8) == polynomial
  {
    ShlIsProduct(1, 7);
    HighBitsMove(1, polynomial, 7);
    StepsThenOne(128, polynomial, 7);
    XorZero(polynomial);
  }

  lemma UpperEntry(k: nat, polynomial: nat)
    requires k < 128
    ensures BitSteps(128 + k, polynomial, 8) == BitXor(polynomial, BitSteps(k, polynomial, 8))
  {
    ShlIsProduct(1, 7);
    XorIsSum(1, 7, k);
    BitStepsAreLinear(128, k, polynomial, 8);
    TopEntry(polynomial);
  }

  // What can be read off the entries of a table: the polynomial, and each entry from another one.
  ghost predicate EntriesFit(table: seq<nat>, polynomial: nat) {
    && |table| == 256 && table[0] == 0 && table[128] == polynomial
    && (forall j :: 0 <= j < 128 ==> table[j] == BitStep(table[2 * j], polynomial))
    && (forall k :: 0 <= k < 128 ==> table[128 + k] == BitXor(polynomial, table[k]))
  }

  lemma ZeroSteps(polynomial: nat, n: nat)
    ensures BitSteps(0, polynomial, n) == 0
    decreases n
  {
  }

  // The entry of a multiple of 2^i, from one of a larger multiple or of a smaller number.
  lemma {:induction false} EntryFits(table: seq<nat>, polynomial: nat, j: nat, i: nat, m: nat)
    requires EntriesFit(table, polynomial) && i <= 8 && j < 256 && j == Pow2(i) * m
    ensures table[j] == BitSteps(j, polynomial, 8)
    decreases 8 - i, j
  {
    if j == 0 {
      ZeroSteps(polynomial, 8);
    } else if j < 128 {
      assert table[j] == BitStep(table[2 * j], polynomial);
      HalfEntry(j, polynomial);
      NextMultiple(j, i, m);
      EntryFits(table, polynomial, 2 * j, i + 1, m);
    } else {
      assert table[128 + (j - 128)] == BitXor(polynomial, table[j - 128]);
      UpperEntry(j - 128, polynomial);
      WithoutTop(j, i, m);
      EntryFits(table, polynomial, j - 128, i, m - Pow2(7 - i));
    }
  }

  lemma BelowTop(j: nat, i: nat, m: nat)
    requires 0 < j < 256 && i <= 8 && j == Pow2(i) * m
    ensures i < 8
  {
    EightBits();
    assert i == 8 ==> j == 256 * m;
  }

  lemma NextMultiple(j: nat, i: nat, m: nat)
    requires 0 < j < 256 && i <= 8 && j == Pow2(i) * m
    ensures i < 8 && 2 * j == Pow2(i + 1) * m
  {
    BelowTop(j, i, m);
  }

  lemma NotLess(m: nat, p: nat, q: nat)
    requires q * m >= q * p && q > 0
    ensures m >= p && q * m - q * p == q * (m - p)
  {
    assert q * m - q * p == q * (m - p);
    assert m - p < 0 ==> q * (m - p) < 0;
  }

  lemma WithoutTop(j: nat, i: nat, m: nat)
    requires 128 <= j < 256 && i <= 8 && j == Pow2(i) * m
    ensures i < 8 && m >= Pow2(7 - i) && j - 128 == Pow2(i) * (m - Pow2(7 - i))
  {
    BelowTop(j, i, m);
    Pow2Adds(i, 7 - i);
    assert Pow2(7) == 128;
    NotLess(m, Pow2(7 - i), Pow2(i));
  }

  // A table is the one of a polynomial if and only if its entries fit.
  lemma TableIsDetermined(table: seq<nat>, polynomial: nat)
    requires polynomial < WORD
    ensures IsTable(table, polynomial, false) <==> EntriesFit(table, polynomial)
  {
    if EntriesFit(table, polynomial) {
      forall i: octet ensures BitSteps(i, polynomial, 8) < WORD && table[i] == BitSteps(i, polynomial, 8) {
        BitStepsFit(i, polynomial, 8);
        EntryFits(table, polynomial, i, 0, i);
      }
    } else if IsTable(table, polynomial, false) {
      TableFits(table, polynomial);
    }
  }

  lemma TableFits(table: seq<nat>, polynomial: nat)
    requires IsTable(table, polynomial, false)
    ensures EntriesFit(table, polynomial)
  {
    ZeroSteps(polynomial, 8);
    TopEntry(polynomial);
    forall j | 0 <= j < 128
      ensures table[j] == BitStep(table[2 * j], polynomial) && table[128 + j] == BitXor(polynomial, table[j])
    {
      HalfEntry(j, polynomial);
      UpperEntry(j, polynomial);
    }
  }

  lemma EvenEntry(table: seq<nat>, polynomial: nat, j: nat)
    requires EntriesFit(table, polynomial) && j < 128 && table[2 * j] % 2 == 0
    ensures table[j] == table[2 * j] / 2
  {
  }

  // The first entries for single bits in the two tables, from the polynomial on.
  lemma EntriesOfCrc32(table: seq<nat>)
    requires EntriesFit(table, CRC32_POLYNOMIAL)
    ensures table[128] == 0xEDB88320 && table[64] == 0x76DC4190 && table[32] == 0x3B6E20C8
    ensures table[16] == 0x1DB71064 && table[8] == 0x0EDB8832 && table[4] == 0x076DC419
  {
    EvenEntry(table, CRC32_POLYNOMIAL, 64);
    EvenEntry(table, CRC32_POLYNOMIAL, 32);
    EvenEntry(table, CRC32_POLYNOMIAL, 16);
    EvenEntry(table, CRC32_POLYNOMIAL, 8);
    EvenEntry(table, CRC32_POLYNOMIAL, 4);
  }

  lemma EntriesOfCrc32C(table: seq<nat>)
    requires EntriesFit(table, CRC32C_POLYNOMIAL)
    ensures table[128] == 0x82F63B78 && table[64] == 0x417B1DBC && table[32] == 0x20BD8EDE && table[16] == 0x105EC76F
  {
    EvenEntry(table, CRC32C_POLYNOMIAL, 64);
    EvenEntry(table, CRC32C_POLYNOMIAL, 32);
    EvenEntry(table, CRC32C_POLYNOMIAL, 16);
  }

  lemma StepsOfWord(low: octet, high: nat, polynomial: nat)
    ensures BitSteps(low + 256 * high, polynomial, 8) == BitXor(BitSteps(low, polynomial, 8), high)
  {
    EightBits();
    StepsSplit(high, low, polynomial, 8);
    ShlIsProduct(high, 8);
  }

  // One look-up takes the low octet out of the state.
  lemma LookUp(table: seq<nat>, low: octet, high: nat, polynomial: nat, bigEndian: bool)
    requires IsTable(table, polynomial, bigEndian) && low + 256 * high < WORD
    ensures BitSteps(low + 256 * high, polynomial, 8) < WORD
    ensures BitXor(table[low], Machine(high, bigEndian)) == Machine(BitSteps(low + 256 * high, polynomial, 8), bigEndian)
  {
    StepsOfWord(low, high, polynomial);
    var entry := BitSteps(low, polynomial, 8);
    assert entry < WORD && table[low] == Machine(entry, bigEndian);
    MachineXor(entry, high, bigEndian);
  }

  // An octet of input, combined with the low octet of the state first.
  lemma WithInput(c: nat, b: octet)
    requires c < WORD
    ensures BitXor(c % 256, b) < 256 && BitXor(c, b) < WORD
    ensures BitXor(c, b) % 256 == BitXor(c % 256, b) && BitXor(c, b) / 256 == c / 256
  {
    XorOctets(c % 256, b);
    XorOctet(c / 256, 0, c % 256, b);
    XorZero(c / 256);
    DivIsUnique(BitXor(c, b), 256, c / 256, BitXor(c % 256, b));
  }

  // The state after one more octet.
  function Stepped(c: nat, b: octet, polynomial: nat): nat {
    Divide(c, b, polynomial, 8)
  }

  lemma SteppedIs(c: nat, b: octet, polynomial: nat)
    requires c < WORD && polynomial < WORD
    ensures BitXor(c, b) < WORD && Stepped(c, b, polynomial) == BitSteps(BitXor(c, b), polynomial, 8) < WORD
  {
    WithInput(c, b);
    EightBits();
    DivideAtOnce(c, b, polynomial, 8);
    BitStepsFit(BitXor(c, b), polynomial, 8);
  }

  // The byte-wise step.
  lemma ByteStep(table: seq<nat>, c: nat, b: octet, polynomial: nat, bigEndian: bool)
    requires IsTable(table, polynomial, bigEndian) && c < WORD
    ensures var crc := Machine(c, bigEndian);
            && BitXor(Index(crc, bigEndian), b) < 256 && Stepped(c, b, polynomial) < WORD
            && BitXor(table[BitXor(Index(crc, bigEndian), b)], Shifted(crc, bigEndian))
              == Machine(Stepped(c, b, polynomial), bigEndian)
  {
    MachineOperations(c, bigEndian);
    WithInput(c, b);
    SteppedIs(c, b, polynomial);
    LookUp(table, BitXor(c % 256, b), c / 256, polynomial, bigEndian);
  }

  // The step on a state that has the next octets combined already.
  lemma WordStep(table: seq<nat>, c: nat, b: octet, more: nat, polynomial: nat, bigEndian: bool)
    requires IsTable(table, polynomial, bigEndian) && c < WORD && b + 256 * more < WORD
    ensures BitXor(c, b + 256 * more) < WORD && Stepped(c, b, polynomial) < WORD && BitXor(Stepped(c, b, polynomial), more) < WORD
    ensures var crc := Machine(BitXor(c, b + 256 * more), bigEndian);
            && Index(crc, bigEndian) < 256
            && BitXor(table[Index(crc, bigEndian)], Shifted(crc, bigEndian))
            == Machine(BitXor(Stepped(c, b, polynomial), more), bigEndian)
  {
    var d := BitXor(c, b + 256 * more);
    MachineXor(c, b + 256 * more, false);
    MachineOperations(d, bigEndian);
    SteppedIs(c, b, polynomial);
    MachineXor(Stepped(c, b, polynomial), more, false);
    LookUp(table, d % 256, d / 256, polynomial, bigEndian);
    MoreStays(c, b, more, polynomial);
  }

  lemma Regrouped(c: nat, b: octet, more: nat)
    ensures BitXor(c, b + 256 * more) == BitXor(BitXor(c, b), 256 * more)
  {
    EightBits();
    ShlIsProduct(more, 8);
    XorIsSum(more, 8, b);
    XorCommutes(256 * more, b);
    XorAssociates(c, b, 256 * more);
  }

  lemma StepsOverMore(d: nat, more: nat, polynomial: nat)
    ensures BitSteps(BitXor(d, 256 * more), polynomial, 8) == BitXor(BitSteps(d, polynomial, 8), more)
  {
    ShlIsProduct(more, 8);
    EightBits();
    BitStepsAreLinear(d, 256 * more, polynomial, 8);
    HighBitsMove(more, polynomial, 8);
  }

  lemma MoreStays(c: nat, b: octet, more: nat, polynomial: nat)
    requires c < WORD && polynomial < WORD
    ensures BitSteps(BitXor(c, b + 256 * more), polynomial, 8) == BitXor(Stepped(c, b, polynomial), more)
  {
    Regrouped(c, b, more);
    StepsOverMore(BitXor(c, b), more, polynomial);
    SteppedIs(c, b, polynomial);
  }

  lemma DividedOneMore(s: seq<octet>, b: octet, polynomial: nat)
    ensures Divided(s + [b], polynomial) == Stepped(Divided(s, polynomial), b, polynomial)
  {
    assert (s + [b])[..|s|] == s;
  }

  // The digest: the state inverted, its octets from the least significant one on.
  function Digest(s: seq<octet>, polynomial: nat): (d: seq<octet>)
    requires polynomial < WORD
    ensures |d| == 4
  {
    MemoryOctets(BitXor(Divided(s, polynomial), NEGL))
  }

  function MemoryOctets(c: nat): (d: seq<octet>)
    ensures |d| == 4
  {
    seq(4, i requires 0 <= i < 4 => CrcOctet(c, i, false))
  }

  lemma MemoryOctet(c: nat, i: nat, bigEndian: bool)
    requires c < WORD && i < 4
    ensures CrcOctet(Machine(c, bigEndian), i, bigEndian) == CrcOctet(c, i, false)
  {
    var c0, c1, c2, c3 := AsOctets(c);
    OctetsOf(c0, c1, c2, c3);
    OctetsOf(c3, c2, c1, c0);
  }

  lemma ThirtyTwoBits()
    ensures Pow2(32) == WORD && Pow2(24) == 0x100_0000
  {
    EightBits();
    Pow2Adds(8, 8);
    Pow2Adds(16, 8);
    Pow2Adds(24, 8);
  }

  lemma {:induction false} DividedFits(s: seq<octet>, polynomial: nat)
    requires polynomial < WORD
    ensures Divided(s, polynomial) < WORD
  {
    if s != [] {
      DividedFits(s[..|s| - 1], polynomial);
      SteppedIs(Divided(s[..|s| - 1], polynomial), s[|s| - 1], polynomial);
    }
  }

  // The octets of a word in memory, as a number.
  lemma MemoryValue(c: nat)
    requires c < WORD
    ensures var d := MemoryOctets(c);
            Word(d[0], d[1], d[2], d[3]) == c == Value([d[3], d[2], d[1], d[0]], 8)
  {
    var c0, c1, c2, c3 := AsOctets(c);
    FourInMemory(c0, c1, c2, c3);
    FourOctets(c3, c2, c1, c0);
  }

  // The digest is the remainder with all bits inverted, its least significant octet first.
  lemma DigestIs(s: seq<octet>, polynomial: nat)
    requires polynomial < WORD
    ensures var d := Digest(s, polynomial);
            Value([d[3], d[2], d[1], d[0]], 8) == 0xffff_ffff - Divided(s, polynomial)
  {
    DividedFits(s, polynomial);
    Inverted(Divided(s, polynomial));
    MemoryValue(0xffff_ffff - Divided(s, polynomial));
  }

  lemma Inverted(c: nat)
    requires c < WORD
    ensures BitXor(c, NEGL) == 0xffff_ffff - c
  {
    ThirtyTwoBits();
    XorOnes(c, 32);
  }

  class Checksum {
    const table: seq<nat>
    const bigEndian: bool
    var crc: nat
    ghost const polynomial: nat
    ghost var received: seq<octet>

    ghost predicate Valid()
      reads this
    {
      && IsTable(table, polynomial, bigEndian) && Divided(received, polynomial) < WORD
      && crc == Machine(Divided(received, polynomial), bigEndian)
    }

    constructor (table: seq<nat>, ghost polynomial: nat, bigEndian: bool)
      requires IsTable(table, polynomial, bigEndian)
      ensures Valid() && received == [] && this.polynomial == polynomial
    {
      this.table, this.bigEndian, this.polynomial := table, bigEndian, polynomial;
      crc := NEGL;
      received := [];
      OctetsOf(255, 255, 255, 255);
    }

    method Reset()
      requires IsTable(table, polynomial, bigEndian)
      modifies this
      ensures Valid() && received == []
    {
      crc := NEGL;
      received := [];
      OctetsOf(255, 255, 255, 255);
    }

    // The step over one octet.
    method UpdateByte(c: nat, ghost state: nat, b: octet) returns (next: nat)
      requires IsTable(table, polynomial, bigEndian) && state < WORD && c == Machine(state, bigEndian)
      ensures Stepped(state, b, polynomial) < WORD && next == Machine(Stepped(state, b, polynomial), bigEndian)
    {
      ByteStep(table, state, b, polynomial, bigEndian);
      next := BitXor(table[BitXor(Index(c, bigEndian), b)], Shifted(c, bigEndian));
    }

    // The step over an octet that is combined with the state already.
    method StepOnce(c: nat, ghost state: nat, ghost b: octet, ghost more: nat) returns (next: nat)
      requires IsTable(table, polynomial, bigEndian) && state < WORD && b + 256 * more < WORD
      requires BitXor(state, b + 256 * more) < WORD && c == Machine(BitXor(state, b + 256 * more), bigEndian)
      ensures Stepped(state, b, polynomial) < WORD && BitXor(Stepped(state, b, polynomial), more) < WORD
      ensures next == Machine(BitXor(Stepped(state, b, polynomial), more), bigEndian)
    {
      WordStep(table, state, b, more, polynomial, bigEndian);
      next := BitXor(table[Index(c, bigEndian)], Shifted(c, bigEndian));
    }

    // Four octets at once: combined with the state as one word, then four steps.
    method UpdateWord(start: nat, ghost state: nat, b0: octet, b1: octet, b2: octet, b3: octet) returns (c: nat)
      requires IsTable(table, polynomial, bigEndian) && state < WORD && start == Machine(state, bigEndian)
      ensures After(state, b0, b1, b2, b3, polynomial) < WORD && c == Machine(After(state, b0, b1, b2, b3, polynomial), bigEndian)
    {
      MachineLoads(b0, b1, b2, b3, bigEndian);
      MachineXor(state, Word(b0, b1, b2, b3), bigEndian);
      c := BitXor(start, Load(b0, b1, b2, b3, bigEndian));
      c := StepTwice(c, state, b0, b1, b2 + 256 * b3);
      ghost var half := Stepped(Stepped(state, b0, polynomial), b1, polynomial);
      c := StepTwice(c, half, b2, b3, 0);
      XorZero(Stepped(Stepped(half, b2, polynomial), b3, polynomial));
    }

    // Two of those steps.
    method StepTwice(start: nat, ghost state: nat, ghost b0: octet, ghost b1: octet, ghost more: nat) returns (c: nat)
      requires IsTable(table, polynomial, bigEndian) && state < WORD && b0 + 256 * (b1 + 256 * more) < WORD
      requires BitXor(state, b0 + 256 * (b1 + 256 * more)) < WORD
      requires start == Machine(BitXor(state, b0 + 256 * (b1 + 256 * more)), bigEndian)
      ensures var after := Stepped(Stepped(state, b0, polynomial), b1, polynomial);
              after < WORD && BitXor(after, more) < WORD && c == Machine(BitXor(after, more), bigEndian)
    {
      c := StepOnce(start, state, b0, b1 + 256 * more);
      c := StepOnce(c, Stepped(state, b0, polynomial), b1, more);
    }

    // c is the stored state after so many octets of the input.
    ghost predicate Reached(input: seq<octet>, at: nat, c: nat)
      requires at <= |input|
      reads this
    {
      var state := Divided(received + input[..at], polynomial);
      state < WORD && c == Machine(state, bigEndian)
    }

    method NextOctet(c: nat, input: seq<octet>, at: nat) returns (next: nat)
      requires IsTable(table, polynomial, bigEndian) && at < |input| && Reached(input, at, c)
      ensures Reached(input, at + 1, next)
    {
      OneMore(received, input, at, polynomial);
      next := UpdateByte(c, Divided(received + input[..at], polynomial), input[at]);
    }

    method NextWord(c: nat, input: seq<octet>, at: nat) returns (next: nat)
      requires IsTable(table, polynomial, bigEndian) && at + 4 <= |input| && Reached(input, at, c)
      ensures Reached(input, at + 4, next)
    {
      FourMore(received, input, at, polynomial);
      ghost var state := Divided(received + input[..at], polynomial);
      next := UpdateWord(c, state, input[at], input[at + 1], input[at + 2], input[at + 3]);
    }

    // Octets until the input is aligned, then words, then octets.
    method Update(input: seq<octet>, address: nat)
      requires Valid()
      modifies this
      ensures Valid() && received == old(received) + input
    {
      assert received + input[..0] == received;
      var c, at := Align(crc, input, address);
      c, at := UpdateWords(c, input, at);
      c := UpdateRest(c, input, at);
      assert input[..|input|] == input;
      crc := c;
      received := received + input;
    }

    method Align(start: nat, input: seq<octet>, address: nat) returns (c: nat, at: nat)
      requires IsTable(table, polynomial, bigEndian) && Reached(input, 0, start)
      ensures at <= |input| && Reached(input, at, c)
    {
      c, at := start, 0;
      while (address + at) % 4 != 0 && at < |input|
        invariant at <= |input| && Reached(input, at, c)
        decreases |input| - at
      {
        c := NextOctet(c, input, at);
        at := at + 1;
      }
    }

    method UpdateWords(start: nat, input: seq<octet>, from: nat) returns (c: nat, at: nat)
      requires IsTable(table, polynomial, bigEndian) && from <= |input| && Reached(input, from, start)
      ensures at <= |input| && Reached(input, at, c)
    {
      c, at := start, from;
      while |input| - at >= 4
        invariant at <= |input| && Reached(input, at, c)
      {
        c := NextWord(c, input, at);
        at := at + 4;
      }
    }

    method UpdateRest(start: nat, input: seq<octet>, from: nat) returns (c: nat)
      requires IsTable(table, polynomial, bigEndian) && from <= |input| && Reached(input, from, start)
      ensures Reached(input, |input|, c)
    {
      c := start;
      var at := from;
      while |input| - at > 0
        invariant at <= |input| && Reached(input, at, c)
      {
        c := NextOctet(c, input, at);
        at := at + 1;
      }
    }

    // The first octets that a word has in memory.
    method WriteOctets(hash: array<octet>, size: nat, inverted: nat, ghost c: nat)
      requires c < WORD && inverted == Machine(c, bigEndian) && size <= 4 && size <= hash.Length
      modifies hash
      ensures hash[..size] == MemoryOctets(c)[..size] && hash[size..] == old(hash[size..])
    {
      for i := 0 to size
        invariant forall j :: 0 <= j < i ==> hash[j] == CrcOctet(c, j, false)
        invariant forall j :: size <= j < hash.Length ==> hash[j] == old(hash[j])
      {
        MemoryOctet(c, i, bigEndian);
        hash[i] := CrcOctet(inverted, i, bigEndian);
      }
    }

    method Inverted() returns (inverted: nat)
      requires Valid()
      ensures BitXor(Divided(received, polynomial), NEGL) < WORD
      ensures inverted == Machine(BitXor(Divided(received, polynomial), NEGL), bigEndian)
    {
      OctetsOf(255, 255, 255, 255);
      MachineXor(Divided(received, polynomial), NEGL, bigEndian);
      inverted := BitXor(crc, NEGL);
    }

    method TruncatedFinal(hash: array<octet>, size: nat) returns (ok: bool)
      requires Valid() && (size <= 4 ==> size <= hash.Length)
      modifies this, hash
      ensures ok == (size <= 4) && Valid()
      ensures ok ==> hash[..size] == Digest(old(received), polynomial)[..size] && received == []
      ensures ok ==> hash[size..] == old(hash[size..])
      ensures !ok ==> received == old(received) && hash[..] == old(hash[..])
    {
      ok := size <= 4;
      if ok {
        crc := Inverted();
        WriteOctets(hash, size, crc, BitXor(Divided(received, polynomial), NEGL));
        Reset();
      }
    }
  }

  // The state after four more octets.
  function After(c: nat, b0: octet, b1: octet, b2: octet, b3: octet, polynomial: nat): nat {
    Stepped(Stepped(Stepped(Stepped(c, b0, polynomial), b1, polynomial), b2, polynomial), b3, polynomial)
  }

  lemma OneMore(before: seq<octet>, input: seq<octet>, at: nat, polynomial: nat)
    requires at < |input|
    ensures Divided(before + input[..at + 1], polynomial)
      == Stepped(Divided(before + input[..at], polynomial), input[at], polynomial)
  {
    DividedOneMore(before + input[..at], input[at], polynomial);
    assert (before + input[..at]) + [input[at]] == before + input[..at + 1];
  }

  lemma FourMore(before: seq<octet>, input: seq<octet>, at: nat, polynomial: nat)
    requires at + 4 <= |input|
    ensures Divided(before + input[..at + 4], polynomial)
         == After(Divided(before + input[..at], polynomial), input[at], input[at + 1], input[at + 2], input[at + 3], polynomial)
  {
    OneMore(before, input, at, polynomial);
    OneMore(before, input, at + 1, polynomial);
    OneMore(before, input, at + 2, polynomial);
    OneMore(before, input, at + 3, polynomial);
  }

  // Feeding bits in two parts, the less significant ones first.
  lemma {:induction false} DivideInTurn(c: nat, low: nat, high: nat, polynomial: nat, k: nat, m: nat)
    requires low < Pow2(k)
    ensures Shl(high, k) >= 0
    ensures Divide(c, Shl(high, k) + low, polynomial, k + m) == Divide(Divide(c, low, polynomial, k), high, polynomial, m)
    decreases k
  {
    ShlMonotonic(0, high, k);
    if k > 0 {
      ShlMonotonic(0, high, k - 1);
      HalfOf(Shl(high, k - 1), low);
      DivideInTurn(BitStep(BitXor(c, low % 2), polynomial), low / 2, high, polynomial, k - 1, m);
    }
  }

  lemma OctetInTurn(c: nat, b: octet, more: nat, polynomial: nat, m: nat)
    ensures Divide(c, b + 256 * more, polynomial, 8 + m) == Divide(Stepped(c, b, polynomial), more, polynomial, m)
  {
    EightBits();
    ShlIsProduct(more, 8);
    DivideInTurn(c, b, more, polynomial, 8, m);
  }

  // Four octets one by one are 32 steps over their word.
  lemma FourInTurn(c: nat, b0: octet, b1: octet, b2: octet, b3: octet, polynomial: nat)
    requires c < WORD
    ensures After(c, b0, b1, b2, b3, polynomial) == BitSteps(BitXor(c, Word(b0, b1, b2, b3)), polynomial, 32)
  {
    var c1 := Stepped(c, b0, polynomial);
    var c2 := Stepped(c1, b1, polynomial);
    OctetInTurn(c, b0, b1 + 256 * (b2 + 256 * b3), polynomial, 24);
    OctetInTurn(c1, b1, b2 + 256 * b3, polynomial, 16);
    OctetInTurn(c2, b2, b3, polynomial, 8);
    OctetsOf(b0, b1, b2, b3);
    ThirtyTwoBits();
    DivideAtOnce(c, Word(b0, b1, b2, b3), polynomial, 32);
  }

  // A message with its digest behind it leaves the same remainder, whatever the message.
  lemma DigestChecks(s: seq<octet>, polynomial: nat)
    requires polynomial < WORD
    ensures Divided(s + Digest(s, polynomial), polynomial) == BitSteps(0xffff_ffff, polynomial, 32)
  {
    var c, d := Divided(s, polynomial), Digest(s, polynomial);
    DividedFits(s, polynomial);
    Inverted(c);
    MemoryValue(0xffff_ffff - c);
    assert s + d[..0] == s && d[..4] == d;
    FourMore(s, d, 0, polynomial);
    FourInTurn(c, d[0], d[1], d[2], d[3], polynomial);
    XorAssociates(c, c, NEGL);
    XorSelf(c);
    XorZero(NEGL);
  }

  // The digest of the one octet 0x7f, from the octets of the polynomial.
  lemma DigestOfOctet(b: octet, c0: octet, c1: octet, c2: octet, c3: octet)
    requires b == 0x7f
    ensures Digest([b], Word(c0, c1, c2, c3)) == [c0, c1, c2, 255 - c3]
  {
    OctetsOf(c0, c1, c2, c3);
    StateOfOctet(b, Word(c0, c1, c2, c3));
    LowInverted(c0, c1, c2, c3);
    OctetsOf(255 - c0, 255 - c1, 255 - c2, c3);
    Inverted(Word(255 - c0, 255 - c1, 255 - c2, c3));
    FourInMemory(c0, c1, c2, 255 - c3);
  }

  lemma StateOfOctet(b: octet, polynomial: nat)
    requires b == 0x7f && polynomial < WORD
    ensures Divided([b], polynomial) == BitXor(0xff_ffff, polynomial)
  {
    DividedOneMore([], b, polynomial);
    assert [] + [b] == [b];
    SteppedIs(NEGL, b, polynomial);
    XorCommutes(NEGL, b);
    Inverted(b);
    SevenEven(BitXor(NEGL, b), 0x1ff_ffff, polynomial);
  }

  lemma SevenEven(state: nat, high: nat, polynomial: nat)
    requires state == 128 * high && high % 2 == 1
    ensures BitSteps(state, polynomial, 8) == BitXor(high / 2, polynomial)
  {
    ShlIsProduct(high, 7);
    assert Pow2(7) == 128;
    HighBitsMove(high, polynomial, 7);
    StepsThenOne(state, polynomial, 7);
  }

  lemma FourInMemory(c0: octet, c1: octet, c2: octet, c3: octet)
    ensures MemoryOctets(Word(c0, c1, c2, c3)) == [c0, c1, c2, c3]
  {
    var d := MemoryOctets(Word(c0, c1, c2, c3));
    EachInMemory(c0, c1, c2, c3);
    assert d[0] == c0 && d[1] == c1 && d[2] == c2 && d[3] == c3;
  }

  lemma EachInMemory(c0: octet, c1: octet, c2: octet, c3: octet)
    ensures var w := Word(c0, c1, c2, c3);
            && CrcOctet(w, 0, false) == c0 && CrcOctet(w, 1, false) == c1
            && CrcOctet(w, 2, false) == c2 && CrcOctet(w, 3, false) == c3
  {
    OctetsOf(c0, c1, c2, c3);
  }

  lemma OctetInverted(c: octet)
    ensures BitXor(255, c) == 255 - c
  {
    EightBits();
    XorOnes(c, 8);
    XorCommutes(255, c);
  }

  lemma LowInverted(c0: octet, c1: octet, c2: octet, c3: octet)
    ensures BitXor(0xff_ffff, Word(c0, c1, c2, c3)) == Word(255 - c0, 255 - c1, 255 - c2, c3)
  {
    XorWords(255, 255, 255, 0, c0, c1, c2, c3);
    OctetInverted(c0);
    OctetInverted(c1);
    OctetInverted(c2);
    XorZero(c3);
  }
}
