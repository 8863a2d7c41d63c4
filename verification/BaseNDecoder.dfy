// The decoder: the bits of the characters are put together to bytes in a buffer of one block, which is
// sent on when it is full. Characters without a value are skipped.

module BaseNDecoder {
  import opened Numbers
  import opened DigitStrings
  import opened BaseNFormat
  import opened BaseNText

  // A value whose bits all go into the current byte.
  lemma FitsIn(bytes: nat, part: nat, bitPos: nat, width: nat, v: nat, room: nat, zeros: nat) returns (more: nat)
    requires room == width + zeros && bitPos + room == 8 && part < Pow2(bitPos) && v < Pow2(width)
    ensures more < Pow2(bitPos + width) && Shl(part, room) >= 0 && Shl(v, zeros) >= 0
    ensures BitOr(Shl(part, room), Shl(v, zeros)) == Shl(more, zeros) < 256
    ensures Shl(bytes, bitPos + width) + more == Shl(Shl(bytes, bitPos) + part, width) + v
  {
    more := Joined(bytes, part, bitPos, width, v, room, zeros);
    Placed(part, room, v, width, zeros);
    ShlWithin(more, bitPos + width, zeros);
    ByteIs(Shl(more, zeros));
  }

  // A value behind the bits of a byte that is not full.
  lemma Placed(part: nat, room: nat, v: nat, width: nat, zeros: nat)
    requires room == width + zeros && v < Pow2(width)
    ensures Shl(part, room) >= 0 && Shl(v, zeros) >= 0
    ensures BitOr(Shl(part, room), Shl(v, zeros)) == Shl(part, room) + Shl(v, zeros)
  {
    ShlWithin(v, width, zeros);
    OrBelow(part, room, Shl(v, zeros));
  }

  // A value that completes the current byte, with bits left for the next one.
  lemma Spills(bytes: nat, part: nat, bitPos: nat, width: nat, v: nat, size: nat, over: nat)
    requires bitPos < size && bitPos + width == size + over && over <= size && part < Pow2(bitPos) && v < Pow2(width)
    ensures Shl(part, size - bitPos) >= 0
    ensures var d := BitOr(Shl(part, size - bitPos), Shr(v, over));
            && d < Pow2(size)
            && Shl(Shl(bytes, size) + d, over) + Low(v, over) == Shl(Shl(bytes, bitPos) + part, width) + v
  {
    var d := CompletedValue(bytes, part, bitPos, size - bitPos, v, width);
    ShrBelow(v, size - bitPos, over);
    OrBelow(part, size - bitPos, Shr(v, over));
  }

  // Those bits, at the front of a byte.
  lemma Spilled(v: nat, size: nat, over: nat)
    requires over <= size
    ensures Shl(v, size - over) >= 0 && Low(Shl(v, size - over), size) == Shl(Low(v, over), size - over) < Pow2(size)
    ensures BitOr(0, Low(Shl(v, size - over), size)) == Shl(Low(v, over), size - over)
  {
    var high, low := Shr(v, over), Low(v, over);
    ShrSplit(v, over);
    ShlMonotonic(0, v, size - over);
    ShlAdds(Shl(high, over), low, size - over);
    ShlShl(high, over, size - over);
    ShlWithin(low, over, size - over);
    SplitIsUnique(Shl(v, size - over), size, high, Shl(low, size - over));
    ShlMonotonic(0, 0, size);
    OrBelow(0, size, Shl(low, size - over));
  }

  // The lookup table holds values of so many bits, or none.
  ghost predicate HoldsValues(lookup: seq<int>, width: nat) {
    |lookup| == 256 && forall c: octet :: Skipped(lookup, c) || lookup[c] < Pow2(width)
  }

  // The number that full bytes make, with one more byte behind it.
  ghost predicate OneMore(full: seq<octet>, value: nat, longer: seq<octet>, more: nat) {
    |longer| == |full| + 1 && longer == full + [longer[|full|]] && more == Shl(value, 8) + longer[|full|]
  }

  lemma OneMoreValue(bytes: seq<octet>, full: seq<octet>, value: nat, longer: seq<octet>, more: nat)
    requires value == Value(bytes + full, 8) && OneMore(full, value, longer, more)
    ensures more == Value(bytes + longer, 8)
  {
    ValueOneMore(bytes + full, longer[|full|], 8);
    assert bytes + (full + [longer[|full|]]) == (bytes + full) + [longer[|full|]];
  }

  class Decoder {
    const lookup: seq<int>
    const bitsPerChar: nat
    const outputBlockSize: nat
    const outBuf: array<octet>
    var bytePos: nat
    var bitPos: nat
    // What the attached transformation has received.
    var output: seq<octet>

    // The output before this message, the text so far, the values of its characters, and the bytes that
    // are output already.
    ghost var before: seq<octet>
    ghost var text: seq<octet>
    ghost var values: seq<octet>
    ghost var bytes: seq<octet>
    // The full bytes in the buffer and the bits of the one that is being put together; the number that
    // all full bytes of this message make, and the characters that the buffer holds.
    ghost var full: seq<octet>
    ghost var part: nat
    ghost var bytesValue: nat
    ghost var absorbed: nat
    ghost const blockChars: nat

    ghost predicate Shaped() {
      && 1 <= bitsPerChar <= 7 && HoldsValues(lookup, bitsPerChar)
      && outBuf.Length == outputBlockSize > 0 && Bits(blockChars, bitsPerChar) == 8 * outputBlockSize
    }

    // All bytes of this message so far.
    ghost function AllBytes(): seq<octet>
      reads `bytes, `full
    {
      bytes + full
    }

    // Full bytes, the one that is being put together, and zeros.
    ghost predicate LaidOut(at: nat, full: seq<octet>, cell: int)
      reads outBuf
    {
      && at == |full| <= outBuf.Length && outBuf[..at] == full
      && (at < outBuf.Length ==> outBuf[at] == cell)
      && (forall j :: at < j < outBuf.Length ==> outBuf[j] == 0)
    }

    lemma NextLaidOut(at: nat, full: seq<octet>, cell: octet)
      requires LaidOut(at, full, cell) && at < outBuf.Length
      ensures LaidOut(at + 1, full + [cell], 0)
    {
    }

    // The buffer holds so many bits.
    ghost predicate Holds(bits: nat)
      reads this, outBuf
    {
      && bitPos < 8 && LaidOut(bytePos, full, Shl(part, 8 - bitPos))
      && part < Pow2(bitPos) && 8 * bytePos + bitPos == bits
    }

    // The number that all bits so far make.
    ghost function Total(): int
      reads `bytesValue, `bitPos, `part
    {
      Shl(bytesValue, bitPos) + part
    }

    // Bits are or-ed into a byte.
    method OrCell(at: nat, ghost full: seq<octet>, ghost cell: nat, x: nat, ghost after: nat)
      requires LaidOut(at, full, cell) && at < outBuf.Length && BitOr(cell, x) == after < 256
      modifies outBuf
      ensures LaidOut(at, full, after)
    {
      outBuf[at] := BitOr(outBuf[at], x);
    }

    // All bits of a value go into the current byte.
    method OrPart(v: nat, newBitPos: nat) returns (ghost more: nat)
      requires bytePos < outBuf.Length && part < Pow2(bitPos) && v < Pow2(bitsPerChar)
      requires bitPos + bitsPerChar == newBitPos <= 8 && LaidOut(bytePos, full, Shl(part, 8 - bitPos))
      modifies outBuf
      ensures LaidOut(bytePos, full, Shl(more, 8 - newBitPos)) && more < Pow2(newBitPos)
      ensures Shl(bytesValue, newBitPos) + more == Shl(old(Total()), bitsPerChar) + v
    {
      ghost var room, zeros := 8 - bitPos, 8 - newBitPos;
      more := FitsIn(bytesValue, part, bitPos, bitsPerChar, v, room, zeros);
      OrCell(bytePos, full, Shl(part, room), Shl(v, 8 - newBitPos), Shl(more, zeros));
    }

    // The first bits of a value complete the current byte.
    method OrWhole(v: nat, ghost over: nat) returns (ghost d: octet)
      requires bytePos < outBuf.Length && bitPos < 8 && part < Pow2(bitPos) && v < Pow2(bitsPerChar)
      requires bitPos + bitsPerChar == 8 + over && over <= 8 && LaidOut(bytePos, full, Shl(part, 8 - bitPos))
      modifies outBuf
      ensures LaidOut(bytePos, full, d)
      ensures Shl(Shl(bytesValue, 8) + d, over) + Low(v, over) == Shl(Total(), bitsPerChar) + v
    {
      Spills(bytesValue, part, bitPos, bitsPerChar, v, 8, over);
      ByteIs(BitOr(Shl(part, 8 - bitPos), Shr(v, over)));
      d := BitOr(Shl(part, 8 - bitPos), Shr(v, over));
      OrCell(bytePos, full, Shl(part, 8 - bitPos), Shr(v, bitPos + bitsPerChar - 8), d);
    }

    // The last bits of a value start the next byte.
    method OrNext(v: nat, ghost d: octet, ghost over: nat)
      requires bytePos + 1 < outBuf.Length && over <= 8 && bitPos + bitsPerChar == 8 + over && LaidOut(bytePos, full, d)
      modifies outBuf
      ensures LaidOut(bytePos + 1, full + [d], Shl(Low(v, over), 8 - over))
    {
      NextLaidOut(bytePos, full, d);
      Spilled(v, 8, over);
      ByteIs(Low(Shl(v, 8 - over), 8));
      OrCell(bytePos + 1, full + [d], 0, Low(Shl(v, 16 - (bitPos + bitsPerChar)), 8), Shl(Low(v, over), 8 - over));
    }

    // The byte is full: the next one starts.
    ghost method NextByte(d: octet)
      modifies `full, `bytesValue
      ensures full == old(full) + [d] && bytesValue == Shl(old(bytesValue), 8) + d
    {
      ShlMonotonic(0, bytesValue, 8);
      full := full + [d];
      bytesValue := Shl(bytesValue, 8) + d;
    }

    // The position after more bits: at most one byte was completed.
    method Advance(newBitPos: nat)
      requires newBitPos < 16
      modifies `bytePos, `bitPos
      ensures newBitPos < 8 ==> bytePos == old(bytePos) && bitPos == newBitPos
      ensures newBitPos >= 8 ==> bytePos == old(bytePos) + 1 && bitPos == newBitPos - 8
    {
      bitPos := newBitPos;
      while bitPos >= 8
        invariant (bytePos == old(bytePos) && bitPos == newBitPos) || (bytePos == old(bytePos) + 1 && bitPos == newBitPos - 8)
      {
        bitPos := bitPos - 8;
        bytePos := bytePos + 1;
      }
    }

    // The value does not fill the current byte.
    method PutInside(ghost bits: nat, v: nat)
      requires bitsPerChar <= 7 && Holds(bits) && bytePos < outBuf.Length && v < Pow2(bitsPerChar) && bitPos + bitsPerChar < 8
      modifies outBuf, `bytePos, `bitPos, `part
      ensures Holds(bits + bitsPerChar) && Total() == Shl(old(Total()), bitsPerChar) + v
    {
      ghost var more := OrPart(v, bitPos + bitsPerChar);
      part := more;
      Advance(bitPos + bitsPerChar);
    }

    // The value fills the current byte.
    method PutFilling(ghost bits: nat, v: nat)
      requires bitsPerChar <= 7 && Holds(bits) && bytePos < outBuf.Length && v < Pow2(bitsPerChar) && bitPos + bitsPerChar == 8
      modifies outBuf, `bytePos, `bitPos, `full, `part, `bytesValue
      ensures Holds(bits + bitsPerChar) && Total() == Shl(old(Total()), bitsPerChar) + v
      ensures OneMore(old(full), old(bytesValue), full, bytesValue)
    {
      ghost var over := bitPos + bitsPerChar - 8;
      ghost var d := OrPart(v, bitPos + bitsPerChar);
      ByteIs(d);
      NextLaidOut(bytePos, full, d);
      ShlMonotonic(over, over, 8 - over);
      NextByte(d);
      part := over;
      Advance(bitPos + bitsPerChar);
    }

    // The last bits of the value go into the next byte.
    method PutAcross(ghost bits: nat, v: nat)
      requires bitsPerChar <= 7 && Holds(bits) && bytePos + 1 < outBuf.Length && v < Pow2(bitsPerChar) && bitPos + bitsPerChar > 8
      modifies outBuf, `bytePos, `bitPos, `full, `part, `bytesValue
      ensures Holds(bits + bitsPerChar) && Total() == Shl(old(Total()), bitsPerChar) + v
      ensures OneMore(old(full), old(bytesValue), full, bytesValue)
    {
      ghost var over := bitPos + bitsPerChar - 8;
      ghost var d := OrWhole(v, over);
      OrNext(v, d, over);
      NextByte(d);
      part := Low(v, over);
      Advance(bitPos + bitsPerChar);
    }

    // The values of this message, and how they are spread over output and buffer.
    ghost predicate Accounted(total: int)
      reads `bytes, `full, `bytesValue, `output, `before, `text, `values, `absorbed
    {
      && bytesValue == Value(AllBytes(), 8)
      && |lookup| == 256 && values == Values(lookup, text) && Value(values, bitsPerChar) == total
      && output == before + bytes && Bits(|values|, bitsPerChar) == 8 * |bytes| + Bits(absorbed, bitsPerChar)
    }

    // A value was taken, and the block may be full.
    ghost predicate InBlock()
      reads this, outBuf
    {
      Shaped() && Holds(Bits(absorbed, bitsPerChar)) && 0 < absorbed <= blockChars && Accounted(Total())
    }

    ghost predicate Empty()
      reads this
    {
      bytePos == bitPos == part == absorbed == 0 && full == []
    }

    ghost predicate Valid()
      reads this, outBuf
    {
      && Shaped() && Accounted(Total())
      && (Empty() || (Holds(Bits(absorbed, bitsPerChar)) && 0 < absorbed < blockChars && bytePos < outputBlockSize))
    }

    method ClearBuffer()
      requires Valid() && bytePos == 0 && bitPos == 0
      modifies outBuf
      ensures Holds(Bits(absorbed, bitsPerChar)) && absorbed < blockChars
    {
      forall i | 0 <= i < outBuf.Length {
        outBuf[i] := 0;
      }
      EmptyBlock(bitsPerChar, absorbed, bitPos);
      ShlMonotonic(0, 0, 8 - bitPos);
    }

    method PutBits(v: nat)
      requires Shaped() && Holds(Bits(absorbed, bitsPerChar)) && absorbed < blockChars && v < Pow2(bitsPerChar)
      requires bytesValue == Value(AllBytes(), 8)
      modifies outBuf, `bytePos, `bitPos, `full, `part, `bytesValue
      ensures Holds(Bits(absorbed + 1, bitsPerChar)) && Total() == Shl(old(Total()), bitsPerChar) + v
      ensures bytesValue == Value(AllBytes(), 8)
    {
      BitsMonotonic(absorbed + 1, blockChars, bitsPerChar);
      var newBitPos := bitPos + bitsPerChar;
      if newBitPos < 8 {
        PutInside(Bits(absorbed, bitsPerChar), v);
      } else {
        if newBitPos == 8 {
          PutFilling(Bits(absorbed, bitsPerChar), v);
        } else {
          PutAcross(Bits(absorbed, bitsPerChar), v);
        }
        OneMoreValue(bytes, old(full), old(bytesValue), full, bytesValue);
      }
    }

    method TakeValue(c: octet)
      requires Shaped() && Holds(Bits(absorbed, bitsPerChar)) && absorbed < blockChars && Accounted(Total())
        && !Skipped(lookup, c)
      modifies outBuf, `bytePos, `bitPos, `full, `part, `bytesValue, `absorbed, `text, `values
      ensures InBlock() && text == old(text) + [c]
    {
      ghost var total := Total();
      PutBits(lookup[c]);
      CountValue(c, total);
    }

    ghost method CountValue(c: octet, total: int)
      requires Shaped() && Holds(Bits(absorbed + 1, bitsPerChar)) && absorbed < blockChars && !Skipped(lookup, c)
      requires Accounted(total) && Total() == Shl(total, bitsPerChar) + lookup[c]
      modifies `absorbed, `text, `values
      ensures InBlock() && text == old(text) + [c]
    {
      ValuesOneMore(lookup, text, c);
      ValueOneMore(values, lookup[c], bitsPerChar);
      absorbed := absorbed + 1;
      text, values := text + [c], values + [lookup[c]];
    }

    // A whole block goes to the output.
    method EmitBlock()
      requires InBlock() && bytePos == outputBlockSize
      modifies `bytePos, `bitPos, `full, `part, `bytes, `absorbed, `output
      ensures Valid()
    {
      BitsMonotonic(absorbed, blockChars, bitsPerChar);
      output := output + outBuf[..outputBlockSize];
      assert before + bytes + full == before + (bytes + full);
      assert bytes + full + [] == bytes + full;
      bytes, full := bytes + full, [];
      bytePos, bitPos, part, absorbed := 0, 0, 0, 0;
    }

    method PutValue(c: octet)
      requires Shaped() && Holds(Bits(absorbed, bitsPerChar)) && absorbed < blockChars && Accounted(Total())
        && !Skipped(lookup, c)
      modifies outBuf, `bytePos, `bitPos, `full, `part, `bytesValue, `absorbed, `text, `values, `bytes, `output
      ensures Valid() && text == old(text) + [c]
    {
      TakeValue(c);
      BitsMonotonic(absorbed, blockChars, bitsPerChar);
      if bytePos == outputBlockSize {
        EmitBlock();
      }
    }

    ghost method SkipChar(c: octet)
      requires Valid() && Skipped(lookup, c)
      modifies `text
      ensures Valid() && text == old(text) + [c]
    {
      ValuesOneMore(lookup, text, c);
      assert values + [] == values;
      text := text + [c];
    }

    method PutChar(c: octet)
      requires Valid()
      modifies outBuf, `bytePos, `bitPos, `full, `part, `bytesValue, `absorbed, `text, `values, `bytes, `output
      ensures Valid() && text == old(text) + [c]
    {
      if Skipped(lookup, c) {
        SkipChar(c);
      } else {
        if bytePos == 0 && bitPos == 0 {
          ClearBuffer();
        }
        PutValue(c);
      }
    }

    method Flush()
      requires Valid()
      modifies `output
      ensures output == before + Decoded(lookup, bitsPerChar, text)
    {
      DigitBytesAre(values, AllBytes(), part, bitPos, bitsPerChar);
      output := output + outBuf[..bytePos];
      assert before + bytes + full == before + AllBytes();
    }

    // The end of a message: whole bytes go to the output, other bits are dropped.
    method Finish()
      requires Valid()
      modifies `bytePos, `bitPos, `full, `part, `bytesValue, `absorbed, `text, `values, `bytes, `output, `before
      ensures Valid() && text == [] && before == output
      ensures output == old(before) + Decoded(lookup, bitsPerChar, old(text))
    {
      Flush();
      bytePos, bitPos := 0, 0;
      StartMessage();
    }

    ghost method StartMessage()
      requires Shaped() && bytePos == bitPos == 0
      modifies `full, `part, `bytesValue, `absorbed, `text, `values, `bytes, `before
      ensures Valid() && text == [] && before == output
    {
      before, text, values, bytes, full, part, bytesValue, absorbed := output, [], [], [], [], 0, 0, 0;
      ShlMonotonic(0, 0, bitPos);
    }

    method Put(input: seq<octet>, messageEnd: bool)
      requires Valid()
      modifies outBuf, `bytePos, `bitPos, `full, `part, `bytesValue, `absorbed, `text, `values, `bytes, `output, `before
      ensures Valid()
      ensures !messageEnd ==> text == old(text) + input && before == old(before)
      ensures messageEnd ==> text == [] && before == output
      ensures messageEnd ==> output == old(before) + Decoded(lookup, bitsPerChar, old(text) + input)
    {
      for i := 0 to |input|
        invariant Valid() && text == old(text) + input[..i] && before == old(before)
      {
        PutChar(input[i]);
      }
      assert input[..|input|] == input;
      if messageEnd {
        Finish();
      }
    }

    constructor (lookup: seq<int>, log2Base: nat)
      requires 1 <= log2Base <= 7 && HoldsValues(lookup, log2Base)
      ensures Valid() && this.lookup == lookup && bitsPerChar == log2Base && text == [] && output == before == []
      ensures fresh(outBuf)
    {
      this.lookup, bitsPerChar := lookup, log2Base;
      bytePos, bitPos, output := 0, 0, [];
      before, text, values, bytes, full, part, bytesValue, absorbed := [], [], [], [], [], 0, 0, 0;
      var i := log2Base;
      ghost var k := 1;
      while i % 8 != 0
        invariant i == Bits(k, log2Base) && 1 <= k <= 8
        decreases 8 - k
      {
        BitsIsProduct(k, log2Base);
        i := i + log2Base;
        k := k + 1;
      }
      outputBlockSize := i / 8;
      outBuf := new octet[i / 8](_ => 0);
      blockChars := k;
      new;
      ShlMonotonic(0, 0, bitPos);
    }
  }

  lemma ValuesOneMore(lookup: seq<int>, text: seq<octet>, c: octet)
    requires |lookup| == 256
    ensures Values(lookup, text + [c]) == Values(lookup, text) + if Skipped(lookup, c) then [] else [lookup[c]]
  {
    ValuesAppend(lookup, text, [c]);
    assert [c][1..] == [];
  }

  lemma BitsMonotonic(a: nat, b: nat, width: nat)
    requires a <= b && width > 0
    ensures Bits(a, width) <= Bits(b, width)
    ensures a < b ==> Bits(a, width) < Bits(b, width)
  {
    BitsAdd(a, b - a, width);
    BitsIsProduct(b - a, width);
    if a < b {
      MulMonotonic(1, b - a, width);
    }
  }

  lemma EmptyBlock(width: nat, absorbed: nat, bitPos: nat)
    ensures absorbed == 0 ==> Bits(absorbed, width) == 0
    ensures bitPos == 0 ==> Pow2(bitPos) == 1
  {
  }

  lemma ByteIs(b: nat)
    ensures b < Pow2(8) <==> b < 256
  {
    assert Pow2(8) == 256;
  }
}
