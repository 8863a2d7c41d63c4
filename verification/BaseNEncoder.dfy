// The encoder: the bits of the input are put together to characters in a buffer of one block, which is
// mapped to the alphabet in place and sent on when it is full.

module BaseNEncoder {
  import opened Numbers
  import opened Wrappers
  import opened DigitStrings
  import opened BaseNFormat
  import opened BaseNText

  // What is left of an input byte: rest is its last left bits, in front of zeros.
  predicate Leaves(b: nat, rest: nat, left: nat, size: nat) {
    left <= size && rest < Pow2(left) && b == Shl(rest, size - left)
  }

  // The first bits of b complete a character.
  lemma TakenHigh(b: nat, rest: nat, left: nat, target: nat, size: nat)
    requires Leaves(b, rest, left, size) && target <= left
    ensures Shr(b, size - target) == Shr(rest, left - target) < Pow2(target)
  {
    SplitIsUnique(b, size - left, rest, 0);
    ShrShr(b, size - left, left - target);
    ShrBelow(rest, target, left - target);
  }

  // The others are left.
  lemma TakenLow(b: nat, rest: nat, left: nat, target: nat, size: nat)
    requires Leaves(b, rest, left, size) && target <= left
    ensures Shl(b, target) >= 0 && Leaves(Low(Shl(b, target), size), Low(rest, left - target), left - target, size)
  {
    ShlShl(rest, size - left, target);
    ShlMonotonic(0, rest, size - (left - target));
    LowOfShifted(rest, left - target, size - (left - target));
  }

  lemma LowOfShifted(rest: nat, left: nat, zeros: nat)
    ensures 0 <= Shl(Low(rest, left), zeros)
    ensures Shl(rest, zeros) >= 0 && Low(Shl(rest, zeros), left + zeros) == Shl(Low(rest, left), zeros)
  {
    var high, low := Shr(rest, left), Low(rest, left);
    ShrSplit(rest, left);
    ShlMonotonic(0, rest, zeros);
    ShlAdds(Shl(high, left), low, zeros);
    ShlShl(high, left, zeros);
    ShlWithin(low, left, zeros);
    SplitIsUnique(Shl(rest, zeros), left + zeros, high, Shl(low, zeros));
  }

  // Fewer bits are left than the character needs.
  lemma TakenAll(b: nat, rest: nat, left: nat, target: nat, size: nat)
    requires Leaves(b, rest, left, size) && left < target <= size
    ensures Shr(b, size - target) == Shl(rest, target - left) < Pow2(target)
  {
    ShlWithin(rest, left, target - left);
    ShlShl(rest, target - left, size - target);
    SplitIsUnique(b, size - target, Shl(rest, target - left), 0);
  }

  lemma DigitCompleted(part: nat, need: nat, b: nat, rest: nat, left: nat, size: nat)
    requires need <= left && Leaves(b, rest, left, size)
    ensures Shl(part, need) >= 0
    ensures BitOr(Shl(part, need), Shr(b, size - need)) == Shl(part, need) + Shr(rest, left - need)
  {
    TakenHigh(b, rest, left, need, size);
    OrBelow(part, need, Shr(b, size - need));
  }

  // The completed character: the part that is there already and the first need bits of what is left.
  lemma CharCompleted(chars: nat, part: nat, bitPos: nat, need: nat, b: nat, rest: nat, left: nat, size: nat) returns (d: octet)
    requires 0 < need <= left && bitPos + need <= 8 && part < Pow2(bitPos) && Leaves(b, rest, left, size)
    ensures Shl(part, need) >= 0 && BitOr(Shl(part, need), Shr(b, size - need)) == d < Pow2(bitPos + need)
    ensures Shl(Shl(chars, bitPos + need) + d, left - need) + Low(rest, left - need)
         == Shl(Shl(chars, bitPos) + part, left) + rest
  {
    DigitCompleted(part, need, b, rest, left, size);
    WidthFits(bitPos + need);
    d := CompletedValue(chars, part, bitPos, need, rest, left);
  }

  lemma DigitContinued(part: nat, need: nat, b: nat, rest: nat, left: nat, zeros: nat, size: nat)
    requires left < need <= size && need == left + zeros && Leaves(b, rest, left, size)
    ensures Shl(part, need) >= 0 && Shl(rest, zeros) >= 0
    ensures BitOr(Shl(part, need), Shr(b, size - need)) == Shl(part, need) + Shl(rest, zeros)
  {
    TakenAll(b, rest, left, need, size);
    OrBelow(part, need, Shr(b, size - need));
  }

  // The character that is not complete yet: zeros stand for the bits that it still needs.
  lemma CharContinued(chars: nat, part: nat, bitPos: nat, need: nat, b: nat, rest: nat, left: nat, zeros: nat, size: nat)
    returns (more: nat)
    requires left < need <= size && need == left + zeros && bitPos + need <= 8 && part < Pow2(bitPos)
    requires Leaves(b, rest, left, size)
    ensures more < Pow2(bitPos + left) && Shl(part, need) >= 0
    ensures BitOr(Shl(part, need), Shr(b, size - need)) == Shl(more, zeros) < 256
    ensures Shl(chars, bitPos + left) + more == Shl(Shl(chars, bitPos) + part, left) + rest
  {
    DigitContinued(part, need, b, rest, left, zeros, size);
    more := Joined(chars, part, bitPos, left, rest, need, zeros);
    ShlWithin(more, bitPos + left, zeros);
    WidthFits(bitPos + need);
  }

  // An incomplete character, filled up with zeros.
  lemma FilledWithZeros(chars: nat, part: nat, bitPos: nat, width: nat)
    requires bitPos < width <= 8 && part < Pow2(bitPos)
    ensures 0 <= Shl(part, width - bitPos) < Pow2(width) && Shl(part, width - bitPos) < 256
    ensures Shl(chars, width) + Shl(part, width - bitPos) == Shl(Shl(chars, bitPos) + part, width - bitPos)
    ensures bitPos == 0 ==> part == 0 && Shl(chars, bitPos) + part == chars
  {
    ShlWithin(part, bitPos, width - bitPos);
    WidthFits(width);
    ShlAdds(Shl(chars, bitPos), part, width - bitPos);
    ShlShl(chars, bitPos, width - bitPos);
  }

  // A block that is not full has a character that is not.
  lemma HasRoom(blockChars: nat, width: nat, bytePos: nat, bitPos: nat)
    requires bitPos < width
    ensures Bits(bytePos, width) + bitPos < Bits(blockChars, width) <==> bytePos < blockChars
  {
    BitsIsProduct(bytePos, width);
    BitsIsProduct(blockChars, width);
    if bytePos >= blockChars {
      MulMonotonic(blockChars, bytePos, width);
    } else {
      MulMonotonic(bytePos + 1, blockChars, width);
      MulDistributes(bytePos, 1, width);
    }
  }

  class Encoder {
    const alphabet: seq<octet>
    const bitsPerChar: nat
    const padding: Option<octet>
    const outputBlockSize: nat
    const outBuf: array<octet>
    var bytePos: nat
    var bitPos: nat
    // What the attached transformation has received.
    var output: seq<octet>

    // The output before this message, the message so far and its digits that are output already.
    ghost var before: seq<octet>
    ghost var message: seq<octet>
    ghost var digits: seq<octet>
    ghost var blocks: nat
    // The full characters in the buffer, and the bits of the one that is being put together; the number
    // that all full characters of this message make, and the bytes that the buffer holds.
    ghost var full: seq<octet>
    ghost var part: nat
    ghost var charsValue: nat
    ghost var absorbed: nat
    ghost const blockBytes: nat

    ghost predicate Shaped() {
      && 1 <= bitsPerChar <= 7 && |alphabet| == Pow2(bitsPerChar)
      && outBuf.Length == outputBlockSize > 0 && Bits(outputBlockSize, bitsPerChar) == 8 * blockBytes
    }

    // All digits of this message so far.
    ghost function Chars(): seq<octet>
      reads `digits, `full
    {
      digits + full
    }

    // Full characters, the one that is being put together, and zeros.
    ghost predicate LaidOut(cell: int)
      reads `bytePos, `full, outBuf
    {
      && bytePos == |full| <= outBuf.Length && outBuf[..bytePos] == full
      && (bytePos < outBuf.Length ==> outBuf[bytePos] == cell)
      && (forall j :: bytePos < j < outBuf.Length ==> outBuf[j] == 0)
    }

    // Bits are or-ed into the current character.
    method OrCell(ghost before: nat, x: nat, ghost after: nat)
      requires LaidOut(before) && bytePos < outBuf.Length && BitOr(before, x) == after < 256
      modifies outBuf
      ensures LaidOut(after)
    {
      outBuf[bytePos] := BitOr(outBuf[bytePos], x);
    }

    // The buffer holds so many bits.
    ghost predicate Holds(bits: nat)
      reads this, outBuf
    {
      && bitPos < bitsPerChar && LaidOut(Shl(part, bitsPerChar - bitPos))
      && AllBelow(full, Pow2(bitsPerChar)) && charsValue == Value(Chars(), bitsPerChar)
      && part < Pow2(bitPos) && Bits(bytePos, bitsPerChar) + bitPos == bits
    }

    // The number that all bits so far make.
    ghost function Total(): int
      reads `charsValue, `bitPos, `part
    {
      Shl(charsValue, bitPos) + part
    }

    // The bits of b that complete the current character.
    method OrWhole(b: octet, ghost rest: nat, left: nat, target: nat) returns (ghost d: octet)
      requires bytePos < outBuf.Length && 0 < target == bitsPerChar - bitPos <= left && bitsPerChar <= 7 && part < Pow2(bitPos)
      requires Leaves(b, rest, left, 8) && LaidOut(Shl(part, target))
      modifies outBuf
      ensures LaidOut(d) && d < Pow2(bitPos + target)
      ensures Shl(Shl(charsValue, bitPos + target) + d, left - target) + Low(rest, left - target) == Shl(Total(), left) + rest
    {
      d := CharCompleted(charsValue, part, bitPos, target, b, rest, left, 8);
      OrCell(Shl(part, target), Shr(b, 8 - target), d);
    }

    // The bits of b that go on with the current character.
    method OrPart(b: octet, ghost rest: nat, left: nat, need: nat, ghost zeros: nat) returns (ghost more: nat)
      requires bytePos < outBuf.Length && part < Pow2(bitPos) && Leaves(b, rest, left, 8)
      requires bitPos + need <= 7 && left < need == left + zeros && LaidOut(Shl(part, need))
      modifies outBuf
      ensures LaidOut(Shl(more, zeros)) && more < Pow2(bitPos + left)
      ensures Shl(charsValue, bitPos + left) + more == Shl(Total(), left) + rest
    {
      more := CharContinued(charsValue, part, bitPos, need, b, rest, left, zeros, 8);
      OrCell(Shl(part, need), Shr(b, 8 - need), Shl(more, zeros));
    }

    method NextChar(ghost d: octet)
      requires LaidOut(d) && bytePos < outBuf.Length && charsValue == Value(Chars(), bitsPerChar)
      modifies this`bytePos, this`bitPos, this`full, this`part, this`charsValue
      ensures LaidOut(0) && bytePos == old(bytePos) + 1 && bitPos == part == 0 && full == old(full) + [d]
      ensures charsValue == Value(Chars(), bitsPerChar) == Shl(old(charsValue), bitsPerChar) + d
    {
      ValueOneMore(Chars(), d, bitsPerChar);
      assert digits + (full + [d]) == (digits + full) + [d];
      full, part := full + [d], 0;
      charsValue := Value(Chars(), bitsPerChar);
      bitPos := 0;
      bytePos := bytePos + 1;
    }

    // The current character is completed from b.
    method CompleteChar(ghost bits: nat, b: octet, ghost rest: nat, left: nat, need: nat)
      requires Shaped() && Holds(bits) && bytePos < outputBlockSize && Leaves(b, rest, left, 8)
      requires need == bitsPerChar - bitPos <= left
      modifies outBuf, this`bytePos, this`bitPos, this`full, this`part, this`charsValue
      ensures Holds(bits + need)
      ensures Shl(Total(), left - need) + Low(rest, left - need) == Shl(old(Total()), left) + rest
    {
      ghost var d := OrWhole(b, rest, left, need);
      ShlMonotonic(0, 0, bitsPerChar);
      NextChar(d);
      assert Total() == charsValue;
    }

    // What is left of b does not complete the current character.
    method PutRest(ghost bits: nat, b: octet, ghost rest: nat, left: nat)
      requires Shaped() && Holds(bits) && bytePos < outputBlockSize && Leaves(b, rest, left, 8) && left < bitsPerChar - bitPos
      modifies outBuf, this`bitPos, this`part
      ensures Holds(bits + left) && Total() == Shl(old(Total()), left) + rest
    {
      ghost var more := OrPart(b, rest, left, bitsPerChar - bitPos, bitsPerChar - (bitPos + left));
      part := more;
      bitPos := bitPos + left;
    }

    // Takes bits of b as far as the current character goes.
    method AbsorbBits(ghost bits: nat, b: octet, ghost rest: nat, left: nat) returns (next: octet,
        ghost nextRest: nat, nextLeft: nat)
      requires Shaped() && Holds(bits) && bits + left <= 8 * blockBytes && left > 0 && Leaves(b, rest, left, 8)
      modifies outBuf, this`bytePos, this`bitPos, this`full, this`part, this`charsValue
      ensures nextLeft < left && Leaves(next, nextRest, nextLeft, 8) && Holds(bits + left - nextLeft)
      ensures Shl(Total(), nextLeft) + nextRest == Shl(old(Total()), left) + rest
    {
      HasRoom(outputBlockSize, bitsPerChar, bytePos, bitPos);
      var bitsLeftInTarget := bitsPerChar - bitPos;
      if left >= bitsLeftInTarget {
        TakenLow(b, rest, left, bitsLeftInTarget, 8);
        next, nextRest, nextLeft := LowOctet(Shl(b, bitsLeftInTarget), 8), Low(rest, left - bitsLeftInTarget),
          left - bitsLeftInTarget;
        CompleteChar(bits, b, rest, left, bitsPerChar - bitPos);
      } else {
        NothingLeft(8);
        next, nextRest, nextLeft := 0, 0, 0;
        PutRest(bits, b, rest, left);
      }
    }

    // Takes all bits of a byte.
    method AbsorbByte(ghost bits: nat, input: octet)
      requires Shaped() && Holds(bits) && bits + 8 <= 8 * blockBytes
      modifies outBuf, this`bytePos, this`bitPos, this`full, this`part, this`charsValue
      ensures Holds(bits + 8) && Total() == Shl(old(Total()), 8) + input
    {
      AllLeft(input);
      var b, bitsLeftInSource: nat := input, 8;
      ghost var rest: nat := input;
      while bitsLeftInSource > 0
        invariant Leaves(b, rest, bitsLeftInSource, 8) && Holds(bits + 8 - bitsLeftInSource)
        invariant Shl(Total(), bitsLeftInSource) + rest == Shl(old(Total()), 8) + input
      {
        b, rest, bitsLeftInSource := AbsorbBits(bits + 8 - bitsLeftInSource, b, rest, bitsLeftInSource);
      }
    }

    // The characters in the buffer, in place of their values.
    method MapBuffer()
      requires bytePos == |full| <= outBuf.Length && outBuf[..bytePos] == full && AllBelow(full, |alphabet|)
      modifies outBuf
      ensures outBuf[..bytePos] == Characters(alphabet, full)
    {
      var i := 0;
      while i < bytePos
        invariant i <= bytePos
        invariant forall j :: 0 <= j < i ==> outBuf[j] == alphabet[full[j]]
        invariant outBuf[i..bytePos] == full[i..]
      {
        assert outBuf[i] == outBuf[i..bytePos][0];
        outBuf[i] := alphabet[outBuf[i]];
        i := i + 1;
      }
    }

    // What was output in this message, and what all its bits make.
    ghost predicate Accounted(total: int)
      reads `digits, `blocks, `output, `before, `message
    {
      && AllBelow(digits, |alphabet|) && |digits| == Bits(blocks, outputBlockSize)
      && output == before + Characters(alphabet, digits) && Value(message, 8) == total
    }

    // A byte was taken, and the block may be full.
    ghost predicate InBlock()
      reads this, outBuf
    {
      && Shaped() && Holds(8 * absorbed) && 0 < absorbed <= blockBytes && Accounted(Total())
      && Bits(|digits|, bitsPerChar) + 8 * absorbed == 8 * |message|
    }

    ghost predicate Valid()
      reads this, outBuf
    {
      && Shaped() && Accounted(Total()) && Bits(|digits|, bitsPerChar) + 8 * absorbed == 8 * |message|
      && (bytePos > 0 ==> Holds(8 * absorbed) && 0 < absorbed < blockBytes)
      && (bytePos == 0 ==> bitPos == part == absorbed == 0 && full == [] && charsValue == Value(Chars(), bitsPerChar))
    }

    method ClearBuffer()
      requires Shaped() && Valid() && bytePos == 0
      modifies outBuf
      ensures Holds(0) && Valid()
    {
      forall i | 0 <= i < outBuf.Length {
        outBuf[i] := 0;
      }
      ShlMonotonic(0, 0, bitsPerChar);
    }

    method TakeByte(input: octet)
      requires Shaped() && Holds(8 * absorbed) && absorbed < blockBytes && Accounted(Total())
      requires Bits(|digits|, bitsPerChar) + 8 * absorbed == 8 * |message|
      modifies outBuf, this`bytePos, this`bitPos, this`full, this`part, this`charsValue, this`absorbed, this`message
      ensures InBlock() && message == old(message) + [input]
    {
      ghost var total := Total();
      AbsorbByte(8 * absorbed, input);
      CountByte(input, total);
    }

    ghost method CountByte(input: octet, total: int)
      requires Shaped() && Holds(8 * absorbed + 8) && absorbed < blockBytes
      requires Accounted(total) && Total() == Shl(total, 8) + input
      requires Bits(|digits|, bitsPerChar) + 8 * absorbed == 8 * |message|
      modifies `absorbed, `message
      ensures InBlock() && message == old(message) + [input]
    {
      ValueOneMore(message, input, 8);
      absorbed := absorbed + 1;
      message := message + [input];
    }

    // The characters that go to the output are those of more digits.
    method Send(ghost more: seq<octet>, text: seq<octet>)
      requires AllBelow(digits, |alphabet|) && AllBelow(more, |alphabet|)
      requires output == before + Characters(alphabet, digits) && text == Characters(alphabet, more)
      modifies `output
      ensures AllBelow(digits + more, |alphabet|) && output == before + Characters(alphabet, digits + more)
    {
      CharactersAppend(alphabet, digits, more);
      output := output + text;
    }

    // A whole block goes to the output.
    method EmitBlock()
      requires InBlock() && bytePos == outputBlockSize
      modifies outBuf, this`bytePos, this`bitPos, this`full, this`part, this`digits, this`blocks, this`absorbed, this`output
      ensures Valid() && bytePos == 0
    {
      MapBuffer();
      Send(full, outBuf[..outputBlockSize]);
      BitsAdd(|digits|, |full|, bitsPerChar);
      digits, blocks, full := digits + full, blocks + 1, [];
      assert digits + full == digits;
      bytePos, bitPos, part, absorbed := 0, 0, 0, 0;
    }

    method PutByte(input: octet)
      requires Valid()
      modifies outBuf, this`bytePos, this`bitPos, this`full, this`part, this`charsValue, this`digits, this`blocks,
        this`absorbed, this`output, this`message
      ensures Valid() && message == old(message) + [input]
    {
      if bytePos == 0 {
        ClearBuffer();
      }
      TakeByte(input);
      HasRoom(outputBlockSize, bitsPerChar, bytePos, bitPos);
      if bytePos == outputBlockSize {
        EmitBlock();
      }
    }

    // An incomplete character is filled up with zeros.
    method CloseChar() returns (ghost zeros: nat)
      requires Valid()
      modifies `bytePos, `bitPos, `full, `part, `charsValue
      ensures zeros < bitsPerChar && bytePos == |full| <= outBuf.Length && outBuf[..bytePos] == full
      ensures AllBelow(full, Pow2(bitsPerChar)) && Value(Chars(), bitsPerChar) == Shl(Value(message, 8), zeros)
      ensures Bits(|digits|, bitsPerChar) + Bits(|full|, bitsPerChar) == 8 * |message| + zeros
    {
      if bitPos > 0 {
        zeros := FillChar();
      } else {
        zeros := 0;
        ShlMonotonic(0, 0, bitPos);
        FilledWithZeros(charsValue, part, bitPos, bitsPerChar);
      }
    }

    method FillChar() returns (ghost zeros: nat)
      requires Valid() && bitPos > 0
      modifies `bytePos, `bitPos, `full, `part, `charsValue
      ensures zeros < bitsPerChar && bytePos == |full| <= outBuf.Length && outBuf[..bytePos] == full
      ensures AllBelow(full, Pow2(bitsPerChar)) && Value(Chars(), bitsPerChar) == Shl(Value(message, 8), zeros)
      ensures Bits(|digits|, bitsPerChar) + Bits(|full|, bitsPerChar) == 8 * |message| + zeros
    {
      zeros := bitsPerChar - bitPos;
      FilledWithZeros(charsValue, part, bitPos, bitsPerChar);
      assert Value(message, 8) == Shl(charsValue, bitPos) + part;
      ghost var cell := Shl(part, zeros);
      NextChar(cell);
    }

    // The characters of the last, incomplete block, and padding behind them.
    method LastBlock() returns (text: seq<octet>)
      requires Shaped() && bytePos == |full| <= outBuf.Length && outBuf[..bytePos] == full && AllBelow(full, |alphabet|)
      modifies outBuf
      ensures text == Characters(alphabet, full) + (if padding.Some?
        && bytePos > 0 then Repeated(padding.value, outputBlockSize - bytePos) else [])
    {
      MapBuffer();
      if padding.Some? && bytePos > 0 {
        forall i | bytePos <= i < outBuf.Length {
          outBuf[i] := padding.value;
        }
        assert outBuf[bytePos..] == Repeated(padding.value, outputBlockSize - bytePos);
        text := outBuf[..];
        assert text == text[..bytePos] + text[bytePos..];
      } else {
        text := outBuf[..bytePos];
      }
    }

    // The last characters go to the output.
    method Flush()
      requires Valid()
      modifies outBuf, `bytePos, `bitPos, `full, `part, `charsValue, `output
      ensures output == before + Encoded(alphabet, bitsPerChar, padding, outputBlockSize, message)
    {
      ghost var zeros := CloseChar();
      var text := LastBlock();
      IsText(before, alphabet, padding, outputBlockSize, digits, full, blocks, text);
      JoinedBits(digits, full, bitsPerChar);
      IsEncoded(alphabet, bitsPerChar, padding, outputBlockSize, message, Chars(), zeros);
      output := output + text;
    }

    // The end of a message: what is left goes to the output, and the next message can start.
    method Finish()
      requires Valid()
      modifies outBuf, `bytePos, `bitPos, `full, `part, `charsValue, `output, `before, `message, `digits, `blocks, `absorbed
      ensures Valid() && message == [] && before == output
      ensures output == old(before) + Encoded(alphabet, bitsPerChar, padding, outputBlockSize, old(message))
      ensures IsTextOf(output[|old(before)|..], alphabet, bitsPerChar, padding, outputBlockSize, old(message))
    {
      EncodedIsText(alphabet, bitsPerChar, padding, outputBlockSize, message);
      ghost var text := Encoded(alphabet, bitsPerChar, padding, outputBlockSize, message);
      assert (before + text)[|before|..] == text;
      Flush();
      StartMessage();
    }

    method StartMessage()
      requires Shaped()
      modifies `bytePos, `bitPos, `full, `part, `charsValue, `before, `message, `digits, `blocks, `absorbed
      ensures Valid() && message == [] && before == output
    {
      bytePos, bitPos := 0, 0;
      before, message, digits, blocks, full, part, charsValue, absorbed := output, [], [], 0, [], 0, 0, 0;
      ShlMonotonic(0, 0, 0);
    }

    method PutBytes(input: seq<octet>)
      requires Valid()
      modifies outBuf, this`bytePos, this`bitPos, this`full, this`part, this`charsValue, this`digits, this`blocks,
        this`absorbed, this`output, this`message
      ensures Valid() && message == old(message) + input
    {
      for i := 0 to |input|
        invariant Valid() && message == old(message) + input[..i]
      {
        PutByte(input[i]);
      }
      assert input[..|input|] == input;
    }

    method Put(input: seq<octet>, messageEnd: bool)
      requires Valid()
      modifies outBuf, `bytePos, `bitPos, `full, `part, `charsValue, `output, `before, `message, `digits, `blocks, `absorbed
      ensures Valid()
      ensures !messageEnd ==> message == old(message) + input && before == old(before)
      ensures messageEnd ==> message == [] && before == output
      ensures messageEnd ==>
        && output == old(before) + Encoded(alphabet, bitsPerChar, padding, outputBlockSize, old(message) + input)
        && IsTextOf(output[|old(before)|..], alphabet, bitsPerChar, padding, outputBlockSize, old(message) + input)
    {
      PutBytes(input);
      if messageEnd {
        Finish();
      }
    }

    constructor (alphabet: seq<octet>, log2Base: nat, padding: Option<octet>)
      requires 1 <= log2Base <= 7 && |alphabet| == Pow2(log2Base)
      ensures Valid() && this.alphabet == alphabet && bitsPerChar == log2Base && this.padding == padding
      ensures IsBlockSize(outputBlockSize, log2Base) && message == [] && output == before == []
      ensures fresh(outBuf)
    {
      this.alphabet, bitsPerChar, this.padding := alphabet, log2Base, padding;
      bytePos, bitPos, output := 0, 0, [];
      before, message, digits, blocks, full, part, charsValue, absorbed := [], [], [], 0, [], 0, 0, 0;
      var i := 8;
      ghost var k := 1;
      EightFit(log2Base);
      while i % log2Base != 0
        invariant i == 8 * k && 1 <= k <= log2Base
        invariant NoneFits(k, log2Base)
        decreases log2Base - k
      {
        i := i + 8;
        k := k + 1;
      }
      DivFacts(i, log2Base);
      BitsIsProduct(i / log2Base, log2Base);
      outputBlockSize := i / log2Base;
      outBuf := new octet[i / log2Base](_ => 0);
      blockBytes := k;
      new;
      ShlMonotonic(0, 0, bitPos);
    }
  }

  // What was output before, and the last block, are the text of all digits.
  lemma IsText(before: seq<octet>, alphabet: seq<octet>, padding: Option<octet>, blockChars: nat,
               digits: seq<octet>, full: seq<octet>, blocks: nat, text: seq<octet>)
    requires blockChars > 0 && AllBelow(digits, |alphabet|) && AllBelow(full, |alphabet|) && |full| <= blockChars
    requires |digits| == Bits(blocks, blockChars)
    requires text == Characters(alphabet, full) + (if padding.Some?
      && |full| > 0 then Repeated(padding.value, blockChars - |full|) else [])
    ensures AllBelow(digits + full, |alphabet|)
    ensures (before + Characters(alphabet, digits)) + text == before + Text(alphabet, digits + full, padding, blockChars)
  {
    var tail := if padding.Some? && |full| > 0 then Repeated(padding.value, blockChars - |full|) else [];
    CharactersAppend(alphabet, digits, full);
    assert (before + Characters(alphabet, digits)) + (Characters(alphabet, full) + tail)
        == before + (Characters(alphabet, digits + full) + tail);
    PaddingIs(padding, blocks, |full|, blockChars);
  }

  // All digits are those of the message.
  lemma IsEncoded(alphabet: seq<octet>, width: nat, padding: Option<octet>, blockChars: nat, message: seq<octet>,
      all: seq<octet>, zeros: nat)
    requires 1 <= width <= 7 && |alphabet| == Pow2(width) && blockChars > 0 && zeros < width && AllBelow(all, |alphabet|)
    requires Bits(|all|, width) == 8 * |message| + zeros && Value(all, width) == Shl(Value(message, 8), zeros)
    ensures Encoded(alphabet, width, padding, blockChars, message) == Text(alphabet, all, padding, blockChars)
  {
    MessageDigitsAre(message, all, zeros, width);
  }

  lemma JoinedBits(a: seq<octet>, b: seq<octet>, width: nat)
    ensures Bits(|a + b|, width) == Bits(|a|, width) + Bits(|b|, width)
  {
    BitsAdd(|a|, |b|, width);
  }

  lemma PaddingIs(padding: Option<octet>, blocks: nat, chars: nat, blockChars: nat)
    requires blockChars > 0 && chars <= blockChars
    ensures Padding(padding, Bits(blocks, blockChars) + chars, blockChars)
         == if padding.Some? && chars > 0 then Repeated(padding.value, blockChars - chars) else []
  {
    BitsIsProduct(blocks, blockChars);
    if chars == blockChars {
      DivIsUnique(Bits(blocks, blockChars) + chars, blockChars, blocks + 1, 0);
      DivIsUnique(blockChars, blockChars, 1, 0);
    } else {
      DivIsUnique(Bits(blocks, blockChars) + chars, blockChars, blocks, chars);
      if chars == 0 {
        DivIsUnique(blockChars, blockChars, 1, 0);
      } else {
        DivIsUnique(blockChars - chars, blockChars, 0, blockChars - chars);
      }
    }
  }

  // No number of bytes below k makes whole characters.
  ghost predicate NoneFits(k: nat, width: nat)
    requires width > 0
  {
    forall j :: 0 < j < k ==> !Fit(j, width)
  }

  predicate Fit(bytes: nat, width: nat)
    requires width > 0
  {
    (8 * bytes) % width == 0
  }

  lemma EightFit(width: nat)
    requires width > 0
    ensures Fit(width, width)
  {
    DivIsUnique(8 * width, width, 8, 0);
  }

  // The characters of the smallest number of bytes that makes whole characters.
  ghost predicate IsBlockSize(chars: nat, width: nat) {
    width > 0 && exists bytes: nat :: bytes > 0 && Bits(chars, width) == 8 * bytes && NoneFits(bytes, width)
  }

  // Four characters of six bits make whole bytes, eight of five, two of four, and so on.
  lemma BlockSizeIs(chars: nat, width: nat)
    requires 1 <= width <= 7 && IsBlockSize(chars, width)
    ensures chars == [8, 4, 8, 2, 8, 4, 8][width - 1]
  {
    var bytes: nat :| bytes > 0 && Bits(chars, width) == 8 * bytes && NoneFits(bytes, width);
    BitsIsProduct(chars, width);
    assert Fit([1, 1, 3, 1, 5, 3, 7][width - 1], width);
    assert bytes <= [1, 1, 3, 1, 5, 3, 7][width - 1];
  }

  lemma NothingLeft(size: nat)
    ensures Leaves(0, 0, 0, size)
  {
    ShlMonotonic(0, 0, size);
  }

  lemma AllLeft(b: octet)
    ensures Leaves(b, b, 8, 8)
  {
    assert Pow2(8) == 256;
  }
}
