// Encoding in a base that is a power of two, as arithmetic: the message is one big number, written in
// another base.

module BaseNFormat {
  import opened Numbers
  import opened DigitStrings

  // So many characters hold the bits of so many bytes; the last one is filled up with zeros.
  function CharCount(bytes: nat, width: nat): nat
    requires width > 0
  {
    (8 * bytes + width - 1) / width
  }

  function FillBits(bytes: nat, width: nat): (z: nat)
    requires width > 0
    ensures z < width && Bits(CharCount(bytes, width), width) == 8 * bytes + z
  {
    DivFacts(8 * bytes + width - 1, width);
    BitsIsProduct(CharCount(bytes, width), width);
    Bits(CharCount(bytes, width), width) - 8 * bytes
  }

  // The digits of a message.
  function MessageDigits(message: seq<octet>, width: nat): seq<octet>
    requires 1 <= width <= 8
  {
    ShlMonotonic(0, Value(message, 8), FillBits(|message|, width));
    Digits(Shl(Value(message, 8), FillBits(|message|, width)), CharCount(|message|, width), width)
  }

  // The bytes that digits make; bits that do not make a byte are dropped.
  function DigitBytes(digits: seq<octet>, width: nat): seq<octet> {
    Digits(Shr(Value(digits, width), Bits(|digits|, width) % 8), Bits(|digits|, width) / 8, 8)
  }

  lemma CharCountIs(bytes: nat, count: nat, zeros: nat, width: nat)
    requires zeros < width && Bits(count, width) == 8 * bytes + zeros
    ensures count == CharCount(bytes, width) && zeros == FillBits(bytes, width)
  {
    BitsIsProduct(count, width);
    DivIsUnique(8 * bytes + width - 1, width, count, width - 1 - zeros);
  }

  // What an encoder has put together is the digits of the message.
  lemma MessageDigitsAre(message: seq<octet>, ds: seq<octet>, zeros: nat, width: nat)
    requires 1 <= width <= 8 && AllBelow(ds, Pow2(width)) && zeros < width
    requires Bits(|ds|, width) == 8 * |message| + zeros && Value(ds, width) == Shl(Value(message, 8), zeros)
    ensures ds == MessageDigits(message, width)
  {
    CharCountIs(|message|, |ds|, zeros, width);
    DigitsOfValue(ds, width);
  }

  // What a decoder has put together is the bytes of the digits.
  lemma DigitBytesAre(digits: seq<octet>, bytes: seq<octet>, part: nat, bitPos: nat, width: nat)
    requires bitPos < 8 && part < Pow2(bitPos) && Bits(|digits|, width) == 8 * |bytes| + bitPos
    requires Value(digits, width) == Shl(Value(bytes, 8), bitPos) + part
    ensures DigitBytes(digits, width) == bytes
  {
    DivIsUnique(Bits(|digits|, width), 8, |bytes|, bitPos);
    SplitIsUnique(Value(digits, width), bitPos, Value(bytes, 8), part);
    BytesBelow(bytes);
    DigitsOfValue(bytes, 8);
  }

  lemma FilledUp(v: nat, bits: nat, zeros: nat, count: nat, width: nat) returns (filled: nat)
    requires v < Pow2(bits) && Bits(count, width) == bits + zeros
    ensures filled == Shl(v, zeros) && filled < Pow2(Bits(count, width))
  {
    ShlWithin(v, bits, zeros);
    filled := Shl(v, zeros);
  }

  lemma MessageDigitsValue(message: seq<octet>, width: nat)
    requires 1 <= width <= 8
    ensures |MessageDigits(message, width)| == CharCount(|message|, width)
    ensures Value(MessageDigits(message, width), width) == Shl(Value(message, 8), FillBits(|message|, width))
    ensures AllBelow(MessageDigits(message, width), Pow2(width))
  {
    BytesValueBelow(message);
    var filled := FilledUp(Value(message, 8), 8 * |message|, FillBits(|message|, width), CharCount(|message|, width), width);
    ValueOfDigits(filled, CharCount(|message|, width), width);
  }

  // Writing a message in another base and reading it back is the identity.
  lemma DigitsRoundTrip(message: seq<octet>, width: nat)
    requires 1 <= width <= 8
    ensures DigitBytes(MessageDigits(message, width), width) == message
  {
    MessageDigitsValue(message, width);
    DigitBytesAre(MessageDigits(message, width), message, 0, FillBits(|message|, width), width);
  }

  // The number read so far, with the completed character behind it.
  lemma CompletedValue(chars: nat, part: nat, bitPos: nat, need: nat, rest: nat, left: nat) returns (d: nat)
    requires need <= left && part < Pow2(bitPos) && rest < Pow2(left)
    ensures d == Shl(part, need) + Shr(rest, left - need) && d < Pow2(bitPos + need)
    ensures Shl(Shl(chars, bitPos + need) + d, left - need) + Low(rest, left - need)
         == Shl(Shl(chars, bitPos) + part, left) + rest
  {
    ShrBelow(rest, need, left - need);
    ShlBelow(part, bitPos, need, Shr(rest, left - need));
    d := Shl(part, need) + Shr(rest, left - need);
    SplitValue(chars, part, bitPos, need, rest, left, d);
  }

  lemma SplitValue(chars: nat, part: nat, bitPos: nat, need: nat, rest: nat, left: nat, d: nat)
    requires need <= left && d == Shl(part, need) + Shr(rest, left - need)
    ensures Shl(Shl(chars, bitPos + need) + d, left - need) + Low(rest, left - need)
         == Shl(Shl(chars, bitPos) + part, left) + rest
  {
    var all := Shl(chars, bitPos) + part;
    ShrSplit(rest, left - need);
    ShlAdds(Shl(chars, bitPos), part, need);
    ShlShl(chars, bitPos, need);
    ShlShl(all, need, left - need);
    ShlAdds(Shl(all, need), Shr(rest, left - need), left - need);
  }

  // The number read so far, with all that was left behind it.
  lemma ContinuedValue(chars: nat, part: nat, bitPos: nat, target: nat, rest: nat, left: nat)
    requires left <= target && part < Pow2(bitPos) && rest < Pow2(left)
    ensures 0 <= Shl(part, left) + rest < Pow2(bitPos + left)
    ensures Shl(part, target) + Shl(rest, target - left) == Shl(Shl(part, left) + rest, target - left)
    ensures Shl(chars, bitPos + left) + (Shl(part, left) + rest) == Shl(Shl(chars, bitPos) + part, left) + rest
  {
    ShlBelow(part, bitPos, left, rest);
    ShlAdds(Shl(part, left), rest, target - left);
    ShlShl(part, left, target - left);
    ShlAdds(Shl(chars, bitPos), part, left);
    ShlShl(chars, bitPos, left);
  }

  // The bits so far with those behind them, which leave so many zeros.
  lemma Joined(bytes: nat, part: nat, bitPos: nat, width: nat, v: nat, room: nat, zeros: nat) returns (more: nat)
    requires room == width + zeros && part < Pow2(bitPos) && v < Pow2(width)
    ensures more < Pow2(bitPos + width) && Shl(part, room) + Shl(v, zeros) == Shl(more, zeros)
    ensures Shl(bytes, bitPos + width) + more == Shl(Shl(bytes, bitPos) + part, width) + v
  {
    ContinuedValue(bytes, part, bitPos, room, v, width);
    more := Shl(part, width) + v;
  }

  // Bit j of digits that follow each other, the first one on top; behind them there are zeros.
  predicate BitAt(ds: seq<octet>, width: nat, j: nat)
    requires width > 0
  {
    DivFacts(j, width);
    j / width < |ds| && GetBit(ds[j / width], width - 1 - j % width)
  }

  lemma PlaceOfBit(count: nat, width: nat, j: nat)
    requires width > 0 && j < Bits(count, width)
    ensures 0 <= j / width < count && 0 <= j % width < width
    ensures Bits(count - 1 - j / width, width) + (width - 1 - j % width) == Bits(count, width) - 1 - j
  {
    var k := j / width;
    DivFacts(j, width);
    BitsIsProduct(count, width);
    if k >= count {
      MulMonotonic(count, k, width);
    }
    BitsIsProduct(count - 1 - k, width);
    MulDistributes(count, k + 1, width);
    MulDistributes(k, 1, width);
  }

  lemma BitOfString(ds: seq<octet>, width: nat, j: nat)
    requires 1 <= width <= 8 && AllBelow(ds, Pow2(width)) && j < Bits(|ds|, width)
    ensures BitAt(ds, width, j) <==> GetBit(Value(ds, width), Bits(|ds|, width) - 1 - j)
  {
    PlaceOfBit(|ds|, width, j);
    BitOfValue(ds, width, j / width, width - 1 - j % width);
  }

  lemma BeyondLastBit(ds: seq<octet>, j: nat)
    requires j >= 8 * |ds|
    ensures !BitAt(ds, 8, j)
  {
  }

  lemma BitOfBytes(bytes: seq<octet>, j: nat)
    requires j < 8 * |bytes|
    ensures BitAt(bytes, 8, j) <==> GetBit(Value(bytes, 8), 8 * |bytes| - 1 - j)
  {
    BytesBelow(bytes);
    BitsIsProduct(|bytes|, 8);
    BitOfString(bytes, 8, j);
  }

  // The bits of a message in front of zeros.
  lemma FilledBit(message: seq<octet>, zeros: nat, j: nat)
    requires j < 8 * |message| + zeros
    ensures Shl(Value(message, 8), zeros) >= 0
    ensures GetBit(Shl(Value(message, 8), zeros), 8 * |message| + zeros - 1 - j) <==> BitAt(message, 8, j)
  {
    if j < 8 * |message| {
      BitOfBytes(message, j);
      ShlBit(Value(message, 8), zeros, 8 * |message| - 1 - j);
    } else {
      BeyondLastBit(message, j);
      ShlBelowBit(Value(message, 8), zeros, 8 * |message| + zeros - 1 - j);
    }
  }

  // The digits of a message hold its bits, in order, and zeros after them.
  lemma MessageBits(message: seq<octet>, width: nat, j: nat)
    requires 1 <= width <= 8 && j < Bits(CharCount(|message|, width), width)
    ensures BitAt(MessageDigits(message, width), width, j) <==> BitAt(message, 8, j)
  {
    MessageDigitsValue(message, width);
    FilledBit(message, FillBits(|message|, width), j);
    BitOfString(MessageDigits(message, width), width, j);
  }

  // The bytes that digits make hold their bits, in order, as far as there are eight for a byte.
  lemma DecodedBits(digits: seq<octet>, width: nat, j: nat)
    requires 1 <= width <= 8 && AllBelow(digits, Pow2(width)) && j < 8 * (Bits(|digits|, width) / 8)
    ensures |DigitBytes(digits, width)| == Bits(|digits|, width) / 8
    ensures BitAt(DigitBytes(digits, width), 8, j) <==> BitAt(digits, width, j)
  {
    var all := Bits(|digits|, width);
    assert j < all;
    BitOfString(digits, width, j);
    BitOfFront(Value(digits, width), all, j);
    assert DigitBytes(digits, width) == Digits(Shr(Value(digits, width), all % 8), all / 8, 8);
  }

  lemma BitOfFront(v: nat, all: nat, j: nat)
    requires j < 8 * (all / 8)
    ensures BitAt(Digits(Shr(v, all % 8), all / 8, 8), 8, j) <==> GetBit(v, all - 1 - j)
  {
    var count, dropped := all / 8, all % 8;
    BitsIsProduct(count, 8);
    BitOfOctets(Shr(v, dropped), count, j);
    ShrShr(v, dropped, 8 * count - 1 - j);
  }

  lemma BitOfOctets(v: nat, count: nat, j: nat)
    requires j < Bits(count, 8)
    ensures BitAt(Digits(v, count, 8), 8, j) <==> GetBit(v, Bits(count, 8) - 1 - j)
  {
    PlaceOfBit(count, 8, j);
    BitOfDigit(v, count, 8, j / 8, 7 - j % 8);
  }
}
