// Text in a base that is a power of two: alphabets, padding, groups and lookup tables, and the filters
// that encode, group and decode a stream.

module BaseNText {
  import opened Numbers
  import opened Wrappers
  import opened DigitStrings
  import opened BaseNFormat

  function Characters(alphabet: seq<octet>, digits: seq<octet>): (r: seq<octet>)
    requires AllBelow(digits, |alphabet|)
    ensures |r| == |digits|
  {
    seq(|digits|, i requires 0 <= i < |digits| => alphabet[digits[i]])
  }

  lemma CharactersAppend(alphabet: seq<octet>, a: seq<octet>, b: seq<octet>)
    requires AllBelow(a, |alphabet|) && AllBelow(b, |alphabet|)
    ensures AllBelow(a + b, |alphabet|)
    ensures Characters(alphabet, a + b) == Characters(alphabet, a) + Characters(alphabet, b)
  {
  }

  // Padding up to whole blocks.
  function Padding(padding: Option<octet>, chars: nat, blockChars: nat): seq<octet>
    requires blockChars > 0
  {
    match padding
    case None => []
    case Some(c) => Repeated(c, (blockChars - chars % blockChars) % blockChars)
  }

  function Repeated(c: octet, n: nat): seq<octet> {
    seq(n, _ => c)
  }

  function Text(alphabet: seq<octet>, digits: seq<octet>, padding: Option<octet>, blockChars: nat): seq<octet>
    requires AllBelow(digits, |alphabet|) && blockChars > 0
  {
    Characters(alphabet, digits) + Padding(padding, |digits|, blockChars)
  }

  // The text of a message.
  function Encoded(alphabet: seq<octet>, width: nat, padding: Option<octet>, blockChars: nat, message: seq<octet>): seq<octet>
    requires 1 <= width <= 7 && |alphabet| == Pow2(width) && blockChars > 0
  {
    MessageDigitsValue(message, width);
    Text(alphabet, MessageDigits(message, width), padding, blockChars)
  }

  // Characters without a value are skipped.
  predicate Skipped(lookup: seq<int>, c: octet)
    requires |lookup| == 256
  {
    !(0 <= lookup[c] < 256)
  }

  function Values(lookup: seq<int>, text: seq<octet>): seq<octet>
    requires |lookup| == 256
    decreases text, lookup
  {
    if text == [] then []
    else (if Skipped(lookup, text[0]) then [] else [lookup[text[0]]]) + Values(lookup, text[1..])
  }

  function Decoded(lookup: seq<int>, width: nat, text: seq<octet>): seq<octet>
    requires |lookup| == 256
  {
    DigitBytes(Values(lookup, text), width)
  }

  lemma {:induction false} ValuesAppend(lookup: seq<int>, a: seq<octet>, b: seq<octet>)
    requires |lookup| == 256
    ensures Values(lookup, a + b) == Values(lookup, a) + Values(lookup, b)
  {
    if a == [] {
      assert a + b == b;
    } else {
      assert (a + b)[1..] == a[1..] + b;
      ValuesAppend(lookup, a[1..], b);
    }
  }

  ghost predicate AllSkipped(lookup: seq<int>, text: seq<octet>)
    requires |lookup| == 256
  {
    forall i :: 0 <= i < |text| ==> Skipped(lookup, text[i])
  }

  lemma {:induction false} SkippedHaveNoValues(lookup: seq<int>, text: seq<octet>)
    requires |lookup| == 256 && AllSkipped(lookup, text)
    ensures Values(lookup, text) == []
  {
    if text != [] {
      SkippedHaveNoValues(lookup, text[1..]);
    }
  }

  // The lookup table undoes the alphabet.
  ghost predicate Inverts(lookup: seq<int>, alphabet: seq<octet>) {
    |lookup| == 256 && |alphabet| <= 256 && forall d :: 0 <= d < |alphabet| ==> lookup[alphabet[d]] == d
  }

  lemma {:induction false} ValuesOfCharacters(lookup: seq<int>, alphabet: seq<octet>, digits: seq<octet>)
    requires Inverts(lookup, alphabet) && AllBelow(digits, |alphabet|)
    ensures Values(lookup, Characters(alphabet, digits)) == digits
  {
    if digits != [] {
      assert Characters(alphabet, digits)[1..] == Characters(alphabet, digits[1..]);
      ValuesOfCharacters(lookup, alphabet, digits[1..]);
    }
  }

  // A separator between groups of the given size.
  function Grouped(text: seq<octet>, groupSize: nat, separator: seq<octet>): seq<octet>
    decreases |text|, separator
  {
    if groupSize == 0 || |text| <= groupSize then text
    else text[..groupSize] + separator + Grouped(text[groupSize..], groupSize, separator)
  }

  lemma {:induction false} GroupedHasSameValues(lookup: seq<int>, text: seq<octet>, groupSize: nat, separator: seq<octet>)
    requires |lookup| == 256 && AllSkipped(lookup, separator)
    ensures Values(lookup, Grouped(text, groupSize, separator)) == Values(lookup, text)
    decreases |text|
  {
    if groupSize != 0 && |text| > groupSize {
      var first, rest := text[..groupSize], text[groupSize..];
      assert text == first + rest;
      ValuesAppend(lookup, first, rest);
      ValuesAppend(lookup, first + separator, Grouped(rest, groupSize, separator));
      ValuesAppend(lookup, first, separator);
      SkippedHaveNoValues(lookup, separator);
      GroupedHasSameValues(lookup, rest, groupSize, separator);
    }
  }

  // Where the characters and the separators of grouped text are, and that there is nothing else: a separator is between
  // any two groups, and none at the end.
  lemma {:induction false} GroupedAt(text: seq<octet>, groupSize: nat, separator: seq<octet>, group: nat, k: nat)
    requires 0 < groupSize && 0 <= group * groupSize && k < groupSize + |separator|
    requires group * groupSize + (if k < groupSize then k else groupSize) < |text|
    ensures var grouped, at := Grouped(text, groupSize, separator), group * (groupSize + |separator|) + k;
            0 <= at < |grouped| && grouped[at] == if k < groupSize then text[group * groupSize + k] else separator[k - groupSize]
    decreases group
  {
    MulMonotonic(0, group, groupSize + |separator|);
    if group > 0 {
      MulDistributes(group, 1, groupSize);
      MulDistributes(group, 1, groupSize + |separator|);
      MulMonotonic(0, group - 1, groupSize);
      GroupedAt(text[groupSize..], groupSize, separator, group - 1, k);
    }
  }

  lemma {:induction false} GroupedLength(text: seq<octet>, groupSize: nat, separator: seq<octet>, group: nat)
    requires 0 < groupSize && group * groupSize < |text| <= (group + 1) * groupSize
    ensures |Grouped(text, groupSize, separator)| == |text| + group * |separator|
    decreases group
  {
    if group > 0 {
      MulDistributes(group, 1, groupSize);
      MulDistributes(group, 1, |separator|);
      MulMonotonic(1, group, groupSize);
      GroupedLength(text[groupSize..], groupSize, separator, group - 1);
    }
  }

  lemma EncodedHasDigits(alphabet: seq<octet>, lookup: seq<int>, width: nat, padding: Option<octet>, blockChars: nat,
      message: seq<octet>)
    requires 1 <= width <= 7 && |alphabet| == Pow2(width) && blockChars > 0 && Inverts(lookup, alphabet)
    requires padding.Some? ==> Skipped(lookup, padding.value)
    ensures Values(lookup, Encoded(alphabet, width, padding, blockChars, message)) == MessageDigits(message, width)
  {
    MessageDigitsValue(message, width);
    TextHasDigits(alphabet, lookup, MessageDigits(message, width), padding, blockChars);
  }

  lemma TextHasDigits(alphabet: seq<octet>, lookup: seq<int>, digits: seq<octet>, padding: Option<octet>, blockChars: nat)
    requires blockChars > 0 && Inverts(lookup, alphabet) && AllBelow(digits, |alphabet|)
    requires padding.Some? ==> Skipped(lookup, padding.value)
    ensures Values(lookup, Text(alphabet, digits, padding, blockChars)) == digits
  {
    ValuesOfCharacters(lookup, alphabet, digits);
    SkippedHaveNoValues(lookup, Padding(padding, |digits|, blockChars));
    ValuesAppend(lookup, Characters(alphabet, digits), Padding(padding, |digits|, blockChars));
  }

  // Separators and terminators make no difference.
  lemma GroupedDecodesAlike(lookup: seq<int>, width: nat, groupSize: nat, separator: seq<octet>,
      terminator: seq<octet>, text: seq<octet>)
    requires |lookup| == 256 && AllSkipped(lookup, separator) && AllSkipped(lookup, terminator)
    ensures Decoded(lookup, width, Grouped(text, groupSize, separator) + terminator) == Decoded(lookup, width, text)
  {
    GroupedHasSameValues(lookup, text, groupSize, separator);
    SkippedHaveNoValues(lookup, terminator);
    ValuesAppend(lookup, Grouped(text, groupSize, separator), terminator);
    assert Values(lookup, text) + [] == Values(lookup, text);
  }

  // Decoding the grouped text gives the message, whatever the width, the padding and the groups.
  lemma RoundTrip(alphabet: seq<octet>, lookup: seq<int>, width: nat, padding: Option<octet>, blockChars: nat,
                  groupSize: nat, separator: seq<octet>, terminator: seq<octet>, message: seq<octet>)
    requires 1 <= width <= 7 && |alphabet| == Pow2(width) && blockChars > 0 && Inverts(lookup, alphabet)
    requires padding.Some? ==> Skipped(lookup, padding.value)
    requires AllSkipped(lookup, separator) && AllSkipped(lookup, terminator)
    ensures Decoded(lookup, width, Grouped(Encoded(alphabet, width, padding, blockChars, message), groupSize,
      separator) + terminator)
         == message
  {
    GroupedDecodesAlike(lookup, width, groupSize, separator, terminator,
                        Encoded(alphabet, width, padding, blockChars, message));
    EncodedHasDigits(alphabet, lookup, width, padding, blockChars, message);
    DigitsRoundTrip(message, width);
  }

  predicate HoldsBit(d: nat, width: nat, message: seq<octet>, i: nat, b: nat)
    requires b < width
  {
    MulMonotonic(0, i, width);
    GetBit(d, width - 1 - b) <==> BitAt(message, 8, i * width + b)
  }

  // Character i of the text of a message stands for the bits of the message from i * width on, the first one on top.
  ghost predicate IsCharacter(c: octet, alphabet: seq<octet>, width: nat, message: seq<octet>, i: nat) {
    exists d: nat :: d < |alphabet| && c == alphabet[d] && forall b: nat :: b < width ==> HoldsBit(d, width, message, i, b)
  }

  // So many characters as the bits of the message need, and then only padding: up to a whole block, if there is a padding
  // character, and else none.
  ghost predicate IsTextOf(text: seq<octet>, alphabet: seq<octet>, width: nat, padding: Option<octet>, blockChars: nat,
      message: seq<octet>)
    requires width > 0 && blockChars > 0
  {
    var count := CharCount(|message|, width);
    && count <= |text| && 0 <= width * count - 8 * |message| < width
    && (forall i: nat :: i < count ==> IsCharacter(text[i], alphabet, width, message, i))
    && (padding == None ==> |text| == count)
    && (padding.Some? ==> |text| % blockChars == 0 && |text| < count + blockChars
                          && forall i :: count <= i < |text| ==> text[i] == padding.value)
  }

  lemma DigitHoldsBits(message: seq<octet>, width: nat, i: nat)
    requires 1 <= width <= 8 && i < CharCount(|message|, width)
    ensures |MessageDigits(message, width)| == CharCount(|message|, width)
    ensures forall b: nat :: b < width ==> HoldsBit(MessageDigits(message, width)[i], width, message, i, b)
  {
    MessageDigitsValue(message, width);
    forall b: nat | b < width ensures HoldsBit(MessageDigits(message, width)[i], width, message, i, b) {
      PlaceInDigit(CharCount(|message|, width), width, i, b);
      MessageBits(message, width, i * width + b);
    }
  }

  lemma PlaceInDigit(count: nat, width: nat, i: nat, b: nat)
    requires i < count && b < width
    ensures 0 <= i * width + b < Bits(count, width) && (i * width + b) / width == i && (i * width + b) % width == b
  {
    BitsIsProduct(count, width);
    MulMonotonic(i + 1, count, width);
    MulDistributes(i, 1, width);
    MulMonotonic(0, i, width);
    DivIsUnique(i * width + b, width, i, b);
  }

  lemma PaddingFills(padding: octet, chars: nat, blockChars: nat)
    requires blockChars > 0
    ensures var pad := Padding(Some(padding), chars, blockChars);
            && |pad| < blockChars && (chars + |pad|) % blockChars == 0
            && forall i :: 0 <= i < |pad| ==> pad[i] == padding
  {
    var q, r := chars / blockChars, chars % blockChars;
    DivFacts(chars, blockChars);
    if r == 0 {
      DivIsUnique(blockChars, blockChars, 1, 0);
    } else {
      DivIsUnique(blockChars - r, blockChars, 0, blockChars - r);
      MulDistributes(q, 1, blockChars);
      DivIsUnique(chars + (blockChars - r), blockChars, q + 1, 0);
    }
  }

  // The text of every message, with any padding.
  lemma EncodedIsText(alphabet: seq<octet>, width: nat, padding: Option<octet>, blockChars: nat, message: seq<octet>)
    requires 1 <= width <= 7 && |alphabet| == Pow2(width) && blockChars > 0
    ensures IsTextOf(Encoded(alphabet, width, padding, blockChars, message), alphabet, width, padding, blockChars, message)
  {
    var digits := MessageDigits(message, width);
    MessageDigitsValue(message, width);
    assert FillBits(|message|, width) < width;
    BitsIsProduct(CharCount(|message|, width), width);
    forall i: nat | i < |digits| ensures IsCharacter(alphabet[digits[i]], alphabet, width, message, i) {
      DigitHoldsBits(message, width, i);
    }
    IsPadded(alphabet, padding, blockChars, digits);
  }

  // The characters of the digits, and padding behind them.
  lemma IsPadded(alphabet: seq<octet>, padding: Option<octet>, blockChars: nat, digits: seq<octet>)
    requires blockChars > 0 && AllBelow(digits, |alphabet|)
    ensures var text := Text(alphabet, digits, padding, blockChars);
            && |digits| <= |text| && (forall i :: 0 <= i < |digits| ==> text[i] == alphabet[digits[i]])
            && (padding == None ==> |text| == |digits|)
            && (padding.Some? ==> |text| % blockChars == 0 && |text| < |digits| + blockChars
                                  && forall i :: |digits| <= i < |text| ==> text[i] == padding.value)
  {
    if padding.Some? {
      PaddingFills(padding.value, |digits|, blockChars);
    }
  }
}
