// The filter that groups text, the lookup table that decoding uses, and encoding, grouping and decoding
// in sequence.

module BaseNFilters {
  import opened Numbers
  import opened Wrappers
  import opened Pieces
  import opened DigitStrings
  import opened BaseNText
  import BaseNEncoder
  import BaseNDecoder

  // Text in so many whole groups and a last one that is not empty, unless there is no text.
  ghost predicate InGroups(text: seq<octet>, groupSize: nat, groups: nat, last: nat) {
    |text| == Bits(groups, groupSize) + last && last <= groupSize && (last == 0 ==> text == [])
  }

  // More text in the last group.
  lemma {:induction false} GroupGrows(text: seq<octet>, groupSize: nat, separator: seq<octet>, groups: nat,
      last: nat, more: seq<octet>)
    requires groupSize > 0 && InGroups(text, groupSize, groups, last) && last + |more| <= groupSize
    ensures Grouped(text + more, groupSize, separator) == Grouped(text, groupSize, separator) + more
    decreases groups
  {
    if groups > 0 {
      var first, rest := text[..groupSize], text[groupSize..];
      if last > 0 {
        GroupGrows(rest, groupSize, separator, groups - 1, last, more);
        assert (text + more)[..groupSize] == first && (text + more)[groupSize..] == rest + more;
        assert first + separator + (Grouped(rest, groupSize, separator) + more)
            == first + separator + Grouped(rest, groupSize, separator) + more;
      }
    }
  }

  // A new group.
  lemma {:induction false} GroupStarts(text: seq<octet>, groupSize: nat, separator: seq<octet>, groups: nat, more: seq<octet>)
    requires groupSize > 0 && InGroups(text, groupSize, groups, groupSize) && 0 < |more| <= groupSize
    ensures Grouped(text + more, groupSize, separator) == Grouped(text, groupSize, separator) + separator + more
    decreases groups
  {
    var first, rest := text[..groupSize], text[groupSize..];
    assert (text + more)[..groupSize] == first && (text + more)[groupSize..] == rest + more;
    if groups > 0 {
      GroupStarts(rest, groupSize, separator, groups - 1, more);
      assert first + separator + (Grouped(rest, groupSize, separator) + separator + more)
          == first + separator + Grouped(rest, groupSize, separator) + separator + more;
    } else {
      assert rest == [] && rest + more == more && text == first;
    }
  }

  // The output with one more part of a group, after a separator if the last group is full.
  lemma NextPart(before: seq<octet>, text: seq<octet>, groupSize: nat, separator: seq<octet>, groups: nat, last: nat,
      more: seq<octet>)
    requires groupSize > 0 && InGroups(text, groupSize, groups, last) && more != []
    requires (if last == groupSize then 0 else last) + |more| <= groupSize
    ensures last == groupSize ==>
      && InGroups(text + more, groupSize, groups + 1, |more|)
      && before + Grouped(text, groupSize, separator) + separator + more == before + Grouped(text + more, groupSize, separator)
    ensures last < groupSize ==>
      && InGroups(text + more, groupSize, groups, last + |more|)
      && before + Grouped(text, groupSize, separator) + more == before + Grouped(text + more, groupSize, separator)
  {
    var grouped := Grouped(text, groupSize, separator);
    if last == groupSize {
      GroupStarts(text, groupSize, separator, groups, more);
      Associates(before + grouped, separator, more);
      Associates(before, grouped, separator + more);
      Associates(grouped, separator, more);
    } else {
      GroupGrows(text, groupSize, separator, groups, last, more);
      Associates(before, grouped, more);
    }
  }

  class Grouper {
    const groupSize: nat
    const separator: seq<octet>
    const terminator: seq<octet>
    var counter: nat
    // What the attached transformation has received.
    var output: seq<octet>

    ghost var before: seq<octet>
    ghost var text: seq<octet>
    ghost var groups: nat

    ghost predicate Valid()
      reads this
    {
      && output == before + Grouped(text, groupSize, separator)
      && (groupSize > 0 ==> InGroups(text, groupSize, groups, counter))
    }

    constructor (groupSize: nat, separator: seq<octet>, terminator: seq<octet>)
      ensures Valid() && this.groupSize == groupSize && this.separator == separator && this.terminator == terminator
      ensures text == [] && output == before == []
    {
      this.groupSize, this.separator, this.terminator := groupSize, separator, terminator;
      counter, output := 0, [];
      before, text, groups := [], [], 0;
    }

    // The part of the input that goes into one group, with a separator in front of it if the group before
    // is full.
    method PutGroup(input: seq<octet>) returns (len: nat)
      requires Valid() && groupSize > 0 && input != []
      modifies this`counter, this`output, this`text, this`groups
      ensures Valid() && 0 < len <= |input| && text == old(text) + input[..len]
    {
      ghost var last := counter;
      if counter == groupSize {
        output := output + separator;
        counter := 0;
        groups := groups + 1;
      }
      len := if |input| <= groupSize - counter then |input| else groupSize - counter;
      NextPart(before, text, groupSize, separator, old(groups), last, input[..len]);
      output := output + input[..len];
      counter := counter + len;
      text := text + input[..len];
    }

    method Put(input: seq<octet>, messageEnd: bool)
      requires Valid()
      modifies this`counter, this`output, this`text, this`groups, this`before
      ensures Valid()
      ensures !messageEnd ==> text == old(text) + input && before == old(before)
      ensures messageEnd ==> text == [] && before == output
      ensures messageEnd ==> output == old(before) + (Grouped(old(text) + input, groupSize, separator) + terminator)
    {
      if groupSize > 0 {
        PutGroups(input);
      } else {
        assert before + (text + input) == before + text + input;
        output := output + input;
        text := text + input;
      }
      if messageEnd {
        EndMessage();
      }
    }

    method PutGroups(input: seq<octet>)
      requires Valid() && groupSize > 0
      modifies this`counter, this`output, this`text, this`groups
      ensures Valid() && text == old(text) + input
    {
      var inputPosition := 0;
      while inputPosition < |input|
        invariant inputPosition <= |input| && Valid() && text == old(text) + input[..inputPosition]
      {
        var len := PutGroup(input[inputPosition..]);
        assert input[..inputPosition] + input[inputPosition..][..len] == input[..inputPosition + len];
        inputPosition := inputPosition + len;
      }
      assert input[..inputPosition] == input;
    }

    method EndMessage()
      requires Valid()
      modifies this`counter, this`output, this`text, this`groups, this`before
      ensures Valid() && text == [] && before == output
      ensures output == old(before) + (Grouped(old(text), groupSize, separator) + terminator)
    {
      output := output + terminator;
      counter := 0;
      before, text, groups := output, [], 0;
    }
  }

  // Letters of the portable character set.
  predicate IsUpper(c: octet) {
    65 <= c <= 90
  }

  predicate IsLower(c: octet) {
    97 <= c <= 122
  }

  function ToUpper(c: octet): octet {
    if IsLower(c) then c - 32 else c
  }

  function ToLower(c: octet): octet {
    if IsUpper(c) then c + 32 else c
  }

  // Whether c is read as the character a of the alphabet.
  predicate Matches(a: octet, c: octet, caseInsensitive: bool) {
    c == a || (caseInsensitive && (IsUpper(a) || IsLower(a)) && (c == ToUpper(a) || c == ToLower(a)))
  }

  // One letter in both cases.
  predicate IsLetter(upper: char, lower: char) {
    'A' <= upper <= 'Z' && 'a' <= lower <= 'z' && upper as int - 'A' as int == lower as int - 'a' as int
  }

  // Without regard to case, a letter is read as itself and as its other case, and any other character as itself.
  lemma MatchesAre(a: octet, c: octet)
    ensures Matches(a, c, true) <==> a == c || IsLetter(a as char, c as char) || IsLetter(c as char, a as char)
    ensures Matches(a, c, false) <==> a == c
  {
  }

  // The last of the first n characters of the alphabet that c is read as, or -1.
  function LastMatch(alphabet: seq<octet>, n: nat, c: octet, caseInsensitive: bool): (v: int)
    requires n <= |alphabet|
    ensures -1 <= v < n
    ensures v >= 0 ==> Matches(alphabet[v], c, caseInsensitive)
    ensures forall i :: v < i < n ==> !Matches(alphabet[i], c, caseInsensitive)
  {
    if n == 0 then -1
    else if Matches(alphabet[n - 1], c, caseInsensitive) then n - 1
    else LastMatch(alphabet, n - 1, c, caseInsensitive)
  }

  method InitializeDecodingLookupArray(lookup: array<int>, alphabet: seq<octet>, base: nat, caseInsensitive: bool)
    requires lookup.Length == 256 && base <= |alphabet|
    modifies lookup
    ensures forall c: octet :: lookup[c] == LastMatch(alphabet, base, c, caseInsensitive)
  {
    forall c | 0 <= c < 256 {
      lookup[c] := -1;
    }
    for i := 0 to base
      invariant forall c: octet :: lookup[c] == LastMatch(alphabet, i, c, caseInsensitive)
    {
      if caseInsensitive && (IsUpper(alphabet[i]) || IsLower(alphabet[i])) {
        lookup[ToUpper(alphabet[i])] := i;
        lookup[ToLower(alphabet[i])] := i;
      } else {
        lookup[alphabet[i]] := i;
      }
    }
  }

  // No character is read as two characters of the alphabet.
  ghost predicate Unambiguous(alphabet: seq<octet>, caseInsensitive: bool) {
    forall i, j, c: octet :: 0 <= i < j < |alphabet| && Matches(alphabet[i], c, caseInsensitive)
      ==> !Matches(alphabet[j], c, caseInsensitive)
  }

  // The table undoes the alphabet, in any mix of cases if cases do not matter, holds values of the right
  // size, and has no value for other characters.
  lemma LookupInverts(lookup: seq<int>, alphabet: seq<octet>, written: seq<octet>, width: nat, caseInsensitive: bool)
    requires |lookup| == 256 && forall c: octet :: lookup[c] == LastMatch(alphabet, |alphabet|, c, caseInsensitive)
    requires width <= 7 && |alphabet| == |written| == Pow2(width) && Unambiguous(alphabet, caseInsensitive)
    requires forall i :: 0 <= i < |alphabet| ==> Matches(alphabet[i], written[i], caseInsensitive)
    ensures Inverts(lookup, written) && BaseNDecoder.HoldsValues(lookup, width)
    ensures forall c: octet ::
      (forall i :: 0 <= i < |alphabet| ==> !Matches(alphabet[i], c, caseInsensitive)) ==> Skipped(lookup, c)
  {
    WidthFits(width);
    forall d | 0 <= d < |written| ensures lookup[written[d]] == d {
      assert Matches(alphabet[d], written[d], caseInsensitive);
    }
  }

  method EncodeParts(encoder: BaseNEncoder.Encoder, parts: seq<seq<octet>>) returns (text: seq<octet>)
    requires encoder.Valid() && encoder.message == [] && encoder.output == encoder.before == []
    modifies encoder, encoder.outBuf
    ensures text == Encoded(encoder.alphabet, encoder.bitsPerChar, encoder.padding, encoder.outputBlockSize, Concat(parts))
    ensures IsTextOf(text, encoder.alphabet, encoder.bitsPerChar, encoder.padding, encoder.outputBlockSize, Concat(parts))
  {
    for i := 0 to |parts|
      invariant encoder.Valid() && encoder.message == Concat(parts[..i]) && encoder.before == []
    {
      ConcatNext(parts, i);
      encoder.Put(parts[i], false);
    }
    assert parts[..|parts|] == parts;
    encoder.Put([], true);
    assert Concat(parts) + [] == Concat(parts);
    text := encoder.output;
    assert text[|encoder.before| - |encoder.before|..] == text;
  }

  method GroupParts(grouper: Grouper, parts: seq<seq<octet>>) returns (text: seq<octet>)
    requires grouper.Valid() && grouper.text == [] && grouper.output == grouper.before == []
    modifies grouper
    ensures text == Grouped(Concat(parts), grouper.groupSize, grouper.separator) + grouper.terminator
  {
    for i := 0 to |parts|
      invariant grouper.Valid() && grouper.text == Concat(parts[..i]) && grouper.before == []
    {
      ConcatNext(parts, i);
      grouper.Put(parts[i], false);
    }
    assert parts[..|parts|] == parts;
    grouper.Put([], true);
    assert Concat(parts) + [] == Concat(parts);
    text := grouper.output;
  }

  method DecodeParts(decoder: BaseNDecoder.Decoder, parts: seq<seq<octet>>) returns (message: seq<octet>)
    requires decoder.Valid() && decoder.text == [] && decoder.output == decoder.before == []
    modifies decoder, decoder.outBuf
    ensures message == Decoded(decoder.lookup, decoder.bitsPerChar, Concat(parts))
  {
    for i := 0 to |parts|
      invariant decoder.Valid() && decoder.text == Concat(parts[..i]) && decoder.before == []
    {
      ConcatNext(parts, i);
      decoder.Put(parts[i], false);
    }
    assert parts[..|parts|] == parts;
    decoder.Put([], true);
    assert Concat(parts) + [] == Concat(parts);
    message := decoder.output;
  }

  // Any message in any pieces through all three filters, cut anew in any way before each of them, comes out
  // as it was.
  method RoundTripInParts(alphabet: seq<octet>, lookup: seq<int>, width: nat, padding: Option<octet>,
                          groupSize: nat, separator: seq<octet>, terminator: seq<octet>, parts: seq<seq<octet>>,
                          cut: seq<octet> -> seq<seq<octet>>, cutAgain: seq<octet> -> seq<seq<octet>>)
    returns (message: seq<octet>)
    requires 1 <= width <= 7 && |alphabet| == Pow2(width) && Inverts(lookup, alphabet) && BaseNDecoder.HoldsValues(lookup, width)
    requires (padding.Some? ==> Skipped(lookup, padding.value)) && AllSkipped(lookup, separator) && AllSkipped(lookup, terminator)
    requires (forall s :: Concat(cut(s)) == s) && (forall s :: Concat(cutAgain(s)) == s)
    ensures message == Concat(parts)
  {
    var encoder := new BaseNEncoder.Encoder(alphabet, width, padding);
    var encoded := EncodeParts(encoder, parts);
    var grouper := new Grouper(groupSize, separator, terminator);
    var grouped := GroupParts(grouper, cut(encoded));
    var decoder := new BaseNDecoder.Decoder(lookup, width);
    message := DecodeParts(decoder, cutAgain(grouped));
    RoundTrip(alphabet, lookup, width, padding, encoder.outputBlockSize, groupSize, separator, terminator, Concat(parts));
  }
}
