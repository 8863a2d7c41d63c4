// Object identifiers and unsigned integers as octets, after sections 8.3 and 8.19 of X.690.

module AsnValues {
  import opened Numbers
  import opened Wrappers
  import opened DigitStrings
  import opened AsnFormat

  const BOOLEAN: octet := 0x01
  const OBJECT_IDENTIFIER: octet := 0x06

  // Arcs are 32 bits wide.
  const ARC_LIMIT: nat := 0x1_0000_0000

  // The digits of an arc in base 128; zero has one.
  function ArcSize(v: nat): (n: nat)
    ensures n > 0
  {
    if v == 0 then 1 else
      DigitCountBounds(v, 7);
      DigitCount(v, 7)
  }

  lemma SevenBits(ds: seq<octet>)
    ensures AllBelow(ds, Pow2(7)) <==> AllBelow(ds, 128)
  {
    assert Pow2(7) == 128;
  }

  // All digits but the last are marked.
  function Marked(ds: seq<octet>): (r: seq<octet>)
    requires AllBelow(ds, 128)
    ensures |r| == |ds|
  {
    seq(|ds|, i requires 0 <= i < |ds| => if i + 1 < |ds| then 128 + ds[i] else ds[i])
  }

  function ArcDigits(v: nat): (ds: seq<octet>)
    ensures |ds| == ArcSize(v) && AllBelow(ds, 128) && Value(ds, 7) == v
  {
    ArcDigitsValue(v);
    Digits(v, ArcSize(v), 7)
  }

  lemma ArcDigitsValue(v: nat)
    ensures Value(Digits(v, ArcSize(v), 7), 7) == v && AllBelow(Digits(v, ArcSize(v), 7), 128)
  {
    DigitCountBounds(v, 7);
    if v == 0 {
      BitsIsProduct(1, 7);
    }
    ValueOfDigits(v, ArcSize(v), 7);
    SevenBits(Digits(v, ArcSize(v), 7));
  }

  function ArcOctets(v: nat): (r: seq<octet>)
    ensures |r| == ArcSize(v)
  {
    Marked(ArcDigits(v))
  }

  // An arc behind the number v, and what follows it. Whether it would overflow is seen before each digit.
  function ReadArc(v: nat, s: seq<octet>): (r: Option<(nat, seq<octet>)>)
    ensures r.Some? ==> |r.value.1| < |s| && r.value.0 < ARC_LIMIT
    decreases s, v
  {
    if s == [] || v >= 0x200_0000 then None
    else
      var next := 128 * v + s[0] % 128;
      if s[0] >= 128 then ReadArc(next, s[1..]) else Some((next, s[1..]))
  }

  lemma ShiftedBySeven(n: nat)
    ensures Shl(n, 7) == 128 * n
  {
    ShlIsProduct(n, 7);
    assert Pow2(7) == 128;
  }

  // The number behind which the other digits come, and what all of them make.
  lemma ArcStep(v: nat, d: octet, more: seq<octet>)
    ensures 128 * v + d <= Shl(128 * v + d, Bits(|more|, 7))
    ensures Shl(v, Bits(|more| + 1, 7)) + Value([d] + more, 7) == Shl(128 * v + d, Bits(|more|, 7)) + Value(more, 7)
  {
    ValueFirst(d, more, 7);
    BehindSeven(v, d, Bits(|more|, 7));
  }

  lemma BehindSeven(v: nat, d: nat, bits: nat)
    ensures Shl(v, bits + 7) + Shl(d, bits) == Shl(128 * v + d, bits) >= 128 * v + d
  {
    ShiftedBySeven(v);
    ShlShl(v, 7, bits);
    ShlAdds(128 * v, d, bits);
    Grows(128 * v + d, bits);
  }

  lemma MarkedStep(ds: seq<octet>, rest: seq<octet>)
    requires |ds| > 1 && AllBelow(ds, 128)
    ensures (Marked(ds) + rest)[0] == 128 + ds[0] && (Marked(ds) + rest)[1..] == Marked(ds[1..]) + rest
  {
  }

  // One digit at a time.
  lemma ReadDigit(v: nat, ds: seq<octet>, rest: seq<octet>)
    requires ds != [] && AllBelow(ds, 128)
    ensures ReadArc(v, Marked(ds) + rest)
         == if v >= 0x200_0000 then None
            else if |ds| == 1 then Some((128 * v + ds[0], rest)) else ReadArc(128 * v + ds[0], Marked(ds[1..]) + rest)
  {
    if |ds| == 1 {
      assert (Marked(ds) + rest)[1..] == rest;
    } else {
      MarkedStep(ds, rest);
    }
  }

  // Digits read as their value, behind the number v, unless that needs more than 32 bits.
  lemma {:induction false} ReadArcIs(v: nat, ds: seq<octet>, rest: seq<octet>)
    requires ds != [] && AllBelow(ds, 128)
    ensures Shl(v, Bits(|ds|, 7)) >= 0
    ensures var n := Shl(v, Bits(|ds|, 7)) + Value(ds, 7);
            ReadArc(v, Marked(ds) + rest) == if n < ARC_LIMIT then Some((n, rest)) else None
    decreases |ds|
  {
    Grows(v, Bits(|ds|, 7));
    ArcStep(v, ds[0], ds[1..]);
    assert ds == [ds[0]] + ds[1..];
    ReadDigit(v, ds, rest);
    if |ds| == 1 {
      assert Value(ds[1..], 7) == 0;
    } else if v < 0x200_0000 {
      ReadArcIs(128 * v + ds[0], ds[1..], rest);
    }
  }

  // A complete arc is refused exactly when its value needs more than 32 bits, and nothing wraps.
  lemma ArcRefusedExactly(ds: seq<octet>, rest: seq<octet>)
    requires ds != [] && AllBelow(ds, 128)
    ensures ReadArc(0, Marked(ds) + rest) == if Value(ds, 7) < ARC_LIMIT then Some((Value(ds, 7), rest)) else None
  {
    ShlMonotonic(0, 0, Bits(|ds|, 7));
    ReadArcIs(0, ds, rest);
  }

  // An arc all of whose octets announce another one is refused.
  lemma {:induction false} ArcCutOff(v: nat, s: seq<octet>)
    requires forall i :: 0 <= i < |s| ==> s[i] >= 128
    ensures ReadArc(v, s) == None
    decreases |s|
  {
    if s != [] && v < 0x200_0000 {
      ArcCutOff(128 * v + s[0] % 128, s[1..]);
    }
  }

  // Any octets are digits of a complete arc and what follows it, or are such an arc cut off.
  lemma {:induction false} ArcOrCut(s: seq<octet>) returns (ds: seq<octet>, rest: seq<octet>)
    ensures ds == [] ==> forall i :: 0 <= i < |s| ==> s[i] >= 128
    ensures ds != [] ==> AllBelow(ds, 128) && s == Marked(ds) + rest
  {
    ds, rest := [], [];
    if s != [] {
      if s[0] < 128 {
        ds, rest := [s[0]], s[1..];
        assert s == Marked(ds) + rest;
      } else {
        var more;
        more, rest := ArcOrCut(s[1..]);
        if more != [] {
          ds := [s[0] - 128] + more;
          assert ds[1..] == more;
          MarkedStep(ds, rest);
          assert s == [s[0]] + s[1..];
        }
      }
    }
  }

  // Every arc reads back from its octets.
  lemma ArcRoundTrip(v: nat, rest: seq<octet>)
    requires v < ARC_LIMIT
    ensures ReadArc(0, ArcOctets(v) + rest) == Some((v, rest))
  {
    ShlMonotonic(0, 0, Bits(ArcSize(v), 7));
    ReadArcIs(0, ArcDigits(v), rest);
  }

  // The octets of all arcs from arc i on.
  function ArcsOctets(arcs: seq<nat>, i: nat): seq<octet>
    decreases |arcs| - i
  {
    if i >= |arcs| then [] else ArcOctets(arcs[i]) + ArcsOctets(arcs, i + 1)
  }

  // The first two arcs share an octet; what does not fit is cut off.
  function FirstOctet(arcs: seq<nat>): octet
    requires |arcs| >= 2
  {
    (arcs[0] * 40 + arcs[1]) % 256
  }

  function OidContent(arcs: seq<nat>): seq<octet>
    requires |arcs| >= 2
  {
    [FirstOctet(arcs)] + ArcsOctets(arcs, 2)
  }

  function OidOctets(arcs: seq<nat>): seq<octet>
    requires |arcs| >= 2
  {
    Der(OBJECT_IDENTIFIER, OidContent(arcs))
  }

  // Arcs from so many octets.
  function ReadArcs(length: nat, s: seq<octet>, arcs: seq<nat>): Option<(seq<nat>, seq<octet>)>
    decreases |s|, length, arcs
  {
    if length == 0 then Some((arcs, s))
    else
      match ReadArc(0, s)
      case None => None
      case Some((v, rest)) => if |s| - |rest| > length then None else ReadArcs(length - (|s| - |rest|), rest, arcs + [v])
  }

  function ReadOid(s: seq<octet>): Option<(seq<nat>, seq<octet>)> {
    if s == [] || s[0] != OBJECT_IDENTIFIER then None
    else
      match ReadLength(s[1..])
      case Known(n, rest) =>
        if n < 1 || rest == [] then None
        else ReadArcs(n - 1, rest[1..], [rest[0] / 40, rest[0] % 40])
      case _ => None
  }

  lemma NextArc(first: seq<octet>, v: nat, more: seq<octet>, rest: seq<octet>, before: seq<nat>)
    requires first != [] && ReadArc(0, first + (more + rest)) == Some((v, more + rest))
    ensures ReadArcs(|first + more|, (first + more) + rest, before) == ReadArcs(|more|, more + rest, before + [v])
  {
    assert (first + more) + rest == first + (more + rest);
    assert |first + (more + rest)| - |more + rest| == |first|;
  }

  lemma FirstArcBack(all: seq<octet>, v: nat, more: seq<octet>, rest: seq<octet>, before: seq<nat>)
    requires all == ArcOctets(v) + more && v < ARC_LIMIT
    ensures ReadArcs(|all|, all + rest, before) == ReadArcs(|more|, more + rest, before + [v])
  {
    ArcRoundTrip(v, more + rest);
    NextArc(ArcOctets(v), v, more, rest, before);
  }

  lemma Joined(before: seq<nat>, arcs: seq<nat>, i: nat)
    requires i < |arcs|
    ensures (before + [arcs[i]]) + arcs[i + 1..] == before + arcs[i..]
  {
  }

  lemma NoMoreArcs(arcs: seq<nat>, rest: seq<octet>, before: seq<nat>)
    ensures ReadArcs(|ArcsOctets(arcs, |arcs|)|, ArcsOctets(arcs, |arcs|) + rest, before) == Some((before, rest))
  {
    assert ArcsOctets(arcs, |arcs|) + rest == rest;
  }

  lemma {:induction false} ReadArcsBack(arcs: seq<nat>, i: nat, rest: seq<octet>, before: seq<nat>)
    requires i <= |arcs| && forall i :: 0 <= i < |arcs| ==> arcs[i] < ARC_LIMIT
    ensures ReadArcs(|ArcsOctets(arcs, i)|, ArcsOctets(arcs, i) + rest, before) == Some((before + arcs[i..], rest))
    decreases |arcs| - i
  {
    if i == |arcs| {
      NoMoreArcs(arcs, rest, before);
      assert before + arcs[i..] == before;
    } else {
      ReadArcsBack(arcs, i + 1, rest, before + [arcs[i]]);
      FirstArcBack(ArcsOctets(arcs, i), arcs[i], ArcsOctets(arcs, i + 1), rest, before);
      Joined(before, arcs, i);
    }
  }

  function ReadBack(arcs: seq<nat>): seq<nat>
    requires |arcs| >= 2
  {
    [FirstOctet(arcs) / 40, FirstOctet(arcs) % 40] + arcs[2..]
  }

  lemma ContentReadsAsArcs(first: octet, more: seq<octet>, rest: seq<octet>)
    requires 1 + |more| < WORD_LIMIT
    ensures ReadOid(Der(OBJECT_IDENTIFIER, [first] + more) + rest)
         == ReadArcs(|more|, more + rest, [first / 40, first % 40])
  {
    DerReads(OBJECT_IDENTIFIER, [first] + more, rest);
    FirstOfContent(first, more, rest);
  }

  // What is read back: the arcs, but for the first two, which come from their octet.
  lemma OidReadsBack(arcs: seq<nat>, rest: seq<octet>)
    requires |arcs| >= 2 && |OidContent(arcs)| < WORD_LIMIT && forall i :: 0 <= i < |arcs| ==> arcs[i] < ARC_LIMIT
    ensures ReadOid(OidOctets(arcs) + rest) == Some((ReadBack(arcs), rest))
  {
    ContentReadsAsArcs(FirstOctet(arcs), ArcsOctets(arcs, 2), rest);
    ReadArcsBack(arcs, 2, rest, [FirstOctet(arcs) / 40, FirstOctet(arcs) % 40]);
  }

  // An object identifier reads back from its encoding exactly if its second arc is below 40 and the first
  // two fit their octet.
  lemma OidRoundTripsExactly(arcs: seq<nat>, rest: seq<octet>)
    requires |arcs| >= 2 && |OidContent(arcs)| < WORD_LIMIT && forall i :: 0 <= i < |arcs| ==> arcs[i] < ARC_LIMIT
    ensures ReadOid(OidOctets(arcs) + rest) == Some((arcs, rest)) <==> arcs[1] < 40 && arcs[0] * 40 + arcs[1] < 256
  {
    OidReadsBack(arcs, rest);
    ReadBackIs(arcs);
  }

  lemma ReadBackIs(arcs: seq<nat>)
    requires |arcs| >= 2
    ensures ReadBack(arcs) == arcs <==> arcs[1] < 40 && arcs[0] * 40 + arcs[1] < 256
  {
    FirstArcs(arcs[0], arcs[1]);
    assert ReadBack(arcs)[0] == FirstOctet(arcs) / 40 && ReadBack(arcs)[1] == FirstOctet(arcs) % 40;
  }

  lemma FirstArcs(v: nat, w: nat)
    ensures var b := (v * 40 + w) % 256;
            (b / 40 == v && b % 40 == w) <==> w < 40 && v * 40 + w < 256
  {
    var n := v * 40 + w;
    DivFacts(n % 256, 40);
    if w < 40 && n < 256 {
      DivIsUnique(n, 40, v, w);
    }
  }

  // The low seven bits of each octet.
  function Sevens(s: seq<octet>): (ds: seq<octet>)
    ensures |ds| == |s| && AllBelow(ds, 128)
  {
    seq(|s|, i requires 0 <= i < |s| => s[i] % 128)
  }

  // The octets of one arc of 32 bits: bit 7 is set in all but the last, and the other bits make its value.
  ghost predicate IsArc(s: seq<octet>, v: nat) {
    && s != [] && (forall i :: 0 <= i < |s| - 1 ==> s[i] >= 128) && s[|s| - 1] < 128
    && Value(Sevens(s), 7) == v < 0x1_0000_0000
  }

  // Octets of so many arcs.
  ghost predicate AreArcs(s: seq<octet>, arcs: seq<nat>)
    decreases arcs
  {
    if arcs == [] then s == []
    else exists n: nat :: n <= |s| && IsArc(s[..n], arcs[0]) && AreArcs(s[n..], arcs[1..])
  }

  lemma ArcInFront(s: seq<octet>, n: nat, v: nat, more: seq<nat>)
    requires n <= |s| && IsArc(s[..n], v) && AreArcs(s[n..], more)
    ensures AreArcs(s, [v] + more)
  {
    assert ([v] + more)[1..] == more;
  }

  lemma MarkedSevens(s: seq<octet>)
    requires s != [] && (forall i :: 0 <= i < |s| - 1 ==> s[i] >= 128) && s[|s| - 1] < 128
    ensures Marked(Sevens(s)) == s
  {
  }

  lemma LowSevenBits(d: octet)
    requires d < 128
    ensures (128 + d) % 128 == d % 128 == d
  {
  }

  lemma SevensMarked(ds: seq<octet>)
    requires AllBelow(ds, 128)
    ensures Sevens(Marked(ds)) == ds
  {
    forall i | 0 <= i < |ds| ensures Sevens(Marked(ds))[i] == ds[i] {
      LowSevenBits(ds[i]);
    }
  }

  lemma MarkedIsArc(ds: seq<octet>)
    requires ds != [] && AllBelow(ds, 128) && Value(ds, 7) < 0x1_0000_0000
    ensures IsArc(Marked(ds), Value(ds, 7))
  {
    SevensMarked(ds);
  }

  lemma ReadArcIfArc(s: seq<octet>, v: nat, rest: seq<octet>)
    requires IsArc(s, v)
    ensures ReadArc(0, s + rest) == Some((v, rest))
  {
    MarkedSevens(s);
    ArcRefusedExactly(Sevens(s), rest);
  }

  lemma ReadArcOnlyArc(s: seq<octet>)
    requires ReadArc(0, s).Some?
    ensures var n := |s| - |ReadArc(0, s).value.1|;
            n > 0 && IsArc(s[..n], ReadArc(0, s).value.0) && ReadArc(0, s).value.1 == s[n..]
  {
    var ds, rest := ArcOrCut(s);
    if ds == [] {
      ArcCutOff(0, s);
    } else {
      ArcRefusedExactly(ds, rest);
      MarkedIsArc(ds);
      assert s[..|ds|] == Marked(ds) && s[|ds|..] == rest;
    }
  }

  lemma FirstArcEnds(s: seq<octet>, arcs: seq<nat>) returns (n: nat)
    requires arcs != [] && AreArcs(s, arcs)
    ensures 0 < n <= |s| && IsArc(s[..n], arcs[0]) && AreArcs(s[n..], arcs[1..])
  {
    n :| n <= |s| && IsArc(s[..n], arcs[0]) && AreArcs(s[n..], arcs[1..]);
  }

  lemma {:induction false} ReadArcsIfArcs(s: seq<octet>, arcs: seq<nat>, rest: seq<octet>, before: seq<nat>)
    requires AreArcs(s, arcs)
    ensures ReadArcs(|s|, s + rest, before) == Some((before + arcs, rest))
    decreases arcs
  {
    if arcs == [] {
      assert s + rest == rest && before + arcs == before;
    } else {
      var n := FirstArcEnds(s, arcs);
      ReadArcIfArc(s[..n], arcs[0], s[n..] + rest);
      ReadArcsIfArcs(s[n..], arcs[1..], rest, before + [arcs[0]]);
      Joined(before, arcs, 0);
      NextArc(s[..n], arcs[0], s[n..], rest, before);
      assert s[..n] + s[n..] == s && arcs[0..] == arcs;
    }
  }

  lemma CutTwice(s: seq<octet>, length: nat, n: nat)
    requires n <= length <= |s|
    ensures s[..length][..n] == s[..n] && s[..length][n..] == s[n..][..length - n] && s[n..][length - n..] == s[length..]
  {
  }

  lemma FirstOfArcs(before: seq<nat>, v: nat, more: seq<nat>)
    ensures before + [v] + more == before + ([v] + more)
  {
  }

  lemma {:induction false} ReadArcsOnlyArcs(length: nat, s: seq<octet>, before: seq<nat>) returns (arcs: seq<nat>)
    requires ReadArcs(length, s, before).Some?
    ensures length <= |s| && AreArcs(s[..length], arcs) && ReadArcs(length, s, before).value == (before + arcs, s[length..])
    decreases |s|
  {
    if length == 0 {
      arcs := [];
      assert before + arcs == before && s[..0] == [] && s[0..] == s;
    } else {
      ReadArcOnlyArc(s);
      var v, n := ReadArc(0, s).value.0, |s| - |ReadArc(0, s).value.1|;
      var more := ReadArcsOnlyArcs(length - n, s[n..], before + [v]);
      arcs := [v] + more;
      CutTwice(s, length, n);
      ArcInFront(s[..length], n, v, more);
      FirstOfArcs(before, v, more);
    }
  }

  lemma FirstOfContent(first: octet, more: seq<octet>, rest: seq<octet>)
    ensures ([first] + more + rest)[0] == first && ([first] + more + rest)[1..] == more + rest
  {
  }

  lemma OidElement(tag: octet, octets: seq<octet>, content: seq<octet>, rest: seq<octet>)
    requires ReadLength(octets) == Known(|content|, []) && content != []
    ensures ReadOid([tag] + octets + content + rest)
         == if tag == OBJECT_IDENTIFIER then ReadArcs(|content| - 1, (content + rest)[1..], [content[0] / 40, content[0] % 40])
            else None
  {
    ElementReads(tag, octets, content, rest);
  }

  // An element of definite length is read as an identifier if and only if its tag is 6, an octet for the first two
  // arcs is there, and the other octets are arcs.
  lemma OidReadExactly(tag: octet, octets: seq<octet>, first: octet, more: seq<octet>, arcs: seq<nat>, rest: seq<octet>)
    requires ReadLength(octets) == Known(1 + |more|, []) && AreArcs(more, arcs)
    ensures ReadOid([tag] + octets + ([first] + more) + rest)
         == if tag == 6 then Some(([first / 40, first % 40] + arcs, rest)) else None
  {
    OidElement(tag, octets, [first] + more, rest);
    FirstOfContent(first, more, rest);
    ReadArcsIfArcs(more, arcs, rest, [first / 40, first % 40]);
  }

  lemma FirstOfRest(rest: seq<octet>, n: nat)
    requires 1 <= n <= |rest|
    ensures rest[..n] == [rest[0]] + rest[1..][..n - 1] && rest[n..] == rest[1..][n - 1..]
  {
  }

  lemma OidOfArcs(s: seq<octet>) returns (n: nat, rest: seq<octet>)
    requires ReadOid(s).Some?
    ensures s != [] && s[0] == OBJECT_IDENTIFIER && ReadLength(s[1..]) == Known(n, rest) && n >= 1 && rest != []
    ensures ReadOid(s) == ReadArcs(n - 1, rest[1..], [rest[0] / 40, rest[0] % 40])
  {
    n, rest := ReadLength(s[1..]).length, ReadLength(s[1..]).rest;
  }

  lemma OidReadOnly(s: seq<octet>) returns (octets: seq<octet>, first: octet, more: seq<octet>, arcs: seq<nat>)
    requires ReadOid(s).Some?
    ensures ReadLength(octets) == Known(1 + |more|, []) && AreArcs(more, arcs)
    ensures ReadOid(s).value.0 == [first / 40, first % 40] + arcs
    ensures s == [6] + octets + ([first] + more) + ReadOid(s).value.1
  {
    var n, rest := OidOfArcs(s);
    first := rest[0];
    arcs := ReadArcsOnlyArcs(n - 1, rest[1..], [first / 40, first % 40]);
    more := rest[1..][..n - 1];
    FirstOfRest(rest, n);
    octets := ElementInParts(s, n, rest);
  }

  // The fewest octets that hold w, with a zero in front where the first bit would read as a sign.
  function UnsignedContent(w: nat): (r: seq<octet>)
    ensures r != []
  {
    var m := if w == 0 then 1 else DigitCount(w, 8);
    DigitCountBounds(w, 8);
    var ds := Digits(w, m, 8);
    if ds[0] >= 128 then [0] + ds else ds
  }

  function BooleanOctet(w: nat): octet {
    if w != 0 then 0xff else 0
  }

  function UnsignedOctets(w: nat, tag: octet): seq<octet> {
    Der(tag, if tag == BOOLEAN then [BooleanOctet(w)] else UnsignedContent(w))
  }

  // The value of any number of octets, as long as it fits so many and is in range.
  function ReadUnsigned(s: seq<octet>, tag: octet, size: nat, minValue: nat, maxValue: nat): Option<(nat, seq<octet>)> {
    if s == [] || s[0] != tag then None
    else
      match ReadLength(s[1..])
      case Known(n, rest) =>
        if n > |rest| then None
        else
          var w := Value(rest[..n], 8);
          if w < Pow2(Bits(size, 8)) && minValue <= w <= maxValue then Some((w, rest[n..])) else None
      case _ => None
  }

  lemma UnsignedContentValue(w: nat)
    ensures Value(UnsignedContent(w), 8) == w
    ensures UnsignedContent(w)[0] < 128
    ensures |UnsignedContent(w)| <= DigitCount(w, 8) + 1
  {
    var m := if w == 0 then 1 else DigitCount(w, 8);
    DigitCountBounds(w, 8);
    ZeroOctet(w);
    ValueOfDigits(w, m, 8);
    ValueFirst(0, Digits(w, m, 8), 8);
    ShlMonotonic(0, 0, Bits(m, 8));
  }

  lemma ShortContent(w: nat)
    ensures var m := DigitCount(w, 8);
            |UnsignedContent(w)| == if w == 0 then 1 else m + if Digits(w, m, 8)[0] < 128 then 0 else 1
  {
  }

  // No other octets of the same value, with a clear sign bit, are fewer.
  lemma UnsignedContentIsShortest(w: nat, s: seq<octet>)
    requires s != [] && s[0] < 128 && Value(s, 8) == w
    ensures |UnsignedContent(w)| <= |s|
  {
    BytesBelow(s);
    ValueBelow(s, 8);
    DigitCountWithin(w, 8, |s|);
    if |s| == DigitCount(w, 8) {
      DigitsOfValue(s, 8);
      assert Digits(w, |s|, 8)[0] < 128;
    }
    ShortContent(w);
  }

  lemma ZeroOctet(w: nat)
    ensures w == 0 ==> w < Pow2(Bits(1, 8))
  {
  }

  // An element of definite length, whatever the form of its length octets, is read if and only if it has the tag that is
  // asked for, and its value fits the type and is in range.
  lemma UnsignedReadExactly(tag: octet, octets: seq<octet>, content: seq<octet>, rest: seq<octet>, asnTag: octet, size: nat,
      minValue: nat, maxValue: nat)
    requires ReadLength(octets) == Known(|content|, [])
    ensures ReadUnsigned([tag] + octets + content + rest, asnTag, size, minValue, maxValue)
         == var w := Value(content, 8);
            if tag == asnTag && w < Pow2(8 * size) && minValue <= w <= maxValue then Some((w, rest)) else None
  {
    ElementReads(tag, octets, content, rest);
    BitsIsProduct(size, 8);
  }

  // And nothing else is read.
  lemma UnsignedReadOnly(s: seq<octet>, asnTag: octet, size: nat, minValue: nat, maxValue: nat)
    returns (octets: seq<octet>, content: seq<octet>)
    requires ReadUnsigned(s, asnTag, size, minValue, maxValue).Some?
    ensures ReadLength(octets) == Known(|content|, [])
    ensures s == [asnTag] + octets + content + ReadUnsigned(s, asnTag, size, minValue, maxValue).value.1
  {
    var n, rest := ReadLength(s[1..]).length, ReadLength(s[1..]).rest;
    content := rest[..n];
    octets := ElementInParts(s, n, rest);
  }

  lemma ContentReads(tag: octet, content: seq<octet>, size: nat, minValue: nat, maxValue: nat, rest: seq<octet>)
    requires |content| < WORD_LIMIT
    ensures ReadUnsigned(Der(tag, content) + rest, tag, size, minValue, maxValue)
         == var w := Value(content, 8);
            if w < Pow2(Bits(size, 8)) && minValue <= w <= maxValue then Some((w, rest)) else None
  {
    DerReads(tag, content, rest);
    assert (content + rest)[..|content|] == content && (content + rest)[|content|..] == rest;
  }

  // Every unsigned INTEGER reads back from its encoding.
  lemma UnsignedRoundTrip(w: nat, tag: octet, size: nat, minValue: nat, maxValue: nat, rest: seq<octet>)
    requires tag != BOOLEAN && size < 0x1_0000_0000 && w < Pow2(Bits(size, 8)) && minValue <= w <= maxValue
    ensures ReadUnsigned(UnsignedOctets(w, tag) + rest, tag, size, minValue, maxValue) == Some((w, rest))
  {
    UnsignedContentValue(w);
    DigitCountWithin(w, 8, size);
    ContentReads(tag, UnsignedContent(w), size, minValue, maxValue, rest);
  }

  // Tag 1 is BOOLEAN: one octet, all of whose bits say whether the value is zero. It is read back as 0 or as 255.
  lemma BooleanReadsBack(w: nat, size: nat, minValue: nat, maxValue: nat, rest: seq<octet>)
    ensures w == 0 ==> UnsignedOctets(w, 1) == [1, 1, 0]
    ensures w != 0 ==> UnsignedOctets(w, 1) == [1, 1, 255]
    ensures ReadUnsigned(UnsignedOctets(w, 1) + rest, 1, size, minValue, maxValue)
         == var v := if w == 0 then 0 else 255;
            if v < Pow2(8 * size) && minValue <= v <= maxValue then Some((v, rest)) else None
  {
    var b := BooleanOctet(w);
    ContentReads(1, [b], size, minValue, maxValue, rest);
    TimesOctet([], b);
    assert [] + [b] == [b];
    BitsIsProduct(size, 8);
  }
}
