// Elements as trees: what a string of octets parses as, and the re-encoding of its indefinite lengths.

module AsnElements {
  import opened Numbers
  import opened Wrappers
  import opened DigitStrings
  import opened AsnFormat
  import Pieces

  // An element with its length octets and contents, or one of indefinite length with elements inside.
  datatype Element = Definite(tag: octet, lengthOctets: seq<octet>, content: seq<octet>) | Open(tag: octet,
      children: seq<Element>)

  predicate IsConstructed(tag: octet) {
    (tag / 0x20) % 2 == 1
  }

  // What would read as the end of the contents.
  predicate IsEnd(e: Element) {
    e.Definite? && e.tag == 0 && e.lengthOctets == [0]
  }

  ghost predicate WellFormed(e: Element)
    decreases e
  {
    match e
    case Definite(_, lengthOctets, content) => ReadLength(lengthOctets) == Known(|content|, [])
    case Open(tag, children) => IsConstructed(tag) && AllWellFormed(children)
  }

  ghost predicate AllWellFormed(es: seq<Element>)
    decreases es
  {
    es == [] || (WellFormed(es[0]) && !IsEnd(es[0]) && AllWellFormed(es[1..]))
  }

  function Encode(e: Element): seq<octet>
    decreases e
  {
    match e
    case Definite(tag, lengthOctets, content) => [tag] + lengthOctets + content
    case Open(tag, children) => [tag, 0x80] + EncodeAll(children) + [0, 0]
  }

  function EncodeAll(es: seq<Element>): seq<octet>
    decreases es
  {
    if es == [] then [] else Encode(es[0]) + EncodeAll(es[1..])
  }

  // Contents of definite length are copied; others are re-encoded.
  function Reencoded(e: Element): seq<octet>
    decreases e
  {
    match e
    case Definite(tag, _, content) => Der(tag, content)
    case Open(tag, children) => Der(tag, ReencodedAll(children))
  }

  function ReencodedAll(es: seq<Element>): seq<octet>
    decreases es
  {
    if es == [] then [] else Reencoded(es[0]) + ReencodedAll(es[1..])
  }

  // The element at the front, and what follows it.
  function Parse(s: seq<octet>): (r: Option<(Element, seq<octet>)>)
    ensures r.Some? ==> |r.value.1| < |s|
    decreases |s|, 0
  {
    if s == [] then None
    else
      RestIsShorter(s[1..]);
      match ReadLength(s[1..])
      case Known(n, rest) => DefiniteElement(s, n, rest)
      case Indefinite(rest) => if IsConstructed(s[0]) then OpenElement(s[0], ParseAll(rest)) else None
      case _ => None
  }

  // The element of length n at the front of s, whose contents are in front of the rest.
  function DefiniteElement(s: seq<octet>, n: nat, rest: seq<octet>): (r: Option<(Element, seq<octet>)>)
    requires |rest| < |s|
    ensures r.Some? ==> |r.value.1| <= |rest|
  {
    if |rest| < n then None else Some((Definite(s[0], s[1..|s| - |rest|], rest[..n]), rest[n..]))
  }

  function OpenElement(tag: octet, r: Option<(seq<Element>, seq<octet>)>): Option<(Element, seq<octet>)> {
    match r
    case None => None
    case Some((es, after)) => Some((Open(tag, es), after))
  }

  lemma DefiniteAtFront(s: seq<octet>, n: nat, rest: seq<octet>)
    requires s != [] && ReadLength(s[1..]) == Known(n, rest)
    ensures |rest| < |s| && Parse(s) == DefiniteElement(s, n, rest)
  {
    RestIsShorter(s[1..]);
  }

  lemma OpenAtFront(s: seq<octet>, rest: seq<octet>)
    requires s != [] && ReadLength(s[1..]) == Indefinite(rest) && IsConstructed(s[0])
    ensures |rest| < |s| && Parse(s) == OpenElement(s[0], ParseAll(rest))
  {
    RestIsShorter(s[1..]);
  }

  // Elements up to the end of contents, and what follows that.
  function ParseAll(s: seq<octet>): (r: Option<(seq<Element>, seq<octet>)>)
    ensures r.Some? ==> |r.value.1| < |s|
    decreases |s|, 1
  {
    if AtEnd(s) then Some(([], s[2..]))
    else
      match Parse(s)
      case None => None
      case Some((e, rest)) =>
        match ParseAll(rest)
        case None => None
        case Some((es, after)) => Some(([e] + es, after))
  }

  lemma DefiniteParts(s: seq<octet>, rest: seq<octet>, n: nat)
    requires n <= |rest| < |s| && rest == s[1..][|s| - 1 - |rest|..]
    ensures s == ([s[0]] + s[1..|s| - |rest|] + rest[..n]) + rest[n..]
    ensures s[1..][..|s| - 1 - |rest|] == s[1..|s| - |rest|]
  {
    var front := s[..|s| - |rest|];
    assert front == [s[0]] + s[1..|s| - |rest|];
    assert rest == s[|s| - |rest|..];
    assert s == front + rest;
    assert rest == rest[..n] + rest[n..];
    Pieces.Associates(front, rest[..n], rest[n..]);
  }

  lemma DefiniteElementIsEncoded(s: seq<octet>, n: nat, rest: seq<octet>)
    requires n <= |rest| < |s| && rest == s[1..][|s| - 1 - |rest|..]
    requires ReadLength(s[1..][..|s| - 1 - |rest|]) == Known(n, [])
    ensures var r := DefiniteElement(s, n, rest);
            r.Some? && WellFormed(r.value.0) && s == Encode(r.value.0) + r.value.1
  {
    DefiniteParts(s, rest, n);
  }

  lemma DefiniteIsEncoded(s: seq<octet>, n: nat, rest: seq<octet>)
    requires s != [] && ReadLength(s[1..]) == Known(n, rest) && n <= |rest|
    ensures |rest| < |s|
    ensures var r := DefiniteElement(s, n, rest);
            r.Some? && WellFormed(r.value.0) && s == Encode(r.value.0) + r.value.1
  {
    LengthInFront(s[1..], n, rest);
    DefiniteElementIsEncoded(s, n, rest);
  }

  // What parses is well formed, and is the encoding of what it parses as.
  lemma {:induction false} ParsedIsEncoded(s: seq<octet>)
    ensures Parse(s).Some? ==> WellFormed(Parse(s).value.0) && s == Encode(Parse(s).value.0) + Parse(s).value.1
    decreases |s|, 0
  {
    if Parse(s).Some? {
      if ReadLength(s[1..]).Known? {
        DefiniteAtFront(s, ReadLength(s[1..]).length, ReadLength(s[1..]).rest);
        DefiniteIsEncoded(s, ReadLength(s[1..]).length, ReadLength(s[1..]).rest);
      } else {
        var rest := ReadLength(s[1..]).rest;
        RestIsShorter(s[1..]);
        ParsedAreEncoded(rest);
        OpenIsEncoded(s, rest);
      }
    }
  }

  lemma OpenIsEncoded(s: seq<octet>, rest: seq<octet>)
    requires s != [] && ReadLength(s[1..]) == Indefinite(rest) && IsConstructed(s[0])
    requires ParseAll(rest).Some? && AllWellFormed(ParseAll(rest).value.0)
    requires rest == EncodeAll(ParseAll(rest).value.0) + ([0, 0] + ParseAll(rest).value.1)
    ensures Parse(s).Some? && WellFormed(Parse(s).value.0) && s == Encode(Parse(s).value.0) + Parse(s).value.1
  {
    OpenAtFront(s, rest);
    ReadLengthShortens(s[1..]);
    assert s == [s[0], 0x80] + rest;
    OpenParts(s[0], ParseAll(rest).value.0, ParseAll(rest).value.1);
  }

  lemma OpenParts(tag: octet, es: seq<Element>, after: seq<octet>)
    ensures Encode(Open(tag, es)) + after == [tag, 0x80] + (EncodeAll(es) + ([0, 0] + after))
  {
    Pieces.Associates([tag, 0x80] + EncodeAll(es), [0, 0], after);
    Pieces.Associates([tag, 0x80], EncodeAll(es), [0, 0] + after);
  }

  predicate AtEnd(s: seq<octet>) {
    |s| >= 2 && s[0] == 0 && s[1] == 0
  }

  lemma ParsedInTurn(s: seq<octet>)
    requires ParseAll(s).Some? && !AtEnd(s)
    ensures Parse(s).Some? && ParseAll(Parse(s).value.1).Some?
    ensures ParseAll(s).value == ([Parse(s).value.0] + ParseAll(Parse(s).value.1).value.0, ParseAll(Parse(s).value.1).value.1)
  {
  }

  lemma NotTheEnd(s: seq<octet>, e: Element, rest: seq<octet>)
    requires !AtEnd(s) && WellFormed(e) && s == Encode(e) + rest
    ensures !IsEnd(e)
  {
  }

  lemma FirstOfAll(e: Element, es: seq<Element>)
    ensures EncodeAll([e] + es) == Encode(e) + EncodeAll(es)
    ensures WellFormed(e) && !IsEnd(e) && AllWellFormed(es) ==> AllWellFormed([e] + es)
  {
    assert ([e] + es)[1..] == es;
  }

  lemma {:induction false} ParsedAreEncoded(s: seq<octet>)
    ensures ParseAll(s).Some? ==> AllWellFormed(ParseAll(s).value.0)
    ensures ParseAll(s).Some? ==> s == EncodeAll(ParseAll(s).value.0) + ([0, 0] + ParseAll(s).value.1)
    decreases |s|, 1
  {
    if AtEnd(s) {
      assert s == [0, 0] + s[2..];
    } else if ParseAll(s).Some? {
      ParsedInTurn(s);
      var e, rest := Parse(s).value.0, Parse(s).value.1;
      ParsedIsEncoded(s);
      ParsedAreEncoded(rest);
      NotTheEnd(s, e, rest);
      FirstOfAll(e, ParseAll(rest).value.0);
    }
  }

  lemma DefiniteParses(tag: octet, octets: seq<octet>, content: seq<octet>, rest: seq<octet>)
    requires ReadLength(octets) == Known(|content|, [])
    ensures Parse([tag] + octets + content + rest) == Some((Definite(tag, octets, content), rest))
  {
    ReadLengthFurther(octets, content + rest);
    assert [] + (content + rest) == content + rest;
    DefiniteInParts(tag, octets, content, rest);
  }

  lemma DefiniteInParts(tag: octet, octets: seq<octet>, content: seq<octet>, rest: seq<octet>)
    ensures var s := [tag] + octets + content + rest;
            s[1..] == octets + (content + rest) && s[1..|s| - |content + rest|] == octets
    ensures (content + rest)[..|content|] == content && (content + rest)[|content|..] == rest
  {
  }

  lemma NotAnEnd(e: Element, rest: seq<octet>)
    requires WellFormed(e) && !IsEnd(e)
    ensures var s := Encode(e) + rest;
            |s| >= 2 && !AtEnd(s)
  {
    if e.Definite? && e.lengthOctets[0] == 0 {
      assert e.lengthOctets[1..] == [];
      assert e.lengthOctets == [0];
    }
  }

  // A well-formed element parses from its encoding, whatever follows.
  lemma {:induction false} EncodedParses(e: Element, rest: seq<octet>)
    requires WellFormed(e)
    ensures Parse(Encode(e) + rest) == Some((e, rest))
    decreases e, 0
  {
    match e
    case Definite(tag, octets, content) =>
      DefiniteParses(tag, octets, content, rest);
    case Open(tag, children) =>
      EncodedAllParse(children, rest);
      var inner := EncodeAll(children) + ([0, 0] + rest);
      assert Encode(e) + rest == [tag, 0x80] + inner;
      OpenParses(tag, inner);
  }

  lemma OpenParses(tag: octet, inner: seq<octet>)
    requires IsConstructed(tag)
    ensures Parse([tag, 0x80] + inner) == OpenElement(tag, ParseAll(inner))
  {
    assert ([tag, 0x80] + inner)[1..] == [0x80] + inner;
    assert ([0x80] + inner)[1..] == inner;
    OpenAtFront([tag, 0x80] + inner, inner);
  }

  lemma ConstructedBit(tag: octet)
    ensures IsConstructed(tag) <==> GetBit(tag, 5)
  {
    ShrIsDiv(tag, 5);
    assert Pow2(5) == 32;
  }

  // Any elements between the octets 0x80 and the two zeros are contents of indefinite length, of a tag whose bit 5 is set;
  // with any other tag they are nothing.
  lemma OpenParsesExactly(tag: octet, children: seq<Element>, rest: seq<octet>)
    requires AllWellFormed(children)
    ensures Parse([tag, 0x80] + EncodeAll(children) + [0, 0] + rest)
         == if GetBit(tag, 5) then Some((Open(tag, children), rest)) else None
  {
    ConstructedBit(tag);
    var s, inner := [tag, 0x80] + EncodeAll(children) + [0, 0] + rest, EncodeAll(children) + ([0, 0] + rest);
    if IsConstructed(tag) {
      EncodedParses(Open(tag, children), rest);
    } else {
      assert s[1..] == [0x80] + inner;
    }
  }

  lemma EndParses(rest: seq<octet>)
    ensures ParseAll([0, 0] + rest) == Some(([], rest))
  {
    assert ([0, 0] + rest)[2..] == rest;
  }

  lemma NextParses(s: seq<octet>, e: Element, es: seq<Element>, after: seq<octet>, rest: seq<octet>)
    requires !AtEnd(s) && Parse(s) == Some((e, after)) && ParseAll(after) == Some((es, rest))
    ensures ParseAll(s) == Some(([e] + es, rest))
  {
  }

  lemma FirstParses(first: seq<octet>, e: Element, more: seq<octet>, es: seq<Element>, rest: seq<octet>)
    requires !AtEnd(first + (more + ([0, 0] + rest))) && ParseAll(more + ([0, 0] + rest)) == Some((es, rest))
    requires Parse(first + (more + ([0, 0] + rest))) == Some((e, more + ([0, 0] + rest)))
    ensures ParseAll((first + more) + ([0, 0] + rest)) == Some(([e] + es, rest))
  {
    var end := [0, 0] + rest;
    NextParses(first + (more + end), e, es, more + end, rest);
    Pieces.Associates(first, more, end);
  }

  lemma {:induction false} EncodedAllParse(es: seq<Element>, rest: seq<octet>)
    requires AllWellFormed(es)
    ensures ParseAll(EncodeAll(es) + ([0, 0] + rest)) == Some((es, rest))
    decreases es
  {
    if es == [] {
      EndParses(rest);
      assert EncodeAll(es) + ([0, 0] + rest) == [0, 0] + rest;
    } else {
      EncodedAllParse(es[1..], rest);
      EncodedParses(es[0], EncodeAll(es[1..]) + ([0, 0] + rest));
      NotAnEnd(es[0], EncodeAll(es[1..]) + ([0, 0] + rest));
      FirstParses(Encode(es[0]), es[0], EncodeAll(es[1..]), es[1..], rest);
      assert es == [es[0]] + es[1..];
    }
  }

  // The contents that re-encoding gives an element, and the element it becomes.
  function Contents(e: Element): seq<octet> {
    match e
    case Definite(_, _, content) => content
    case Open(_, children) => ReencodedAll(children)
  }

  function DerElement(e: Element): Element {
    Definite(e.tag, LengthOctets(|Contents(e)| % WORD_LIMIT), Contents(e))
  }

  function DerElements(es: seq<Element>): seq<Element> {
    if es == [] then [] else [DerElement(es[0])] + DerElements(es[1..])
  }

  lemma LengthOctetsFit(n: nat)
    requires n < WORD_LIMIT
    ensures 1 <= |LengthOctets(n)| <= 9
  {
    EightOctets(n);
  }

  // Re-encoding makes an element three times as long at most.
  lemma {:induction false} ReencodedFits(e: Element)
    requires WellFormed(e)
    ensures |Reencoded(e)| <= 3 * |Encode(e)|
    decreases e
  {
    match e
    case Definite(tag, octets, content) =>
      LengthIsMinimal(|content|, octets);
    case Open(tag, children) =>
      ReencodedAllFit(children);
      LengthOctetsFit(|ReencodedAll(children)| % WORD_LIMIT);
  }

  lemma {:induction false} ReencodedAllFit(es: seq<Element>)
    requires AllWellFormed(es)
    ensures |ReencodedAll(es)| <= 3 * |EncodeAll(es)|
    decreases es
  {
    if es != [] {
      ReencodedFits(es[0]);
      ReencodedAllFit(es[1..]);
    }
  }

  // The outcome is one element of definite, minimal length: the same tag, and contents copied or made of
  // the outcomes of the elements inside.
  lemma ReencodedParses(e: Element, rest: seq<octet>)
    requires WellFormed(e) && 3 * |Encode(e)| < WORD_LIMIT
    ensures |Contents(e)| < WORD_LIMIT && WellFormed(DerElement(e)) && Reencoded(e) == Encode(DerElement(e))
    ensures Parse(Reencoded(e) + rest) == Some((DerElement(e), rest))
    ensures Reencoded(DerElement(e)) == Reencoded(e)
    ensures e.Definite? ==> DerElement(e).content == e.content
    ensures forall octets :: ReadLength(octets) == Known(|Contents(e)|, []) ==> |DerElement(e).lengthOctets| <= |octets|
  {
    ReencodedFits(e);
    var n := |Contents(e)|;
    assert n % WORD_LIMIT == n;
    LengthRoundTrip(n, []);
    assert LengthOctets(n) + [] == LengthOctets(n);
    DefiniteParses(e.tag, LengthOctets(n), Contents(e), rest);
    forall octets | ReadLength(octets) == Known(n, []) ensures |LengthOctets(n)| <= |octets| {
      LengthIsMinimal(n, octets);
    }
  }

  // Elements up to the end of the octets.
  function ParseToEnd(s: seq<octet>): Option<seq<Element>>
    decreases |s|
  {
    if s == [] then Some([])
    else
      match Parse(s)
      case None => None
      case Some((e, rest)) =>
        match ParseToEnd(rest)
        case None => None
        case Some(es) => Some([e] + es)
  }

  // Octets that encode a whole tree with definite, minimal lengths at every level: definite contents verbatim, and
  // contents of indefinite length cut into such octets of the elements inside.
  ghost predicate EncodesTree(s: seq<octet>, e: Element)
    decreases e, 0
  {
    && Parse(s) == Some((DerElement(e), [])) && DerElement(e).tag == e.tag
    && (forall octets :: ReadLength(octets) == Known(|DerElement(e).content|, [])
          ==> |DerElement(e).lengthOctets| <= |octets|)
    && match e
       case Definite(_, _, content) => DerElement(e).content == content
       case Open(_, children) => EncodesTrees(DerElement(e).content, children)
  }

  ghost predicate EncodesTrees(s: seq<octet>, es: seq<Element>)
    decreases es, 1
  {
    if es == [] then s == []
    else exists n: nat :: n <= |s| && EncodesTree(s[..n], es[0]) && EncodesTrees(s[n..], es[1..])
  }

  lemma {:induction false} ReencodedEncodesTree(e: Element)
    requires WellFormed(e) && 3 * |Encode(e)| < WORD_LIMIT
    ensures EncodesTree(Reencoded(e), e)
    decreases e, 0
  {
    ReencodedParses(e, []);
    assert Reencoded(e) + [] == Reencoded(e);
    match e
    case Definite(_, _, _) =>
    case Open(_, children) =>
      ReencodedEncodeTrees(children);
  }

  // Such elements under any tag: re-encoded if bit 5 of the tag is set, and else nothing.
  lemma OpenReencodedExactly(tag: octet, children: seq<Element>, rest: seq<octet>)
    requires AllWellFormed(children) && 3 * (4 + |EncodeAll(children)|) < WORD_LIMIT
    ensures var r := Parse([tag, 0x80] + EncodeAll(children) + [0, 0] + rest);
            && (r.Some? <==> GetBit(tag, 5))
            && (r.Some? ==> r.value.1 == rest && EncodesTree(Reencoded(r.value.0), Open(tag, children)))
  {
    OpenParsesExactly(tag, children, rest);
    ConstructedBit(tag);
    if GetBit(tag, 5) {
      ReencodedEncodesTree(Open(tag, children));
    }
  }

  lemma {:induction false} ReencodedEncodeTrees(es: seq<Element>)
    requires AllWellFormed(es) && 3 * |EncodeAll(es)| < WORD_LIMIT
    ensures EncodesTrees(ReencodedAll(es), es)
    decreases es, 1
  {
    if es != [] {
      ReencodedEncodesTree(es[0]);
      ReencodedEncodeTrees(es[1..]);
      var s, n := ReencodedAll(es), |Reencoded(es[0])|;
      assert s[..n] == Reencoded(es[0]) && s[n..] == ReencodedAll(es[1..]);
    }
  }

  // Re-encoded contents are the re-encoded elements, one by one.
  lemma {:induction false} ReencodedAllParse(es: seq<Element>)
    requires AllWellFormed(es) && 3 * |EncodeAll(es)| < WORD_LIMIT
    ensures ParseToEnd(ReencodedAll(es)) == Some(DerElements(es))
    decreases es
  {
    if es != [] {
      ReencodedParses(es[0], ReencodedAll(es[1..]));
      ReencodedAllParse(es[1..]);
    }
  }
}
