// The octets of ASN.1 encodings: lengths, object identifiers, integers and whole elements, after X.690.

module AsnFormat {
  import opened Numbers
  import opened DigitStrings

  // Lengths and sizes are 64 bits wide.
  const WORD_LIMIT: nat := 0x1_0000_0000_0000_0000

  // What a length can read as: a length, the indefinite form, the end of the input before that of the
  // length, or more than 64 bits.
  datatype LengthRead = Known(length: nat, rest: seq<octet>) | Indefinite(rest: seq<octet>) | Cut | TooLong

  // k more octets of a length, behind the number n. Whether the next one would overflow is seen before it is read.
  function ReadOctets(n: nat, k: nat, s: seq<octet>): LengthRead
    decreases k, n, s
  {
    if k == 0 then Known(n, s)
    else if n >= 0x100_0000_0000_0000 then TooLong
    else if s == [] then Cut
    else ReadOctets(256 * n + s[0], k - 1, s[1..])
  }

  function ReadLength(s: seq<octet>): LengthRead {
    if s == [] then Cut
    else if s[0] < 128 then Known(s[0], s[1..])
    else if s[0] == 128 then Indefinite(s[1..])
    else ReadOctets(0, s[0] - 128, s[1..])
  }

  // The definite form of minimal length.
  function LengthOctets(n: nat): seq<octet>
    requires n < WORD_LIMIT
  {
    EightOctets(n);
    if n <= 0x7f then [n] else [128 + DigitCount(n, 8)] + Digits(n, DigitCount(n, 8), 8)
  }

  // An element of definite, minimal length; its size is 64 bits wide.
  function Der(tag: octet, content: seq<octet>): seq<octet> {
    [tag] + LengthOctets(|content| % WORD_LIMIT) + content
  }

  lemma WordBits()
    ensures Pow2(Bits(8, 8)) == WORD_LIMIT
  {
    assert Pow2(8) == 256;
    Pow2Adds(8, 8);
    Pow2Adds(16, 16);
    Pow2Adds(32, 32);
    BitsIsProduct(8, 8);
  }

  lemma EightOctets(n: nat)
    requires n < WORD_LIMIT
    ensures DigitCount(n, 8) <= 8
  {
    WordBits();
    DigitCountWithin(n, 8, 8);
  }

  lemma OctetsTimes(n: nat)
    ensures Shl(n, 8) == 256 * n
  {
    ShlIsProduct(n, 8);
    assert Pow2(8) == 256;
  }

  // Reading octets gives their value, and fails exactly when it does not fit 64 bits.
  lemma {:induction false} ReadOctetsIs(n: nat, k: nat, s: seq<octet>)
    requires k <= |s| && n < WORD_LIMIT
    ensures Shl(n, Bits(k, 8)) >= 0
    ensures var v := Shl(n, Bits(k, 8)) + Value(s[..k], 8);
            ReadOctets(n, k, s) == if v < WORD_LIMIT then Known(v, s[k..]) else TooLong
    decreases k
  {
    Grows(n, Bits(k, 8));
    if k > 0 {
      var next := 256 * n + s[0];
      assert s[..k] == [s[0]] + s[1..][..k - 1];
      ValueFirst(s[0], s[1..][..k - 1], 8);
      OctetsTimes(n);
      ShlShl(n, 8, Bits(k - 1, 8));
      ShlAdds(256 * n, s[0], Bits(k - 1, 8));
      if n < 0x100_0000_0000_0000 {
        ReadOctetsIs(next, k - 1, s[1..]);
      } else {
        Grows(256 * n, Bits(k - 1, 8));
        ShlMonotonic(0, s[0], Bits(k - 1, 8));
      }
    }
  }

  lemma {:induction false} Grows(n: nat, b: nat)
    ensures Shl(n, b) >= n
  {
    if b > 0 {
      Grows(n, b - 1);
    }
  }

  // Octets that read as a length are its value.
  lemma {:induction false} KnownOctets(n: nat, k: nat, s: seq<octet>)
    requires ReadOctets(n, k, s).Known? && n < WORD_LIMIT
    ensures k <= |s| && ReadOctets(n, k, s).rest == s[k..] && ReadOctets(n, k, s).length < WORD_LIMIT
    ensures ReadOctets(n, k, s).length == Shl(n, Bits(k, 8)) + Value(s[..k], 8)
    decreases k
  {
    if k > 0 {
      KnownOctets(256 * n + s[0], k - 1, s[1..]);
    }
    ReadOctetsIs(n, k, s);
  }

  lemma ReadWhole(octets: seq<octet>, rest: seq<octet>)
    requires octets != []
    ensures ReadOctets(0, |octets|, octets + rest)
         == if Value(octets, 8) < WORD_LIMIT then Known(Value(octets, 8), rest) else TooLong
  {
    assert (octets + rest)[..|octets|] == octets && (octets + rest)[|octets|..] == rest;
    ReadOctetsIs(0, |octets|, octets + rest);
    ShlMonotonic(0, 0, Bits(|octets|, 8));
  }

  lemma LongForm(first: octet, octets: seq<octet>, rest: seq<octet>)
    requires first > 128 && |octets| == first - 128
    ensures ReadLength([first] + octets + rest) == ReadOctets(0, |octets|, octets + rest)
  {
    assert ([first] + octets + rest)[1..] == octets + rest;
  }

  // A complete definite length is refused exactly when its value needs more than 64 bits.
  lemma RefusedExactly(first: octet, octets: seq<octet>, rest: seq<octet>)
    requires first > 128 && octets != [] && |octets| == first - 128
    ensures ReadLength([first] + octets + rest)
         == if Value(octets, 8) < WORD_LIMIT then Known(Value(octets, 8), rest) else TooLong
  {
    LongForm(first, octets, rest);
    ReadWhole(octets, rest);
  }

  // Every length reads back from its encoding.
  lemma LengthRoundTrip(n: nat, rest: seq<octet>)
    requires n < WORD_LIMIT
    ensures ReadLength(LengthOctets(n) + rest) == Known(n, rest)
  {
    if n > 0x7f {
      EightOctets(n);
      DigitCountBounds(n, 8);
      ValueOfDigits(n, DigitCount(n, 8), 8);
      RefusedExactly(128 + DigitCount(n, 8), Digits(n, DigitCount(n, 8), 8), rest);
    }
  }

  // The tag and the length of an element of definite length.
  lemma DerReads(tag: octet, content: seq<octet>, rest: seq<octet>)
    requires |content| < WORD_LIMIT
    ensures var s := Der(tag, content) + rest;
            s != [] && s[0] == tag && ReadLength(s[1..]) == Known(|content|, content + rest)
  {
    assert |content| % WORD_LIMIT == |content|;
    assert (Der(tag, content) + rest)[1..] == LengthOctets(|content|) + (content + rest);
    LengthRoundTrip(|content|, content + rest);
  }

  // No other definite form of a length is shorter.
  lemma LengthIsMinimal(n: nat, octets: seq<octet>)
    requires ReadLength(octets) == Known(n, [])
    ensures n < WORD_LIMIT && |LengthOctets(n)| <= |octets|
  {
    if octets[0] >= 128 {
      var k := octets[0] - 128;
      KnownOctets(0, k, octets[1..]);
      ShlMonotonic(0, 0, Bits(k, 8));
      assert octets[1..][..k] == octets[1..];
      BytesBelow(octets[1..]);
      ValueBelow(octets[1..], 8);
      DigitCountWithin(n, 8, k);
    }
  }

  lemma ReadOctetsShortens(n: nat, k: nat, s: seq<octet>)
    ensures !ReadOctets(n, k, s).Indefinite?
    ensures ReadOctets(n, k, s).Known?
      ==> |ReadOctets(n, k, s).rest| <= |s| && ReadOctets(n, k, s).rest == s[|s| - |ReadOctets(n, k, s).rest|..]
    decreases k
  {
    if k > 0 && s != [] {
      ReadOctetsShortens(256 * n + s[0], k - 1, s[1..]);
    }
  }

  // What is read is taken from the front.
  lemma ReadLengthShortens(s: seq<octet>)
    ensures var r := ReadLength(s);
            && (r.Known? || r.Indefinite? ==> |r.rest| < |s| && r.rest == s[|s| - |r.rest|..])
            && (r.Indefinite? ==> s == [0x80] + r.rest)
  {
    if s != [] && s[0] > 128 {
      ReadOctetsShortens(0, s[0] - 128, s[1..]);
    }
  }

  lemma RestIsShorter(s: seq<octet>)
    ensures var r := ReadLength(s);
            r.Known? || r.Indefinite? ==> |r.rest| < |s|
  {
    ReadLengthShortens(s);
  }

  lemma ReadOctetsFurther(n: nat, k: nat, s: seq<octet>, more: seq<octet>)
    requires ReadOctets(n, k, s).Known?
    ensures ReadOctets(n, k, s + more) == ReadOctets(n, k, s).(rest := ReadOctets(n, k, s).rest + more)
    decreases k
  {
    if k > 0 {
      assert (s + more)[1..] == s[1..] + more;
      ReadOctetsFurther(256 * n + s[0], k - 1, s[1..], more);
    }
  }

  // What follows makes no difference.
  lemma ReadLengthFurther(s: seq<octet>, more: seq<octet>)
    requires ReadLength(s).Known?
    ensures ReadLength(s + more) == ReadLength(s).(rest := ReadLength(s).rest + more)
  {
    assert (s + more)[1..] == s[1..] + more;
    if s[0] > 128 {
      ReadOctetsFurther(0, s[0] - 128, s[1..], more);
    }
  }

  lemma ReadOctetsPrefix(n: nat, k: nat, s: seq<octet>)
    requires ReadOctets(n, k, s).Known? && n < WORD_LIMIT
    ensures k <= |s| && ReadOctets(n, k, s) == Known(ReadOctets(n, k, s).length, s[k..])
    ensures ReadOctets(n, k, s[..k]) == Known(ReadOctets(n, k, s).length, [])
  {
    KnownOctets(n, k, s);
    assert s[..k][..k] == s[..k] && s[..k][k..] == [];
    ReadOctetsIs(n, k, s[..k]);
  }

  // The octets of a length are a length by themselves.
  lemma OctetsOfLength(s: seq<octet>)
    ensures var r := ReadLength(s);
            r.Known? ==> |r.rest| < |s| && ReadLength(s[..|s| - |r.rest|]) == Known(r.length, [])
  {
    if s != [] && s[0] > 128 && ReadLength(s).Known? {
      var k := s[0] - 128;
      ReadOctetsPrefix(0, k, s[1..]);
      assert s[..1 + k][1..] == s[1..][..k];
    } else if s != [] && s[0] < 128 {
      assert s[..1][1..] == [];
    }
  }

  // A length, and what is behind it.
  lemma LengthInFront(s: seq<octet>, n: nat, rest: seq<octet>)
    requires ReadLength(s) == Known(n, rest)
    ensures |rest| < |s| && rest == s[|s| - |rest|..] && ReadLength(s[..|s| - |rest|]) == Known(n, [])
  {
    ReadLengthShortens(s);
    OctetsOfLength(s);
  }

  lemma InFourParts(tag: octet, octets: seq<octet>, content: seq<octet>, rest: seq<octet>)
    ensures var s := [tag] + octets + content + rest;
            s[0] == tag && s[1..] == octets + (content + rest)
    ensures (content + rest)[..|content|] == content && (content + rest)[|content|..] == rest
  {
  }

  // An element of definite length, whatever the form of its length octets.
  lemma ElementReads(tag: octet, octets: seq<octet>, content: seq<octet>, rest: seq<octet>)
    requires ReadLength(octets) == Known(|content|, [])
    ensures var s := [tag] + octets + content + rest;
            s[0] == tag && ReadLength(s[1..]) == Known(|content|, content + rest)
    ensures (content + rest)[..|content|] == content && (content + rest)[|content|..] == rest
  {
    InFourParts(tag, octets, content, rest);
    ReadLengthFurther(octets, content + rest);
    assert [] + (content + rest) == content + rest;
  }

  lemma CutInFour(s: seq<octet>, k: nat, n: nat)
    requires 1 + k + n <= |s|
    ensures var t := s[1..];
            s == [s[0]] + t[..k] + t[k..][..n] + t[k..][n..]
  {
  }

  // The parts of such an element.
  lemma ElementInParts(s: seq<octet>, n: nat, rest: seq<octet>) returns (octets: seq<octet>)
    requires s != [] && ReadLength(s[1..]) == Known(n, rest) && n <= |rest|
    ensures ReadLength(octets) == Known(n, []) && s == [s[0]] + octets + rest[..n] + rest[n..]
  {
    LengthInFront(s[1..], n, rest);
    octets := s[1..][..|s[1..]| - |rest|];
    CutInFour(s, |octets|, n);
  }
}
