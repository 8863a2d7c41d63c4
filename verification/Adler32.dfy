// The Adler-32 checksum: two sums that are reduced as rarely as 32 bits allow.

module Adler32 {
  import Numbers
  import opened DigitStrings

  const BASE: nat := 65521

  // The sums of section 2.2 of RFC 1950, before any reduction: of the octets, and of the first sums.
  function Sum1(s: seq<octet>): nat {
    if s == [] then 1 else Sum1(s[..|s| - 1]) + s[|s| - 1]
  }

  function Sum2(s: seq<octet>): nat {
    if s == [] then 0 else Sum2(s[..|s| - 1]) + Sum1(s)
  }

  lemma SumsOneMore(s: seq<octet>, b: octet)
    ensures Sum1(s + [b]) == Sum1(s) + b && Sum2(s + [b]) == Sum2(s) + Sum1(s) + b
  {
    assert (s + [b])[..|s|] == s;
  }

  function Digest(s: seq<octet>): seq<octet> {
    var s1, s2 := Sum1(s) % BASE, Sum2(s) % BASE;
    [s2 / 256, s2 % 256, s1 / 256, s1 % 256]
  }

  // The sum of all octets, and the sum in which every octet counts as often as there are octets from it on.
  function Total(s: seq<octet>): nat {
    if s == [] then 0 else s[0] + Total(s[1..])
  }

  function Weighted(s: seq<octet>): nat {
    if s == [] then 0
    else
      Numbers.MulMonotonic(0, |s|, s[0]);
      |s| * s[0] + Weighted(s[1..])
  }

  lemma {:induction false} TotalsOneMore(s: seq<octet>, b: octet)
    ensures Total(s + [b]) == Total(s) + b && Weighted(s + [b]) == Weighted(s) + Total(s) + b
  {
    if s == [] {
      assert (s + [b])[1..] == [] && [b][1..] == [];
    } else {
      assert (s + [b])[1..] == s[1..] + [b];
      TotalsOneMore(s[1..], b);
      Numbers.MulDistributes(|s|, 1, s[0]);
    }
  }

  // The two sums in closed form.
  lemma {:induction false} SumsAre(s: seq<octet>)
    ensures Sum1(s) == 1 + Total(s) && Sum2(s) == |s| + Weighted(s)
  {
    if s != [] {
      var last := |s| - 1;
      SumsAre(s[..last]);
      SumsOneMore(s[..last], s[last]);
      TotalsOneMore(s[..last], s[last]);
      assert s[..last] + [s[last]] == s;
    }
  }

  // The digest as a number.
  lemma DigestValue(s: seq<octet>)
    ensures |Digest(s)| == 4
    ensures Value(Digest(s), 8) == ((|s| + Weighted(s)) % 65521) * 0x1_0000 + (1 + Total(s)) % 65521
  {
    SumsAre(s);
    var s1, s2 := Sum1(s) % BASE, Sum2(s) % BASE;
    FourOctets(s2 / 256, s2 % 256, s1 / 256, s1 % 256);
  }

  // What is left of the sums after whole multiples of the base were taken off.
  ghost predicate Left(s: seq<octet>, s1: nat, s2: nat, k1: nat, k2: nat) {
    Sum1(s) == s1 + BASE * k1 && Sum2(s) == s2 + BASE * k2
  }

  lemma LeftOneMore(s: seq<octet>, b: octet, s1: nat, s2: nat, k1: nat, k2: nat)
    requires Left(s, s1, s2, k1, k2)
    ensures Left(s + [b], s1 + b, s2 + (s1 + b), k1, k2 + k1)
  {
    SumsOneMore(s, b);
  }

  // The octet at a place of the input, behind those before it.
  lemma Added(before: seq<octet>, input: seq<octet>, at: nat, s1: nat, s2: nat, k1: nat, k2: nat)
    requires at < |input| && Left(before + input[..at], s1, s2, k1, k2)
    ensures Left(before + input[..at + 1], s1 + input[at], s2 + (s1 + input[at]), k1, k2 + k1)
  {
    LeftOneMore(before + input[..at], input[at], s1, s2, k1, k2);
    assert (before + input[..at]) + [input[at]] == before + input[..at + 1];
  }

  lemma LeftIsRemainder(s: seq<octet>, s1: nat, s2: nat, k1: nat, k2: nat)
    requires Left(s, s1, s2, k1, k2) && s1 < BASE && s2 < BASE
    ensures s1 == Sum1(s) % BASE && s2 == Sum2(s) % BASE
  {
    Numbers.DivIsUnique(Sum1(s), BASE, k1, s1);
    Numbers.DivIsUnique(Sum2(s), BASE, k2, s2);
  }

  lemma Reduced(s: seq<octet>, s1: nat, s2: nat, k1: nat, k2: nat)
    requires Left(s, s1, s2, k1, k2)
    ensures s1 >= BASE ==> Left(s, s1 - BASE, s2, k1 + 1, k2)
    ensures Left(s, s1, s2 % BASE, k1, k2 + s2 / BASE)
  {
  }

  // Eight octets add at most this to the second sum.
  const GROUP: nat := 533340

  // The groups of eight since the second sum was reduced, and those to come before it is again.
  ghost predicate InPeriod(groups: nat, length: nat) {
    var r := length % 0x8000;
    length % 8 == 0 && if r == 0 then groups == 0 else groups + r / 8 <= 4096
  }

  lemma NextGroup(groups: nat, length: nat)
    requires InPeriod(groups, length) && length > 0
    ensures length >= 8 && groups + 1 <= 4096 && (length - 8) % 8 == 0
    ensures InPeriod(if (length - 8) % 0x8000 == 0 then 0 else groups + 1, length - 8)
  {
    var q, r := length / 0x8000, length % 0x8000;
    if r == 0 {
      Numbers.DivIsUnique(length - 8, 0x8000, q - 1, 0x7ff8);
    } else {
      Numbers.DivIsUnique(length - 8, 0x8000, q, r - 8);
    }
  }

  class Checksum {
    // 16 bits each.
    var s1: nat
    var s2: nat
    ghost var received: seq<octet>

    ghost predicate Valid()
      reads this
    {
      s1 == Sum1(received) % BASE && s2 == Sum2(received) % BASE
    }

    constructor ()
      ensures Valid() && received == []
    {
      s1, s2 := 1, 0;
      received := [];
    }

    method Reset()
      modifies this
      ensures Valid() && received == []
    {
      s1, s2 := 1, 0;
      received := [];
    }

    // All sums are below 2^32 all the time.
    method Update(input: seq<octet>)
      requires Valid()
      modifies this
      ensures Valid() && received == old(received) + input
    {
      ghost var k1: nat, k2: nat := Sum1(received) / BASE, Sum2(received) / BASE;
      assert received + input[..0] == received;
      Numbers.DivFacts(Sum1(received), BASE);
      Numbers.DivFacts(Sum2(received), BASE);
      var s1: nat, s2: nat, at: nat;
      s1, s2, at, k1, k2 := AddOdd(received, input, this.s1, this.s2, k1, k2);
      ghost var groups: nat := 0;
      while |input| - at > 0
        invariant at <= |input| && Left(received + input[..at], s1, s2, k1, k2) && InPeriod(groups, |input| - at)
        invariant s1 < BASE && s2 <= 65520 + GROUP * groups && received == old(received)
      {
        ghost var peak: nat;
        s1, s2, at, k1, k2, groups, peak := AddGroup(received, input, at, s1, s2, k1, k2, groups);
      }
      assert input[..at] == input;
      LeftIsRemainder(received + input, s1, s2, k1, k2);
      this.s1, this.s2 := s1, s2;
      received := received + input;
    }

    // The digest, most significant octet of the second sum first, cut off after so many octets.
    method TruncatedFinal(hash: array<octet>, size: nat) returns (ok: bool)
      requires Valid() && (size <= 4 ==> size <= hash.Length)
      modifies this, hash
      ensures ok == (size <= 4)
      ensures ok ==> hash[..size] == Digest(old(received))[..size] && Valid() && received == []
      ensures ok ==> hash[size..] == old(hash[size..])
      ensures !ok ==> Valid() && received == old(received) && hash[..] == old(hash[..])
    {
      ok := size <= 4;
      if ok {
        if size >= 4 { hash[3] := s1 % 256; }
        if size >= 3 { hash[2] := s1 / 256; }
        if size >= 2 { hash[1] := s2 % 256; }
        if size >= 1 { hash[0] := s2 / 256; }
        assert hash[..size] == Digest(received)[..size];
        assert forall j :: size <= j < hash.Length ==> hash[j] == old(hash[j]);
        Reset();
      }
    }
  }

  // The first octets, up to a multiple of eight; one subtraction reduces the first sum.
  method AddOdd(ghost before: seq<octet>, input: seq<octet>, start1: nat, start2: nat, ghost l1: nat, ghost l2: nat)
    returns (s1: nat, s2: nat, at: nat, ghost k1: nat, ghost k2: nat)
    requires Left(before + input[..0], start1, start2, l1, l2) && start1 < BASE && start2 < BASE
    ensures at <= |input| && (|input| - at) % 8 == 0 && Left(before + input[..at], s1, s2, k1, k2)
    ensures s1 < BASE && s2 < BASE
  {
    s1, s2, at, k1, k2 := start1, start2, 0, l1, l2;
    if |input| % 8 != 0 {
      while (|input| - at) % 8 != 0
        invariant at <= |input| && Left(before + input[..at], s1, s2, k1, k2)
        invariant at + (|input| - at) % 8 == |input| % 8
        invariant s1 < BASE + 255 * at && s2 < BASE + 67306 * at
        decreases |input| - at
      {
        Added(before, input, at, s1, s2, k1, k2);
        s1 := s1 + input[at];
        s2 := s2 + s1;
        k2 := k2 + k1;
        at := at + 1;
      }
      Reduced(before + input[..at], s1, s2, k1, k2);
      if s1 >= BASE {
        s1 := s1 - BASE;
        k1 := k1 + 1;
      }
      Reduced(before + input[..at], s1, s2, k1, k2);
      k2 := k2 + s2 / BASE;
      s2 := s2 % BASE;
    }
  }

  // Eight octets at once.
  method AddEight(ghost before: seq<octet>, input: seq<octet>, from: nat, start1: nat, start2: nat, ghost l1: nat, ghost l2: nat)
    returns (s1: nat, s2: nat, ghost k1: nat, ghost k2: nat)
    requires from + 8 <= |input| && Left(before + input[..from], start1, start2, l1, l2) && start1 < BASE
    ensures Left(before + input[..from + 8], s1, s2, k1, k2)
    ensures s1 <= start1 + 8 * 255 && s2 <= start2 + GROUP
  {
    s1, s2, k1, k2 := start1, start2, l1, l2;
    Added(before, input, from, s1, s2, k1, k2);
    s1 := s1 + input[from]; s2 := s2 + s1; k2 := k2 + k1;
    Added(before, input, from + 1, s1, s2, k1, k2);
    s1 := s1 + input[from + 1]; s2 := s2 + s1; k2 := k2 + k1;
    Added(before, input, from + 2, s1, s2, k1, k2);
    s1 := s1 + input[from + 2]; s2 := s2 + s1; k2 := k2 + k1;
    Added(before, input, from + 3, s1, s2, k1, k2);
    s1 := s1 + input[from + 3]; s2 := s2 + s1; k2 := k2 + k1;
    Added(before, input, from + 4, s1, s2, k1, k2);
    s1 := s1 + input[from + 4]; s2 := s2 + s1; k2 := k2 + k1;
    Added(before, input, from + 5, s1, s2, k1, k2);
    s1 := s1 + input[from + 5]; s2 := s2 + s1; k2 := k2 + k1;
    Added(before, input, from + 6, s1, s2, k1, k2);
    s1 := s1 + input[from + 6]; s2 := s2 + s1; k2 := k2 + k1;
    Added(before, input, from + 7, s1, s2, k1, k2);
    s1 := s1 + input[from + 7]; s2 := s2 + s1; k2 := k2 + k1;
  }

  // Eight octets, one subtraction, and the reduction of the second sum where it is due. The peak is the second sum
  // before that reduction: at most 65520 + 4096 * GROUP, which is below 2^32.
  method AddGroup(ghost before: seq<octet>, input: seq<octet>, from: nat, start1: nat, start2: nat, ghost l1: nat,
      ghost l2: nat, ghost done: nat)
    returns (s1: nat, s2: nat, at: nat, ghost k1: nat, ghost k2: nat, ghost groups: nat, ghost peak: nat)
    requires from < |input| && Left(before + input[..from], start1, start2, l1, l2) && InPeriod(done, |input| - from)
    requires start1 < BASE && start2 <= 65520 + GROUP * done
    ensures from < at <= |input| && Left(before + input[..at], s1, s2, k1, k2) && InPeriod(groups, |input| - at)
    ensures s1 < BASE && s2 <= 65520 + GROUP * groups
    ensures peak <= 65520 + GROUP * 4096 < 0x1_0000_0000 && s2 == if groups == 0 then peak % BASE else peak
  {
    NextGroup(done, |input| - from);
    s1, s2, k1, k2 := AddEight(before, input, from, start1, start2, l1, l2);
    peak := s2;
    at := from + 8;
    Reduced(before + input[..at], s1, s2, k1, k2);
    if s1 >= BASE {
      s1 := s1 - BASE;
      k1 := k1 + 1;
    }
    if (|input| - at) % 0x8000 == 0 {
      Reduced(before + input[..at], s1, s2, k1, k2);
      k2 := k2 + s2 / BASE;
      s2 := s2 % BASE;
      groups := 0;
    } else {
      groups := done + 1;
    }
  }
}
