// The ASN.1 encoder and decoder over queues of octets.

module Asn {
  import opened Numbers
  import Pieces
  import opened Wrappers
  import opened DigitStrings
  import opened AsnFormat
  import opened AsnValues
  import opened AsnElements

  // A queue: octets are put at the end and taken from the front.
  class ByteQueue {
    var bytes: seq<octet>

    constructor (bytes: seq<octet>)
      ensures this.bytes == bytes
    {
      this.bytes := bytes;
    }

    method Put(b: octet)
      modifies this
      ensures bytes == old(bytes) + [b]
    {
      bytes := bytes + [b];
    }

    method PutAll(more: seq<octet>)
      modifies this
      ensures bytes == old(bytes) + more
    {
      bytes := bytes + more;
    }

    method Get() returns (b: Option<octet>)
      modifies this
      ensures old(bytes) == [] ==> b == None && bytes == []
      ensures old(bytes) != [] ==> b == Some(old(bytes)[0]) && bytes == old(bytes)[1..]
    {
      if bytes == [] {
        b := None;
      } else {
        b := Some(bytes[0]);
        bytes := bytes[1..];
      }
    }

    // As many octets as there are, up to a number.
    method GetAll(count: nat) returns (some: seq<octet>)
      modifies this
      ensures old(bytes) == some + bytes && |some| == if count <= old(|bytes|) then count else old(|bytes|)
    {
      var n := if count <= |bytes| then count else |bytes|;
      some, bytes := bytes[..n], bytes[n..];
    }
  }

  method DERLengthEncode(bt: ByteQueue, length: nat) returns (i: nat)
    requires length < WORD_LIMIT
    modifies bt
    ensures bt.bytes == old(bt.bytes) + LengthOctets(length) && i == |LengthOctets(length)|
  {
    i := 0;
    if length <= 0x7f {
      bt.Put(length);
      i := i + 1;
    } else {
      EightOctets(length);
      var count := DigitCount(length, 8);
      bt.Put(128 + count);
      i := i + 1;
      PutDigits(bt, length, count);
      i := i + count;
      Pieces.Associates(old(bt.bytes), [128 + count], Digits(length, count, 8));
    }
  }

  // byte(length >> (j - 1) * 8), from the most significant octet on.
  method PutDigits(bt: ByteQueue, length: nat, count: nat)
    modifies bt
    ensures bt.bytes == old(bt.bytes) + Digits(length, count, 8)
  {
    ghost var digits := Digits(length, count, 8);
    var j := count;
    while j > 0
      invariant 0 <= j <= count && bt.bytes == old(bt.bytes) + digits[..count - j]
    {
      DigitAt(length, count, 8, count - j);
      BitsIsProduct(j - 1, 8);
      assert digits[..count - j + 1] == digits[..count - j] + [digits[count - j]];
      bt.Put(LowOctet(Shr(length, (j - 1) * 8), 8));
      j := j - 1;
    }
    assert digits[..count] == digits;
  }

  // What reading a length gives: a length, the indefinite form, false, or an exception.
  datatype LengthStatus = DefiniteLength(length: nat) | IndefiniteLength | NoLength | Overflow

  ghost predicate LengthWasRead(before: seq<octet>, r: LengthStatus, after: seq<octet>) {
    match ReadLength(before)
    case Known(n, rest) => r == DefiniteLength(n) && after == rest
    case Indefinite(rest) => r == IndefiniteLength && after == rest
    case Cut => r == NoLength
    case TooLong => r == Overflow
  }

  method BERLengthDecode(bt: ByteQueue) returns (r: LengthStatus)
    modifies bt
    ensures LengthWasRead(old(bt.bytes), r, bt.bytes)
  {
    var b := bt.Get();
    if b == None {
      r := NoLength;
    } else if b.value < 128 {
      r := DefiniteLength(b.value);
    } else if b.value == 128 {
      r := IndefiniteLength;
    } else {
      r := LengthOctetsDecode(bt, b.value - 128);
    }
  }

  // The octets of the long form.
  method LengthOctetsDecode(bt: ByteQueue, count: nat) returns (r: LengthStatus)
    modifies bt
    ensures match ReadOctets(0, count, old(bt.bytes))
            case Known(n, rest) => r == DefiniteLength(n) && bt.bytes == rest
            case Cut => r == NoLength
            case TooLong => r == Overflow
            case Indefinite(_) => false
  {
    ReadOctetsShortens(0, count, bt.bytes);
    var length: nat, lengthBytes: nat := 0, count;
    r := DefiniteLength(0);
    while lengthBytes > 0 && r.DefiniteLength?
      invariant lengthBytes <= count
      invariant r.DefiniteLength? ==> ReadOctets(length, lengthBytes, bt.bytes) == ReadOctets(0, count, old(bt.bytes))
      invariant r == NoLength ==> ReadOctets(0, count, old(bt.bytes)) == Cut
      invariant r == Overflow ==> ReadOctets(0, count, old(bt.bytes)) == TooLong
      invariant r != IndefiniteLength
      decreases lengthBytes, r.DefiniteLength?
    {
      if length >= 0x100_0000_0000_0000 {
        r := Overflow;
      } else {
        var b := bt.Get();
        if b == None {
          r := NoLength;
        } else {
          length := 256 * length + b.value;
          lengthBytes := lengthBytes - 1;
        }
      }
    }
    if r.DefiniteLength? {
      r := DefiniteLength(length);
    }
  }

  // Bits rounded up to whole digits of seven, at least one.
  function RoundUpToSeven(bits: nat): nat {
    var n := if bits > 7 then bits else 7;
    (n + 6) / 7 * 7
  }

  // The digits of an arc, counted by its bits.
  lemma ArcBits(v: nat)
    ensures RoundUpToSeven(BitCount(v)) == 7 * ArcSize(v)
  {
    BitCountBounds(v);
    DigitCountBounds(v, 7);
    if v > 0 {
      var c, b := DigitCount(v, 7), BitCount(v);
      BitsIsProduct(c, 7);
      BitsIsProduct(c - 1, 7);
      Pow2Dominates(7 * (c - 1), b);
      Pow2Dominates(b - 1, 7 * c);
      SevenRound(b, c);
    }
  }

  lemma SevenRound(b: nat, c: nat)
    requires c > 0 && 7 * (c - 1) < b <= 7 * c
    ensures RoundUpToSeven(b) == 7 * c
  {
  }

  // A digit is marked by its top bit.
  method EncodeValue(bt: ByteQueue, v: nat)
    modifies bt
    ensures bt.bytes == old(bt.bytes) + ArcOctets(v)
  {
    ArcBits(v);
    EncodeDigits(bt, v, RoundUpToSeven(BitCount(v)) - 7);
  }

  method EncodeDigits(bt: ByteQueue, v: nat, start: nat)
    requires start == 7 * (ArcSize(v) - 1)
    modifies bt
    ensures bt.bytes == old(bt.bytes) + ArcOctets(v)
  {
    var i := start;
    ghost var octets, size := ArcOctets(v), ArcSize(v);
    ghost var k: nat := 0;
    while i != 0
      invariant k < size && i == 7 * (size - 1 - k)
      invariant bt.bytes == old(bt.bytes) + octets[..k]
      decreases i
    {
      ArcOctetAt(v, k, i);
      assert octets[..k + 1] == octets[..k] + [octets[k]];
      bt.Put(128 + LowSeven(Shr(v, i)));
      i := i - 7;
      k := k + 1;
    }
    ArcOctetAt(v, k, i);
    assert octets == octets[..k] + [octets[k]];
    bt.Put(LowSeven(v));
  }

  function LowSeven(v: nat): (d: octet)
    ensures d < 128
  {
    assert Pow2(7) == 128;
    Low(v, 7)
  }

  lemma ArcOctetAt(v: nat, k: nat, i: nat)
    requires k < ArcSize(v) && i == 7 * (ArcSize(v) - 1 - k)
    ensures ArcOctets(v)[k] == if i > 0 then 128 + LowSeven(Shr(v, i)) else LowSeven(v)
  {
    DigitAt(v, ArcSize(v), 7, k);
    BitsIsProduct(ArcSize(v) - 1 - k, 7);
  }

  // The value, and the number of octets read for it.
  method DecodeValue(bt: ByteQueue) returns (r: Option<(nat, nat)>)
    modifies bt
    ensures match ReadArc(0, old(bt.bytes))
            case None => r == None
            case Some((v, rest)) => r == Some((v, |old(bt.bytes)| - |rest|)) && bt.bytes == rest
  {
    var v: nat, i: nat := 0, 0;
    r := None;
    var more, failed := true, false;
    while more && !failed
      invariant more && !failed ==> ReadArc(v, bt.bytes) == ReadArc(0, old(bt.bytes)) && i == |old(bt.bytes)| - |bt.bytes|
      invariant failed ==> ReadArc(0, old(bt.bytes)) == None
      invariant !more && !failed ==> ReadArc(0, old(bt.bytes)) == Some((v, bt.bytes)) && i == |old(bt.bytes)| - |bt.bytes|
      decreases more, |bt.bytes|, !failed
    {
      var b := bt.Get();
      if b == None || v >= 0x200_0000 {
        failed := true;
      } else {
        i := i + 1;
        v := 128 * v + b.value % 128;
        more := b.value >= 128;
      }
    }
    if !failed {
      r := Some((v, i));
    }
  }

  // A tag, the length and the contents.
  method PutElement(bt: ByteQueue, tag: octet, content: seq<octet>) returns (count: nat)
    modifies bt
    ensures bt.bytes == old(bt.bytes) + Der(tag, content) && count == |Der(tag, content)|
  {
    bt.Put(tag);
    var lengthBytes := DERLengthEncode(bt, |content| % WORD_LIMIT);
    bt.PutAll(content);
    count := 1 + lengthBytes + |content|;
  }

  lemma NextArcOctets(arcs: seq<nat>, i: nat, before: seq<octet>)
    requires i < |arcs|
    ensures (before + ArcOctets(arcs[i])) + ArcsOctets(arcs, i + 1) == before + ArcsOctets(arcs, i)
  {
    Pieces.Associates(before, ArcOctets(arcs[i]), ArcsOctets(arcs, i + 1));
  }

  lemma NoArcOctets(arcs: seq<nat>, before: seq<octet>)
    ensures before + ArcsOctets(arcs, |arcs|) == before
  {
  }

  class OID {
    var values: seq<nat>

    constructor (values: seq<nat>)
      ensures this.values == values
    {
      this.values := values;
    }

    method DEREncode(bt: ByteQueue)
      requires |values| >= 2
      modifies bt
      ensures bt.bytes == old(bt.bytes) + OidOctets(values)
    {
      var content := EncodeContent();
      var count := PutElement(bt, OBJECT_IDENTIFIER, content);
    }

    method EncodeContent() returns (content: seq<octet>)
      requires |values| >= 2
      ensures content == OidContent(values)
    {
      var temp := new ByteQueue([]);
      temp.Put((values[0] * 40 + values[1]) % 256);
      EncodeArcs(temp, temp.bytes);
      content := temp.bytes;
    }

    method EncodeArcs(temp: ByteQueue, ghost before: seq<octet>)
      requires |values| >= 2 && temp.bytes == before
      modifies temp
      ensures temp.bytes == before + ArcsOctets(values, 2)
    {
      for i := 2 to |values|
        invariant temp.bytes + ArcsOctets(values, i) == before + ArcsOctets(values, 2)
      {
        NextArcOctets(values, i, temp.bytes);
        EncodeValue(temp, values[i]);
      }
      NoArcOctets(values, temp.bytes);
    }

    // On an error, what the values and the queue are then is not said.
    method BERDecode(bt: ByteQueue) returns (ok: bool)
      modifies this, bt
      ensures ok == ReadOid(old(bt.bytes)).Some?
      ensures ok ==> ReadOid(old(bt.bytes)) == Some((values, bt.bytes))
    {
      ok := false;
      var b := bt.Get();
      if b == Some(OBJECT_IDENTIFIER) {
        var length := BERLengthDecode(bt);
        if length.DefiniteLength? && length.length >= 1 {
          b := bt.Get();
          if b.Some? {
            values := [b.value / 40, b.value % 40];
            ok := DecodeArcs(bt, length.length - 1);
          }
        }
      }
    }

    method DecodeArcs(bt: ByteQueue, count: nat) returns (ok: bool)
      modifies this, bt
      ensures ok == ReadArcs(count, old(bt.bytes), old(values)).Some?
      ensures ok ==> ReadArcs(count, old(bt.bytes), old(values)) == Some((values, bt.bytes))
    {
      var length: nat := count;
      ok := true;
      while length > 0 && ok
        invariant ok ==> ReadArcs(length, bt.bytes, values) == ReadArcs(count, old(bt.bytes), old(values))
        invariant !ok ==> ReadArcs(count, old(bt.bytes), old(values)) == None
        decreases ok, length
      {
        var v := DecodeValue(bt);
        if v == None || v.value.1 > length {
          ok := false;
        } else {
          values := values + [v.value.0];
          length := length - v.value.1;
        }
      }
    }
  }

  // The number in all its octets; leading zeros can be dropped.
  lemma ZerosInFront(w: nat, size: nat, m: nat)
    requires m <= size && w < Pow2(Bits(m, 8))
    ensures Digits(w, size, 8)[size - m..] == Digits(w, m, 8)
    ensures forall k :: 0 <= k < size - m ==> Digits(w, size, 8)[k] == 0
  {
    forall k | 0 <= k < size - m ensures Digits(w, size, 8)[k] == 0 {
      ZeroInFront(w, size, m, k);
    }
    forall k | 0 <= k < m ensures Digits(w, size, 8)[size - m..][k] == Digits(w, m, 8)[k] {
      DigitAt(w, size, 8, size - m + k);
      DigitAt(w, m, 8, k);
    }
  }

  lemma ZeroInFront(w: nat, size: nat, m: nat, k: nat)
    requires k + m < size && w < Pow2(Bits(m, 8))
    ensures Digits(w, size, 8)[k] == 0
  {
    var behind := Bits(size - 1 - k, 8);
    DigitAt(w, size, 8, k);
    BitsMonotonic(m, size - 1 - k);
    Pow2Monotonic(Bits(m, 8), behind);
    ShlMonotonic(0, 0, behind);
    SplitIsUnique(w, behind, 0, w);
    ShlMonotonic(0, 0, 8);
    SplitIsUnique(0, 8, 0, 0);
  }

  lemma BitsMonotonic(a: nat, b: nat)
    requires a <= b
    ensures Bits(a, 8) <= Bits(b, 8)
  {
    BitsIsProduct(a, 8);
    BitsIsProduct(b, 8);
  }

  // The first octet of the fewest octets is not zero.
  lemma FirstIsNotZero(w: nat, size: nat, m: nat)
    requires 0 < m <= size && w < Pow2(Bits(m, 8))
    ensures Digits(w, size, 8)[size - m] == 0 ==> w < Pow2(Bits(m - 1, 8))
  {
    DigitAt(w, size, 8, size - m);
    var high := Shr(w, Bits(m - 1, 8));
    ShrBelow(w, 8, Bits(m - 1, 8));
    ShlMonotonic(0, 0, 8);
    SplitIsUnique(high, 8, 0, high);
    ShrSplit(w, Bits(m - 1, 8));
    ShlMonotonic(0, 0, Bits(m - 1, 8));
  }

  method DEREncodeUnsigned(out: ByteQueue, w: nat, size: nat, asnTag: octet) returns (count: nat)
    requires 0 < size < 0x1_0000_0000 && w < Pow2(Bits(size, 8))
    modifies out
    ensures out.bytes == old(out.bytes) + UnsignedOctets(w, asnTag) && count == |UnsignedOctets(w, asnTag)|
  {
    var buf := new octet[size + 1](_ => 0);
    var bc: nat;
    if asnTag == BOOLEAN {
      buf[size] := if w != 0 then 0xff else 0;
      bc := 1;
      assert buf[size..] == [BooleanOctet(w)];
    } else {
      FillBuffer(buf, w, size);
      bc := UnsignedSize(buf, w, size);
    }
    count := PutElement(out, asnTag, buf[size + 1 - bc..]);
  }

  // All octets of w, behind a zero.
  method FillBuffer(buf: array<octet>, w: nat, size: nat)
    requires buf.Length == size + 1 && w < Pow2(Bits(size, 8))
    modifies buf
    ensures buf[..] == [0] + Digits(w, size, 8)
  {
    buf[0] := 0;
    var i := 0;
    while i < size
      invariant i <= size && buf[0] == 0
      invariant forall k :: 0 <= k < i ==> buf[k + 1] == Digits(w, size, 8)[k]
    {
      DigitAt(w, size, 8, i);
      BitsIsProduct(size - 1 - i, 8);
      buf[i + 1] := LowOctet(Shr(w, (size - 1 - i) * 8), 8);
      i := i + 1;
    }
  }

  // How many octets at the end of the buffer are needed.
  method UnsignedSize(buf: array<octet>, w: nat, size: nat) returns (bc: nat)
    requires 0 < size && buf.Length == size + 1 && w < Pow2(Bits(size, 8)) && buf[..] == [0] + Digits(w, size, 8)
    ensures bc <= size + 1 && buf[size + 1 - bc..] == UnsignedContent(w)
  {
    bc := size;
    while bc > 1 && buf[size + 1 - bc] == 0
      invariant 1 <= bc <= size && w < Pow2(Bits(bc, 8))
    {
      FirstIsNotZero(w, size, bc);
      bc := bc - 1;
    }
    ContentInBuffer(buf[..], w, size, bc);
    assert buf[size + 1 - bc..] == buf[..][size + 1 - bc..] && buf[size - bc..] == buf[..][size - bc..];
    if buf[size + 1 - bc] >= 128 {
      bc := bc + 1;
    }
  }

  // The fewest octets at the end of the buffer, and one more if their first bit would read as a sign.
  lemma ContentInBuffer(all: seq<octet>, w: nat, size: nat, bc: nat)
    requires all == [0] + Digits(w, size, 8) && 0 < bc <= size && w < Pow2(Bits(bc, 8)) && (bc > 1 ==> all[size + 1 - bc] != 0)
    ensures UnsignedContent(w) == if all[size + 1 - bc] >= 128 then all[size - bc..] else all[size + 1 - bc..]
  {
    BufferTail(w, size, bc);
    Minimal(w, size, bc);
    assert all[size + 1 - bc] == all[size + 1 - bc..][0];
  }

  lemma BufferTail(w: nat, size: nat, bc: nat)
    requires 0 < bc <= size && w < Pow2(Bits(bc, 8))
    ensures ([0] + Digits(w, size, 8))[size + 1 - bc..] == Digits(w, bc, 8)
    ensures ([0] + Digits(w, size, 8))[size - bc..] == [0] + Digits(w, bc, 8)
  {
    var all := [0] + Digits(w, size, 8);
    ZerosInFront(w, size, bc);
    assert all[size + 1 - bc..] == Digits(w, size, 8)[size - bc..];
    assert all[size - bc] == 0;
    assert all[size - bc..] == [all[size - bc]] + all[size + 1 - bc..];
  }

  lemma Minimal(w: nat, size: nat, bc: nat)
    requires 0 < bc <= size && w < Pow2(Bits(bc, 8)) && (bc > 1 ==> Digits(w, size, 8)[size - bc] != 0)
    ensures bc == if w == 0 then 1 else DigitCount(w, 8)
  {
    DigitCountBounds(w, 8);
    DigitCountWithin(w, 8, bc);
    if bc > 1 && DigitCount(w, 8) < bc {
      BitsMonotonic(DigitCount(w, 8), bc - 1);
      Pow2Monotonic(Bits(DigitCount(w, 8), 8), Bits(bc - 1, 8));
      ZerosInFront(w, size, bc - 1);
    }
  }

  lemma LeadingZero(s: seq<octet>)
    requires s != [] && s[0] == 0
    ensures Value(s, 8) == Value(s[1..], 8)
  {
    assert s == [s[0]] + s[1..];
    ValueFirst(0, s[1..], 8);
    ShlMonotonic(0, 0, Bits(|s| - 1, 8));
  }

  // Too many octets, and the first is not zero.
  lemma TooLarge(s: seq<octet>, size: nat)
    requires |s| > size && s[0] != 0
    ensures Value(s, 8) >= Pow2(Bits(size, 8))
  {
    assert s == [s[0]] + s[1..];
    ValueFirst(s[0], s[1..], 8);
    ShlMonotonic(1, s[0], Bits(|s| - 1, 8));
    ShlOne(Bits(|s| - 1, 8));
    BitsMonotonic(size, |s| - 1);
    Pow2Monotonic(Bits(size, 8), Bits(|s| - 1, 8));
  }

  lemma SmallEnough(s: seq<octet>, size: nat)
    requires |s| <= size
    ensures Value(s, 8) < Pow2(Bits(size, 8))
  {
    BytesBelow(s);
    ValueBelow(s, 8);
    BitsMonotonic(|s|, size);
    Pow2Monotonic(Bits(|s|, 8), Bits(size, 8));
  }

  // The number in the octets, unless it needs more than the given size.
  method UnsignedValue(buf: seq<octet>, size: nat) returns (w: Option<nat>)
    ensures w == if Value(buf, 8) < Pow2(Bits(size, 8)) then Some(Value(buf, 8)) else None
  {
    var ptr := 0;
    while |buf| - ptr > size && buf[ptr] == 0
      invariant ptr <= |buf| && Value(buf[ptr..], 8) == Value(buf, 8)
    {
      LeadingZero(buf[ptr..]);
      assert buf[ptr..][1..] == buf[ptr + 1..];
      ptr := ptr + 1;
    }
    if |buf| - ptr > size {
      TooLarge(buf[ptr..], size);
      w := None;
    } else {
      SmallEnough(buf[ptr..], size);
      var v: nat := OctetsValue(buf[ptr..]);
      w := Some(v);
    }
  }

  // w = (w << 8) | octet, from the first octet on.
  method OctetsValue(s: seq<octet>) returns (w: nat)
    ensures w == Value(s, 8)
  {
    w := 0;
    for i := 0 to |s|
      invariant w == Value(s[..i], 8)
    {
      assert s[..i + 1] == s[..i] + [s[i]];
      ValueOneMore(s[..i], s[i], 8);
      OctetsTimes(w);
      w := 256 * w + s[i];
    }
    assert s[..|s|] == s;
  }

  method BERDecodeUnsigned(input: ByteQueue, size: nat, asnTag: octet, minValue: nat, maxValue: nat) returns (w: Option<nat>)
    modifies input
    ensures match ReadUnsigned(old(input.bytes), asnTag, size, minValue, maxValue)
            case None => w == None
            case Some((v, rest)) => w == Some(v) && input.bytes == rest
  {
    w := None;
    var b := input.Get();
    if b == Some(asnTag) {
      var length := BERLengthDecode(input);
      if length.DefiniteLength? {
        var buf := input.GetAll(length.length);
        if |buf| == length.length {
          w := UnsignedValue(buf, size);
          if w.Some? && (w.value < minValue || w.value > maxValue) {
            w := None;
          }
        }
      }
    }
  }

  // Reads one element: its tag and length first, and its contents up to the length or the end of contents.
  class BERGeneralDecoder {
    const inQueue: ByteQueue
    var definiteLength: bool
    var length: nat
    var finished: bool

    // Fails on another tag, on a bad length, and on an element of indefinite length that is not constructed.
    constructor (inQueue: ByteQueue)
      ensures this.inQueue == inQueue
    {
      this.inQueue := inQueue;
      definiteLength, length, finished := true, 0, false;
    }

    method Init(asnTag: octet) returns (ok: bool)
      requires this as object != inQueue
      modifies this, inQueue
      ensures match Opened(old(inQueue.bytes), asnTag)
              case None => !ok
              case Some((definite, n, rest)) =>
                ok && inQueue.bytes == rest && definiteLength == definite && (definite ==> length == n)
      ensures [asnTag, 0x80] <= old(inQueue.bytes) ==> ok == GetBit(asnTag, 5)
    {
      ConstructedBit(asnTag);
      ok := false;
      var b := inQueue.Get();
      if b == Some(asnTag) {
        var r := BERLengthDecode(inQueue);
        if r.DefiniteLength? {
          definiteLength, length := true, r.length;
          ok := true;
        } else if r == IndefiniteLength {
          definiteLength := false;
          ok := IsConstructed(asnTag);
        }
      }
    }

    // An open element ends with two zeros, which are not taken yet.
    method EndReached() returns (end: bool)
      ensures end == if definiteLength then length == 0 else AtEnd(inQueue.bytes)
    {
      end := if definiteLength then length == 0
             else |inQueue.bytes| >= 2 && inQueue.bytes[0] == 0 && inQueue.bytes[1] == 0;
    }

    // So many octets of the contents, as far as there are so many in the contents and in the queue.
    method TransferTo2(target: ByteQueue, transferBytes: nat) returns (transferred: nat)
      requires this as object != inQueue && this as object != target && target != inQueue
      modifies this`length, inQueue, target
      ensures var most := if definiteLength then Least(transferBytes, old(length)) else transferBytes;
              transferred == Least(most, |old(inQueue.bytes)|)
      ensures target.bytes == old(target.bytes) + old(inQueue.bytes)[..transferred]
      ensures inQueue.bytes == old(inQueue.bytes)[transferred..]
      ensures length == if definiteLength then old(length) - transferred else old(length)
    {
      var count := transferBytes;
      if definiteLength && count > length {
        count := length;
      }
      var some := inQueue.GetAll(count);
      target.PutAll(some);
      transferred := |some|;
      if definiteLength {
        length := length - transferred;
      }
    }

    method MessageEnd() returns (ok: bool)
      requires this as object != inQueue
      modifies this`finished, inQueue
      ensures finished
      ensures ok == if definiteLength then length == 0 else AtEnd(old(inQueue.bytes))
      ensures ok ==> inQueue.bytes == if definiteLength then old(inQueue.bytes) else old(inQueue.bytes)[2..]
    {
      finished := true;
      if definiteLength {
        ok := length == 0;
      } else {
        var some := inQueue.GetAll(2);
        ok := some == [0, 0];
      }
    }
  }

  function Least(a: nat, b: nat): nat {
    if a <= b then a else b
  }

  // The tag and length of the element at the front.
  function Opened(s: seq<octet>, tag: octet): Option<(bool, nat, seq<octet>)> {
    if s == [] || s[0] != tag then None
    else
      match ReadLength(s[1..])
      case Known(n, rest) => Some((true, n, rest))
      case Indefinite(rest) => if IsConstructed(tag) then Some((false, 0, rest)) else None
      case _ => None
  }

  // Elements parsed already, before what the rest parses as.
  function Prepend(done: seq<Element>, r: Option<(seq<Element>, seq<octet>)>): Option<(seq<Element>, seq<octet>)> {
    match r
    case None => None
    case Some((es, after)) => Some((done + es, after))
  }

  lemma PrependNothing(r: Option<(seq<Element>, seq<octet>)>)
    ensures Prepend([], r) == r
  {
    if r.Some? {
      assert [] + r.value.0 == r.value.0;
    }
  }

  lemma ParsedOneMore(done: seq<Element>, s: seq<octet>)
    requires !AtEnd(s)
    ensures Parse(s) == None ==> ParseAll(s) == None
    ensures Parse(s).Some? ==>
              Prepend(done, ParseAll(s)) == Prepend(done + [Parse(s).value.0], ParseAll(Parse(s).value.1))
  {
    if ParseAll(s).Some? {
      var e, more := Parse(s).value.0, ParseAll(Parse(s).value.1).value.0;
      assert done + ([e] + more) == (done + [e]) + more;
    }
  }

  lemma {:induction false} ReencodedOneMore(es: seq<Element>, e: Element)
    ensures ReencodedAll(es + [e]) == ReencodedAll(es) + Reencoded(e)
  {
    if es == [] {
      assert (es + [e])[1..] == [] && (es + [e])[0] == e;
    } else {
      assert (es + [e])[1..] == es[1..] + [e];
      ReencodedOneMore(es[1..], e);
    }
  }

  // The re-encoded contents of an element that was opened, and what follows it.
  function ContentsTaken(definite: bool, n: nat, s: seq<octet>): Option<(seq<octet>, seq<octet>)> {
    if definite then
      if n <= |s| then Some((s[..n], s[n..])) else None
    else
      match ParseAll(s)
      case None => None
      case Some((es, after)) => Some((ReencodedAll(es), after))
  }

  // An element parses as one that is re-encoded with these contents.
  ghost predicate ParsesWith(r: Option<(Element, seq<octet>)>, tag: octet, taken: Option<(seq<octet>, seq<octet>)>) {
    match taken
    case None => r == None
    case Some((content, after)) => r.Some? && Reencoded(r.value.0) == Der(tag, content) && r.value.1 == after
  }

  lemma ParsedWhenOpened(s: seq<octet>)
    requires s != []
    ensures match Opened(s, s[0])
            case None => Parse(s) == None
            case Some((definite, n, rest)) => |rest| < |s| && ParsesWith(Parse(s), s[0], ContentsTaken(definite, n, rest))
  {
    match ReadLength(s[1..])
    case Known(n, rest) =>
      DefiniteAtFront(s, n, rest);
    case Indefinite(rest) =>
      if IsConstructed(s[0]) {
        OpenAtFront(s, rest);
      }
    case _ =>
  }

  // Re-encodes the element at the front of the source. On an error, what source and destination are then
  // is not said.
  method DERReencode(source: ByteQueue, dest: ByteQueue) returns (ok: bool)
    requires source != dest
    modifies source, dest
    ensures ok == Parse(old(source.bytes)).Some?
    ensures ok ==>
              && source.bytes == Parse(old(source.bytes)).value.1
              && dest.bytes == old(dest.bytes) + Reencoded(Parse(old(source.bytes)).value.0)
    decreases |source.bytes|, 0
  {
    ok := false;
    if source.bytes != [] {
      var tag := source.bytes[0];
      ParsedWhenOpened(source.bytes);
      var decoder := new BERGeneralDecoder(source);
      ok := decoder.Init(tag);
      if ok {
        var encoder := new ByteQueue([]);
        ok := TakeContents(decoder, encoder);
        if ok {
          var count := PutElement(dest, tag, encoder.bytes);
        }
      }
    }
  }

  // The contents, copied or re-encoded, and the end of the element.
  method TakeContents(decoder: BERGeneralDecoder, encoder: ByteQueue) returns (ok: bool)
    requires decoder as object != decoder.inQueue && decoder as object != encoder && decoder.inQueue != encoder
    requires encoder.bytes == []
    modifies decoder, decoder.inQueue, encoder
    ensures match ContentsTaken(old(decoder.definiteLength), old(decoder.length), old(decoder.inQueue.bytes))
            case None => !ok
            case Some((content, after)) => ok && encoder.bytes == content && decoder.inQueue.bytes == after
    decreases |decoder.inQueue.bytes|, 2
  {
    ok := true;
    if decoder.definiteLength {
      var count := decoder.TransferTo2(encoder, decoder.length);
    } else {
      ok := ReencodeContents(decoder, encoder);
    }
    if ok {
      ok := decoder.MessageEnd();
    }
  }

  // The elements of an open element, up to the end of contents.
  method ReencodeContents(decoder: BERGeneralDecoder, encoder: ByteQueue) returns (ok: bool)
    requires decoder.inQueue != encoder && !decoder.definiteLength && encoder.bytes == []
    modifies decoder.inQueue, encoder
    ensures ok == ParseAll(old(decoder.inQueue.bytes)).Some?
    ensures ok ==>
              && AtEnd(decoder.inQueue.bytes) && decoder.inQueue.bytes[2..] == ParseAll(old(decoder.inQueue.bytes)).value.1
              && encoder.bytes == ReencodedAll(ParseAll(old(decoder.inQueue.bytes)).value.0)
    decreases |decoder.inQueue.bytes|, 1
  {
    ok := true;
    ghost var done: seq<Element> := [];
    PrependNothing(ParseAll(decoder.inQueue.bytes));
    var end := decoder.EndReached();
    while ok && !end
      invariant ok ==> end == AtEnd(decoder.inQueue.bytes) && |decoder.inQueue.bytes| <= |old(decoder.inQueue.bytes)|
      invariant ok ==> Prepend(done, ParseAll(decoder.inQueue.bytes)) == ParseAll(old(decoder.inQueue.bytes))
      invariant ok ==> encoder.bytes == ReencodedAll(done)
      invariant !ok ==> ParseAll(old(decoder.inQueue.bytes)) == None
      decreases ok, |decoder.inQueue.bytes|
    {
      ghost var s := decoder.inQueue.bytes;
      ParsedOneMore(done, s);
      ok := DERReencode(decoder.inQueue, encoder);
      if ok {
        ReencodedOneMore(done, Parse(s).value.0);
        done := done + [Parse(s).value.0];
        end := decoder.EndReached();
      }
    }
    assert done + [] == done;
  }

  method ReencodeOctets(octets: seq<octet>) returns (ok: bool, left: seq<octet>, dest: seq<octet>)
    ensures ok == Parse(octets).Some?
    ensures ok ==> left == Parse(octets).value.1 && dest == Reencoded(Parse(octets).value.0)
  {
    var source := new ByteQueue(octets);
    var out := new ByteQueue([]);
    ok := DERReencode(source, out);
    left, dest := source.bytes, out.bytes;
  }

  // Any well-formed element is taken from the front as far as it goes, and comes out re-encoded.
  method ReencodeElement(e: Element, rest: seq<octet>) returns (left: seq<octet>, dest: seq<octet>)
    requires WellFormed(e) && 3 * |Encode(e)| < WORD_LIMIT
    ensures left == rest && dest == Encode(DerElement(e)) && WellFormed(DerElement(e))
  {
    EncodedParses(e, rest);
    ReencodedParses(e, []);
    var ok;
    ok, left, dest := ReencodeOctets(Encode(e) + rest);
  }

  // Any well-formed elements under any tag, with an indefinite length: they come out re-encoded if bit 5 of the tag is set,
  // and else that is an error.
  method ReencodeOpen(tag: octet, children: seq<Element>, rest: seq<octet>) returns (ok: bool, left: seq<octet>, dest: seq<octet>)
    requires AllWellFormed(children) && 3 * (4 + |EncodeAll(children)|) < WORD_LIMIT
    ensures ok == GetBit(tag, 5)
    ensures ok ==> left == rest && EncodesTree(dest, Open(tag, children))
  {
    OpenReencodedExactly(tag, children, rest);
    ok, left, dest := ReencodeOctets([tag, 0x80] + EncodeAll(children) + [0, 0] + rest);
  }
}
