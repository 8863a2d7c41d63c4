// CCM authenticated encryption: the one-shot definition of RFC 3610, sections 2.2 and 2.3, and the
// streaming object that computes it block by block as data arrives.

module CcmFormat {
  import Numbers
  import opened Blocks

  const SIZE := 16

  // The block cipher under its key, the keystream of counter mode as a function of the first counter
  // block and the position, and the tag size.
  datatype Parameters = Parameters(cipher: BlockCipher, keystream: (seq<byte>, nat) -> byte, digestSize: nat) {
    ghost predicate Valid() {
      cipher.Valid() && cipher.blockSize == SIZE && digestSize % 2 == 0 && 4 <= digestSize <= 16
    }

    function KeyByte(counterBlock: seq<byte>, position: nat): byte {
      keystream(counterBlock, position)
    }
  }

  predicate NonceFits(nonce: seq<byte>) {
    7 <= |nonce| <= 13
  }

  // n in count bytes, most significant first; higher bits are dropped.
  function Octets(n: nat, count: nat): (s: seq<byte>)
    ensures |s| == count
  {
    if count == 0 then [] else Octets(n / 256, count - 1) + [(n % 256) as byte]
  }

  // The low bytes of a wider number.
  lemma {:induction false} OctetsSuffix(n: nat, more: nat, count: nat)
    ensures Octets(n, more + count)[more..] == Octets(n, count)
  {
    if count > 0 {
      OctetsSuffix(n / 256, more, count - 1);
    }
  }

  // Their number, in so many bytes.
  lemma {:induction false} OctetsValue(n: nat, count: nat)
    ensures BigEndian(Octets(n, count)) == n % Numbers.Pow2(8 * count)
    decreases count
  {
    if count > 0 {
      OctetsValue(n / 256, count - 1);
      ByteHasValue(n % 256);
      assert Octets(n, count)[..count - 1] == Octets(n / 256, count - 1);
      OneByteMore(n, Numbers.Pow2(8 * (count - 1)));
      Numbers.Pow2Adds(8 * (count - 1), 8);
      assert Numbers.Pow2(8) == 256;
    }
  }

  lemma OneByteMore(n: nat, power: nat)
    requires power > 0
    ensures n % (power * 256) == 256 * (n / 256 % power) + n % 256
  {
    var q, r := n / 256 / power, n / 256 % power;
    Numbers.DivFacts(n / 256, power);
    Numbers.MulAssociates(q, power, 256);
    Numbers.DivIsUnique(n, power * 256, q, 256 * r + n % 256);
  }

  function CounterBlock(nonce: seq<byte>): (b: seq<byte>)
    requires NonceFits(nonce)
    ensures |b| == SIZE
  {
    [(14 - |nonce|) as byte] + nonce + Zeros(15 - |nonce|)
  }

  function Flags(hasHeader: bool, digestSize: nat, lengthSize: nat): byte
    requires 4 <= digestSize <= 16 && 2 <= lengthSize <= 8
  {
    ((if hasHeader then 64 else 0) + 8 * ((digestSize - 2) / 2) + (lengthSize - 1)) as byte
  }

  // Block B_0.
  function FirstBlock(nonce: seq<byte>, headerLength: nat, messageLength: nat, digestSize: nat): (b: seq<byte>)
    requires NonceFits(nonce) && 4 <= digestSize <= 16
    ensures |b| == SIZE
  {
    [Flags(headerLength > 0, digestSize, 15 - |nonce|)] + nonce + Octets(messageLength, 15 - |nonce|)
  }

  // The encoding of the header length in front of the header.
  function HeaderPrefix(headerLength: nat): (s: seq<byte>)
    ensures |s| <= 10
  {
    if headerLength == 0 then []
    else if headerLength < 0x1_0000 - 0x100 then Octets(headerLength, 2)
    else if headerLength < 0x1_0000_0000 then [0xff, 0xfe] + Octets(headerLength, 4)
    else [0xff, 0xff] + Octets(headerLength, 8)
  }

  // The fields of RFC 3610, section 2.2, as numbers: what the flags say in their bits, the nonce, and the length of the
  // message behind it.
  ghost predicate IsFirstBlock(b: seq<byte>, nonce: seq<byte>, headerLength: nat, messageLength: nat, digestSize: nat)
    requires NonceFits(nonce) && 4 <= digestSize <= 16
  {
    && |b| == 16
    && b[0] as nat / 128 == 0
    && (b[0] as nat / 64 % 2 == 1 <==> headerLength > 0)
    && b[0] as nat / 8 % 8 == (digestSize - 2) / 2
    && b[0] as nat % 8 == 14 - |nonce|
    && b[1..1 + |nonce|] == nonce
    && BigEndian(b[1 + |nonce|..]) == messageLength
  }

  ghost predicate IsCounterBlock(b: seq<byte>, nonce: seq<byte>)
    requires NonceFits(nonce)
  {
    && |b| == 16 && b[0] as nat == 14 - |nonce| && b[1..1 + |nonce|] == nonce
    && forall i :: 1 + |nonce| <= i < 16 ==> b[i] == 0
  }

  // The length of a header in two, six or ten bytes, the longer forms behind their marks.
  ghost predicate IsHeaderLength(s: seq<byte>, n: nat) {
    if n == 0 then s == []
    else if n < 0xff00 then |s| == 2 && BigEndian(s) == n
    else if n < 0x1_0000_0000 then |s| == 6 && s[0] == 0xff && s[1] == 0xfe && BigEndian(s[2..]) == n
    else |s| == 10 && s[0] == 0xff && s[1] == 0xff && BigEndian(s[2..]) == n
  }

  // The bytes of s, and as few zeros as make whole blocks.
  ghost predicate IsFilled(r: seq<byte>, s: seq<byte>) {
    && s <= r && |r| < |s| + 16 && |r| % 16 == 0
    && forall i :: |s| <= i < |r| ==> r[i] == 0
  }

  lemma FlagFields(top: nat, middle: nat, low: nat)
    requires top < 2 && middle < 8 && low < 8
    ensures var f := 64 * top + 8 * middle + low;
            f < 256 && f / 128 == 0 && f / 64 % 2 == top && f / 8 % 8 == middle && f % 8 == low
  {
    var f := 64 * top + 8 * middle + low;
    Numbers.DivIsUnique(f, 8, 8 * top + middle, low);
    Numbers.DivIsUnique(8 * top + middle, 8, top, middle);
    Numbers.DivIsUnique(f, 64, top, 8 * middle + low);
  }

  lemma FlagsAre(hasHeader: bool, digestSize: nat, lengthSize: nat)
    requires 4 <= digestSize <= 16 && 2 <= lengthSize <= 8
    ensures var f := Flags(hasHeader, digestSize, lengthSize) as nat;
            && f / 128 == 0 && (f / 64 % 2 == 1 <==> hasHeader) && f / 8 % 8 == (digestSize - 2) / 2 && f % 8 == lengthSize - 1
  {
    FlagFields(if hasHeader then 1 else 0, (digestSize - 2) / 2, lengthSize - 1);
    ByteHasValue((if hasHeader then 64 else 0) + 8 * ((digestSize - 2) / 2) + (lengthSize - 1));
  }

  lemma FirstBlockIs(nonce: seq<byte>, headerLength: nat, messageLength: nat, digestSize: nat)
    requires NonceFits(nonce) && 4 <= digestSize <= 16 && messageLength <= MaxLength(15 - |nonce|)
    ensures IsFirstBlock(FirstBlock(nonce, headerLength, messageLength, digestSize),
                         nonce, headerLength, messageLength, digestSize)
  {
    var b, n := FirstBlock(nonce, headerLength, messageLength, digestSize), 15 - |nonce|;
    FlagsAre(headerLength > 0, digestSize, n);
    OctetsValue(messageLength, n);
    LongestFits(n);
    Numbers.DivIsUnique(messageLength, Numbers.Pow2(8 * n), 0, messageLength);
    assert b[1 + |nonce|..] == Octets(messageLength, n);
  }

  lemma CounterBlockIs(nonce: seq<byte>)
    requires NonceFits(nonce)
    ensures IsCounterBlock(CounterBlock(nonce), nonce)
  {
    ByteHasValue(14 - |nonce|);
  }

  lemma HeaderPrefixIs(n: nat)
    requires n < WORD
    ensures IsHeaderLength(HeaderPrefix(n), n)
  {
    WordBits();
    OctetsFit(n, 2);
    OctetsFit(n, 4);
    OctetsFit(n, 8);
  }

  lemma OctetsFit(n: nat, count: nat)
    ensures n < Numbers.Pow2(8 * count) ==> BigEndian(Octets(n, count)) == n
  {
    OctetsValue(n, count);
    if n < Numbers.Pow2(8 * count) {
      Numbers.DivIsUnique(n, Numbers.Pow2(8 * count), 0, n);
    }
  }

  lemma PaddedIs(s: seq<byte>)
    ensures IsFilled(Padded(s), s)
  {
    var blocks := PaddedLength(s);
    Numbers.DivIsUnique(|Padded(s)|, SIZE, blocks, 0);
  }

  // What is authenticated before the header.
  ghost predicate IsStart(b: seq<byte>, nonce: seq<byte>, headerLength: nat, messageLength: nat, digestSize: nat)
    requires NonceFits(nonce) && 4 <= digestSize <= 16
  {
    && |b| >= 16 && IsFirstBlock(b[..16], nonce, headerLength, messageLength, digestSize)
    && IsHeaderLength(b[16..], headerLength)
  }

  lemma StartIs(nonce: seq<byte>, headerLength: nat, messageLength: nat, digestSize: nat)
    requires NonceFits(nonce) && 4 <= digestSize <= 16 && headerLength < WORD && messageLength <= MaxLength(15 - |nonce|)
    ensures IsStart(FirstBlock(nonce, headerLength, messageLength, digestSize) + (HeaderPrefix(headerLength) + []),
                    nonce, headerLength, messageLength, digestSize)
  {
    var first, prefix := FirstBlock(nonce, headerLength, messageLength, digestSize), HeaderPrefix(headerLength);
    FirstBlockIs(nonce, headerLength, messageLength, digestSize);
    HeaderPrefixIs(headerLength);
    assert (first + (prefix + []))[..16] == first && (first + (prefix + []))[16..] == prefix;
  }

  // Zeros up to the next block boundary.
  function Padded(s: seq<byte>): (r: seq<byte>)
  {
    s + Zeros((SIZE - |s| % SIZE) % SIZE)
  }

  // Everything that is authenticated before the message.
  function HeaderBlocks(nonce: seq<byte>, header: seq<byte>, messageLength: nat, digestSize: nat): (r: seq<byte>)
    requires NonceFits(nonce) && 4 <= digestSize <= 16
  {
    FirstBlock(nonce, |header|, messageLength, digestSize) + Padded(HeaderPrefix(|header|) + header)
  }

  // All blocks, where the first one announces a message of a certain length.
  function BlocksAnnouncing(nonce: seq<byte>, header: seq<byte>, messageLength: nat, message: seq<byte>,
      digestSize: nat): (r: seq<byte>)
    requires NonceFits(nonce) && 4 <= digestSize <= 16
  {
    HeaderBlocks(nonce, header, messageLength, digestSize) + Padded(message)
  }

  function AuthenticatedBlocks(nonce: seq<byte>, header: seq<byte>, message: seq<byte>, digestSize: nat): (r: seq<byte>)
    requires NonceFits(nonce) && 4 <= digestSize <= 16
  {
    BlocksAnnouncing(nonce, header, |message|, message, digestSize)
  }

  // Lengths are 64 bits wide.
  const WORD: nat := 0x1_0000_0000_0000_0000

  // What is left of a number in 64 bits.
  function Wrapped(n: nat): (r: nat)
    ensures r < WORD
  {
    if n < WORD then n else Wrapped(n - WORD)
  }

  lemma {:induction false} WrappedIs(n: nat)
    ensures Wrapped(n) == n % WORD
  {
    if n >= WORD {
      WrappedIs(n - WORD);
    }
  }

  lemma {:induction false} WrappedAdds(n: nat, more: nat)
    ensures Wrapped(Wrapped(n) + more) == Wrapped(n + more)
  {
    if n >= WORD {
      WrappedAdds(n - WORD, more);
    }
  }

  lemma {:induction false} WrappedShows(n: nat, more: nat)
    requires n < WORD
    ensures Wrapped(n + more) == n <==> Wrapped(more) == 0
  {
    if more >= WORD {
      WrappedShows(n, more - WORD);
    }
  }

  // The longest message whose length fits the length field.
  function MaxLength(lengthSize: nat): nat {
    if lengthSize < 8 then Numbers.Pow2(8 * lengthSize) - 1 else 0xffff_ffff_ffff_ffff
  }

  lemma WordBits()
    ensures Numbers.Pow2(64) == WORD && Numbers.Pow2(32) == 0x1_0000_0000 && Numbers.Pow2(16) == 0x1_0000
  {
    assert Numbers.Pow2(8) == 256;
    Numbers.Pow2Adds(8, 8);
    Numbers.Pow2Adds(16, 16);
    Numbers.Pow2Adds(32, 32);
  }

  lemma LongestFits(lengthSize: nat)
    requires 2 <= lengthSize <= 8
    ensures MaxLength(lengthSize) < Numbers.Pow2(8 * lengthSize) && MaxLength(lengthSize) < WORD
  {
    WordBits();
    Numbers.Pow2Monotonic(8 * lengthSize, 64);
  }

  // A message is not too long if and only if its length fits the bytes that are left for it.
  lemma LongestIs(lengthSize: nat, n: nat)
    requires 2 <= lengthSize <= 8
    ensures n <= MaxLength(lengthSize) <==> n < Numbers.Pow2(8 * lengthSize)
  {
    WordBits();
  }

  lemma LongestIsWord(lengthSize: nat)
    requires 2 <= lengthSize <= 8
    ensures MaxLength(lengthSize) < WORD
  {
    LongestFits(lengthSize);
  }

  lemma FirstBlockShows(nonce: seq<byte>, headerLength: nat, a: nat, b: nat, digestSize: nat)
    requires NonceFits(nonce) && 4 <= digestSize <= 16 && a <= MaxLength(15 - |nonce|) && b <= MaxLength(15 - |nonce|)
    requires FirstBlock(nonce, headerLength, a, digestSize) == FirstBlock(nonce, headerLength, b, digestSize)
    ensures a == b
  {
    FirstBlockIs(nonce, headerLength, a, digestSize);
    FirstBlockIs(nonce, headerLength, b, digestSize);
  }

  // The blocks are those of the message exactly if its own length is announced; where that is the length of the
  // message and some refused bytes, in 64 bits, exactly if those come to a multiple of 2^64.
  lemma RefusedBytesShow(nonce: seq<byte>, header: seq<byte>, announced: nat, message: seq<byte>, refused: nat, digestSize: nat)
    requires NonceFits(nonce) && 4 <= digestSize <= 16 && |message| <= MaxLength(15 - |nonce|)
    requires announced == Wrapped(|message| + refused) && announced <= MaxLength(15 - |nonce|)
    ensures BlocksAnnouncing(nonce, header, announced, message, digestSize)
         == AuthenticatedBlocks(nonce, header, message, digestSize)
       <==> Wrapped(refused) == 0
  {
    assert announced == |message| <==> Wrapped(refused) == 0 by {
      LongestIsWord(15 - |nonce|);
      WrappedShows(|message|, refused);
    }
    AnnouncementShows(nonce, header, announced, message, digestSize);
  }

  // The blocks are those of the message exactly if its own length is announced.
  lemma AnnouncementShows(nonce: seq<byte>, header: seq<byte>, messageLength: nat, message: seq<byte>, digestSize: nat)
    requires NonceFits(nonce) && 4 <= digestSize <= 16
    requires messageLength <= MaxLength(15 - |nonce|) && |message| <= MaxLength(15 - |nonce|)
    ensures BlocksAnnouncing(nonce, header, messageLength, message, digestSize)
         == AuthenticatedBlocks(nonce, header, message, digestSize)
       <==> messageLength == |message|
  {
    var blocks := BlocksAnnouncing(nonce, header, messageLength, message, digestSize);
    if blocks == AuthenticatedBlocks(nonce, header, message, digestSize) {
      FirstBlockInFront(nonce, header, messageLength, message, digestSize);
      FirstBlockInFront(nonce, header, |message|, message, digestSize);
      FirstBlockShows(nonce, |header|, messageLength, |message|, digestSize);
    }
  }

  lemma FirstBlockInFront(nonce: seq<byte>, header: seq<byte>, messageLength: nat, message: seq<byte>, digestSize: nat)
    requires NonceFits(nonce) && 4 <= digestSize <= 16
    ensures |BlocksAnnouncing(nonce, header, messageLength, message, digestSize)| >= SIZE
    ensures BlocksAnnouncing(nonce, header, messageLength, message, digestSize)[..SIZE]
         == FirstBlock(nonce, |header|, messageLength, digestSize)
    ensures BlocksAnnouncing(nonce, header, messageLength, message, digestSize)[SIZE..]
         == Padded(HeaderPrefix(|header|) + header) + Padded(message)
  {
  }

  // The blocks of a header and a message, of which a certain length is announced: the first block, the header behind its
  // length, and the message, each filled up with zeros.
  ghost predicate IsFormat(blocks: seq<byte>, nonce: seq<byte>, header: seq<byte>, announced: nat, message: seq<byte>,
      digestSize: nat)
    requires NonceFits(nonce) && 4 <= digestSize <= 16
  {
    && |blocks| >= 16 && IsFirstBlock(blocks[..16], nonce, |header|, announced, digestSize)
    && exists prefix, filledHeader, filledMessage :: AreParts(blocks[16..], prefix, header, filledHeader, message, filledMessage)
  }

  ghost predicate AreParts(rest: seq<byte>, prefix: seq<byte>, header: seq<byte>, filledHeader: seq<byte>, message: seq<byte>,
      filledMessage: seq<byte>)
  {
    && IsHeaderLength(prefix, |header|) && IsFilled(filledHeader, prefix + header) && IsFilled(filledMessage, message)
    && rest == filledHeader + filledMessage
  }

  lemma BlocksAreFormat(nonce: seq<byte>, header: seq<byte>, announced: nat, message: seq<byte>, digestSize: nat)
    requires NonceFits(nonce) && 4 <= digestSize <= 16 && announced <= MaxLength(15 - |nonce|) && |header| < WORD
    ensures IsFormat(BlocksAnnouncing(nonce, header, announced, message, digestSize),
                     nonce, header, announced, message, digestSize)
  {
    FirstBlockInFront(nonce, header, announced, message, digestSize);
    FirstBlockIs(nonce, |header|, announced, digestSize);
    PaddedAreParts(header, message);
  }

  lemma PaddedAreParts(header: seq<byte>, message: seq<byte>)
    requires |header| < WORD
    ensures var filledHeader, filledMessage := Padded(HeaderPrefix(|header|) + header), Padded(message);
            AreParts(filledHeader + filledMessage, HeaderPrefix(|header|), header, filledHeader, message, filledMessage)
  {
    HeaderPrefixIs(|header|);
    PaddedIs(HeaderPrefix(|header|) + header);
    PaddedIs(message);
  }

  lemma TwoBytes(s: seq<byte>)
    requires |s| == 2 && BigEndian(s) < 0xff00
    ensures s[0] != 0xff
  {
    assert s[..1][..0] == [] && s[..1][0] == s[0];
    assert BigEndian(s[..1]) == 256 * BigEndian(s[..1][..0]) + s[0] as nat;
  }

  // The length of a header can be told from its front.
  lemma HeaderLengthShows(s: seq<byte>, n: nat, t: seq<byte>, m: nat, rest: seq<byte>)
    requires n > 0 && m > 0 && IsHeaderLength(s, n) && IsHeaderLength(t, m) && s <= rest && t <= rest
    ensures n == m && s == t
  {
    if |s| == 2 {
      TwoBytes(s);
    }
    if |t| == 2 {
      TwoBytes(t);
    }
    assert s[0] == rest[0] == t[0] && s[1] == rest[1] == t[1];
    assert |s| == |t|;
    assert s == rest[..|s|] == t;
  }

  lemma FilledAlike(r: seq<byte>, s: seq<byte>, q: seq<byte>, t: seq<byte>)
    requires IsFilled(r, s) && IsFilled(q, t) && |s| == |t|
    ensures |r| == |q|
  {
    OneMultiple(|r|, |q|, |s|);
  }

  lemma OneMultiple(a: nat, b: nat, n: nat)
    requires n <= a < n + 16 && n <= b < n + 16 && a % 16 == b % 16 == 0
    ensures a == b
  {
    var j, k := a / 16, b / 16;
    assert a == 16 * j && b == 16 * k;
  }

  lemma FirstBlockTells(b: seq<byte>, nonce: seq<byte>, headerLength: nat, announced: nat, digestSize: nat,
      otherNonce: seq<byte>, otherHeaderLength: nat, otherAnnounced: nat, otherDigestSize: nat)
    requires NonceFits(nonce) && 4 <= digestSize <= 16 && digestSize % 2 == 0
    requires NonceFits(otherNonce) && 4 <= otherDigestSize <= 16 && otherDigestSize % 2 == 0
    requires IsFirstBlock(b, nonce, headerLength, announced, digestSize)
    requires IsFirstBlock(b, otherNonce, otherHeaderLength, otherAnnounced, otherDigestSize)
    ensures nonce == otherNonce && digestSize == otherDigestSize && announced == otherAnnounced
    ensures headerLength > 0 <==> otherHeaderLength > 0
  {
    EvenSizes(digestSize, otherDigestSize);
    assert |nonce| == |otherNonce|;
    assert nonce == b[1..1 + |nonce|] == otherNonce;
  }

  lemma EvenSizes(a: nat, b: nat)
    requires a % 2 == 0 && b % 2 == 0
    ensures (a - 2) / 2 == (b - 2) / 2 ==> a == b
  {
  }

  lemma PartsTell(rest: seq<byte>, prefix: seq<byte>, header: seq<byte>, filledHeader: seq<byte>, message: seq<byte>,
      filledMessage: seq<byte>, otherPrefix: seq<byte>, otherHeader: seq<byte>, otherFilledHeader: seq<byte>,
      otherMessage: seq<byte>, otherFilledMessage: seq<byte>)
    requires AreParts(rest, prefix, header, filledHeader, message, filledMessage)
    requires AreParts(rest, otherPrefix, otherHeader, otherFilledHeader, otherMessage, otherFilledMessage)
    requires (header == [] <==> otherHeader == []) && |message| == |otherMessage|
    ensures header == otherHeader && message == otherMessage
  {
    if header != [] {
      assert prefix <= rest && otherPrefix <= rest;
      HeaderLengthShows(prefix, |header|, otherPrefix, |otherHeader|, rest);
    }
    FilledAlike(filledHeader, prefix + header, otherFilledHeader, otherPrefix + otherHeader);
    SameParts(filledHeader, filledMessage, otherFilledHeader, otherFilledMessage);
    SameFront(filledHeader, prefix + header, otherPrefix + otherHeader);
    SameParts(prefix, header, otherPrefix, otherHeader);
    SameFront(filledMessage, message, otherMessage);
  }

  lemma SameParts(a: seq<byte>, b: seq<byte>, c: seq<byte>, d: seq<byte>)
    requires a + b == c + d && |a| == |c|
    ensures a == c && b == d
  {
    assert a == (a + b)[..|a|] && c == (c + d)[..|a|] && b == (a + b)[|a|..] && d == (c + d)[|a|..];
  }

  lemma SameFront(r: seq<byte>, s: seq<byte>, t: seq<byte>)
    requires s <= r && t <= r && |s| == |t|
    ensures s == t
  {
    assert s == r[..|s|] && t == r[..|s|];
  }

  // Different nonces, headers, messages or tag sizes never give the same blocks.
  lemma FormatIsInjective(nonce: seq<byte>, header: seq<byte>, message: seq<byte>, digestSize: nat,
      otherNonce: seq<byte>, otherHeader: seq<byte>, otherMessage: seq<byte>, otherDigestSize: nat)
    requires NonceFits(nonce) && 4 <= digestSize <= 16 && digestSize % 2 == 0
    requires NonceFits(otherNonce) && 4 <= otherDigestSize <= 16 && otherDigestSize % 2 == 0
    requires |header| < WORD && |message| <= MaxLength(15 - |nonce|)
    requires |otherHeader| < WORD && |otherMessage| <= MaxLength(15 - |otherNonce|)
    requires AuthenticatedBlocks(nonce, header, message, digestSize)
          == AuthenticatedBlocks(otherNonce, otherHeader, otherMessage, otherDigestSize)
    ensures nonce == otherNonce && header == otherHeader && message == otherMessage && digestSize == otherDigestSize
  {
    var blocks := AuthenticatedBlocks(nonce, header, message, digestSize);
    BlocksAreFormat(nonce, header, |message|, message, digestSize);
    BlocksAreFormat(otherNonce, otherHeader, |otherMessage|, otherMessage, otherDigestSize);
    FirstBlockTells(blocks[..16], nonce, |header|, |message|, digestSize,
                    otherNonce, |otherHeader|, |otherMessage|, otherDigestSize);
    var prefix, filledHeader, filledMessage :| AreParts(blocks[16..], prefix, header, filledHeader, message, filledMessage);
    var otherPrefix, otherFilledHeader, otherFilledMessage :|
      AreParts(blocks[16..], otherPrefix, otherHeader, otherFilledHeader, otherMessage, otherFilledMessage);
    PartsTell(blocks[16..], prefix, header, filledHeader, message, filledMessage,
              otherPrefix, otherHeader, otherFilledHeader, otherMessage, otherFilledMessage);
  }

  lemma SameByte(a: byte, b: byte)
    requires a as nat == b as nat
    ensures a == b
  {
    assert (a as nat) as byte == a && (b as nat) as byte == b;
  }

  lemma {:induction false} SameNumber(a: seq<byte>, b: seq<byte>)
    requires |a| == |b| && BigEndian(a) == BigEndian(b)
    ensures a == b
    decreases |a|
  {
    if a != [] {
      var last := |a| - 1;
      Numbers.DivIsUnique(BigEndian(a), 256, BigEndian(a[..last]), a[last] as nat);
      Numbers.DivIsUnique(BigEndian(b), 256, BigEndian(b[..last]), b[last] as nat);
      SameNumber(a[..last], b[..last]);
      SameByte(a[last], b[last]);
      assert a == a[..last] + [a[last]] && b == b[..last] + [b[last]];
    }
  }

  // The fields determine the blocks.
  lemma FirstBlockIsUnique(a: seq<byte>, b: seq<byte>, nonce: seq<byte>, headerLength: nat, announced: nat, digestSize: nat)
    requires NonceFits(nonce) && 4 <= digestSize <= 16
    requires IsFirstBlock(a, nonce, headerLength, announced, digestSize)
    requires IsFirstBlock(b, nonce, headerLength, announced, digestSize)
    ensures a == b
  {
    SameFields(a[0] as nat, b[0] as nat);
    SameByte(a[0], b[0]);
    SameNumber(a[1 + |nonce|..], b[1 + |nonce|..]);
    assert a == [a[0]] + a[1..1 + |nonce|] + a[1 + |nonce|..];
    assert b == [b[0]] + b[1..1 + |nonce|] + b[1 + |nonce|..];
  }

  lemma SameFields(f: nat, g: nat)
    requires f / 128 == g / 128 == 0 && (f / 64 % 2 == 1 <==> g / 64 % 2 == 1) && f / 8 % 8 == g / 8 % 8 && f % 8 == g % 8
    ensures f == g
  {
    assert f / 64 == g / 64;
    assert f / 8 == g / 8;
  }

  lemma FilledIsUnique(r: seq<byte>, q: seq<byte>, s: seq<byte>)
    requires IsFilled(r, s) && IsFilled(q, s)
    ensures r == q
  {
    FilledAlike(r, s, q, s);
    forall i | 0 <= i < |r| ensures r[i] == q[i] {
      assert i < |s| ==> r[i] == s[i] == q[i];
    }
  }

  lemma HeaderLengthIsUnique(s: seq<byte>, t: seq<byte>, n: nat)
    requires IsHeaderLength(s, n) && IsHeaderLength(t, n)
    ensures s == t
  {
    if 0 < n < 0xff00 {
      SameNumber(s, t);
    } else if n > 0 {
      SameNumber(s[2..], t[2..]);
      assert s == [s[0], s[1]] + s[2..] && t == [t[0], t[1]] + t[2..];
    }
  }

  lemma FormatIsUnique(a: seq<byte>, b: seq<byte>, nonce: seq<byte>, header: seq<byte>, announced: nat, message: seq<byte>,
      digestSize: nat)
    requires NonceFits(nonce) && 4 <= digestSize <= 16
    requires IsFormat(a, nonce, header, announced, message, digestSize)
    requires IsFormat(b, nonce, header, announced, message, digestSize)
    ensures a == b
  {
    FirstBlockIsUnique(a[..16], b[..16], nonce, |header|, announced, digestSize);
    var prefix, filledHeader, filledMessage :| AreParts(a[16..], prefix, header, filledHeader, message, filledMessage);
    var otherPrefix, otherFilledHeader, otherFilledMessage :|
      AreParts(b[16..], otherPrefix, header, otherFilledHeader, message, otherFilledMessage);
    HeaderLengthIsUnique(prefix, otherPrefix, |header|);
    FilledIsUnique(filledHeader, otherFilledHeader, prefix + header);
    FilledIsUnique(filledMessage, otherFilledMessage, message);
    assert a == a[..16] + a[16..] && b == b[..16] + b[16..];
  }

  // s xored with the keystream from a position on.
  function Streamed(p: Parameters, counterBlock: seq<byte>, position: nat, s: seq<byte>): (r: seq<byte>)
    ensures |r| == |s|
  {
    seq(|s|, i requires 0 <= i < |s| => s[i] ^ p.KeyByte(counterBlock, position + i))
  }

  // The cipher text: the keystream after its first block.
  function CipherText(p: Parameters, nonce: seq<byte>, message: seq<byte>): (r: seq<byte>)
    requires NonceFits(nonce)
    ensures |r| == |message|
  {
    Streamed(p, CounterBlock(nonce), SIZE, message)
  }

  // The CBC-MAC of some blocks, under the first block of the keystream.
  ghost function TagOf(p: Parameters, nonce: seq<byte>, blocks: seq<byte>): (r: seq<byte>)
    requires p.Valid() && NonceFits(nonce)
    ensures |r| == SIZE
  {
    Streamed(p, CounterBlock(nonce), 0, p.cipher.Chain(Zeros(SIZE), blocks))
  }

  // The tag: that of the formatted blocks.
  ghost function Tag(p: Parameters, nonce: seq<byte>, header: seq<byte>, message: seq<byte>): (r: seq<byte>)
    requires p.Valid() && NonceFits(nonce)
    ensures |r| == SIZE
  {
    TagOf(p, nonce, AuthenticatedBlocks(nonce, header, message, p.digestSize))
  }

  // The tag, or the first bytes of it.
  ghost predicate IsTagOf(p: Parameters, nonce: seq<byte>, blocks: seq<byte>, mac: seq<byte>) {
    && p.Valid() && NonceFits(nonce) && |mac| <= SIZE
    && mac == TagOf(p, nonce, blocks)[..|mac|]
  }

  ghost predicate IsTag(p: Parameters, nonce: seq<byte>, header: seq<byte>, message: seq<byte>, mac: seq<byte>) {
    && p.Valid() && NonceFits(nonce) && |mac| <= SIZE
    && mac == Tag(p, nonce, header, message)[..|mac|]
  }

  // A tag as sections 2.2 and 2.3 of RFC 3610 have it: the chaining value over such blocks, under the first bytes of the
  // keystream.
  ghost predicate IsTagOverFormat(p: Parameters, nonce: seq<byte>, header: seq<byte>, message: seq<byte>, mac: seq<byte>) {
    && p.Valid() && NonceFits(nonce) && |mac| <= 16
    && exists blocks, counterBlock :: IsTagOverBlocks(p, nonce, header, message, blocks, counterBlock, mac)
  }

  ghost predicate IsTagOverBlocks(p: Parameters, nonce: seq<byte>, header: seq<byte>, message: seq<byte>, blocks: seq<byte>,
      counterBlock: seq<byte>, mac: seq<byte>)
    requires p.Valid() && NonceFits(nonce) && |mac| <= 16
  {
    && IsFormat(blocks, nonce, header, |message|, message, p.digestSize) && IsCounterBlock(counterBlock, nonce)
    && forall i :: 0 <= i < |mac| ==> mac[i] == p.cipher.Chain(Zeros(16), blocks)[i] ^ p.keystream(counterBlock, i)
  }

  lemma CounterBlockIsUnique(b: seq<byte>, nonce: seq<byte>)
    requires NonceFits(nonce) && IsCounterBlock(b, nonce)
    ensures b == CounterBlock(nonce)
  {
    CounterBlockIs(nonce);
    SameByte(b[0], CounterBlock(nonce)[0]);
    forall i | 0 <= i < 16 ensures b[i] == CounterBlock(nonce)[i] {
      assert 1 <= i < 1 + |nonce| ==> b[i] == b[1..1 + |nonce|][i - 1];
    }
  }

  lemma TagOverBlocks(p: Parameters, nonce: seq<byte>, blocks: seq<byte>, mac: seq<byte>)
    requires p.Valid() && NonceFits(nonce) && |mac| <= SIZE
    ensures IsTagOf(p, nonce, blocks, mac)
       <==> forall i :: 0 <= i < |mac| ==> mac[i] == p.cipher.Chain(Zeros(16), blocks)[i] ^ p.keystream(CounterBlock(nonce), i)
  {
    var tag := TagOf(p, nonce, blocks);
    assert forall i :: 0 <= i < 16 ==> tag[i] == p.cipher.Chain(Zeros(16), blocks)[i] ^ p.keystream(CounterBlock(nonce), i);
    if forall i :: 0 <= i < |mac| ==> mac[i] == p.cipher.Chain(Zeros(16), blocks)[i] ^ p.keystream(CounterBlock(nonce), i) {
      assert forall i :: 0 <= i < |mac| ==> mac[i] == tag[..|mac|][i];
    }
  }

  // The tags are exactly those.
  lemma TagsAre(p: Parameters, nonce: seq<byte>, header: seq<byte>, message: seq<byte>, mac: seq<byte>)
    requires p.Valid() && NonceFits(nonce) && |header| < WORD && |message| <= MaxLength(15 - |nonce|)
    ensures IsTag(p, nonce, header, message, mac) <==> IsTagOverFormat(p, nonce, header, message, mac)
  {
    var blocks := AuthenticatedBlocks(nonce, header, message, p.digestSize);
    BlocksAreFormat(nonce, header, |message|, message, p.digestSize);
    CounterBlockIs(nonce);
    if |mac| <= SIZE {
      TagOverBlocks(p, nonce, blocks, mac);
      if IsTag(p, nonce, header, message, mac) {
        assert IsTagOverBlocks(p, nonce, header, message, blocks, CounterBlock(nonce), mac);
      } else if IsTagOverFormat(p, nonce, header, message, mac) {
        var others, counterBlock :| IsTagOverBlocks(p, nonce, header, message, others, counterBlock, mac);
        FormatIsUnique(others, blocks, nonce, header, |message|, message, p.digestSize);
        CounterBlockIsUnique(counterBlock, nonce);
      }
    }
  }

  // The cipher text is the message under the keystream after its first 16 bytes, which are the tag's.
  lemma CipherTextAt(p: Parameters, nonce: seq<byte>, message: seq<byte>, i: nat) returns (counterBlock: seq<byte>)
    requires NonceFits(nonce) && i < |message|
    ensures IsCounterBlock(counterBlock, nonce)
    ensures CipherText(p, nonce, message)[i] == message[i] ^ p.keystream(counterBlock, 16 + i)
  {
    counterBlock := CounterBlock(nonce);
    CounterBlockIs(nonce);
  }

  lemma StreamedTwice(p: Parameters, counterBlock: seq<byte>, position: nat, s: seq<byte>)
    ensures Streamed(p, counterBlock, position, Streamed(p, counterBlock, position, s)) == s
  {
  }

  lemma StreamedAppends(p: Parameters, counterBlock: seq<byte>, position: nat, a: seq<byte>, b: seq<byte>)
    ensures Streamed(p, counterBlock, position, a + b)
         == Streamed(p, counterBlock, position, a) + Streamed(p, counterBlock, position + |a|, b)
  {
  }

  lemma CipherTextGrows(p: Parameters, nonce: seq<byte>, done: seq<byte>, piece: seq<byte>)
    requires NonceFits(nonce)
    ensures CipherText(p, nonce, done + piece)
         == CipherText(p, nonce, done) + Streamed(p, CounterBlock(nonce), SIZE + |done|, piece)
  {
    StreamedAppends(p, CounterBlock(nonce), SIZE, done, piece);
  }

  // Whole blocks, and what waits after them padded to one more.
  function Finished(done: seq<byte>, pending: seq<byte>): seq<byte>
    requires |pending| < SIZE
  {
    if pending == [] then done else done + (pending + Zeros(SIZE - |pending|))
  }

  // Where whole blocks were cut off decides how much padding is due.
  lemma PaddingIsDue(before: seq<byte>, s: seq<byte>, done: seq<byte>, pending: seq<byte>, blocks: nat, blocksBefore: nat)
    requires done + pending == before + s && |pending| < SIZE
    requires |done| == SIZE * blocks && |before| == SIZE * blocksBefore
    ensures Finished(done, pending) == before + Padded(s)
  {
    assert |done| + |pending| == |done + pending| == |before| + |s|;
    Numbers.DivIsUnique(|s|, SIZE, blocks - blocksBefore, |pending|);
    if pending == [] {
      Numbers.DivIsUnique(SIZE, SIZE, 1, 0);
      assert done == done + pending;
    } else {
      Numbers.DivIsUnique(SIZE - |pending|, SIZE, 0, SIZE - |pending|);
      var z := Zeros(SIZE - |pending|);
      assert done + (pending + z) == (done + pending) + z;
      assert before + (s + z) == (before + s) + z;
    }
  }

  lemma PaddedLength(s: seq<byte>) returns (blocks: nat)
    ensures |Padded(s)| == SIZE * blocks
  {
    Numbers.DivFacts(|s|, SIZE);
    if |s| % SIZE == 0 {
      Numbers.DivIsUnique(SIZE, SIZE, 1, 0);
      blocks := |s| / SIZE;
    } else {
      Numbers.DivIsUnique(SIZE - |s| % SIZE, SIZE, 0, SIZE - |s| % SIZE);
      blocks := |s| / SIZE + 1;
    }
  }

  // Finishing the header phase gives the header's blocks.
  lemma HeaderFinished(nonce: seq<byte>, header: seq<byte>, messageLength: nat, digestSize: nat,
                       done: seq<byte>, pending: seq<byte>, blocks: nat)
    requires NonceFits(nonce) && 4 <= digestSize <= 16 && |done| == SIZE * blocks && |pending| < SIZE
    requires done + pending == FirstBlock(nonce, |header|, messageLength, digestSize) + (HeaderPrefix(|header|) + header)
    ensures Finished(done, pending) == HeaderBlocks(nonce, header, messageLength, digestSize)
  {
    PaddingIsDue(FirstBlock(nonce, |header|, messageLength, digestSize), HeaderPrefix(|header|) + header,
                 done, pending, blocks, 1);
  }

  // Finishing the message phase gives all blocks.
  lemma MessageFinished(nonce: seq<byte>, header: seq<byte>, messageLength: nat, message: seq<byte>, digestSize: nat,
                        done: seq<byte>, pending: seq<byte>, blocks: nat)
    requires NonceFits(nonce) && 4 <= digestSize <= 16 && |done| == SIZE * blocks && |pending| < SIZE
    requires done + pending == HeaderBlocks(nonce, header, messageLength, digestSize) + message
    ensures Finished(done, pending) == BlocksAnnouncing(nonce, header, messageLength, message, digestSize)
  {
    var k := PaddedLength(HeaderPrefix(|header|) + header);
    PaddingIsDue(HeaderBlocks(nonce, header, messageLength, digestSize), message, done, pending, blocks, k + 1);
  }
}

module Ccm {
  import Numbers
  import opened Blocks
  import opened CcmFormat
  import opened Pieces
  import opened Wrappers

  // From SetKey on; an object without a key is not modelled.
  datatype State = KeySet | IvSet | AuthUntransformed | AuthTransformed | AuthFooter

  // The blocks that end a phase, in the order they are authenticated.
  datatype LastBlock = LastHeaderBlock | LastConfidentialBlock | LastFooterBlock

  datatype Error = BadState | InvalidArgument

  // What has to be authenticated by now, when the lengths were specified in time. Where the header has been
  // closed already, anything that still comes in for it follows the padding.
  ghost function Expected(state: State, closed: bool, nonce: seq<byte>, header: seq<byte>, message: seq<byte>, footer: seq<byte>,
                          headerLength: nat, messageLength: nat, digestSize: nat): seq<byte>
    requires NonceFits(nonce) && 4 <= digestSize <= 16 && (closed ==> headerLength <= |header|)
  {
    match state
    case IvSet =>
      if closed then HeaderBlocks(nonce, header[..headerLength], messageLength, digestSize) + header[headerLength..]
      else FirstBlock(nonce, headerLength, messageLength, digestSize) + (HeaderPrefix(headerLength) + header)
    case AuthFooter => BlocksAnnouncing(nonce, header, messageLength, message, digestSize) + footer
    case _ => HeaderBlocks(nonce, header, messageLength, digestSize) + message
  }

  // The authenticating half of the object: the CBC block, and bytes waiting for a full block.
  class Authenticator {
    const p: Parameters
    // The two halves of m_buffer.
    const buffer: array<byte>
    const cbcBuffer: array<byte>
    var bufferedDataLength: nat

    // What went into the CBC block, in whole blocks.
    ghost var done: seq<byte>
    ghost var blocks: nat

    ghost predicate Sized()
      reads this
    {
      && p.Valid() && buffer.Length == cbcBuffer.Length == SIZE && buffer != cbcBuffer
    }

    // The CBC block has chained everything done, and less than a block is waiting.
    ghost predicate Chained()
      requires Sized()
      reads this, buffer, cbcBuffer
    {
      && bufferedDataLength < SIZE
      && |done| == SIZE * blocks
      && cbcBuffer[..] == p.cipher.Chain(Zeros(SIZE), done)
    }

    ghost function Pending(): seq<byte>
      requires Sized() && bufferedDataLength <= SIZE
      reads this, buffer
    {
      buffer[..bufferedDataLength]
    }

    // All that was authenticated so far.
    ghost function Received(): seq<byte>
      requires Sized() && bufferedDataLength <= SIZE
      reads this, buffer
    {
      done + Pending()
    }

    constructor (p: Parameters)
      requires p.Valid()
      ensures Sized() && Chained() && this.p == p && fresh(buffer) && fresh(cbcBuffer)
    {
      this.p := p;
      var b, c := new byte[SIZE](_ => 0), new byte[SIZE](_ => 0);
      buffer, cbcBuffer := b, c;
      bufferedDataLength := 0;
      done, blocks := [], 0;
      new;
      assert c[..] == Zeros(SIZE);
    }

    // Whole blocks are chained; what is left over is not touched.
    method AuthenticateBlocks(data: seq<byte>) returns (leftOver: nat)
      requires Sized() && Chained()
      modifies this`done, this`blocks, cbcBuffer
      ensures Chained() && leftOver == |data| % SIZE && leftOver <= |data|
      ensures done == old(done) + data[..|data| - leftOver]
    {
      Numbers.DivFacts(|data|, SIZE);
      leftOver := AdvancedProcessBlocks(p.cipher, cbcBuffer, data);
      ghost var whole := data[..|data| - leftOver];
      Numbers.DivIsUnique(|done|, SIZE, blocks, 0);
      p.cipher.ChainAppends(Zeros(SIZE), done, whole);
      done, blocks := done + whole, blocks + |data| / SIZE;
    }

    // Bytes are kept until there is a block of them.
    method Keep(rest: seq<byte>)
      requires Sized() && Chained() && bufferedDataLength + |rest| < SIZE
      modifies this`bufferedDataLength, buffer
      ensures Chained() && Received() == old(Received()) + rest
    {
      ghost var pending := Pending();
      Store(buffer, bufferedDataLength, rest);
      bufferedDataLength := bufferedDataLength + |rest|;
      assert Pending() == pending + rest;
    }

    // The bytes waiting are completed to a block.
    method CompleteBlock(input: seq<byte>)
      requires Sized() && Chained() && bufferedDataLength + |input| == SIZE
      modifies this`done, this`blocks, this`bufferedDataLength, buffer, cbcBuffer
      ensures Chained() && bufferedDataLength == 0 && Received() == old(Received()) + input
    {
      ghost var pending := Pending();
      Store(buffer, bufferedDataLength, input);
      assert buffer[..] == pending + input;
      Numbers.DivIsUnique(SIZE, SIZE, 1, 0);
      var leftOver := AuthenticateBlocks(buffer[..]);
      assert buffer[..] == buffer[..][..SIZE];
      bufferedDataLength := 0;
    }

    // All whole blocks at the front of the data.
    method TakeWholeBlocks(data: seq<byte>) returns (rest: seq<byte>)
      requires Sized() && Chained() && bufferedDataLength == 0
      modifies this`done, this`blocks, cbcBuffer
      ensures Chained() && |rest| < SIZE && Received() + rest == old(Received()) + data
    {
      ghost var before := done;
      var leftOver := AuthenticateBlocks(data);
      rest := data[|data| - leftOver..];
      assert Received() == done && data == data[..|data| - leftOver] + rest;
      Numbers.DivFacts(|data|, SIZE);
    }

    method AuthenticateData(input: seq<byte>)
      requires Sized() && Chained()
      modifies this`done, this`blocks, this`bufferedDataLength, buffer, cbcBuffer
      ensures Chained() && Received() == old(Received()) + input
    {
      var rest := input;
      var num := bufferedDataLength;
      if num != 0 {
        if num + |rest| >= SIZE {
          CompleteBlock(rest[..SIZE - num]);
          rest := rest[SIZE - num..];
          assert input == input[..SIZE - num] + rest;
        } else {
          Keep(rest);
          return;
        }
      }
      assert Received() + rest == old(Received()) + input;
      if |rest| >= SIZE {
        rest := TakeWholeBlocks(rest);
      }
      Keep(rest);
    }

    // Whatever waits is padded with zeros and chained.
    method FinishPhase()
      requires Sized() && Chained()
      modifies this`done, this`blocks, this`bufferedDataLength, cbcBuffer
      ensures Chained() && bufferedDataLength == 0
      ensures done == Finished(old(done), old(Pending()))
    {
      if bufferedDataLength > 0 {
        ghost var pending := Pending();
        ghost var block := pending + Zeros(SIZE - |pending|);
        XorBuf(cbcBuffer, 0, buffer[..bufferedDataLength]);
        ZeroPadding(old(cbcBuffer[..]), pending);
        ProcessBlock(p.cipher, cbcBuffer);
        p.cipher.ChainOneMore(Zeros(SIZE), done + block, |done|, blocks);
        assert (done + block)[..|done|] == done && (done + block)[|done|..|done| + SIZE] == block;
        assert (done + block)[..|done| + SIZE] == done + block;
        done, blocks := done + block, blocks + 1;
        bufferedDataLength := 0;
      }
    }

    // Nothing is waiting after a phase, and the base class makes sure of it.
    method Clear()
      requires Sized() && Chained() && bufferedDataLength == 0
      modifies this`bufferedDataLength
      ensures Chained() && bufferedDataLength == 0 && Received() == old(Received())
    {
      bufferedDataLength := 0;
    }

    // Block B_0 is put together in the CBC block: the length first, then the nonce from the counter
    // block over its unused high bytes, and it is encrypted.
    method StartFirstBlock(flags: byte, nonceLength: nat, messageLength: nat)
      requires Sized() && 7 <= nonceLength <= 13
      modifies this`done, this`blocks, cbcBuffer
      ensures done == [flags] + buffer[1..1 + nonceLength] + Octets(messageLength, 15 - nonceLength) && blocks == 1
      ensures cbcBuffer[..] == p.cipher.Chain(Zeros(SIZE), done)
    {
      ghost var block := [flags] + buffer[1..1 + nonceLength] + Octets(messageLength, 15 - nonceLength);
      StoredBlock(cbcBuffer[..], flags, buffer[1..1 + nonceLength], Octets(messageLength, 8));
      OctetsSuffix(messageLength, nonceLength - 7, 15 - nonceLength);
      cbcBuffer[0] := flags;
      assert cbcBuffer[..] == old(cbcBuffer[..])[0 := flags];
      Store(cbcBuffer, 8, Octets(messageLength, 8));
      Store(cbcBuffer, 1, buffer[1..1 + nonceLength]);
      ProcessBlock(p.cipher, cbcBuffer);
      p.cipher.ChainOneMore(Zeros(SIZE), block, 0, 0);
      assert block[..0] == [] && block[0..SIZE] == block && block[..SIZE] == block;
      FirstXor(block);
      done, blocks := block, 1;
    }

    // What SpecifyDataLengths sets up: on a fresh counter block, the first blocks of the format.
    method StartMessage(ghost nonce: seq<byte>, lengthSize: nat, headerLength: nat, messageLength: nat, ghost first: bool)
      requires Sized() && Chained() && 2 <= lengthSize <= 8 && NonceFits(nonce) && lengthSize == 15 - |nonce|
      requires first ==> buffer[..] == CounterBlock(nonce) && bufferedDataLength == 0
      modifies this`done, this`blocks, this`bufferedDataLength, buffer, cbcBuffer
      ensures Chained()
      ensures first ==> Received() == Expected(IvSet, false, nonce, [], [], [], headerLength, messageLength, p.digestSize)
    {
      if first {
        FirstBlockIsFormatted(nonce, buffer[..], headerLength, messageLength, p.digestSize);
        assert buffer[1..1 + |nonce|] == buffer[..][1..1 + |nonce|];
      }
      StartFirstBlock(Flags(headerLength > 0, p.digestSize, lengthSize), 15 - lengthSize, messageLength);
      StartHeader(headerLength);
      assert HeaderPrefix(headerLength) + [] == HeaderPrefix(headerLength);
    }

    // The encoded header length waits as the first bytes of the header's blocks.
    method StartHeader(headerLength: nat)
      requires Sized() && Chained()
      modifies this`bufferedDataLength, buffer
      ensures Chained()
      ensures headerLength > 0 ==> Pending() == HeaderPrefix(headerLength)
      ensures headerLength == 0 ==> bufferedDataLength == old(bufferedDataLength) && buffer[..] == old(buffer[..])
    {
      if headerLength > 0 {
        if headerLength < 0x1_0000 - 0x100 {
          Store(buffer, 0, Octets(headerLength, 2));
          bufferedDataLength := 2;
        } else if headerLength < 0x1_0000_0000 {
          Store(buffer, 0, [0xff, 0xfe]);
          Store(buffer, 2, Octets(headerLength, 4));
          bufferedDataLength := 6;
        } else {
          Store(buffer, 0, [0xff, 0xff]);
          Store(buffer, 2, Octets(headerLength, 8));
          bufferedDataLength := 10;
        }
      }
    }
  }

  function Stored(s: seq<byte>, at: nat, data: seq<byte>): seq<byte>
    requires at + |data| <= |s|
  {
    s[..at] + data + s[at + |data|..]
  }

  // The flags, the length, and the nonce over the bytes of the length that are not used.
  lemma StoredBlock(s: seq<byte>, flags: byte, nonce: seq<byte>, octets: seq<byte>)
    requires |s| == SIZE && NonceFits(nonce) && |octets| == 8
    ensures Stored(Stored(s[0 := flags], 8, octets), 1, nonce) == [flags] + nonce + octets[|nonce| - 7..]
  {
  }

  // The formatted first block and the header prefix, after a fresh counter block.
  lemma FirstBlockIsFormatted(nonce: seq<byte>, buffer: seq<byte>, headerLength: nat, messageLength: nat, digestSize: nat)
    requires NonceFits(nonce) && 4 <= digestSize <= 16 && buffer == CounterBlock(nonce)
    ensures |buffer| == SIZE
    ensures [Flags(headerLength > 0, digestSize, 15 - |nonce|)] + buffer[1..1 + |nonce|] + Octets(messageLength, 15 - |nonce|)
         == FirstBlock(nonce, headerLength, messageLength, digestSize)
  {
    assert buffer[1..1 + |nonce|] == nonce;
  }

  lemma FirstXor(block: seq<byte>)
    ensures Xor(Zeros(|block|), block) == block
  {
  }

  lemma ZeroPadding(state: seq<byte>, mask: seq<byte>)
    requires |mask| <= |state|
    ensures Overlay(state, 0, mask) == Xor(state, mask + Zeros(|state| - |mask|))
  {
  }

  // Whether SpecifyDataLengths was called before any data with lengths that fit, in any other way, or not at all,
  // with the run begun or not.
  datatype Specified = NotYet | Without | BeforeData | Late

  // Once a run has begun, it is too late for the lengths.
  function Begun(specified: Specified): Specified {
    if specified == NotYet then Without else specified
  }

  function Given(specified: Specified, fits: bool): Specified {
    if specified == NotYet && fits then BeforeData else Late
  }

  // A run since the last Resynchronize: what was taken in, which last blocks were authenticated in that
  // order, those of them that came with a tag asked for too early, with the header complete but not the message,
  // and what was in the CBC block before.
  datatype Run = Run(nonce: seq<byte>, header: seq<byte>, message: seq<byte>, footer: seq<byte>,
                     lastBlocks: seq<LastBlock>, specified: Specified, early: seq<LastBlock>, inherited: seq<byte>)

  function NewRun(nonce: seq<byte>, inherited: seq<byte>): Run {
    Run(nonce, [], [], [], [], NotYet, [], inherited)
  }

  // The last blocks that come with a tag.
  function ForTag(early: seq<LastBlock>): seq<LastBlock> {
    early + [LastHeaderBlock, LastConfidentialBlock, LastFooterBlock]
  }

  lemma ForTagInParts(early: seq<LastBlock>)
    ensures early + [LastHeaderBlock] + [LastConfidentialBlock] == early + [LastHeaderBlock, LastConfidentialBlock]
    ensures early + [LastHeaderBlock, LastConfidentialBlock] + [LastFooterBlock] == ForTag(early)
  {
  }

  // They are one of each if and only if no tag was asked for too early.
  lemma OneOfEach(early: seq<LastBlock>)
    ensures ForTag(early) == [LastHeaderBlock, LastConfidentialBlock, LastFooterBlock] <==> early == []
  {
    if early != [] {
      assert |ForTag(early)| > 3;
    }
  }

  // The phases in the order of the protocol: each state is reached after exactly these last blocks.
  ghost predicate InPhase(run: Run, state: State, isEncryption: bool) {
    match state
    case KeySet => run.lastBlocks == ForTag(run.early) || run.lastBlocks == run.early == []
    case IvSet => run.lastBlocks == run.early && run.message == [] && run.footer == []
    case AuthUntransformed => run.lastBlocks == run.early + [LastHeaderBlock] && run.footer == [] && isEncryption
    case AuthTransformed => run.lastBlocks == run.early + [LastHeaderBlock] && run.footer == [] && !isEncryption
    case AuthFooter => run.lastBlocks == run.early + [LastHeaderBlock, LastConfidentialBlock]
  }

  // What is left of a run when a tag is refused: one that is asked for too early closes the header.
  function Denied(run: Run, early: bool): Run {
    if early then
      run.(lastBlocks := run.lastBlocks + [LastHeaderBlock], specified := Begun(run.specified),
           early := run.early + [LastHeaderBlock])
    else run
  }

  // What has been authenticated are the blocks of RFC 3610 as far as the data has come, with the announced
  // length in the first one.
  ghost predicate IsFormatted(run: Run, state: State, headerLength: nat, messageLength: nat, digestSize: nat,
                              received: seq<byte>, waiting: nat)
    requires NonceFits(run.nonce) && 4 <= digestSize <= 16
  {
    && (state != IvSet ==> |run.header| == headerLength)
    && (run.early != [] ==> headerLength <= |run.header|)
    && (state == IvSet && run.early != [] && headerLength == |run.header| ==> waiting == 0)
    && (state == AuthFooter && run.footer == [] ==> waiting == 0)
    && received == Expected(state, run.early != [], run.nonce, run.header, run.message, run.footer,
                            headerLength, messageLength, digestSize)
  }

  // What is known of what has been authenticated: with the lengths in time, the format; without lengths, nothing as
  // long as nothing came in.
  ghost predicate Tracks(run: Run, state: State, headerLength: nat, messageLength: nat, digestSize: nat,
                         received: seq<byte>, waiting: nat)
    requires NonceFits(run.nonce) && 4 <= digestSize <= 16
  {
    && (run.specified == BeforeData ==>
          && messageLength <= MaxLength(15 - |run.nonce|)
          && IsFormatted(run, state, headerLength, messageLength, digestSize, received, waiting))
    && (run.specified == NotYet ==> state == IvSet && run.header == [] && run.early == [] && waiting == 0)
    && (run.specified == NotYet || run.specified == Without ==>
          && headerLength == messageLength == 0 && |run.inherited| % SIZE == 0 && (state != IvSet ==> run.header == [])
          && (run.header == run.message == run.footer == [] ==> received == run.inherited))
  }

  // What a tag authenticates in a run whose lengths were specified in time: the blocks of the message, unless that
  // is too long, if and only if the bytes that were refused come to a multiple of 2^64, since they show in the
  // announced length.
  ghost predicate Announces(run: Run, refused: nat, messageLength: nat, digestSize: nat, done: seq<byte>)
    requires NonceFits(run.nonce) && 4 <= digestSize <= 16
  {
    && done == BlocksAnnouncing(run.nonce, run.header, messageLength, run.message, digestSize)
    && messageLength == Wrapped(|run.message| + refused)
    && (|run.message| <= MaxLength(15 - |run.nonce|) ==>
          (done == AuthenticatedBlocks(run.nonce, run.header, run.message, digestSize) <==> Wrapped(refused) == 0))
  }

  // And in a run without lengths: what was in the CBC block before, if no message came in.
  ghost predicate Inherits(run: Run, refused: nat, done: seq<byte>) {
    && run.header == [] && Wrapped(|run.message| + refused) == 0
    && (run.message == [] ==> done == run.inherited)
  }

  lemma TagShows(run: Run, ended: Run, refused: nat, headerLength: nat, messageLength: nat, digestSize: nat, done: seq<byte>)
    requires NonceFits(run.nonce) && 4 <= digestSize <= 16 && run.footer == [] && ended == run.(lastBlocks := ended.lastBlocks)
    requires Tracks(run, AuthFooter, headerLength, messageLength, digestSize, done, 0)
    requires messageLength == Wrapped(|run.message| + refused)
    ensures run.specified == BeforeData ==> Announces(ended, refused, messageLength, digestSize, done)
    ensures run.specified == NotYet || run.specified == Without ==> Inherits(ended, refused, done)
  {
    if run.specified == BeforeData {
      assert done + [] == done;
      if |run.message| <= MaxLength(15 - |run.nonce|) {
        RefusedBytesShow(run.nonce, run.header, messageLength, run.message, refused, digestSize);
      }
    }
  }

  // Headers are limited by the width of the counter only; a footer is not allowed at all.
  const MAX_HEADER_LENGTH: nat := 0xffff_ffff_ffff_ffff

  lemma LongestHeaderIs(n: nat)
    ensures n <= MAX_HEADER_LENGTH <==> n < Numbers.Pow2(64)
  {
    WordBits();
  }

  class Ccm {
    const p: Parameters
    const isEncryption: bool
    const auth: Authenticator

    var state: State
    var lengthSize: nat
    var aadLength: nat
    var messageLength: nat
    var totalHeaderLength: nat
    var totalMessageLength: nat
    var totalFooterLength: nat
    // The counter mode object: its first counter block and its position in the keystream.
    var counterBlock: seq<byte>
    var streamPosition: nat

    ghost var run: Run
    // How many bytes ProcessData refused although it counted them.
    ghost var refused: nat

    ghost predicate Shaped()
      reads this, auth, auth.buffer, auth.cbcBuffer
    {
      && auth.Sized() && auth.p == p && auth.Chained()
      && 2 <= lengthSize <= 8
    }

    // Bytes that were refused are counted with the message, in 64 bits.
    ghost predicate Counted()
      reads this
    {
      && totalHeaderLength == |run.header| && totalFooterLength == |run.footer|
      && totalMessageLength == Wrapped(|run.message| + refused)
    }

    // The counter mode object is where the message is.
    ghost predicate InStream()
      reads this
    {
      && NonceFits(run.nonce) && lengthSize == 15 - |run.nonce| && counterBlock == CounterBlock(run.nonce)
      && streamPosition == SIZE + |run.message|
    }

    ghost predicate Tracked()
      requires Shaped() && NonceFits(run.nonce)
      reads this, auth, auth.buffer, auth.cbcBuffer
    {
      Tracks(run, state, aadLength, messageLength, p.digestSize, auth.Received(), auth.bufferedDataLength)
    }

    ghost predicate Consistent()
      reads this, auth, auth.buffer, auth.cbcBuffer
    {
      && Shaped() && InPhase(run, state, isEncryption) && Counted()
      && (state != KeySet ==>
        && InStream() && (run.specified == NotYet ==> auth.buffer[..] == counterBlock)
        && Tracked())
    }

    // Between calls, a footer phase has a footer.
    ghost predicate Valid()
      reads this, auth, auth.buffer, auth.cbcBuffer
    {
      Consistent() && (state == AuthFooter ==> run.footer != [])
    }

    // A run whose lengths were specified in time.
    ghost predicate Timely()
      reads this
    {
      run.specified == BeforeData && state != KeySet
    }

    // And in which no bytes were refused, and the message is not too long.
    ghost predicate Orderly()
      reads this
    {
      Timely() && refused == 0 && totalMessageLength == |run.message| <= MaxMessageLength()
    }

    // A tag would be asked for too early.
    ghost predicate TooEarly()
      reads this
    {
      && totalHeaderLength <= MAX_HEADER_LENGTH && totalFooterLength == 0
      && state == IvSet && aadLength == totalHeaderLength && messageLength != totalMessageLength
    }

    constructor (p: Parameters, isEncryption: bool)
      requires p.Valid()
      ensures Valid() && this.p == p && this.isEncryption == isEncryption && state == KeySet
      ensures run == NewRun([], []) && refused == 0
      ensures lengthSize == 8 && aadLength == messageLength == 0
      ensures fresh(auth) && fresh(auth.buffer) && fresh(auth.cbcBuffer)
    {
      this.p, this.isEncryption := p, isEncryption;
      var a := new Authenticator(p);
      auth := a;
      state, lengthSize := KeySet, 8;
      aadLength, messageLength, totalHeaderLength, totalMessageLength, totalFooterLength := 0, 0, 0, 0, 0;
      counterBlock, streamPosition := [], 0;
      run, refused := NewRun([], []), 0;
    }

    method Resynchronize(iv: seq<byte>) returns (error: Option<Error>)
      requires Valid()
      modifies this, auth, auth.buffer
      ensures Valid() && run == NewRun(iv, old(auth.done)) && refused == 0
      ensures error == if 7 <= |iv| <= 13 then None else Some(InvalidArgument)
      ensures error == None ==> state == IvSet && lengthSize == 15 - |iv| && aadLength == messageLength == 0
      ensures error != None ==> state == KeySet && lengthSize == old(lengthSize)
      ensures error != None ==> aadLength == old(aadLength) && messageLength == old(messageLength)
    {
      StartRun(iv);
      if NonceFits(iv) {
        Resync(iv);
        NewRunTracks(iv, auth.done, auth.blocks, p.digestSize);
        assert auth.Received() == auth.done;
        state := IvSet;
        error := None;
      } else {
        error := Some(InvalidArgument);
      }
    }

    method StartRun(iv: seq<byte>)
      requires Valid()
      modifies this`state, this`totalHeaderLength, this`totalMessageLength, this`totalFooterLength, this`run, this`refused,
        auth`bufferedDataLength
      ensures Valid() && state == KeySet && run == NewRun(iv, auth.done) && refused == 0 && auth.bufferedDataLength == 0
    {
      auth.bufferedDataLength := 0;
      totalHeaderLength, totalMessageLength, totalFooterLength := 0, 0, 0;
      state := KeySet;
      run, refused := NewRun(iv, auth.done), 0;
    }

    method Resync(iv: seq<byte>)
      requires auth.Sized() && auth.Chained() && NonceFits(iv)
      modifies this`lengthSize, this`counterBlock, this`streamPosition, this`aadLength, this`messageLength, auth.buffer
      ensures auth.Chained() && auth.buffer[..] == CounterBlock(iv) == counterBlock && IsCounterBlock(counterBlock, iv)
      ensures lengthSize == 15 - |iv| && streamPosition == SIZE && aadLength == 0 && messageLength == 0
    {
      // Never above 8, because a valid nonce has at least 7 bytes.
      lengthSize := SIZE - 1 - |iv|;
      auth.buffer[0] := (lengthSize - 1) as byte;
      Store(auth.buffer, 1, iv);
      Store(auth.buffer, 1 + |iv|, Zeros(SIZE - 1 - |iv|));
      assert auth.buffer[..] == CounterBlock(iv);
      CounterBlockIs(iv);
      counterBlock := auth.buffer[..];
      streamPosition := SIZE;
      aadLength, messageLength := 0, 0;
    }

    function MaxMessageLength(): nat
      reads this
    {
      MaxLength(lengthSize)
    }

    method SpecifyDataLengths(headerLength: nat, messageLength: nat) returns (error: Option<Error>)
      requires Valid() && headerLength < WORD && messageLength < WORD
      modifies this`aadLength, this`messageLength, this`run, auth`done, auth`blocks, auth`bufferedDataLength,
        auth.buffer, auth.cbcBuffer
      ensures Valid()
      ensures error == if messageLength > MaxMessageLength() then Some(InvalidArgument)
                       else if state != IvSet then Some(BadState) else None
      ensures error != None ==> run == old(run) && aadLength == old(aadLength) && this.messageLength == old(this.messageLength)
      ensures error != None ==> auth.Received() == old(auth.Received())
      ensures error == None ==> aadLength == headerLength && this.messageLength == messageLength
      ensures error == None ==> run == old(run).(specified := Given(old(run.specified), true))
    {
      if messageLength > MaxMessageLength() {
        error := Some(InvalidArgument);
      } else {
        error := UncheckedSpecifyDataLengths(headerLength, messageLength);
      }
    }

    method UncheckedSpecifyDataLengths(headerLength: nat, messageLength: nat) returns (error: Option<Error>)
      requires Valid() && headerLength < WORD && messageLength < WORD
      modifies this`aadLength, this`messageLength, this`run, auth`done, auth`blocks, auth`bufferedDataLength,
        auth.buffer, auth.cbcBuffer
      ensures Valid()
      ensures error == if state != IvSet then Some(BadState) else None
      ensures error != None ==> run == old(run) && aadLength == old(aadLength) && this.messageLength == old(this.messageLength)
      ensures error != None ==> auth.Received() == old(auth.Received())
      ensures error == None ==> aadLength == headerLength && this.messageLength == messageLength
      ensures error == None ==> run == old(run).(specified := Given(old(run.specified), messageLength <= MaxMessageLength()))
      ensures error == None && old(run.specified) == NotYet && messageLength <= MaxMessageLength()
        ==> IsStart(auth.Received(), run.nonce, headerLength, messageLength, p.digestSize)
    {
      if state != IvSet {
        error := Some(BadState);
      } else {
        SetLengths(headerLength, messageLength);
        StartIsShown();
        error := None;
      }
    }

    // With the lengths in time, what has been authenticated starts as the format does.
    lemma StartIsShown()
      requires Valid()
      ensures state == IvSet && run.specified == BeforeData && run.header == [] && run.early == [] && aadLength < WORD
        ==> IsStart(auth.Received(), run.nonce, aadLength, messageLength, p.digestSize)
    {
      if state == IvSet && run.specified == BeforeData && run.header == [] && run.early == [] && aadLength < WORD {
        assert Tracked();
        StartIs(run.nonce, aadLength, messageLength, p.digestSize);
      }
    }

    method SetLengths(headerLength: nat, messageLength: nat)
      requires Valid() && state == IvSet
      modifies this`aadLength, this`messageLength, this`run, auth`done, auth`blocks, auth`bufferedDataLength,
        auth.buffer, auth.cbcBuffer
      ensures Valid() && aadLength == headerLength && this.messageLength == messageLength
      ensures run == old(run).(specified := Given(old(run.specified), messageLength <= MaxMessageLength()))
    {
      StartHeader(headerLength, messageLength);
      aadLength := headerLength;
      this.messageLength := messageLength;
      run := run.(specified := Given(run.specified, messageLength <= MaxMessageLength()));
      assert Tracked();
      assert Consistent();
    }

    // The first block, and the encoded length of the header.
    method StartHeader(headerLength: nat, messageLength: nat)
      requires Valid() && state == IvSet
      modifies auth`done, auth`blocks, auth`bufferedDataLength, auth.buffer, auth.cbcBuffer
      ensures Shaped()
      ensures Tracks(run.(specified := Given(run.specified, messageLength <= MaxMessageLength())), IvSet, headerLength,
                     messageLength, p.digestSize, auth.Received(), auth.bufferedDataLength)
    {
      auth.StartMessage(run.nonce, lengthSize, headerLength, messageLength, run.specified == NotYet);
      if run.specified == NotYet {
        HeaderStarts(run, headerLength, messageLength, p.digestSize, auth.Received(), auth.bufferedDataLength);
      }
    }

    method AuthenticateLastHeaderBlock() returns (ok: bool)
      requires Shaped()
      modifies this`run, auth`done, auth`blocks, auth`bufferedDataLength, auth.cbcBuffer
      ensures Shaped() && ok == (aadLength == totalHeaderLength)
      ensures ok ==> auth.Received() == Finished(old(auth.done), old(auth.Pending())) && auth.bufferedDataLength == 0
      ensures ok
        ==> run == old(run).(lastBlocks := old(run.lastBlocks) + [LastHeaderBlock], specified := Begun(old(run.specified)))
      ensures !ok ==> run == old(run) && auth.Received() == old(auth.Received())
      ensures !ok ==> auth.bufferedDataLength == old(auth.bufferedDataLength)
    {
      ok := aadLength == totalHeaderLength;
      if ok {
        auth.FinishPhase();
        auth.Clear();
        run := run.(lastBlocks := run.lastBlocks + [LastHeaderBlock], specified := Begun(run.specified));
      }
    }

    method AuthenticateLastConfidentialBlock() returns (ok: bool)
      requires Shaped()
      modifies this`run, auth`done, auth`blocks, auth`bufferedDataLength, auth.cbcBuffer
      ensures Shaped() && ok == (messageLength == totalMessageLength)
      ensures ok ==> auth.Received() == Finished(old(auth.done), old(auth.Pending())) && auth.bufferedDataLength == 0
      ensures ok ==> run == old(run).(lastBlocks := old(run.lastBlocks) + [LastConfidentialBlock])
      ensures !ok ==> run == old(run) && auth.Received() == old(auth.Received())
      ensures !ok ==> auth.bufferedDataLength == old(auth.bufferedDataLength)
    {
      ok := messageLength == totalMessageLength;
      if ok {
        auth.FinishPhase();
        auth.Clear();
        run := run.(lastBlocks := run.lastBlocks + [LastConfidentialBlock]);
      }
    }

    // From the header to the message. A header that was closed already leaves nothing to be authenticated.
    method EnterMessage() returns (error: Option<Error>)
      requires Valid() && state == IvSet
      modifies this`state, this`run, auth`done, auth`blocks, auth`bufferedDataLength, auth.cbcBuffer
      ensures Valid()
      ensures error == if aadLength == totalHeaderLength then None else Some(InvalidArgument)
      ensures error == None ==> state == (if isEncryption then AuthUntransformed else AuthTransformed)
      ensures error == None ==> auth.bufferedDataLength == 0
      ensures error == None ==> run == old(run).(lastBlocks := old(run.lastBlocks) + [LastHeaderBlock],
                                                 specified := Begun(old(run.specified)))
      ensures error == None && old(auth.bufferedDataLength) == 0 ==> auth.done == old(auth.done)
      ensures error == None && old(Timely() && run.early != []) ==> old(auth.bufferedDataLength) == 0
      ensures error != None ==> run == old(run) && state == IvSet && auth.Received() == old(auth.Received())
    {
      ghost var before, pending, blocks := auth.done, auth.Pending(), auth.blocks;
      var ok := AuthenticateLastHeaderBlock();
      if ok {
        state := if isEncryption then AuthUntransformed else AuthTransformed;
        HeaderToMessage(old(run), run, state, aadLength, messageLength, p.digestSize, before, pending, blocks);
        assert InPhase(run, state, isEncryption) && Tracked();
        assert Consistent();
        error := None;
      } else {
        error := Some(InvalidArgument);
      }
    }

    method AddHeader(input: seq<byte>)
      requires Valid() && state == IvSet && input != []
      modifies this`run, this`totalHeaderLength, auth`done, auth`blocks, auth`bufferedDataLength, auth.buffer, auth.cbcBuffer
      ensures Valid()
      ensures totalHeaderLength == old(totalHeaderLength) + |input|
      ensures run == old(run).(header := old(run.header) + input, specified := Begun(old(run.specified)))
    {
      auth.AuthenticateData(input);
      totalHeaderLength := totalHeaderLength + |input|;
      run := run.(header := run.header + input, specified := Begun(run.specified));
      HeaderGrows(old(run), run, aadLength, messageLength, p.digestSize, old(auth.Received()), old(auth.bufferedDataLength),
                  auth.bufferedDataLength, input);
      assert Tracked();
    }

    // From the message to the footer.
    method EnterFooter() returns (error: Option<Error>)
      requires Valid() && (state == AuthUntransformed || state == AuthTransformed)
      modifies this`state, this`run, auth`done, auth`blocks, auth`bufferedDataLength, auth.cbcBuffer
      ensures Consistent()
      ensures error == if messageLength == totalMessageLength then None else Some(InvalidArgument)
      ensures error == None ==> totalMessageLength == messageLength && auth.bufferedDataLength == 0
      ensures error == None
        ==> state == AuthFooter && run == old(run).(lastBlocks := old(run.lastBlocks) + [LastConfidentialBlock])
      ensures error != None ==> state == old(state) && run == old(run)
      ensures error != None ==> auth.Received() == old(auth.Received()) && auth.bufferedDataLength == old(auth.bufferedDataLength)
    {
      ghost var before, pending, blocks := auth.done, auth.Pending(), auth.blocks;
      var ok := AuthenticateLastConfidentialBlock();
      if ok {
        MessageToFooter(old(run), run, state, aadLength, messageLength, p.digestSize, before, pending, blocks);
        state := AuthFooter;
        ForTagInParts(run.early);
        assert InPhase(run, state, isEncryption) && Tracked();
        error := None;
      } else {
        error := Some(InvalidArgument);
      }
    }

    method AddFooter(input: seq<byte>)
      requires Consistent() && state == AuthFooter && input != []
      modifies this`run, this`totalFooterLength, auth`done, auth`blocks, auth`bufferedDataLength, auth.buffer, auth.cbcBuffer
      ensures Valid()
      ensures totalFooterLength == old(totalFooterLength) + |input|
      ensures run == old(run).(footer := old(run.footer) + input)
    {
      auth.AuthenticateData(input);
      totalFooterLength := totalFooterLength + |input|;
      run := run.(footer := run.footer + input);
      FooterGrows(old(run), run, aadLength, messageLength, p.digestSize, old(auth.Received()), old(auth.bufferedDataLength),
                  auth.bufferedDataLength, input);
      assert Tracked();
    }

    // Header data before the message, footer data after it.
    method Update(input: seq<byte>) returns (error: Option<Error>)
      requires Valid()
      modifies this`state, this`run, this`totalHeaderLength, this`totalFooterLength, auth`done, auth`blocks,
        auth`bufferedDataLength, auth.buffer, auth.cbcBuffer
      ensures Valid()
      ensures error == if input == [] then None else
                       match old(state)
                       case KeySet => Some(BadState)
                       case IvSet => None
                       case AuthFooter => None
                       case _ => if messageLength == totalMessageLength then None else Some(InvalidArgument)
      ensures input == [] ==> run == old(run)
      ensures input != [] && error == None && old(state) == IvSet
        ==> run == old(run).(header := old(run.header) + input, specified := Begun(old(run.specified)))
      ensures input != [] && error == None && old(state) == AuthFooter
        ==> run == old(run).(footer := old(run.footer) + input)
      ensures input != [] && error == None && old(state) != IvSet && old(state) != AuthFooter
        ==> run == old(run).(footer := old(run.footer) + input, lastBlocks := old(run.lastBlocks) + [LastConfidentialBlock])
      ensures error != None ==> run == old(run) && auth.Received() == old(auth.Received())
      ensures state == if input != [] && error == None && old(state) != IvSet then AuthFooter else old(state)
      ensures totalHeaderLength == old(totalHeaderLength) + (if old(state) == IvSet then |input| else 0)
    {
      error := None;
      if input != [] {
        match state
        case KeySet =>
          error := Some(BadState);
        case IvSet =>
          AddHeader(input);
        case AuthFooter =>
          AddFooter(input);
        case _ =>
          error := EnterFooter();
          if error == None {
            AddFooter(input);
          }
      }
    }

    // One piece of the message, counted already, through the cipher; the plaintext side is authenticated.
    method TransformData(input: seq<byte>) returns (output: seq<byte>)
      requires Valid() && (state == AuthUntransformed || state == AuthTransformed) && refused >= |input|
      modifies this`run, this`refused, this`streamPosition,
               auth`done, auth`blocks, auth`bufferedDataLength, auth.buffer, auth.cbcBuffer
      ensures Valid() && refused == old(refused) - |input|
      ensures output == Streamed(p, counterBlock, old(streamPosition), input) && streamPosition == old(streamPosition) + |input|
      ensures run == old(run).(message := old(run.message) + if state == AuthUntransformed then input else output)
    {
      ghost var received, waiting := auth.Received(), auth.bufferedDataLength;
      output := Streamed(p, counterBlock, streamPosition, input);
      ghost var plain := if state == AuthUntransformed then input else output;
      if state == AuthUntransformed {
        auth.AuthenticateData(input);
      } else {
        auth.AuthenticateData(output);
      }
      MessageGrows(run, run.(message := run.message + plain), state, aadLength, messageLength, p.digestSize, received, waiting,
                   auth.bufferedDataLength, plain);
      MoveOn(|input|, plain);
    }

    // A piece of the message that was authenticated.
    method MoveOn(length: nat, ghost plain: seq<byte>)
      requires (state == AuthUntransformed || state == AuthTransformed) && |plain| == length <= refused
      requires Shaped() && InPhase(run, state, isEncryption) && Counted() && InStream()
      requires Tracks(run.(message := run.message + plain), state, aadLength, messageLength, p.digestSize, auth.Received(),
                      auth.bufferedDataLength)
      modifies `run, `refused, `streamPosition
      ensures Valid() && refused == old(refused) - length
      ensures run == old(run).(message := old(run.message) + plain) && streamPosition == old(streamPosition) + length
    {
      streamPosition := streamPosition + length;
      run, refused := run.(message := run.message + plain), refused - length;
      assert Tracked();
    }

    // Bytes are counted before it is known whether they are taken.
    method CountData(length: nat)
      requires Valid()
      modifies this`totalMessageLength, this`refused
      ensures Valid() && totalMessageLength == Wrapped(old(totalMessageLength) + length) && refused == old(refused) + length
    {
      WrappedAdds(|run.message| + refused, length);
      totalMessageLength := Wrapped(totalMessageLength + length);
      refused := refused + length;
    }

    // The first data closes the header.
    method TakeData(input: seq<byte>) returns (output: seq<byte>, error: Option<Error>)
      requires Valid() && state != KeySet && state != AuthFooter && refused >= |input|
      modifies this`state, this`run, this`refused, this`streamPosition,
               auth`done, auth`blocks, auth`bufferedDataLength, auth.buffer, auth.cbcBuffer
      ensures Valid()
      ensures error == if old(state) == IvSet && aadLength != totalHeaderLength then Some(InvalidArgument) else None
      ensures error == None ==> output == Streamed(p, counterBlock, old(streamPosition), input)
      ensures error == None ==> streamPosition == old(streamPosition) + |input| && refused == old(refused) - |input|
      ensures error == None
        ==> state == if old(state) == IvSet then (if isEncryption then AuthUntransformed else AuthTransformed) else old(state)
      ensures error == None
        ==> run == old(run).(message := old(run.message) + (if state == AuthUntransformed then input else output),
                             lastBlocks := if old(state) == IvSet then old(run.lastBlocks) + [LastHeaderBlock]
                                           else old(run.lastBlocks),
                             specified := Begun(old(run.specified)))
      ensures error != None ==> run == old(run) && state == old(state) && auth.Received() == old(auth.Received())
      ensures error != None ==> streamPosition == old(streamPosition) && refused == old(refused)
    {
      output := [];
      error := None;
      if state == IvSet {
        error := EnterMessage();
      }
      if error == None {
        output := TransformData(input);
      }
    }

    // The length is counted whether or not the data can be taken.
    method ProcessData(input: seq<byte>) returns (output: seq<byte>, error: Option<Error>)
      requires Valid()
      modifies this`state, this`run, this`refused, this`totalMessageLength, this`streamPosition,
               auth`done, auth`blocks, auth`bufferedDataLength, auth.buffer, auth.cbcBuffer
      ensures Valid()
      ensures totalMessageLength == Wrapped(old(totalMessageLength) + |input|)
      ensures error == if old(state) != KeySet && totalMessageLength > MaxMessageLength() then Some(InvalidArgument) else
                       match old(state)
                       case KeySet => Some(BadState)
                       case AuthFooter => Some(BadState)
                       case IvSet => if aadLength == totalHeaderLength then None else Some(InvalidArgument)
                       case _ => None
      ensures error == None ==> output == Streamed(p, counterBlock, old(streamPosition), input)
      ensures error == None ==> streamPosition == old(streamPosition) + |input|
      ensures error == None
        ==> state == if old(state) == IvSet then (if isEncryption then AuthUntransformed else AuthTransformed) else old(state)
      ensures error == None
        ==> run == old(run).(message := old(run.message) + (if state == AuthUntransformed then input else output),
                             lastBlocks := if old(state) == IvSet then old(run.lastBlocks) + [LastHeaderBlock]
                                           else old(run.lastBlocks),
                             specified := Begun(old(run.specified)))
      ensures error != None ==> run == old(run)
      ensures refused == old(refused) + if error == None then 0 else |input|
      ensures error != None
        ==> state == old(state) && streamPosition == old(streamPosition) && auth.Received() == old(auth.Received())
    {
      output := [];
      CountData(|input|);
      if state != KeySet && totalMessageLength > MaxMessageLength() {
        error := Some(InvalidArgument);
      } else if state == KeySet || state == AuthFooter {
        error := Some(BadState);
      } else {
        output, error := TakeData(input);
      }
    }

    // The CBC block under the first block of the keystream.
    method AuthenticateLastFooterBlock(macSize: nat) returns (mac: seq<byte>)
      requires Consistent() && state == AuthFooter && macSize <= SIZE
      modifies this`streamPosition, this`run
      ensures |mac| == macSize && IsTagOf(p, run.nonce, auth.done, mac)
      ensures run == old(run).(lastBlocks := old(run.lastBlocks) + [LastFooterBlock])
    {
      streamPosition := 0;
      mac := Streamed(p, counterBlock, streamPosition, auth.cbcBuffer[..macSize]);
      BlockIsTag(p, run.nonce, auth.done, counterBlock, auth.cbcBuffer[..], macSize);
      assert auth.cbcBuffer[..][..macSize] == auth.cbcBuffer[..macSize];
      streamPosition := macSize;
      run := run.(lastBlocks := run.lastBlocks + [LastFooterBlock]);
    }

    // The last blocks that are still due, in order. On an error the object stays in its state, but the header
    // may have been closed.
    method FinishPhases() returns (error: Option<Error>)
      requires Valid() && state != KeySet && run.footer == [] && totalHeaderLength <= MAX_HEADER_LENGTH
      modifies this`state, this`run, auth`done, auth`blocks, auth`bufferedDataLength, auth.cbcBuffer
      ensures Consistent()
      ensures error == match old(state)
                       case IvSet => if aadLength == totalHeaderLength
                         && messageLength == totalMessageLength then None else Some(InvalidArgument)
                       case AuthFooter => None
                       case _ => if messageLength == totalMessageLength then None else Some(InvalidArgument)
      ensures error == None ==> state == AuthFooter && messageLength == totalMessageLength && auth.bufferedDataLength == 0
      ensures error == None
        ==> run == old(run).(lastBlocks := old(run.early) + [LastHeaderBlock, LastConfidentialBlock],
                             specified := Begun(old(run.specified)))
      ensures error != None ==> state == old(state) && run == Denied(old(run), old(TooEarly()))
    {
      var before := state;
      error := None;
      if state == IvSet {
        error := EnterMessage();
      }
      if error == None && state != AuthFooter {
        error := EnterFooter();
        if error != None && before == IvSet {
          BackToHeader();
        }
      }
    }

    // The header was closed for a tag that was not given.
    method BackToHeader()
      requires Valid() && (state == AuthUntransformed || state == AuthTransformed)
      requires run.message == [] && auth.bufferedDataLength == 0 && run.specified != NotYet
      modifies this`state, this`run
      ensures Valid() && state == IvSet && run == old(run).(early := old(run.early) + [LastHeaderBlock])
    {
      BackInHeader(run, state, isEncryption, aadLength, messageLength, p.digestSize, auth.Received());
      state := IvSet;
      run := run.(early := run.early + [LastHeaderBlock]);
      assert Shaped();
      assert InStream() && Counted();
      assert InPhase(run, state, isEncryption);
      assert Tracked();
    }

    // A tag was given, and one of each last block came with it if and only if no tag was asked for too early.
    ghost predicate Ended(before: Run)
      requires p.Valid()
      reads this, auth
    {
      && state == KeySet && NonceFits(run.nonce)
      && run == before.(lastBlocks := ForTag(before.early), specified := Begun(before.specified))
      && (run.lastBlocks == [LastHeaderBlock, LastConfidentialBlock, LastFooterBlock] <==> before.early == [])
      && (before.specified == BeforeData ==> Announces(run, refused, messageLength, p.digestSize, auth.done))
      && (before.specified == NotYet || before.specified == Without ==> Inherits(run, refused, auth.done))
    }

    // How a tag is refused, if it is.
    function TagError(): Option<Error>
      reads this
    {
      if totalHeaderLength > MAX_HEADER_LENGTH || totalFooterLength > 0 then Some(InvalidArgument)
      else
        match state
        case KeySet => Some(BadState)
        case IvSet =>
          if aadLength == totalHeaderLength && messageLength == totalMessageLength then None else Some(InvalidArgument)
        case AuthFooter => None
        case _ => if messageLength == totalMessageLength then None else Some(InvalidArgument)
    }

    method TruncatedFinal(macSize: nat) returns (mac: seq<byte>, error: Option<Error>)
      requires Valid() && macSize <= SIZE
      modifies this`state, this`run, this`streamPosition, auth`done, auth`blocks, auth`bufferedDataLength, auth.cbcBuffer
      ensures Valid()
      ensures error == old(TagError())
      ensures error == None ==> |mac| == macSize && Ended(old(run)) && IsTagOf(p, run.nonce, auth.done, mac)
      ensures error == None && old(Orderly()) ==> IsTag(p, run.nonce, run.header, run.message, mac)
      ensures error != None ==> state == old(state) && run == Denied(old(run), old(TooEarly()))
    {
      mac := [];
      if totalHeaderLength > MAX_HEADER_LENGTH || totalFooterLength > 0 {
        error := Some(InvalidArgument);
      } else if state == KeySet {
        error := Some(BadState);
      } else {
        mac, error := FinishRun(macSize);
      }
    }

    method FinishRun(macSize: nat) returns (mac: seq<byte>, error: Option<Error>)
      requires Valid() && macSize <= SIZE && state != KeySet && run.footer == [] && totalHeaderLength <= MAX_HEADER_LENGTH
      modifies this`state, this`run, this`streamPosition, auth`done, auth`blocks, auth`bufferedDataLength, auth.cbcBuffer
      ensures Valid() && error == old(TagError())
      ensures error == None ==> |mac| == macSize && Ended(old(run)) && IsTagOf(p, run.nonce, auth.done, mac)
      ensures error != None ==> state == old(state) && run == Denied(old(run), old(TooEarly()))
    {
      mac := [];
      error := FinishPhases();
      if error == None {
        mac := GiveTag(macSize, old(run));
      }
    }

    // All phases are finished.
    method GiveTag(macSize: nat, ghost before: Run) returns (mac: seq<byte>)
      requires Consistent() && macSize <= SIZE && state == AuthFooter && run.footer == []
      requires run == before.(lastBlocks := before.early + [LastHeaderBlock, LastConfidentialBlock],
                              specified := Begun(before.specified))
      requires messageLength == totalMessageLength && auth.bufferedDataLength == 0
      modifies this`state, this`run, this`streamPosition, auth`bufferedDataLength
      ensures Valid() && |mac| == macSize && Ended(before) && IsTagOf(p, run.nonce, auth.done, mac)
    {
      assert auth.Received() == auth.done;
      ghost var ended := run.(lastBlocks := run.lastBlocks + [LastFooterBlock]);
      TagShows(run, ended, refused, aadLength, messageLength, p.digestSize, auth.done);
      OneOfEach(run.early);
      ForTagInParts(run.early);
      mac := AuthenticateLastFooterBlock(macSize);
      EndRun(before);
    }

    method EndRun(ghost before: Run)
      requires Shaped() && Counted() && NonceFits(run.nonce)
      requires run == before.(lastBlocks := ForTag(before.early), specified := Begun(before.specified))
      requires run.lastBlocks == [LastHeaderBlock, LastConfidentialBlock, LastFooterBlock] <==> before.early == []
      requires before.specified == BeforeData ==> Announces(run, refused, messageLength, p.digestSize, auth.done)
      requires before.specified == NotYet || before.specified == Without ==> Inherits(run, refused, auth.done)
      modifies this`state, auth`bufferedDataLength
      ensures Valid() && Ended(before)
    {
      auth.bufferedDataLength := 0;
      state := KeySet;
    }

    method TruncatedVerify(digest: seq<byte>) returns (ok: bool, error: Option<Error>)
      requires Valid()
      modifies this`state, this`run, this`streamPosition, auth`done, auth`blocks, auth`bufferedDataLength, auth.cbcBuffer
      ensures Valid()
      ensures error == if |digest| > p.digestSize then Some(InvalidArgument) else old(TagError())
      ensures |digest| > p.digestSize ==> run == old(run)
      ensures error == None ==> Ended(old(run)) && ok == IsTagOf(p, run.nonce, auth.done, digest)
      ensures error == None && old(Orderly()) ==> ok == IsTag(p, run.nonce, run.header, run.message, digest)
      ensures error != None ==> state == old(state) && !ok
      ensures error != None && |digest| <= p.digestSize ==> run == Denied(old(run), old(TooEarly()))
    {
      ok := false;
      if |digest| > p.digestSize {
        error := Some(InvalidArgument);
      } else {
        var mac;
        mac, error := TruncatedFinal(|digest|);
        ok := error == None && mac == digest;
      }
    }

    // The start of a run with its lengths.
    method Begin(iv: seq<byte>, headerLength: nat, messageLength: nat) returns (error: Option<Error>)
      requires Valid() && headerLength < WORD && messageLength < WORD
      modifies this, auth, auth.buffer, auth.cbcBuffer
      ensures Valid()
      ensures error == if NonceFits(iv) && messageLength <= MaxLength(15 - |iv|) then None else Some(InvalidArgument)
      ensures error == None ==> run == NewRun(iv, old(auth.done)).(specified := BeforeData) && refused == 0
      ensures error == None ==> state == IvSet && lengthSize == 15 - |iv|
      ensures error == None ==> aadLength == headerLength && this.messageLength == messageLength
    {
      error := Resynchronize(iv);
      if error == None {
        error := SpecifyDataLengths(headerLength, messageLength);
      }
    }

    // The header in any number of pieces.
    method UpdateParts(parts: seq<seq<byte>>)
      requires Valid() && Orderly() && state == IvSet
      modifies this`state, this`run, this`totalHeaderLength, this`totalFooterLength,
               auth`done, auth`blocks, auth`bufferedDataLength, auth.buffer, auth.cbcBuffer
      ensures Valid() && state == IvSet
      ensures run == old(run).(header := old(run.header) + Concat(parts))
    {
      assert run.header + Concat([]) == run.header;
      for i := 0 to |parts|
        invariant Valid() && state == IvSet
        invariant run == old(run).(header := old(run.header) + Concat(parts[..i]))
      {
        ConcatNext(parts, i);
        Associates(old(run.header), Concat(parts[..i]), parts[i]);
        var error := Update(parts[i]);
        assert parts[i] == [] ==> run.header + parts[i] == run.header;
      }
      assert parts[..|parts|] == parts;
    }

    // One more piece of the message.
    method ProcessPiece(piece: seq<byte>) returns (output: seq<byte>)
      requires Valid() && Orderly() && state != AuthFooter && (state == IvSet ==> aadLength == |run.header|)
      requires |run.message| + |piece| <= MaxMessageLength()
      modifies this`state, this`run, this`refused, this`totalMessageLength, this`streamPosition,
               auth`done, auth`blocks, auth`bufferedDataLength, auth.buffer, auth.cbcBuffer
      ensures Valid() && Orderly() && state != AuthFooter && state != IvSet
      ensures output == Streamed(p, counterBlock, old(streamPosition), piece)
      ensures run == old(run).(message := old(run.message) + (if isEncryption then piece else output),
                               lastBlocks := run.lastBlocks)
      ensures aadLength == |run.header|
    {
      LongestIsWord(lengthSize);
      var error;
      output, error := ProcessData(piece);
    }

    // After those put together in done.
    method ProcessNext(ghost done: seq<byte>, output: seq<byte>, piece: seq<byte>) returns (longer: seq<byte>)
      requires Valid() && Orderly() && state != AuthFooter && (state == IvSet ==> aadLength == |run.header|)
      requires |done| + |piece| <= MaxMessageLength()
      requires output == CipherText(p, run.nonce, done) && run.message == if isEncryption then done else output
      modifies this`state, this`run, this`refused, this`totalMessageLength, this`streamPosition,
               auth`done, auth`blocks, auth`bufferedDataLength, auth.buffer, auth.cbcBuffer
      ensures Valid() && Orderly() && state != AuthFooter && state != IvSet
      ensures longer == CipherText(p, run.nonce, done + piece) && run.message == if isEncryption then done + piece else longer
      ensures run.nonce == old(run.nonce) && run.header == old(run.header) && run.footer == old(run.footer)
      ensures run.early == old(run.early) && aadLength == |run.header|
    {
      CipherTextGrows(p, run.nonce, done, piece);
      assert |run.message| == |done|;
      assert streamPosition == SIZE + |done| && counterBlock == CounterBlock(run.nonce);
      var next := ProcessPiece(piece);
      longer := output + next;
    }

    // The message in any number of pieces.
    method ProcessParts(parts: seq<seq<byte>>) returns (output: seq<byte>)
      requires Valid() && Orderly() && state == IvSet && aadLength == |run.header|
      requires |Concat(parts)| <= MaxMessageLength()
      modifies this`state, this`run, this`refused, this`totalMessageLength, this`streamPosition,
               auth`done, auth`blocks, auth`bufferedDataLength, auth.buffer, auth.cbcBuffer
      ensures Valid() && Orderly() && state != AuthFooter && (state == IvSet ==> aadLength == |run.header|)
      ensures output == CipherText(p, run.nonce, Concat(parts)) && run.message == if isEncryption then Concat(parts) else output
      ensures run.nonce == old(run.nonce) && run.header == old(run.header) && run.footer == []
      decreases |parts|
    {
      if parts == [] {
        output := [];
      } else {
        output := ProcessParts(parts[..|parts| - 1]);
        output := ProcessNext(Concat(parts[..|parts| - 1]), output, parts[|parts| - 1]);
      }
    }

    // A run up to its message.
    method BeginWithHeader(iv: seq<byte>, header: seq<byte>, messageLength: nat) returns (error: Option<Error>)
      requires Valid() && |header| < WORD && messageLength < WORD
      modifies this, auth, auth.buffer, auth.cbcBuffer
      ensures Valid()
      ensures error == if NonceFits(iv) && messageLength <= MaxLength(15 - |iv|) then None else Some(InvalidArgument)
      ensures error == None ==> run == NewRun(iv, old(auth.done)).(header := header, specified := BeforeData) && refused == 0
      ensures error == None ==> state == IvSet && lengthSize == 15 - |iv|
      ensures error == None ==> aadLength == |header| && this.messageLength == messageLength
    {
      error := Begin(iv, |header|, messageLength);
      if error == None {
        error := Update(header);
        assert [] + header == header;
      }
    }

    // Nothing is missing for the tag.
    ghost predicate Complete(nonce: seq<byte>, header: seq<byte>, message: seq<byte>)
      reads this, auth, auth.buffer, auth.cbcBuffer
    {
      && Valid() && Orderly() && state != AuthFooter && (state == IvSet ==> aadLength == |run.header|)
      && run.nonce == nonce && run.header == header && run.message == message && run.footer == []
      && messageLength == |message| && |header| <= MAX_HEADER_LENGTH
    }

    method FinalTag(macSize: nat, ghost nonce: seq<byte>, ghost header: seq<byte>, ghost message: seq<byte>)
      returns (mac: seq<byte>)
      requires Complete(nonce, header, message) && macSize <= SIZE
      modifies this`state, this`run, this`streamPosition, auth`done, auth`blocks, auth`bufferedDataLength, auth.cbcBuffer
      ensures Valid() && |mac| == macSize && IsTag(p, nonce, header, message, mac)
      ensures run.lastBlocks == ForTag(old(run.early))
    {
      var error;
      mac, error := TruncatedFinal(macSize);
    }

    method CheckTag(digest: seq<byte>, ghost nonce: seq<byte>, ghost header: seq<byte>, ghost message: seq<byte>)
      returns (ok: bool, error: Option<Error>)
      requires Complete(nonce, header, message)
      modifies this`state, this`run, this`streamPosition, auth`done, auth`blocks, auth`bufferedDataLength, auth.cbcBuffer
      ensures Valid() && error == if |digest| <= p.digestSize then None else Some(InvalidArgument)
      ensures error == None ==> ok == IsTag(p, nonce, header, message, digest)
    {
      ok, error := TruncatedVerify(digest);
    }

    // A whole message at once.
    method TakeMessage(input: seq<byte>) returns (output: seq<byte>)
      requires Valid() && Orderly() && state == IvSet && aadLength == |run.header| <= MAX_HEADER_LENGTH
      requires messageLength == |input|
      modifies this`state, this`run, this`refused, this`totalMessageLength, this`streamPosition,
               auth`done, auth`blocks, auth`bufferedDataLength, auth.buffer, auth.cbcBuffer
      ensures output == CipherText(p, old(run.nonce), input)
      ensures Complete(old(run.nonce), old(run.header), if isEncryption then input else output)
      ensures run.early == old(run.early)
    {
      output := ProcessNext([], [], input);
      assert [] + input == input;
    }

    // A run up to its tag.
    method ProcessWhole(iv: seq<byte>, header: seq<byte>, input: seq<byte>) returns (output: seq<byte>, error: Option<Error>)
      requires Valid() && |header| < WORD && |input| < WORD
      modifies this, auth, auth.buffer, auth.cbcBuffer
      ensures Valid()
      ensures error == if NonceFits(iv) && |input| <= MaxLength(15 - |iv|) then None else Some(InvalidArgument)
      ensures error == None ==> output == CipherText(p, iv, input)
      ensures error == None ==> Complete(iv, header, if isEncryption then input else output)
    {
      output := [];
      error := BeginWithHeader(iv, header, |input|);
      if error == None {
        output := TakeMessage(input);
      }
    }

    method EncryptAndAuthenticate(macSize: nat, iv: seq<byte>, header: seq<byte>, message: seq<byte>)
      returns (cipherText: seq<byte>, mac: seq<byte>, error: Option<Error>)
      requires Valid() && macSize <= SIZE && |header| < WORD && |message| < WORD
      modifies this, auth, auth.buffer, auth.cbcBuffer
      ensures Valid()
      ensures error == if NonceFits(iv) && |message| <= MaxLength(15 - |iv|) then None else Some(InvalidArgument)
      ensures error == None ==> cipherText == CipherText(p, iv, message) && |mac| == macSize
      ensures error == None ==> IsTag(p, iv, header, if isEncryption then message else cipherText, mac)
      ensures error == None ==> IsTagOverFormat(p, iv, header, if isEncryption then message else cipherText, mac)
    {
      mac := [];
      cipherText, error := ProcessWhole(iv, header, message);
      if error == None {
        mac := FinalTag(macSize, iv, header, if isEncryption then message else cipherText);
        TagsAre(p, iv, header, if isEncryption then message else cipherText, mac);
      }
    }

    method DecryptAndVerify(mac: seq<byte>, iv: seq<byte>, header: seq<byte>, cipherText: seq<byte>)
      returns (message: seq<byte>, ok: bool, error: Option<Error>)
      requires Valid() && |header| < WORD && |cipherText| < WORD
      modifies this, auth, auth.buffer, auth.cbcBuffer
      ensures Valid()
      ensures error == if NonceFits(iv) && |cipherText| <= MaxLength(15 - |iv|)
        && |mac| <= p.digestSize then None else Some(InvalidArgument)
      ensures error == None ==> message == CipherText(p, iv, cipherText)
      ensures error == None ==> ok == IsTag(p, iv, header, if isEncryption then cipherText else message, mac)
      ensures error == None ==> ok == IsTagOverFormat(p, iv, header, if isEncryption then cipherText else message, mac)
    {
      ok := false;
      message, error := ProcessWhole(iv, header, cipherText);
      if error == None {
        ok, error := CheckTag(mac, iv, header, if isEncryption then cipherText else message);
        TagsAre(p, iv, header, if isEncryption then cipherText else message, mac);
      }
    }
  }

  // The CBC block under the first block of the keystream is the tag of what went into it.
  lemma BlockIsTag(p: Parameters, nonce: seq<byte>, done: seq<byte>, counterBlock: seq<byte>, cbcBlock: seq<byte>, macSize: nat)
    requires p.Valid() && NonceFits(nonce) && macSize <= SIZE && counterBlock == CounterBlock(nonce)
    requires cbcBlock == p.cipher.Chain(Zeros(SIZE), done)
    ensures IsTagOf(p, nonce, done, Streamed(p, counterBlock, 0, cbcBlock[..macSize]))
  {
    assert Streamed(p, counterBlock, 0, cbcBlock[..macSize]) == Streamed(p, counterBlock, 0, cbcBlock)[..macSize];
  }

  // Finishing a phase in which nothing came in changes nothing.
  lemma NothingIsWaiting(inherited: seq<byte>, done: seq<byte>, pending: seq<byte>, blocks: nat)
    requires |inherited| % SIZE == 0 && |done| == SIZE * blocks && |pending| < SIZE && done + pending == inherited
    ensures Finished(done, pending) == inherited
  {
    assert inherited + [] == inherited;
    PaddingIsDue(inherited, [], done, pending, blocks, |inherited| / SIZE);
    Numbers.DivIsUnique(SIZE, SIZE, 1, 0);
  }

  lemma NewRunTracks(iv: seq<byte>, done: seq<byte>, blocks: nat, digestSize: nat)
    requires NonceFits(iv) && 4 <= digestSize <= 16 && |done| == SIZE * blocks
    ensures Tracks(NewRun(iv, done), IvSet, 0, 0, digestSize, done, 0)
  {
  }

  lemma HeaderStarts(run: Run, headerLength: nat, messageLength: nat, digestSize: nat, received: seq<byte>, waiting: nat)
    requires NonceFits(run.nonce) && 4 <= digestSize <= 16 && run.header == run.message == run.footer == [] && run.early == []
    requires received == Expected(IvSet, false, run.nonce, [], [], [], headerLength, messageLength, digestSize)
    ensures IsFormatted(run.(specified := BeforeData), IvSet, headerLength, messageLength, digestSize, received, waiting)
  {
  }

  lemma HeaderGrows(before: Run, run: Run, headerLength: nat, messageLength: nat, digestSize: nat, received: seq<byte>,
                    waiting: nat, stillWaiting: nat, input: seq<byte>)
    requires 4 <= digestSize <= 16 && NonceFits(before.nonce) && input != []
    requires Tracks(before, IvSet, headerLength, messageLength, digestSize, received, waiting)
    requires run == before.(header := before.header + input, specified := Begun(before.specified))
    ensures Tracks(run, IvSet, headerLength, messageLength, digestSize, received + input, stillWaiting)
  {
    if before.specified == BeforeData {
      FormatGrows(before, run, headerLength, messageLength, digestSize, received, waiting, stillWaiting, input);
    }
  }

  lemma FormatGrows(before: Run, run: Run, headerLength: nat, messageLength: nat, digestSize: nat, received: seq<byte>,
                    waiting: nat, stillWaiting: nat, input: seq<byte>)
    requires 4 <= digestSize <= 16 && NonceFits(before.nonce) && input != []
    requires IsFormatted(before, IvSet, headerLength, messageLength, digestSize, received, waiting)
    requires run == before.(header := before.header + input, specified := run.specified)
    ensures IsFormatted(run, IvSet, headerLength, messageLength, digestSize, received + input, stillWaiting)
  {
    var header := before.header;
    if before.early != [] {
      assert (header + input)[..headerLength] == header[..headerLength];
      assert (header + input)[headerLength..] == header[headerLength..] + input;
      Associates(HeaderBlocks(run.nonce, header[..headerLength], messageLength, digestSize), header[headerLength..], input);
    } else {
      var first, prefix := FirstBlock(run.nonce, headerLength, messageLength, digestSize), HeaderPrefix(headerLength);
      Associates(first, prefix + header, input);
      Associates(prefix, header, input);
    }
  }

  lemma MessageGrows(before: Run, run: Run, state: State, headerLength: nat, messageLength: nat, digestSize: nat,
                     received: seq<byte>, waiting: nat, stillWaiting: nat, input: seq<byte>)
    requires 4 <= digestSize <= 16 && NonceFits(before.nonce)
    requires state == AuthUntransformed || state == AuthTransformed
    requires Tracks(before, state, headerLength, messageLength, digestSize, received, waiting)
    requires run == before.(message := before.message + input)
    ensures Tracks(run, state, headerLength, messageLength, digestSize, received + input, stillWaiting)
  {
    Associates(HeaderBlocks(run.nonce, run.header, messageLength, digestSize), before.message, input);
    assert input == [] ==> received + input == received;
  }

  lemma FooterGrows(before: Run, run: Run, headerLength: nat, messageLength: nat, digestSize: nat, received: seq<byte>,
                    waiting: nat, stillWaiting: nat, input: seq<byte>)
    requires 4 <= digestSize <= 16 && NonceFits(before.nonce) && input != []
    requires Tracks(before, AuthFooter, headerLength, messageLength, digestSize, received, waiting)
    requires run == before.(footer := before.footer + input)
    ensures Tracks(run, AuthFooter, headerLength, messageLength, digestSize, received + input, stillWaiting)
  {
    Associates(BlocksAnnouncing(run.nonce, run.header, messageLength, run.message, digestSize), before.footer, input);
  }

  // Finishing the header gives what the first byte of the message is added to. Where it was finished before,
  // nothing is waiting.
  lemma HeaderToMessage(before: Run, run: Run, state: State, headerLength: nat, messageLength: nat, digestSize: nat,
                        done: seq<byte>, pending: seq<byte>, blocks: nat)
    requires NonceFits(before.nonce) && 4 <= digestSize <= 16 && |done| == SIZE * blocks && |pending| < SIZE
    requires (state == AuthUntransformed || state == AuthTransformed) && before.message == [] && headerLength == |before.header|
    requires Tracks(before, IvSet, headerLength, messageLength, digestSize, done + pending, |pending|)
    requires run == before.(lastBlocks := run.lastBlocks, specified := Begun(before.specified))
    ensures Tracks(run, state, headerLength, messageLength, digestSize, Finished(done, pending), 0)
    ensures before.specified == BeforeData && before.early != [] ==> pending == []
  {
    if before.specified == BeforeData {
      if before.early != [] {
        assert run.header[..|run.header|] == run.header && run.header[|run.header|..] == [] && done + pending == done;
      } else {
        HeaderFinished(run.nonce, run.header, messageLength, digestSize, done, pending, blocks);
      }
    } else if before.specified != Late && before.footer == [] {
      NothingIsWaiting(run.inherited, done, pending, blocks);
    }
  }

  // A header that was closed for a tag that was not given.
  lemma BackInHeader(run: Run, state: State, isEncryption: bool, headerLength: nat, messageLength: nat, digestSize: nat,
                     received: seq<byte>)
    requires NonceFits(run.nonce) && 4 <= digestSize <= 16 && run.message == []
    requires state == AuthUntransformed || state == AuthTransformed
    requires InPhase(run, state, isEncryption) && Tracks(run, state, headerLength, messageLength, digestSize, received, 0)
    ensures InPhase(run.(early := run.early + [LastHeaderBlock]), IvSet, isEncryption)
    ensures Tracks(run.(early := run.early + [LastHeaderBlock]), IvSet, headerLength, messageLength, digestSize, received, 0)
  {
    assert run.header[..|run.header|] == run.header && run.header[|run.header|..] == [];
  }

  // Finishing the message gives what the footer is added to.
  lemma MessageToFooter(before: Run, run: Run, state: State, headerLength: nat, messageLength: nat, digestSize: nat,
                        done: seq<byte>, pending: seq<byte>, blocks: nat)
    requires NonceFits(before.nonce) && 4 <= digestSize <= 16 && |done| == SIZE * blocks && |pending| < SIZE
    requires (state == AuthUntransformed || state == AuthTransformed) && before.footer == []
    requires Tracks(before, state, headerLength, messageLength, digestSize, done + pending, |pending|)
    requires run == before.(lastBlocks := run.lastBlocks)
    ensures Tracks(run, AuthFooter, headerLength, messageLength, digestSize, Finished(done, pending), 0)
  {
    if before.specified == BeforeData {
      MessageFinished(run.nonce, run.header, messageLength, run.message, digestSize, done, pending, blocks);
      assert Finished(done, pending) + [] == Finished(done, pending);
    } else if before.specified == Without && run.message == [] {
      NothingIsWaiting(run.inherited, done, pending, blocks);
    }
  }

  // Header and message given in pieces: the output and the tag depend on what the pieces make up only.
  method RunInParts(c: Ccm, iv: seq<byte>, headerParts: seq<seq<byte>>, messageParts: seq<seq<byte>>, macSize: nat)
    returns (output: seq<byte>, mac: seq<byte>)
    requires c.Valid() && macSize <= SIZE && NonceFits(iv) && |Concat(headerParts)| < WORD
    requires |Concat(messageParts)| <= MaxLength(15 - |iv|) && |Concat(messageParts)| < WORD
    modifies c, c.auth, c.auth.buffer, c.auth.cbcBuffer
    ensures c.Valid() && output == CipherText(c.p, iv, Concat(messageParts)) && |mac| == macSize
    ensures IsTag(c.p, iv, Concat(headerParts), if c.isEncryption then Concat(messageParts) else output, mac)
  {
    output := StreamInParts(c, iv, headerParts, messageParts);
    mac := c.FinalTag(macSize, iv, Concat(headerParts), if c.isEncryption then Concat(messageParts) else output);
  }

  method BeginInParts(c: Ccm, iv: seq<byte>, headerParts: seq<seq<byte>>, messageLength: nat)
    requires c.Valid() && NonceFits(iv) && |Concat(headerParts)| < WORD
    requires messageLength <= MaxLength(15 - |iv|) && messageLength < WORD
    modifies c, c.auth, c.auth.buffer, c.auth.cbcBuffer
    ensures c.Valid() && c.Orderly() && c.state == IvSet && c.lengthSize == 15 - |iv|
    ensures c.run.nonce == iv && c.run.header == Concat(headerParts)
    ensures c.aadLength == |c.run.header| && c.messageLength == messageLength
  {
    var error := c.Begin(iv, |Concat(headerParts)|, messageLength);
    c.UpdateParts(headerParts);
    assert [] + Concat(headerParts) == Concat(headerParts);
  }

  method StreamInParts(c: Ccm, iv: seq<byte>, headerParts: seq<seq<byte>>,
      messageParts: seq<seq<byte>>) returns (output: seq<byte>)
    requires c.Valid() && NonceFits(iv) && |Concat(headerParts)| < WORD
    requires |Concat(messageParts)| <= MaxLength(15 - |iv|) && |Concat(messageParts)| < WORD
    modifies c, c.auth, c.auth.buffer, c.auth.cbcBuffer
    ensures output == CipherText(c.p, iv, Concat(messageParts))
    ensures c.Complete(iv, Concat(headerParts), if c.isEncryption then Concat(messageParts) else output)
  {
    BeginInParts(c, iv, headerParts, |Concat(messageParts)|);
    output := c.ProcessParts(messageParts);
  }

  // What was encrypted in pieces, decrypted in any other pieces, is the message, and its tag is accepted.
  method RoundTrip(p: Parameters, iv: seq<byte>, headerParts: seq<seq<byte>>, messageParts: seq<seq<byte>>,
                   otherHeaderParts: seq<seq<byte>>, cut: seq<byte> -> seq<seq<byte>>, macSize: nat)
    returns (message: seq<byte>, ok: bool)
    requires p.Valid() && macSize <= p.digestSize && NonceFits(iv) && |Concat(headerParts)| < WORD
    requires |Concat(messageParts)| <= MaxLength(15 - |iv|) && |Concat(messageParts)| < WORD
    requires Concat(otherHeaderParts) == Concat(headerParts) && forall s :: Concat(cut(s)) == s
    ensures message == Concat(messageParts) && ok
  {
    var encryptor := new Ccm(p, true);
    var cipherText, mac := RunInParts(encryptor, iv, headerParts, messageParts, macSize);
    StreamedTwice(p, CounterBlock(iv), SIZE, Concat(messageParts));
    var decryptor := new Ccm(p, false);
    message, ok := VerifyInParts(decryptor, iv, otherHeaderParts, cut(cipherText), mac);
  }

  method VerifyInParts(c: Ccm, iv: seq<byte>, headerParts: seq<seq<byte>>, messageParts: seq<seq<byte>>, mac: seq<byte>)
    returns (output: seq<byte>, ok: bool)
    requires c.Valid() && |mac| <= c.p.digestSize && NonceFits(iv) && |Concat(headerParts)| < WORD
    requires |Concat(messageParts)| <= MaxLength(15 - |iv|) && |Concat(messageParts)| < WORD
    modifies c, c.auth, c.auth.buffer, c.auth.cbcBuffer
    ensures c.Valid() && output == CipherText(c.p, iv, Concat(messageParts))
    ensures ok == IsTag(c.p, iv, Concat(headerParts), if c.isEncryption then Concat(messageParts) else output, mac)
  {
    output := StreamInParts(c, iv, headerParts, messageParts);
    var error;
    ok, error := c.CheckTag(mac, iv, Concat(headerParts), if c.isEncryption then Concat(messageParts) else output);
  }
}
