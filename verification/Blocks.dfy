// Bytes, xor of byte strings, block ciphers as parameters, and the chaining loop the MACs share.

module Blocks {
  import Numbers

  type byte = bv8

  lemma {:induction false} ByteWithValue(n: nat) returns (b: byte)
    requires n < 256
    ensures b as nat == n
  {
    if n == 0 {
      b := 0;
    } else {
      var before := ByteWithValue(n - 1);
      NextByte(before);
      b := before + 1;
    }
  }

  lemma NextByte(b: byte)
    requires b < 255
    ensures (b + 1) as nat == b as nat + 1
  {
  }

  // A small number is kept by its byte.
  lemma ByteHasValue(n: nat)
    requires n < 256
    ensures (n as byte) as nat == n
  {
    var b := ByteWithValue(n);
    assert (b as nat) as byte == b;
  }

  // The number a byte string stands for, most significant byte first.
  function BigEndian(k: seq<byte>): nat {
    if k == [] then 0 else 256 * BigEndian(k[..|k| - 1]) + k[|k| - 1] as nat
  }

  function Xor(a: seq<byte>, b: seq<byte>): (c: seq<byte>)
    requires |a| == |b|
  {
    seq(|a|, i requires 0 <= i < |a| => a[i] ^ b[i])
  }

  lemma XorTwice(a: seq<byte>, b: seq<byte>)
    requires |a| == |b|
    ensures Xor(Xor(a, b), b) == a && Xor(a, a) == Zeros(|a|)
  {
  }

  // The mask xored over the bytes of s from position at on.
  function Overlay(s: seq<byte>, at: nat, mask: seq<byte>): (r: seq<byte>)
    requires at + |mask| <= |s|
    ensures |r| == |s|
  {
    seq(|s|, i requires 0 <= i < |s| => if at <= i < at + |mask| then s[i] ^ mask[i - at] else s[i])
  }

  lemma OverlayAppends(s: seq<byte>, a: seq<byte>, b: seq<byte>)
    requires |a| + |b| <= |s|
    ensures Overlay(Overlay(s, 0, a), |a|, b) == Overlay(s, 0, a + b)
  {
  }

  lemma OverlayWhole(s: seq<byte>, mask: seq<byte>)
    requires |mask| == |s|
    ensures Overlay(s, 0, mask) == Xor(s, mask)
    ensures Overlay(s, 0, []) == s
  {
  }

  function Zeros(n: nat): (z: seq<byte>)
    ensures |z| == n
  {
    seq(n, _ => 0)
  }

  // A block cipher under one key: any function that keeps the block size.
  datatype BlockCipher = BlockCipher(blockSize: nat, encryption: seq<byte> -> seq<byte>) {
    ghost predicate KeepsSize(b: seq<byte>) {
      |b| == blockSize ==> |encryption(b)| == blockSize
    }

    ghost predicate Valid() {
      blockSize > 0 && forall b :: KeepsSize(b)
    }

    function Encrypt(b: seq<byte>): (r: seq<byte>)
      requires Valid() && |b| == blockSize
      ensures |r| == blockSize
    {
      assert KeepsSize(b);
      encryption(b)
    }

    // Cipher block chaining: every full block of the data is xored into the state, which is then
    // encrypted.
    ghost function Chain(state: seq<byte>, data: seq<byte>): (r: seq<byte>)
      requires Valid() && |state| == blockSize
      ensures |r| == blockSize
      decreases |data|
    {
      if |data| < blockSize then state
      else Chain(Encrypt(Xor(state, data[..blockSize])), data[blockSize..])
    }

    lemma ChainOneMore(state: seq<byte>, data: seq<byte>, done: nat, blocks: nat)
      requires Valid() && |state| == blockSize && done == blocks * blockSize && done + blockSize <= |data|
      ensures Chain(state, data[..done + blockSize])
           == Encrypt(Xor(Chain(state, data[..done]), data[done..done + blockSize]))
      ensures done + blockSize == (blocks + 1) * blockSize
    {
      var a, b := data[..done], data[done..done + blockSize];
      Numbers.MulDistributes(blocks, 1, blockSize);
      Numbers.DivIsUnique(|a|, blockSize, blocks, 0);
      assert data[..done + blockSize] == a + b;
      ChainAppends(state, a, b);
      assert b[..blockSize] == b && b[blockSize..] == [];
    }

    lemma {:induction false} ChainAppends(state: seq<byte>, a: seq<byte>, b: seq<byte>)
      requires Valid() && |state| == blockSize && |a| % blockSize == 0
      ensures Chain(state, a + b) == Chain(Chain(state, a), b)
      decreases |a|
    {
      if |a| < blockSize {
        assert a == [] by {
          if |a| > 0 { Numbers.DivIsUnique(|a|, blockSize, 0, |a|); }
        }
        assert a + b == b;
      } else {
        var rest := a[blockSize..];
        Numbers.DivIsUnique(|rest|, blockSize, |a| / blockSize - 1, 0);
        assert (a + b)[..blockSize] == a[..blockSize];
        assert (a + b)[blockSize..] == rest + b;
        ChainAppends(Encrypt(Xor(state, a[..blockSize])), rest, b);
      }
    }
  }

  // xorbuf into a buffer.
  method XorBuf(buf: array<byte>, at: nat, mask: seq<byte>)
    requires at + |mask| <= buf.Length
    modifies buf
    ensures buf[..] == Overlay(old(buf[..]), at, mask)
  {
    forall i | 0 <= i < |mask| {
      buf[at + i] := buf[at + i] ^ mask[i];
    }
  }

  // memcpy into a buffer; the bytes after those copied stay.
  method Store(buf: array<byte>, at: nat, data: seq<byte>)
    requires at + |data| <= buf.Length
    modifies buf
    ensures buf[..] == old(buf[..at]) + data + old(buf[at + |data|..])
  {
    forall i | 0 <= i < |data| {
      buf[at + i] := data[i];
    }
  }

  method ProcessBlock(cipher: BlockCipher, buf: array<byte>)
    requires cipher.Valid() && cipher.blockSize == buf.Length
    modifies buf
    ensures buf[..] == cipher.Encrypt(old(buf[..]))
  {
    var block := cipher.Encrypt(buf[..]);
    forall i | 0 <= i < buf.Length {
      buf[i] := block[i];
    }
  }

  // The chaining use of AdvancedProcessBlocks: input and output are one block that does not move, and
  // the data is xored in. Returns how many bytes are left over.
  method AdvancedProcessBlocks(cipher: BlockCipher, buf: array<byte>, data: seq<byte>) returns (left: nat)
    requires cipher.Valid() && cipher.blockSize == buf.Length
    modifies buf
    ensures left == |data| % cipher.blockSize
    ensures buf[..] == cipher.Chain(old(buf[..]), data[..|data| - left])
  {
    var blockSize := cipher.blockSize;
    ghost var start := buf[..];
    var done: nat := 0;
    ghost var blocks: nat := 0;
    while |data| - done >= blockSize
      invariant done <= |data| && done == blocks * blockSize
      invariant buf[..] == cipher.Chain(start, data[..done])
    {
      cipher.ChainOneMore(start, data, done, blocks);
      OverlayWhole(buf[..], data[done..done + blockSize]);
      XorBuf(buf, 0, data[done..done + blockSize]);
      ProcessBlock(cipher, buf);
      done := done + blockSize;
      blocks := blocks + 1;
    }
    left := |data| - done;
    Numbers.DivIsUnique(|data|, blockSize, blocks, left);
  }
}
