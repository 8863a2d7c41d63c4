// The BLAKE2 hashes: the message is taken in blocks, each compressed with a count of the octets so far, and
// the last block is held back until the digest is wanted.

module Blake2 {
  import Numbers
  import opened DigitStrings
  import opened Pieces
  import opened Wrappers

  // The tree holds the leaf length, the place of the node and what is reserved.
  datatype ParameterBlock = ParameterBlock(digestLength: nat, keyLength: nat, fanout: nat, depth: nat, tree: seq<octet>,
    salt: seq<octet>, personalization: seq<octet>)

  // The sizes of one of the hashes and its functions: the state a parameter block starts it with, the
  // compression of a block, with the two words of the counter and the two flags, and the octets of a state.
  datatype Profile<!T> = Profile(
    blockSize: nat, wordBase: nat, digestSize: nat, maxKey: nat, treeSize: nat, saltSize: nat, personalizationSize: nat,
    initial: ParameterBlock -> T, compress: (T, nat, nat, bool, bool, seq<octet>) -> T, octets: T -> seq<octet>)

  ghost predicate IsProfile<T(!new)>(p: Profile<T>) {
    0 < p.blockSize < p.wordBase && 0 < p.maxKey <= p.blockSize && forall h :: |p.octets(h)| == p.digestSize
  }

  function ZeroPadded(s: seq<octet>, n: nat): (r: seq<octet>)
    requires |s| <= n
    ensures |r| == n
  {
    s + seq(n - |s|, _ => 0)
  }

  function KeyBlock<T>(p: Profile<T>, key: seq<octet>): seq<octet>
    requires |key| <= p.blockSize
  {
    if key == [] then [] else ZeroPadded(key, p.blockSize)
  }

  function NamedBlock<T>(p: Profile<T>, digestLength: nat, key: seq<octet>, salt: seq<octet>,
      personalization: seq<octet>): ParameterBlock
    requires |salt| <= p.saltSize && |personalization| <= p.personalizationSize
  {
    ParameterBlock(digestLength, |key|, 1, 1, ZeroPadded([], p.treeSize), ZeroPadded(salt, p.saltSize),
                   ZeroPadded(personalization, p.personalizationSize))
  }

  // The octets of s, and zeros behind them.
  ghost predicate IsPadded(r: seq<octet>, s: seq<octet>, size: nat) {
    |r| == size && |s| <= size && r[..|s|] == s && forall k :: |s| <= k < size ==> r[k] == 0
  }

  // Nothing without a key, and else a block of it.
  ghost predicate IsKeyBlock(r: seq<octet>, key: seq<octet>, size: nat) {
    if key == [] then r == [] else IsPadded(r, key, size)
  }

  // The parameters of a hash that is no tree: one leaf and one level, and zeros for the rest of the tree.
  ghost predicate IsNamed(block: ParameterBlock, digestLength: nat, keyLength: nat, treeSize: nat) {
    && block.digestLength == digestLength && block.keyLength == keyLength && block.fanout == 1 && block.depth == 1
    && IsPadded(block.tree, [], treeSize)
  }

  // A count in two words.
  function LowWord(count: nat, base: nat): nat
    requires base > 0
  {
    Numbers.DivFacts(count, base);
    count % base
  }

  function HighWord(count: nat, base: nat): nat
    requires base > 0
  {
    Numbers.DivFacts(count, base);
    Numbers.DivFacts(count / base, base);
    count / base % base
  }

  function Middle<T>(p: Profile<T>, h: T, count: nat, block: seq<octet>): T
    requires p.wordBase > 0
  {
    p.compress(h, LowWord(count, p.wordBase), HighWord(count, p.wordBase), false, false, block)
  }

  function Last<T>(p: Profile<T>, node: bool, h: T, count: nat, tail: seq<octet>): T
    requires p.wordBase > 0 && |tail| <= p.blockSize
  {
    p.compress(h, LowWord(count, p.wordBase), HighWord(count, p.wordBase), true, node, ZeroPadded(tail, p.blockSize))
  }

  // The state at the end of a message, of which so many octets came before.
  function Finished<T>(p: Profile<T>, node: bool, h: T, count: nat, message: seq<octet>): T
    requires 0 < p.blockSize && p.wordBase > 0
    decreases |message|, p
  {
    if |message| <= p.blockSize then Last(p, node, h, count + |message|, message)
    else
      Finished(p, node, Middle(p, h, count + p.blockSize, message[..p.blockSize]), count + p.blockSize, message[p.blockSize..])
  }

  // The digest of a message under a key. The key comes first, as a block of its own.
  function Digest<T>(p: Profile<T>, block: ParameterBlock, node: bool, keyBlock: seq<octet>, message: seq<octet>): seq<octet>
    requires 0 < p.blockSize && p.wordBase > 0
  {
    p.octets(Finished(p, node, p.initial(block), 0, keyBlock + message))
  }

  ghost predicate AllBlocks(blocks: seq<seq<octet>>, size: nat) {
    forall i :: 0 <= i < |blocks| ==> |blocks[i]| == size
  }

  // The state after full blocks none of which is the last.
  function Chained<T>(p: Profile<T>, h: T, count: nat, blocks: seq<seq<octet>>): T
    requires p.wordBase > 0
    decreases |blocks|, p
  {
    if blocks == [] then h
    else
      var rest := |blocks| - 1;
      Middle(p, Chained(p, h, count, blocks[..rest]), count + |Concat(blocks)|, blocks[rest])
  }

  lemma FinishedOnce<T>(p: Profile<T>, node: bool, h: T, count: nat, block: seq<octet>, rest: seq<octet>)
    requires 0 < p.blockSize == |block| && p.wordBase > 0 && rest != []
    ensures Finished(p, node, h, count, block + rest)
         == Finished(p, node, Middle(p, h, count + p.blockSize, block), count + p.blockSize, rest)
  {
    assert (block + rest)[..p.blockSize] == block && (block + rest)[p.blockSize..] == rest;
  }

  lemma FinishedLater<T>(p: Profile<T>, node: bool, h: T, count: nat, front: seq<octet>, before: T, block: seq<octet>,
      rest: seq<octet>)
    requires 0 < p.blockSize == |block| && p.wordBase > 0 && rest != []
    requires Finished(p, node, h, count, front + (block + rest)) == Finished(p, node, before, count + |front|, block + rest)
    ensures Finished(p, node, h, count, front + block + rest)
         == Finished(p, node, Middle(p, before, count + |front + block|, block), count + |front + block|, rest)
  {
    Associates(front, block, rest);
    FinishedOnce(p, node, before, count + |front|, block, rest);
  }

  // The blocks that are already compressed count for no more than the state and the count they left.
  lemma {:induction false} FinishedSkips<T>(p: Profile<T>, node: bool, h: T, count: nat, blocks: seq<seq<octet>>,
      rest: seq<octet>)
    requires 0 < p.blockSize && p.wordBase > 0 && AllBlocks(blocks, p.blockSize) && (rest != [] || blocks == [])
    ensures Finished(p, node, h, count, Concat(blocks) + rest)
         == Finished(p, node, Chained(p, h, count, blocks), count + |Concat(blocks)|, rest)
    decreases |blocks|
  {
    if blocks == [] {
      assert Concat(blocks) + rest == rest;
    } else {
      var last := |blocks| - 1;
      assert AllBlocks(blocks[..last], p.blockSize) && |blocks[last]| == p.blockSize;
      FinishedSkips(p, node, h, count, blocks[..last], blocks[last] + rest);
      FinishedLater(p, node, h, count, Concat(blocks[..last]), Chained(p, h, count, blocks[..last]), blocks[last], rest);
    }
  }

  lemma CounterCarries(count: nat, base: nat, more: nat)
    requires more < base
    ensures LowWord(count + more, base) == (LowWord(count, base) + more) % base
    ensures HighWord(count + more, base)
         == (HighWord(count, base) + if LowWord(count + more, base) < more then 1 else 0) % base
  {
    var low, high := count % base, count / base;
    Numbers.DivFacts(count, base);
    if low + more < base {
      Numbers.DivIsUnique(count + more, base, high, low + more);
      Numbers.DivIsUnique(low + more, base, 0, low + more);
      Numbers.DivFacts(high, base);
      Numbers.DivIsUnique(high % base, base, 0, high % base);
    } else {
      Numbers.MulDistributes(high, 1, base);
      Numbers.DivIsUnique(count + more, base, high + 1, low + more - base);
      Numbers.DivIsUnique(low + more, base, 1, low + more - base);
      Numbers.DivFacts(high, base);
      NextRemainder(high, base);
    }
  }

  lemma TwoWords(low: nat, high: nat, base: nat)
    requires low < base && high < base
    ensures high * base + low >= 0
    ensures LowWord(high * base + low, base) == low && HighWord(high * base + low, base) == high
  {
    Numbers.MulMonotonic(0, high, base);
    Numbers.DivIsUnique(high * base + low, base, high, low);
    Numbers.DivIsUnique(high, base, 0, high);
  }

  lemma NextRemainder(n: nat, base: nat)
    requires base > 1
    ensures (n + 1) % base == (n % base + 1) % base
  {
    Numbers.DivFacts(n, base);
    if n % base + 1 < base {
      Numbers.DivIsUnique(n + 1, base, n / base, n % base + 1);
      Numbers.DivIsUnique(n % base + 1, base, 0, n % base + 1);
    } else {
      Numbers.MulDistributes(n / base, 1, base);
      Numbers.DivIsUnique(n + 1, base, n / base + 1, 0);
      Numbers.DivIsUnique(n % base + 1, base, 1, 0);
    }
  }

  // What the compression function is called with.
  datatype Call = Call(t0: nat, t1: nat, f0: bool, f1: bool, block: seq<octet>)

  // The hash whose state is the list of the calls made so far.
  function Tracing(blockSize: nat, wordBase: nat): Profile<seq<Call>> {
    Profile(blockSize, wordBase, 0, blockSize, 0, 0, 0, _ => [],
            (h: seq<Call>, t0, t1, f0, f1, block) => h + [Call(t0, t1, f0, f1, block)], _ => [])
  }

  // Where block i of a message ends, and what it holds, zeros after the end included.
  function EndOfBlock(message: seq<octet>, i: nat, size: nat): nat {
    if (i + 1) * size <= |message| then Numbers.MulMonotonic(0, i + 1, size); (i + 1) * size else |message|
  }

  ghost predicate IsBlock(block: seq<octet>, message: seq<octet>, i: nat, size: nat) {
    |block| == size && forall k :: 0 <= k < size ==> block[k] == OctetAt(message, i * size + k)
  }

  function OctetAt(message: seq<octet>, at: int): octet {
    if 0 <= at < |message| then message[at] else 0
  }

  // Block i of a message is compressed with the count of the octets up to its end, and the flags are set for
  // the last block alone.
  ghost predicate IsCall(call: Call, message: seq<octet>, count: nat, i: nat, last: bool, node: bool, size: nat, base: nat)
    requires base > 0
  {
    && IsBlock(call.block, message, i, size)
    && call.t0 == LowWord(count + EndOfBlock(message, i, size), base)
    && call.t1 == HighWord(count + EndOfBlock(message, i, size), base)
    && call.f0 == last && call.f1 == (last && node)
  }

  // As many blocks as the message needs, and at least one.
  ghost predicate Covers(blocks: nat, message: seq<octet>, size: nat) {
    (blocks == 1 || (blocks - 1) * size < |message|) && 1 <= blocks && |message| <= blocks * size
  }

  lemma NextBlock(message: seq<octet>, i: nat, size: nat)
    requires size <= |message|
    ensures EndOfBlock(message, i + 1, size) == size + EndOfBlock(message[size..], i, size)
    ensures forall block :: IsBlock(block, message[size..], i, size) <==> IsBlock(block, message, i + 1, size)
  {
    Numbers.MulDistributes(i, 1, size);
    Numbers.MulDistributes(i + 1, 1, size);
    Numbers.MulMonotonic(0, i, size);
    forall block ensures IsBlock(block, message[size..], i, size) <==> IsBlock(block, message, i + 1, size) {
      if |block| == size {
        SameBlock(block, message, i, size);
      }
    }
  }

  lemma SameBlock(block: seq<octet>, message: seq<octet>, i: nat, size: nat)
    requires |block| == size <= |message| && i * size >= 0 && (i + 1) * size == i * size + size
    ensures IsBlock(block, message[size..], i, size) <==> IsBlock(block, message, i + 1, size)
  {
    if IsBlock(block, message[size..], i, size) {
      forall k | 0 <= k < size ensures block[k] == OctetAt(message, (i + 1) * size + k) {
        assert block[k] == OctetAt(message[size..], i * size + k);
      }
    } else if IsBlock(block, message, i + 1, size) {
      forall k | 0 <= k < size ensures block[k] == OctetAt(message[size..], i * size + k) {
        assert block[k] == OctetAt(message, (i + 1) * size + k);
      }
    }
  }

  // The compression function is called once for every block of the message, in order.
  ghost predicate AreCalls(calls: seq<Call>, message: seq<octet>, count: nat, node: bool, size: nat, base: nat)
    requires base > 0
  {
    && Covers(|calls|, message, size)
    && forall i :: 0 <= i < |calls| ==> IsCall(calls[i], message, count, i, i == |calls| - 1, node, size, base)
  }

  // The calls for a block of the key and a message.
  ghost predicate AreKeyedCalls(calls: seq<Call>, key: seq<octet>, message: seq<octet>, node: bool, size: nat, base: nat)
    requires base > 0
  {
    && calls != [] && IsBlock(calls[0].block, key, 0, size)
    && calls[0].f0 == (|calls| == 1) && calls[0].f1 == (|calls| == 1 && node)
    && calls[0].t0 == LowWord(size, base) && calls[0].t1 == HighWord(size, base)
    && (message == [] ==> |calls| == 1)
    && (message != [] ==> AreCalls(calls[1..], message, size, node, size, base))
  }

  lemma OneCall(message: seq<octet>, count: nat, node: bool, size: nat, base: nat)
    requires base > 0 && |message| <= size
    ensures AreCalls([Call(LowWord(count + |message|, base), HighWord(count + |message|, base), true, node,
      ZeroPadded(message, size))],
                     message, count, node, size, base)
  {
  }

  lemma CallBefore(more: seq<Call>, message: seq<octet>, count: nat, node: bool, size: nat, base: nat)
    requires base > 0 && 0 < size < |message| && AreCalls(more, message[size..], count + size, node, size, base)
    ensures AreCalls([Call(LowWord(count + size, base), HighWord(count + size, base), false, false, message[..size])] + more,
                     message, count, node, size, base)
  {
    var first := Call(LowWord(count + size, base), HighWord(count + size, base), false, false, message[..size]);
    var calls := [first] + more;
    CoversNext(|more|, message, size);
    assert IsCall(first, message, count, 0, false, node, size, base);
    forall i | 0 <= i < |more| ensures IsCall(more[i], message, count, i + 1, i == |more| - 1, node, size, base) {
      CallAfter(more[i], message, count, i, i == |more| - 1, node, size, base);
    }
    assert forall i :: 0 < i < |calls| ==> calls[i] == more[i - 1];
  }

  lemma CoversNext(blocks: nat, message: seq<octet>, size: nat)
    requires 0 < size < |message| && Covers(blocks, message[size..], size)
    ensures Covers(blocks + 1, message, size)
  {
    Numbers.MulDistributes(blocks, 1, size);
    Numbers.MulDistributes(blocks - 1, 1, size);
  }

  lemma CoversRest(blocks: nat, message: seq<octet>, size: nat)
    requires 0 < size < |message| && Covers(blocks, message, size)
    ensures blocks > 1 && Covers(blocks - 1, message[size..], size)
  {
    if blocks > 1 {
      Numbers.MulDistributes(blocks, 1, size);
      Numbers.MulDistributes(blocks - 1, 1, size);
    }
  }

  // The calls behind the first one are those of the rest of the message.
  lemma CallsOfRest(calls: seq<Call>, message: seq<octet>, node: bool, size: nat, base: nat)
    requires base > 0 && 0 < size < |message| && AreCalls(calls, message, 0, node, size, base)
    ensures |calls| > 1 && AreCalls(calls[1..], message[size..], size, node, size, base)
  {
    CoversRest(|calls|, message, size);
    forall i | 0 <= i < |calls| - 1
      ensures IsCall(calls[1..][i], message[size..], size, i, i == |calls| - 2, node, size, base)
    {
      NextBlock(message, i, size);
      assert IsCall(calls[i + 1], message, 0, i + 1, i + 1 == |calls| - 1, node, size, base);
    }
  }

  lemma KeyInFront(calls: seq<Call>, keyBlock: seq<octet>, key: seq<octet>, message: seq<octet>, node: bool, size: nat, base: nat)
    requires base > 0 && 0 < size && IsPadded(keyBlock, key, size)
    requires AreCalls(calls, keyBlock + message, 0, node, size, base)
    ensures AreKeyedCalls(calls, key, message, node, size, base)
  {
    assert IsCall(calls[0], keyBlock + message, 0, 0, 0 == |calls| - 1, node, size, base);
    FirstIsKey(calls[0].block, keyBlock, key, message, size);
    if message == [] {
      assert |calls| == 1 by {
        if |calls| > 1 { Numbers.MulMonotonic(1, |calls| - 1, size); }
      }
    } else {
      CallsOfRest(calls, keyBlock + message, node, size, base);
      assert (keyBlock + message)[size..] == message;
    }
  }

  lemma FirstIsKey(block: seq<octet>, keyBlock: seq<octet>, key: seq<octet>, message: seq<octet>, size: nat)
    requires IsPadded(keyBlock, key, size) && IsBlock(block, keyBlock + message, 0, size)
    ensures IsBlock(block, key, 0, size)
  {
    forall k | 0 <= k < size ensures block[k] == OctetAt(key, 0 * size + k) {
      assert block[k] == OctetAt(keyBlock + message, 0 * size + k) == keyBlock[k];
      assert k < |key| ==> keyBlock[k] == keyBlock[..|key|][k];
    }
  }

  lemma CallAfter(call: Call, message: seq<octet>, count: nat, i: nat, last: bool, node: bool, size: nat, base: nat)
    requires base > 0 && size <= |message| && IsCall(call, message[size..], count + size, i, last, node, size, base)
    ensures IsCall(call, message, count, i + 1, last, node, size, base)
  {
    NextBlock(message, i, size);
  }

  lemma {:induction false} CallsMade(size: nat, base: nat, node: bool, h: seq<Call>, count: nat, message: seq<octet>)
    returns (calls: seq<Call>)
    requires 0 < size && base > 0
    ensures Finished(Tracing(size, base), node, h, count, message) == h + calls
    ensures AreCalls(calls, message, count, node, size, base)
    decreases |message|
  {
    if |message| <= size {
      OneCall(message, count, node, size, base);
      var block := ZeroPadded(message, size);
      calls := [Call(LowWord(count + |message|, base), HighWord(count + |message|, base), true, node, block)];
    } else {
      var first := Call(LowWord(count + size, base), HighWord(count + size, base), false, false, message[..size]);
      var more := CallsMade(size, base, node, h + [first], count + size, message[size..]);
      CallBefore(more, message, count, node, size, base);
      calls := [first] + more;
      assert (h + [first]) + more == h + calls;
    }
  }

  // The state and the counter after full blocks none of which is the last.
  ghost predicate Holds<T(!new)>(p: Profile<T>, start: T, base: nat, blocks: seq<seq<octet>>, h: T, t0: nat, t1: nat) {
    && IsProfile(p) && AllBlocks(blocks, p.blockSize) && h == Chained(p, start, base, blocks)
    && t0 == LowWord(base + |Concat(blocks)|, p.wordBase) && t1 == HighWord(base + |Concat(blocks)|, p.wordBase)
  }

  lemma HoldsNext<T(!new)>(p: Profile<T>, start: T, base: nat, blocks: seq<seq<octet>>, h: T, t0: nat, t1: nat, block: seq<octet>)
    requires Holds(p, start, base, blocks, h, t0, t1) && |block| == p.blockSize
    ensures |Concat(blocks + [block])| == |Concat(blocks)| + p.blockSize && Concat(blocks + [block]) == Concat(blocks) + block
    ensures AllBlocks(blocks + [block], p.blockSize)
    ensures Chained(p, start, base, blocks + [block]) == Middle(p, h, base + |Concat(blocks)| + p.blockSize, block)
  {
    assert (blocks + [block])[..|blocks|] == blocks;
  }

  lemma BlocksAreLong(blocks: seq<seq<octet>>, size: nat)
    requires AllBlocks(blocks, size) && blocks != []
    ensures |Concat(blocks)| >= size
  {
    assert |blocks[|blocks| - 1]| == size;
  }

  // What is left to do for the digest, given the state and the counter so far.
  lemma FinishedAfter<T(!new)>(p: Profile<T>, node: bool, start: T, base: nat, blocks: seq<seq<octet>>, h: T, t0: nat, t1: nat,
                               tail: seq<octet>)
    requires Holds(p, start, base, blocks, h, t0, t1) && |tail| <= p.blockSize && (tail == [] ==> blocks == [])
    ensures Finished(p, node, start, base, Concat(blocks) + tail) == Last(p, node, h, base + |Concat(blocks)| + |tail|, tail)
  {
    FinishedSkips(p, node, start, base, blocks, tail);
  }

  lemma Refill(front: seq<octet>, held: seq<octet>, input: seq<octet>, fill: nat)
    requires fill <= |input|
    ensures (front + (held + input[..fill])) + input[fill..] == (front + held) + input
  {
  }

  class Hash<T(!new)> {
    const profile: Profile<T>
    const outputSize: nat
    const buffer: array<octet>
    var treeMode: bool
    var key: seq<octet>
    var block: ParameterBlock
    var h: T
    var t0: nat
    var t1: nat
    var f0: bool
    var f1: bool
    var length: nat
    // The state and the count of the last restart, and the blocks compressed since.
    ghost var start: T
    ghost var base: nat
    ghost var blocks: seq<seq<octet>>

    ghost predicate Chaining()
      reads this
    {
      && Holds(profile, start, base, blocks, h, t0, t1) && !f0 && !f1
      && buffer.Length == profile.blockSize && outputSize <= profile.digestSize
      && (key == [] || |key| == profile.blockSize)
    }

    ghost predicate Valid()
      reads this
    {
      Chaining() && length <= profile.blockSize && (length == 0 ==> blocks == [])
    }

    // All that came in since the last restart, the key included.
    ghost function Absorbed(): seq<octet>
      requires length <= buffer.Length
      reads this, buffer
    {
      Concat(blocks) + buffer[..length]
    }

    // As after a restart with a count.
    ghost predicate StartedAt(count: nat)
      reads this, buffer
    {
      && Valid() && start == h == profile.initial(block) && base == count && blocks == []
      && t0 == LowWord(count, profile.wordBase) && t1 == HighWord(count, profile.wordBase)
      && length == |key| && buffer[..length] == key
    }

    ghost predicate Started()
      reads this, buffer
    {
      StartedAt(0) && t0 == t1 == 0
    }

    // Without a key, the parameter block gets the full digest size, whatever the size of this object's digests.
    constructor Plain(profile: Profile<T>, treeMode: bool, outputSize: nat)
      requires IsProfile(profile) && outputSize <= profile.digestSize < 256
      ensures fresh(buffer) && this.profile == profile && this.treeMode == treeMode && this.outputSize == outputSize
      ensures Started() && key == [] && block == NamedBlock(profile, profile.digestSize, [], [], [])
      ensures IsNamed(block, profile.digestSize, 0, profile.treeSize)
      ensures IsPadded(block.salt, [], profile.saltSize) && IsPadded(block.personalization, [], profile.personalizationSize)
      ensures block.digestLength == outputSize <==> outputSize == profile.digestSize
    {
      this.profile, this.treeMode, this.outputSize := profile, treeMode, outputSize;
      buffer := new octet[profile.blockSize];
      h, start := profile.initial(NamedBlock(profile, 0, [], [], [])), profile.initial(NamedBlock(profile, 0, [], [], []));
      key, blocks, base, f0, f1, t0, t1 := [], [], 0, false, false, 0, 0;
      new;
      var ok := UncheckedSetKey([], None, None, None);
      Restart();
    }

    constructor Keyed(profile: Profile<T>, key: seq<octet>, salt: seq<octet>, personalization: seq<octet>,
        treeMode: bool, outputSize: nat)
      requires IsProfile(profile) && outputSize <= profile.digestSize < 256 && |key| <= profile.maxKey
      requires |salt| <= profile.saltSize && |personalization| <= profile.personalizationSize
      ensures fresh(buffer) && this.profile == profile && this.treeMode == treeMode && this.outputSize == outputSize
      ensures Started() && this.key == KeyBlock(profile, key) && IsKeyBlock(this.key, key, profile.blockSize)
      ensures block == NamedBlock(profile, outputSize, key, salt, personalization)
      ensures IsNamed(block, outputSize, |key|, profile.treeSize)
      ensures IsPadded(block.salt, salt, profile.saltSize)
      ensures IsPadded(block.personalization, personalization, profile.personalizationSize)
    {
      this.profile, this.treeMode, this.outputSize := profile, treeMode, outputSize;
      buffer := new octet[profile.blockSize];
      h, start := profile.initial(NamedBlock(profile, 0, [], [], [])), profile.initial(NamedBlock(profile, 0, [], [], []));
      this.key, blocks, base, f0, f1, t0, t1 := [], [], 0, false, false, 0, 0;
      new;
      var ok := UncheckedSetKey(key, Some(outputSize), Some(salt), Some(personalization));
      Restart();
    }

    // The key and the parameter block of the next restart; a hash under way goes on under the old ones. A salt or
    // personalization that is too long is an error, and leaves that field, and those behind it, as they were.
    method UncheckedSetKey(key: seq<octet>, digestLength: Option<nat>, salt: Option<seq<octet>>,
        personalization: Option<seq<octet>>) returns (ok: bool)
      requires |key| <= profile.maxKey <= profile.blockSize
      modifies `key, `block
      ensures this.key == KeyBlock(profile, key) && IsKeyBlock(this.key, key, profile.blockSize)
      ensures IsNamed(block, digestLength.GetOr(profile.digestSize) % 256, |key|, profile.treeSize)
      ensures ok ==> IsPadded(block.salt, salt.GetOr([]), profile.saltSize)
      ensures ok ==> IsPadded(block.personalization, personalization.GetOr([]), profile.personalizationSize)
      ensures ok == (|salt.GetOr([])| <= profile.saltSize && |personalization.GetOr([])| <= profile.personalizationSize)
      ensures var length := digestLength.GetOr(profile.digestSize) % 256;
              && (ok ==> block == NamedBlock(profile, length, key, salt.GetOr([]), personalization.GetOr([])))
              && (!ok && |salt.GetOr([])| <= profile.saltSize
                ==> block == NamedBlock(profile, length, key, salt.GetOr([]), []).(personalization := old(block.personalization)))
              && (|salt.GetOr([])| > profile.saltSize
                ==> block == NamedBlock(profile, length, key, [], []).(salt := old(block.salt),
                                                                       personalization := old(block.personalization)))
    {
      if |key| > 0 {
        this.key := ZeroPadded(key, profile.blockSize);
      } else {
        this.key := [];
      }
      var length := match digestLength { case Some(n) => n case None => profile.digestSize };
      var tree := ZeroPadded([], profile.treeSize);
      block := ParameterBlock(length % 256, |key|, 1, 1, tree, block.salt, block.personalization);
      ok := SetSalt(salt.GetOr([]));
      if ok {
        ok := SetPersonalization(personalization.GetOr([]));
      }
    }

    method SetSalt(salt: seq<octet>) returns (ok: bool)
      modifies `block
      ensures ok == (|salt| <= profile.saltSize)
      ensures block == if ok then old(block).(salt := ZeroPadded(salt, profile.saltSize)) else old(block)
    {
      ok := |salt| <= profile.saltSize;
      if ok {
        block := block.(salt := ZeroPadded(salt, profile.saltSize));
      }
    }

    method SetPersonalization(personalization: seq<octet>) returns (ok: bool)
      modifies `block
      ensures ok == (|personalization| <= profile.personalizationSize)
      ensures block == if ok then old(block).(personalization := ZeroPadded(personalization, profile.personalizationSize))
                       else old(block)
    {
      ok := |personalization| <= profile.personalizationSize;
      if ok {
        block := block.(personalization := ZeroPadded(personalization, profile.personalizationSize));
      }
    }

    // The state of the parameter block and a count given in two words; the key comes first.
    method StartAt(low: nat, high: nat)
      requires IsProfile(profile) && buffer.Length == profile.blockSize && outputSize <= profile.digestSize
      requires (key == [] || |key| == profile.blockSize) && low < profile.wordBase && high < profile.wordBase
      modifies this`h, this`t0, this`t1, this`f0, this`f1, this`length, this`start, this`base, this`blocks, buffer
      ensures t0 == low && t1 == high && StartedAt(high * profile.wordBase + low)
    {
      t0, t1, f0, f1, length := low, high, false, false, 0;
      h := profile.initial(block);
      TwoWords(low, high, profile.wordBase);
      start, base, blocks := h, high * profile.wordBase + low, [];
      if |key| > 0 {
        AbsorbKey();
      }
    }

    // The key fills the buffer, and is held back there.
    method AbsorbKey()
      requires Valid() && blocks == [] && length == 0 && |key| > 0
      modifies this`h, this`t0, this`t1, this`blocks, this`length, buffer
      ensures Valid() && blocks == [] && length == |key| && buffer[..length] == key && unchanged(`h, `t0, `t1)
    {
      assert Absorbed() == [] && [] + key == key;
      Update(key);
      if blocks != [] {
        BlocksAreLong(blocks, profile.blockSize);
      }
    }

    method Restart()
      requires IsProfile(profile) && buffer.Length == profile.blockSize && outputSize <= profile.digestSize
      requires key == [] || |key| == profile.blockSize
      modifies this`h, this`t0, this`t1, this`f0, this`f1, this`length, this`start, this`base, this`blocks, buffer
      ensures Started()
    {
      StartAt(0, 0);
    }

    // With a caller's parameter block, which gets the object's own digest size and the length of the padded key,
    // and a caller's counter, or none.
    method RestartFrom(block: ParameterBlock, counter: Option<(nat, nat)>)
      requires IsProfile(profile) && buffer.Length == profile.blockSize && outputSize <= profile.digestSize
      requires key == [] || |key| == profile.blockSize
      requires counter.Some? ==> counter.value.0 < profile.wordBase && counter.value.1 < profile.wordBase
      modifies this`block, this`h, this`t0, this`t1, this`f0, this`f1, this`length, this`start, this`base, this`blocks, buffer
      ensures this.block == block.(digestLength := outputSize % 256, keyLength := |key| % 256)
      ensures counter == None ==> Started()
      ensures counter.Some? ==>
        && t0 == counter.value.0 && t1 == counter.value.1
        && StartedAt(counter.value.1 * profile.wordBase + counter.value.0)
    {
      this.block := block.(digestLength := outputSize % 256, keyLength := |key| % 256);
      match counter {
        case Some((low, high)) =>
          StartAt(low, high);
        case None =>
          StartAt(0, 0);
      }
    }

    method IncrementCounter(count: nat)
      requires 0 < profile.wordBase
      modifies `t0, `t1
      ensures t0 == (old(t0) + count) % profile.wordBase
      ensures t1 == (old(t1) + if t0 < count then 1 else 0) % profile.wordBase
    {
      Numbers.DivFacts(t0 + count, profile.wordBase);
      t0 := (t0 + count) % profile.wordBase;
      Numbers.DivFacts(t1 + 1, profile.wordBase);
      Numbers.DivFacts(t1, profile.wordBase);
      t1 := (t1 + if t0 < count then 1 else 0) % profile.wordBase;
    }

    // The two words go on holding the count.
    method Count(ghost before: nat, count: nat)
      requires count < profile.wordBase
      requires t0 == LowWord(before, profile.wordBase) && t1 == HighWord(before, profile.wordBase)
      modifies `t0, `t1
      ensures t0 == LowWord(before + count, profile.wordBase) && t1 == HighWord(before + count, profile.wordBase)
    {
      CounterCarries(before, profile.wordBase, count);
      IncrementCounter(count);
    }

    method Compress(input: seq<octet>)
      modifies `h
      ensures h == profile.compress(old(h), t0, t1, f0, f1, input)
    {
      h := profile.compress(h, t0, t1, f0, f1, input);
    }

    // A full block that is not the last.
    method CompressMiddle(input: seq<octet>)
      requires Chaining() && |input| == profile.blockSize
      modifies `h, `t0, `t1, `blocks
      ensures Chaining() && blocks == old(blocks) + [input] && Concat(blocks) == old(Concat(blocks)) + input
    {
      HoldsNext(profile, start, base, blocks, h, t0, t1, input);
      Count(base + |Concat(blocks)|, profile.blockSize);
      Compress(input);
      blocks := blocks + [input];
    }

    method Copy(input: seq<octet>)
      requires length + |input| <= buffer.Length
      modifies buffer
      ensures buffer[..length + |input|] == old(buffer[..length]) + input
    {
      forall i | 0 <= i < |input| {
        buffer[length + i] := input[i];
      }
    }

    // The block under way is completed; more input follows.
    method CompleteBlock(input: seq<octet>) returns (rest: seq<octet>)
      requires Valid() && length + |input| > profile.blockSize
      modifies this`h, this`t0, this`t1, this`blocks, this`length, buffer
      ensures Chaining() && length == 0 && rest != []
      ensures Concat(blocks) + rest == old(Absorbed()) + input
    {
      var fill := profile.blockSize - length;
      Refill(Concat(blocks), buffer[..length], input, fill);
      Copy(input[..fill]);
      CompressMiddle(buffer[..]);
      length := 0;
      rest := input[fill..];
    }

    // Full blocks straight from the input, as long as more of it follows.
    method CompressInPlace(input: seq<octet>) returns (rest: seq<octet>)
      requires Chaining() && input != []
      modifies `h, `t0, `t1, `blocks
      ensures Chaining() && 0 < |rest| <= profile.blockSize
      ensures Concat(blocks) + rest == old(Concat(blocks)) + input
    {
      rest := input;
      while |rest| > profile.blockSize
        invariant Chaining() && rest != [] && Concat(blocks) + rest == old(Concat(blocks)) + input
      {
        Associates(Concat(blocks), rest[..profile.blockSize], rest[profile.blockSize..]);
        assert rest[..profile.blockSize] + rest[profile.blockSize..] == rest;
        CompressMiddle(rest[..profile.blockSize]);
        rest := rest[profile.blockSize..];
      }
    }

    method CopyOut(hash: array<octet>, digest: seq<octet>)
      requires |digest| <= hash.Length
      modifies hash
      ensures hash[..|digest|] == digest && hash[|digest|..] == old(hash[|digest|..])
    {
      forall i | 0 <= i < |digest| {
        hash[i] := digest[i];
      }
    }

    method PadBuffer()
      requires length <= profile.blockSize == buffer.Length
      modifies buffer
      ensures buffer[..] == ZeroPadded(old(buffer[..length]), profile.blockSize)
    {
      forall i | length <= i < buffer.Length {
        buffer[i] := 0;
      }
    }

    method CompressLast()
      requires Valid()
      modifies this`h, this`t0, this`t1, this`f0, this`f1, buffer
      ensures h == Finished(profile, treeMode, start, base, old(Absorbed()))
    {
      FinishedAfter(profile, treeMode, start, base, blocks, h, t0, t1, buffer[..length]);
      MarkLast();
      Count(base + |Concat(blocks)|, length);
      PadBuffer();
      Compress(buffer[..]);
    }

    method MarkLast()
      requires !f1
      modifies `f0, `f1
      ensures f0 && f1 == treeMode
    {
      f0 := true;
      if treeMode {
        f1 := true;
      }
    }

    method Update(input: seq<octet>)
      requires Valid()
      modifies this`h, this`t0, this`t1, this`blocks, this`length, buffer
      ensures Valid() && Absorbed() == old(Absorbed()) + input
    {
      var rest := input;
      if length + |rest| > profile.blockSize {
        rest := CompleteBlock(rest);
        rest := CompressInPlace(rest);
        assert buffer[..length] == [];
        assert Absorbed() == Concat(blocks);
      }
      CopyTail(rest);
    }

    method CopyTail(input: seq<octet>)
      requires Chaining() && length + |input| <= profile.blockSize && (length + |input| == 0 ==> blocks == [])
      modifies `length, buffer
      ensures Valid() && Absorbed() == old(Absorbed()) + input
    {
      Associates(Concat(blocks), buffer[..length], input);
      if input != [] {
        Copy(input);
        length := length + |input|;
      } else {
        assert Absorbed() + input == Absorbed();
      }
    }

    // The digest of the key and all that came in, cut to size, and a fresh start. A size above the digest's is
    // an error.
    method TruncatedFinal(hash: array<octet>, size: nat) returns (ok: bool)
      requires Valid() && (size <= outputSize ==> size <= hash.Length) && hash != buffer
      modifies this`h, this`t0, this`t1, this`f0, this`f1, this`length, this`start, this`base, this`blocks, buffer, hash
      ensures ok == (size <= outputSize)
      ensures ok ==> hash[..size] == profile.octets(Finished(profile, treeMode, old(start), old(base), old(Absorbed())))[..size]
      ensures ok ==> hash[size..] == old(hash[size..]) && Started()
      ensures !ok ==> Valid() && Absorbed() == old(Absorbed()) && hash[..] == old(hash[..])
    {
      ok := size <= outputSize;
      if ok {
        CompressLast();
        CopyOut(hash, profile.octets(h)[..size]);
        Restart();
      }
    }
  }

  // After a restart from its own or any other parameter block, the length of the key in it is that of the padded key:
  // the length of the key itself, as section 2.5 of RFC 7693 has it, if and only if the key fills a block or is empty.
  method RestartedKeyLength<T(!new)>(profile: Profile<T>, key: seq<octet>, size: nat, block: ParameterBlock)
    returns (hash: Hash<T>)
    requires IsProfile(profile) && size <= profile.digestSize < 256 && |key| <= profile.maxKey && profile.blockSize < 256
    ensures hash.Started() && hash.key == KeyBlock(profile, key) && hash.block.keyLength == |hash.key|
    ensures hash.block.keyLength == |key| <==> key == [] || |key| == profile.blockSize
  {
    hash := new Hash<T>.Keyed(profile, key, [], [], false, size);
    hash.RestartFrom(block, None);
  }

  // The calls of the compression function that the object makes for a message in any pieces, seen with the hash
  // whose state is the list of calls.
  method CallsInParts(hash: Hash<seq<Call>>, parts: seq<seq<octet>>)
    requires hash.Started() && hash.profile == Tracing(hash.profile.blockSize, hash.profile.wordBase)
    modifies hash, hash.buffer
    ensures AreCalls(hash.h, old(hash.key) + Concat(parts), 0, old(hash.treeMode), hash.profile.blockSize, hash.profile.wordBase)
  {
    AbsorbParts(hash, parts);
    ghost var calls := CallsMade(hash.profile.blockSize, hash.profile.wordBase, hash.treeMode, [], 0, hash.key + Concat(parts));
    hash.CompressLast();
    assert [] + calls == calls;
  }

  // For an object under a key that is not empty, the first call takes the octets of the key with zeros behind them, and
  // call i + 1 block i of the message; without a key, call i takes block i. The count includes the block of the key.
  method KeyedCallsInParts(size: nat, base: nat, key: seq<octet>, treeMode: bool, parts: seq<seq<octet>>)
    returns (calls: seq<Call>)
    requires 0 < size < base && |key| <= size
    ensures key == [] ==> AreCalls(calls, Concat(parts), 0, treeMode, size, base)
    ensures key != [] ==> AreKeyedCalls(calls, key, Concat(parts), treeMode, size, base)
  {
    var profile := Tracing(size, base);
    var hash := new Hash<seq<Call>>.Keyed(profile, key, [], [], treeMode, 0);
    CallsInParts(hash, parts);
    calls := hash.h;
    if key != [] {
      KeyInFront(calls, KeyBlock(profile, key), key, Concat(parts), treeMode, size, base);
    } else {
      assert [] + Concat(parts) == Concat(parts);
    }
  }

  // Any message in any pieces: the digest is that of the key and the whole message. Afterwards the object is as
  // it was, ready for another message.
  method DigestInParts<T(!new)>(hash: Hash<T>, parts: seq<seq<octet>>, size: nat) returns (digest: seq<octet>)
    requires hash.Started() && size <= hash.outputSize
    modifies hash, hash.buffer
    ensures digest == Digest(hash.profile, old(hash.block), old(hash.treeMode), old(hash.key), Concat(parts))[..size]
    ensures hash.Started() && hash.block == old(hash.block) && hash.treeMode == old(hash.treeMode) && hash.key == old(hash.key)
  {
    AbsorbParts(hash, parts);
    var output := new octet[size];
    var ok := hash.TruncatedFinal(output, size);
    digest := output[..size];
  }

  method AbsorbParts<T(!new)>(hash: Hash<T>, parts: seq<seq<octet>>)
    requires hash.Started()
    modifies hash`h, hash`t0, hash`t1, hash`blocks, hash`length, hash.buffer
    ensures hash.Valid() && hash.Absorbed() == hash.key + Concat(parts)
  {
    assert hash.Absorbed() == hash.key == hash.key + Concat(parts[..0]);
    for i := 0 to |parts|
      invariant hash.Valid() && hash.Absorbed() == hash.key + Concat(parts[..i])
    {
      ConcatNext(parts, i);
      Associates(hash.key, Concat(parts[..i]), parts[i]);
      hash.Update(parts[i]);
    }
    assert parts[..|parts|] == parts;
  }
}
