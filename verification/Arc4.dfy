// A cipher that combines the data with a key stream: one octet of the stream for every step of a state.
module KeyStreams {
  import opened Numbers
  import opened DigitStrings

  datatype Generator<!T> = Generator(step: T -> T, made: T -> octet)

  function XorOctet(a: octet, b: octet): octet {
    assert Pow2(8) == 256;
    XorBelow(a, b, 8);
    BitXor(a, b)
  }

  lemma XorOctetTwice(a: octet, b: octet)
    ensures XorOctet(XorOctet(a, b), b) == a
  {
    XorAssociates(a, b, b);
    XorSelf(b);
    XorZero(a);
  }

  lemma XorOctetBit(a: octet, b: octet, i: nat)
    ensures GetBit(XorOctet(a, b), i) <==> GetBit(a, i) != GetBit(b, i)
  {
    XorBits(a, b, i);
  }

  // The state after n steps.
  function After<T>(g: Generator<T>, st: T, n: nat): T
    decreases n, g
  {
    if n == 0 then st else g.step(After(g, st, n - 1))
  }

  // Octet n of the key stream.
  function StreamOctet<T>(g: Generator<T>, st: T, n: nat): octet {
    g.made(After(g, st, n))
  }

  function Stream<T>(g: Generator<T>, st: T, size: nat): (r: seq<octet>)
    ensures |r| == size
    decreases size, g
  {
    if size == 0 then [] else Stream(g, st, size - 1) + [StreamOctet(g, st, size - 1)]
  }

  // The data under the key stream.
  function Ciphered<T>(g: Generator<T>, st: T, data: seq<octet>): (r: seq<octet>)
    ensures |r| == |data|
    decreases |data|, g
  {
    if data == [] then []
    else
      var last := |data| - 1;
      Ciphered(g, st, data[..last]) + [XorOctet(data[last], StreamOctet(g, st, last))]
  }

  lemma {:induction false} AfterAdds<T>(g: Generator<T>, st: T, m: nat, n: nat)
    ensures After(g, After(g, st, m), n) == After(g, st, m + n)
    decreases n
  {
    if n > 0 {
      AfterAdds(g, st, m, n - 1);
    }
  }

  lemma StreamContinues<T>(g: Generator<T>, st: T, m: nat, i: nat)
    ensures StreamOctet(g, After(g, st, m), i) == StreamOctet(g, st, m + i)
  {
    AfterAdds(g, st, m, i);
  }

  // The key stream is the same however it is taken.
  lemma {:induction false} StreamSplits<T>(g: Generator<T>, st: T, m: nat, n: nat)
    ensures Stream(g, st, m + n) == Stream(g, st, m) + Stream(g, After(g, st, m), n)
    decreases n
  {
    if n > 0 {
      StreamSplits(g, st, m, n - 1);
      StreamContinues(g, st, m, n - 1);
    }
  }

  lemma CipheredGrows<T>(g: Generator<T>, st: T, data: seq<octet>, v: octet)
    ensures Ciphered(g, st, data + [v]) == Ciphered(g, st, data) + [XorOctet(v, StreamOctet(g, st, |data|))]
  {
    assert (data + [v])[..|data|] == data;
  }

  lemma {:induction false} CipheredSplits<T>(g: Generator<T>, st: T, a: seq<octet>, b: seq<octet>)
    ensures Ciphered(g, st, a + b) == Ciphered(g, st, a) + Ciphered(g, After(g, st, |a|), b)
    decreases |b|
  {
    if b == [] {
      assert a + b == a;
    } else {
      var last := |b| - 1;
      var rest := b[..last];
      CipheredSplits(g, st, a, rest);
      StreamContinues(g, st, |a|, last);
      CipheredGrows(g, st, a + rest, b[last]);
      CipheredGrows(g, After(g, st, |a|), rest, b[last]);
      LastMoves(a, b);
    }
  }

  lemma LastMoves(a: seq<octet>, b: seq<octet>)
    requires b != []
    ensures b[..|b| - 1] + [b[|b| - 1]] == b
    ensures (a + b[..|b| - 1]) + [b[|b| - 1]] == a + b
  {
  }

  lemma CipheredNextAt<T>(g: Generator<T>, st: T, data: seq<octet>, i: nat)
    requires i < |data|
    ensures Ciphered(g, st, data[..i + 1]) == Ciphered(g, st, data[..i]) + [XorOctet(data[i], StreamOctet(g, st, i))]
  {
    assert data[..i + 1] == data[..i] + [data[i]];
    CipheredGrows(g, st, data[..i], data[i]);
  }

  lemma {:induction false} CipheredAt<T>(g: Generator<T>, st: T, data: seq<octet>, i: nat)
    requires i < |data|
    ensures Ciphered(g, st, data)[i] == XorOctet(data[i], StreamOctet(g, st, i))
    decreases |data|
  {
    var last := |data| - 1;
    if i < last {
      CipheredAt(g, st, data[..last], i);
    }
  }

  // Those bits of the data are changed that are set in the key stream.
  lemma CipheredBits<T>(g: Generator<T>, st: T, data: seq<octet>, k: nat, i: nat)
    requires k < |data|
    ensures GetBit(Ciphered(g, st, data)[k], i) <==> GetBit(data[k], i) != GetBit(StreamOctet(g, st, k), i)
  {
    CipheredAt(g, st, data, k);
    XorOctetBit(data[k], StreamOctet(g, st, k), i);
  }

  // From the same state, the second pass takes the first one back.
  lemma CipheredTwice<T>(g: Generator<T>, st: T, data: seq<octet>)
    ensures Ciphered(g, st, Ciphered(g, st, data)) == data
  {
    var text := Ciphered(g, st, data);
    var back := Ciphered(g, st, text);
    forall i | 0 <= i < |data| ensures back[i] == data[i] {
      CipheredAt(g, st, data, i);
      CipheredAt(g, st, text, i);
      XorOctetTwice(data[i], StreamOctet(g, st, i));
    }
  }

  lemma {:induction false} StreamAt<T>(g: Generator<T>, st: T, size: nat, i: nat)
    requires i < size
    ensures Stream(g, st, size)[i] == StreamOctet(g, st, i)
    decreases size
  {
    if i < size - 1 {
      StreamAt(g, st, size - 1, i);
    }
  }

  // What a user asks of the cipher.
  datatype Request = Generate(size: nat) | Process(data: seq<octet>) | Discard(size: nat) {
    // How many octets of the key stream it takes.
    function Length(): nat {
      match this
      case Process(data) => |data|
      case _ => size
    }
  }

  function Taken(requests: seq<Request>): nat {
    if requests == [] then 0 else Taken(requests[..|requests| - 1]) + requests[|requests| - 1].Length()
  }

  // The answer to a request, made from the key stream at a place.
  ghost predicate Answers<T>(g: Generator<T>, st: T, at: nat, request: Request, answer: seq<octet>) {
    match request
    case Generate(size) => |answer| == size && forall i :: 0 <= i < size ==> answer[i] == StreamOctet(g, st, at + i)
    case Process(data) =>
      |answer| == |data| && forall i :: 0 <= i < |data| ==> answer[i] == XorOctet(data[i], StreamOctet(g, st, at + i))
    case Discard(_) => answer == []
  }

  lemma Generated<T>(g: Generator<T>, st: T, at: nat, size: nat)
    ensures Answers(g, st, at, Generate(size), Stream(g, After(g, st, at), size))
  {
    var answer := Stream(g, After(g, st, at), size);
    forall i | 0 <= i < size ensures answer[i] == StreamOctet(g, st, at + i) {
      StreamAt(g, After(g, st, at), size, i);
      StreamContinues(g, st, at, i);
    }
  }

  lemma Processed<T>(g: Generator<T>, st: T, at: nat, data: seq<octet>)
    ensures Answers(g, st, at, Process(data), Ciphered(g, After(g, st, at), data))
  {
    var answer := Ciphered(g, After(g, st, at), data);
    forall i | 0 <= i < |data| ensures answer[i] == XorOctet(data[i], StreamOctet(g, st, at + i)) {
      CipheredAt(g, After(g, st, at), data, i);
      StreamContinues(g, st, at, i);
    }
  }

  lemma TakenNext(requests: seq<Request>, i: nat)
    requires i < |requests|
    ensures Taken(requests[..i + 1]) == Taken(requests[..i]) + requests[i].Length()
  {
    assert requests[..i + 1][..i] == requests[..i];
  }

  // Where the step has an inverse, no two states ever run together.
  lemma {:induction false} AfterIsInjective<T(!new)>(g: Generator<T>, back: T -> T, a: T, b: T, n: nat)
    requires forall t :: back(g.step(t)) == t
    requires After(g, a, n) == After(g, b, n)
    ensures a == b
    decreases n
  {
    if n > 0 {
      AfterIsInjective(g, back, a, b, n - 1);
    }
  }
}

// The ARC4 stream cipher: a permutation of the octets that is stepped in place.
module Arc4 {
  import Numbers
  import opened DigitStrings
  import opened KeyStreams
  import opened Pieces

  type Table = s: seq<octet> | |s| == 256 witness seq(256, i => 0)

  datatype State = State(x: octet, y: octet, s: Table)

  // Octets are added and subtracted modulo 256.
  function Plus(a: octet, b: octet): (r: octet)
    ensures r == if a + b < 256 then a + b else a + b - 256
  {
    var sum: nat := a + b;
    sum % 256
  }

  function Minus(a: octet, b: octet): (r: octet)
    ensures r == if a >= b then a - b else a + 256 - b
  {
    var rest: nat := a + 256 - b;
    rest % 256
  }

  // No octet occurs twice, so that each occurs exactly once.
  ghost predicate IsPermutation(s: Table) {
    forall i, j :: 0 <= i < j < 256 ==> s[i] != s[j]
  }

  // The table that holds every octet at its own index.
  predicate InOrder(s: seq<octet>) {
    forall i :: 0 <= i < |s| ==> s[i] == i
  }

  ghost function Elements(s: Table, n: nat): set<octet>
    requires n <= 256
  {
    set i | 0 <= i < n :: s[i]
  }

  lemma {:induction false} ElementsCounted(s: Table, n: nat)
    requires n <= 256 && IsPermutation(s)
    ensures |Elements(s, n)| == n
    decreases n
  {
    if n > 0 {
      ElementsCounted(s, n - 1);
      assert Elements(s, n) == Elements(s, n - 1) + {s[n - 1]};
    }
  }

  function Ordered(): (s: Table)
    ensures InOrder(s)
  {
    seq(256, i requires 0 <= i < 256 => i)
  }

  lemma SubsetOfSameSize(a: set<octet>, b: set<octet>)
    requires a <= b && |a| == |b|
    ensures a == b
  {
    assert |b - a| == 0;
  }

  lemma EveryOctetOccurs(s: Table, v: octet)
    requires IsPermutation(s)
    ensures v in s
  {
    ElementsCounted(s, 256);
    ElementsCounted(Ordered(), 256);
    forall w | w in Elements(s, 256) ensures w in Elements(Ordered(), 256) {
      assert Ordered()[w] == w;
    }
    SubsetOfSameSize(Elements(s, 256), Elements(Ordered(), 256));
    assert Ordered()[v] in Elements(s, 256);
  }

  function Swapped(s: Table, i: octet, j: octet): (r: Table)
    ensures r[i] == s[j] && r[j] == s[i]
  {
    s[i := s[j]][j := s[i]]
  }

  lemma SwapTwice(s: Table, i: octet, j: octet)
    ensures Swapped(Swapped(s, i, j), i, j) == s
  {
  }

  lemma SwapPermutes(s: Table, i: octet, j: octet)
    requires IsPermutation(s)
    ensures IsPermutation(Swapped(s, i, j))
  {
  }

  // One step, and the octet of the key stream it makes.
  function Step(st: State): State {
    var y := Plus(st.y, st.s[st.x]);
    State(Plus(st.x, 1), y, Swapped(st.s, st.x, y))
  }

  function Made(st: State): octet {
    var next := Step(st);
    next.s[Plus(st.s[st.x], st.s[next.y])]
  }

  function Cipher(): Generator<State> {
    Generator(Step, Made)
  }

  // The step backwards.
  function Unstep(st: State): State {
    var x := Minus(st.x, 1);
    State(x, Minus(st.y, st.s[st.y]), Swapped(st.s, x, st.y))
  }

  lemma StepBack(st: State)
    ensures Unstep(Step(st)) == st
  {
    SwapTwice(st.s, st.x, Step(st).y);
  }

  lemma StepAgain(st: State)
    ensures Step(Unstep(st)) == st
  {
    SwapTwice(st.s, Unstep(st).x, st.y);
  }

  // Different states stay different.
  lemma NeverMeet(a: State, b: State, n: nat)
    requires After(Cipher(), a, n) == After(Cipher(), b, n)
    ensures a == b
  {
    forall st: State ensures Unstep(Cipher().step(st)) == st {
      StepBack(st);
    }
    AfterIsInjective(Cipher(), Unstep, a, b, n);
  }

  lemma {:induction false} AfterPermutes(st: State, n: nat)
    requires IsPermutation(st.s)
    ensures IsPermutation(After(Cipher(), st, n).s)
    decreases n
  {
    if n > 0 {
      AfterPermutes(st, n - 1);
      var before := After(Cipher(), st, n - 1);
      SwapPermutes(before.s, before.x, Step(before).y);
    }
  }

  // Key setup after i rounds: the index it adds to, and the table.
  datatype Schedule = Schedule(index: octet, s: Table)

  function Scheduled(key: seq<octet>, i: nat, s: Table): Schedule
    requires key != [] && i <= 256
    decreases i, key
  {
    if i == 0 then Schedule(0, s)
    else
      var before := Scheduled(key, i - 1, s);
      var index := Plus(before.index, Plus(key[(i - 1) % |key|], before.s[i - 1]));
      Schedule(index, Swapped(before.s, i - 1, index))
  }

  lemma {:induction false} ScheduledPermutes(key: seq<octet>, i: nat, s: Table)
    requires key != [] && i <= 256 && IsPermutation(s)
    ensures IsPermutation(Scheduled(key, i, s).s)
    decreases i
  {
    if i > 0 {
      ScheduledPermutes(key, i - 1, s);
      SwapPermutes(Scheduled(key, i - 1, s).s, i - 1, Scheduled(key, i, s).index);
    }
  }

  // The state that a key sets up.
  function KeyState(key: seq<octet>): State
    requires key != []
  {
    State(1, 0, Scheduled(key, 256, Ordered()).s)
  }

  lemma KeyStatePermutes(key: seq<octet>)
    requires key != []
    ensures IsPermutation(KeyState(key).s)
  {
    ScheduledPermutes(key, 256, Ordered());
  }

  // The cipher as it is published: both indices start at 0, and the first one is stepped before it is used.
  datatype Published = Published(i: octet, j: octet, s: Table) {
    function Next(): Published {
      var k: octet := (i + 1) % 256;
      var l: octet := (j + s[k]) % 256;
      Published(k, l, s[k := s[l]][l := s[k]])
    }

    function Octet(): octet {
      var a: nat, b: nat := s[i], s[j];
      s[(a + b) % 256]
    }
  }

  // The table after n rounds with the key, which is repeated as often as it takes, and the index of the last swap.
  function Stirred(key: seq<octet>, n: nat): (octet, Table)
    requires key != [] && n <= 256
    decreases n, key
  {
    if n == 0 then (0, seq(256, i requires 0 <= i < 256 => i))
    else
      var (j, s) := Stirred(key, n - 1);
      var l: octet := (j + s[n - 1] + key[(n - 1) % |key|]) % 256;
      (l, s[n - 1 := s[l]][l := s[n - 1]])
  }

  function PublishedAfter(key: seq<octet>, n: nat): Published
    requires key != []
    decreases n, key
  {
    if n == 0 then Published(0, 0, Stirred(key, 256).1) else PublishedAfter(key, n - 1).Next()
  }

  lemma {:induction false} ScheduledIsStirred(key: seq<octet>, n: nat)
    requires key != [] && n <= 256
    ensures Scheduled(key, n, Ordered()) == Schedule(Stirred(key, n).0, Stirred(key, n).1)
    decreases n
  {
    if n == 0 {
      assert Ordered() == seq(256, i requires 0 <= i < 256 => i);
    } else {
      ScheduledIsStirred(key, n - 1);
      SumOfThree(Stirred(key, n - 1).0, key[(n - 1) % |key|], Stirred(key, n - 1).1[n - 1]);
    }
  }

  lemma SumOfThree(j: octet, k: octet, a: octet)
    ensures Plus(j, Plus(k, a)) == (j + a + k) % 256
  {
  }

  // The state with the first index stepped already.
  function Ahead(p: Published): State {
    State((p.i + 1) % 256, p.j, p.s)
  }

  lemma StepIsNext(p: Published)
    ensures Step(Ahead(p)) == Ahead(p.Next()) && Made(Ahead(p)) == p.Next().Octet()
  {
  }

  lemma KeyIsStirred(key: seq<octet>)
    requires key != []
    ensures KeyState(key) == Ahead(PublishedAfter(key, 0))
  {
    ScheduledIsStirred(key, 256);
  }

  lemma {:induction false} AfterIsPublished(key: seq<octet>, n: nat)
    requires key != []
    ensures After(Cipher(), KeyState(key), n) == Ahead(PublishedAfter(key, n))
    decreases n
  {
    if n == 0 {
      KeyIsStirred(key);
    } else {
      AfterIsPublished(key, n - 1);
      StepIsNext(PublishedAfter(key, n - 1));
    }
  }

  // The key stream of the object is that of the published cipher.
  lemma StreamIsPublished(key: seq<octet>, n: nat)
    requires key != []
    ensures StreamOctet(Cipher(), KeyState(key), n) == PublishedAfter(key, n + 1).Octet()
  {
    AfterIsPublished(key, n);
    StepIsNext(PublishedAfter(key, n));
  }

  lemma NextIndex(i: nat, n: nat)
    requires n > 0
    ensures (i + 1) % n == if i % n + 1 >= n then 0 else i % n + 1
  {
    Numbers.DivFacts(i, n);
    if i % n + 1 >= n {
      Numbers.MulDistributes(i / n, 1, n);
      Numbers.DivIsUnique(i + 1, n, i / n + 1, 0);
    } else {
      Numbers.DivIsUnique(i + 1, n, i / n, i % n + 1);
    }
  }

  // Three octets added modulo 256, with one reduction.
  function PlusBoth(index: octet, k: octet, a: octet): (r: octet)
    ensures r == Plus(index, Plus(k, a))
  {
    var sum: nat := index + k + a;
    sum % 256
  }

  // One step of the cipher on a table in place.
  method MakeByte(x: octet, y: octet, s: array<octet>) returns (x1: octet, y1: octet, made: octet)
    requires s.Length == 256
    modifies s
    ensures State(x1, y1, s[..]) == Step(old(State(x, y, s[..]))) && made == Made(old(State(x, y, s[..])))
  {
    ghost var before: Table := s[..];
    var a := s[x];
    y1 := Plus(y, a);
    var b := s[y1];
    s[x] := b;
    s[y1] := a;
    x1 := Plus(x, 1);
    made := s[Plus(a, b)];
    assert s[..] == Swapped(before, x, y1);
  }

  // The step after n others, and the octet of the stream it makes.
  method MakeNext(x: octet, y: octet, s: array<octet>, ghost start: State, ghost n: nat)
    returns (x1: octet, y1: octet, made: octet)
    requires s.Length == 256 && State(x, y, s[..]) == After(Cipher(), start, n)
    modifies s
    ensures State(x1, y1, s[..]) == After(Cipher(), start, n + 1) && made == StreamOctet(Cipher(), start, n)
  {
    x1, y1, made := MakeByte(x, y, s);
  }

  method MakeAndDrop(x0: octet, y0: octet, s: array<octet>, length: nat) returns (x: octet, y: octet)
    requires s.Length == 256
    modifies s
    ensures State(x, y, s[..]) == After(Cipher(), old(State(x0, y0, s[..])), length)
  {
    ghost var start := State(x0, y0, s[..]);
    x, y := x0, y0;
    for i := 0 to length
      invariant State(x, y, s[..]) == After(Cipher(), start, i)
    {
      var made;
      x, y, made := MakeNext(x, y, s, start, i);
    }
  }

  // One more of the octets in front.
  lemma Overwrites(a: seq<octet>, v: octet, before: seq<octet>)
    requires |a| < |before|
    ensures (a + [v]) + before[|a| + 1..] == (a + before[|a|..])[|a| := v]
  {
  }

  method MakeStream(x0: octet, y0: octet, s: array<octet>, output: array<octet>, size: nat) returns (x: octet, y: octet)
    requires s.Length == 256 && size <= output.Length && output != s
    modifies s, output
    ensures State(x, y, s[..]) == After(Cipher(), old(State(x0, y0, s[..])), size)
    ensures output[..size] == Stream(Cipher(), old(State(x0, y0, s[..])), size)
    ensures output[size..] == old(output[size..])
  {
    ghost var start := State(x0, y0, s[..]);
    ghost var before := output[..];
    x, y := x0, y0;
    for i := 0 to size
      invariant State(x, y, s[..]) == After(Cipher(), start, i)
      invariant output[..] == Stream(Cipher(), start, i) + before[i..]
    {
      Overwrites(Stream(Cipher(), start, i), StreamOctet(Cipher(), start, i), before);
      var made;
      x, y, made := MakeNext(x, y, s, start, i);
      output[i] := made;
    }
  }

  // What a buffer holds once i octets are ciphered, of those in clear.
  ghost function Partly(start: State, clear: seq<octet>, before: seq<octet>, i: nat): seq<octet>
    requires i <= |clear| && i <= |before|
  {
    Ciphered(Cipher(), start, clear[..i]) + before[i..]
  }

  lemma PartlyNext(start: State, clear: seq<octet>, before: seq<octet>, i: nat)
    requires i < |clear| && i < |before|
    ensures Partly(start, clear, before, i + 1)
         == Partly(start, clear, before, i)[i := XorOctet(clear[i], StreamOctet(Cipher(), start, i))]
  {
    CipheredNextAt(Cipher(), start, clear, i);
    Overwrites(Ciphered(Cipher(), start, clear[..i]), XorOctet(clear[i], StreamOctet(Cipher(), start, i)), before);
  }

  // Octet i of the data, ciphered.
  method CipherNext(x0: octet, y0: octet, s: array<octet>, outString: array<octet>, data: octet, i: nat,
                    ghost start: State, ghost clear: seq<octet>, ghost before: seq<octet>)
    returns (x: octet, y: octet)
    requires s.Length == 256 && outString != s && i < |clear| && i < |before| && data == clear[i]
    requires State(x0, y0, s[..]) == After(Cipher(), start, i) && outString[..] == Partly(start, clear, before, i)
    modifies s, outString
    ensures State(x, y, s[..]) == After(Cipher(), start, i + 1)
    ensures outString[..] == Partly(start, clear, before, i + 1)
  {
    PartlyNext(start, clear, before, i);
    var made;
    x, y, made := MakeNext(x0, y0, s, start, i);
    outString[i] := XorOctet(data, made);
  }

  // Data that is ciphered where it lies.
  method CipherInPlace(x0: octet, y0: octet, s: array<octet>, data: array<octet>, length: nat) returns (x: octet, y: octet)
    requires s.Length == 256 && length <= data.Length && data != s
    modifies s, data
    ensures State(x, y, s[..]) == After(Cipher(), old(State(x0, y0, s[..])), length)
    ensures data[..] == Partly(old(State(x0, y0, s[..])), old(data[..]), old(data[..]), length)
  {
    ghost var start := State(x0, y0, s[..]);
    ghost var clear := data[..];
    x, y := x0, y0;
    for i := 0 to length
      invariant State(x, y, s[..]) == After(Cipher(), start, i) && data[..] == Partly(start, clear, clear, i)
    {
      assert data[i] == clear[i];
      x, y := CipherNext(x, y, s, data, data[i], i, start, clear, clear);
    }
  }

  // Data that is ciphered from one place to another.
  method CipherInto(x0: octet, y0: octet, s: array<octet>, outString: array<octet>, inString: array<octet>, length: nat)
    returns (x: octet, y: octet)
    requires s.Length == 256 && length <= inString.Length && length <= outString.Length
    requires outString != s && inString != s && outString != inString
    modifies s, outString
    ensures State(x, y, s[..]) == After(Cipher(), old(State(x0, y0, s[..])), length)
    ensures outString[..] == Partly(old(State(x0, y0, s[..])), inString[..], old(outString[..]), length)
  {
    ghost var start := State(x0, y0, s[..]);
    ghost var clear := inString[..];
    ghost var before := outString[..];
    x, y := x0, y0;
    for i := 0 to length
      invariant State(x, y, s[..]) == After(Cipher(), start, i) && outString[..] == Partly(start, clear, before, i)
    {
      x, y := CipherNext(x, y, s, outString, inString[i], i, start, clear, before);
    }
  }

  class Base {
    const state: array<octet>
    var x: octet
    var y: octet

    ghost predicate Valid()
      reads state
    {
      state.Length == 256 && IsPermutation(state[..])
    }

    ghost function Now(): State
      requires state.Length == 256
      reads this, state
    {
      State(x, y, state[..])
    }

    constructor ()
      ensures fresh(state) && state.Length == 256
    {
      state := new octet[256];
      x, y := 0, 0;
    }

    // A key of no octets or of more than 256 is an error.
    method UncheckedSetKey(key: seq<octet>, discardBytes: nat) returns (ok: bool)
      requires state.Length == 256
      modifies this, state
      ensures ok == (1 <= |key| <= 256)
      ensures ok ==> Valid() && Now() == After(Cipher(), KeyState(key), discardBytes)
      ensures !ok ==> Now() == old(Now())
    {
      ok := 1 <= |key| <= 256;
      if !ok {
        return;
      }
      x, y := 1, 0;
      for i := 0 to 256
        invariant x == 1 && y == 0 && forall k :: 0 <= k < i ==> state[k] == k
      {
        state[i] := i;
      }
      assert state[..] == Ordered();
      MixKey(key);
      KeyStatePermutes(key);
      DiscardBytes(discardBytes);
    }

    // The octets of the key, over and over, stir the table.
    method MixKey(key: seq<octet>)
      requires state.Length == 256 && key != [] && state[..] == Ordered()
      modifies state
      ensures state[..] == Scheduled(key, 256, Ordered()).s
    {
      var keyIndex: nat, stateIndex: octet := 0, 0;
      for i := 0 to 256
        invariant keyIndex == i % |key|
        invariant Schedule(stateIndex, state[..]) == Scheduled(key, i, Ordered())
      {
        ghost var before: Table := state[..];
        var a := state[i];
        stateIndex := PlusBoth(stateIndex, key[keyIndex], a);
        state[i] := state[stateIndex];
        state[stateIndex] := a;
        assert state[..] == Swapped(before, i, stateIndex);
        NextIndex(i, |key|);
        keyIndex := keyIndex + 1;
        if keyIndex >= |key| {
          keyIndex := 0;
        }
      }
    }

    method GenerateBlock(output: array<octet>, size: nat)
      requires Valid() && size <= output.Length && output != state
      modifies this, state, output
      ensures Valid() && Now() == After(Cipher(), old(Now()), size)
      ensures output[..size] == Stream(Cipher(), old(Now()), size) && output[size..] == old(output[size..])
    {
      AfterPermutes(Now(), size);
      x, y := MakeStream(x, y, state, output, size);
    }

    // The output may be the input itself.
    method ProcessData(outString: array<octet>, inString: array<octet>, length: nat)
      requires Valid() && length <= inString.Length && length <= outString.Length
      requires outString != state && inString != state
      modifies this, state, outString
      ensures Valid() && Now() == After(Cipher(), old(Now()), length)
      ensures outString[..length] == Ciphered(Cipher(), old(Now()), old(inString[..length]))
      ensures outString[length..] == old(outString[length..])
    {
      AfterPermutes(Now(), length);
      assert inString[..][..length] == inString[..length];
      if inString == outString {
        x, y := CipherInPlace(x, y, state, outString, length);
      } else {
        x, y := CipherInto(x, y, state, outString, inString, length);
      }
    }

    method DiscardBytes(length: nat)
      requires Valid()
      modifies this, state
      ensures Valid() && Now() == After(Cipher(), old(Now()), length)
    {
      if length == 0 {
        return;
      }
      AfterPermutes(Now(), length);
      x, y := MakeAndDrop(x, y, state, length);
    }
  }

  method Answer(cipher: Base, request: Request, ghost start: State, ghost at: nat) returns (answer: seq<octet>)
    requires cipher.Valid() && cipher.Now() == After(Cipher(), start, at)
    modifies cipher, cipher.state
    ensures cipher.Valid() && cipher.Now() == After(Cipher(), start, at + request.Length())
    ensures Answers(Cipher(), start, at, request, answer)
  {
    AfterAdds(Cipher(), start, at, request.Length());
    match request
    case Generate(size) =>
      Generated(Cipher(), start, at, size);
      var output := new octet[size];
      cipher.GenerateBlock(output, size);
      answer := output[..size];
    case Process(data) =>
      Processed(Cipher(), start, at, data);
      answer := ProcessString(cipher, data);
    case Discard(size) =>
      cipher.DiscardBytes(size);
      answer := [];
  }

  method ProcessString(cipher: Base, data: seq<octet>) returns (text: seq<octet>)
    requires cipher.Valid()
    modifies cipher, cipher.state
    ensures cipher.Valid() && cipher.Now() == After(Cipher(), old(cipher.Now()), |data|)
    ensures text == Ciphered(Cipher(), old(cipher.Now()), data)
  {
    var buffer := new octet[|data|](i requires 0 <= i < |data| => data[i]);
    assert buffer[..|data|] == data;
    cipher.ProcessData(buffer, buffer, |data|);
    text := buffer[..|data|];
  }

  // The first answers, each made from the part of the key stream that is its own.
  ghost predicate Served(start: State, requests: seq<Request>, answers: seq<seq<octet>>) {
    |answers| <= |requests| &&
    forall i :: 0 <= i < |answers| ==> Answers(Cipher(), start, Taken(requests[..i]), requests[i], answers[i])
  }

  lemma ServedNext(start: State, requests: seq<Request>, answers: seq<seq<octet>>, answer: seq<octet>)
    requires |answers| < |requests| && Served(start, requests, answers)
    requires Answers(Cipher(), start, Taken(requests[..|answers|]), requests[|answers|], answer)
    ensures Served(start, requests, answers + [answer])
  {
  }

  method ServeNext(cipher: Base, requests: seq<Request>, i: nat, ghost start: State) returns (answer: seq<octet>)
    requires i < |requests| && cipher.Valid() && cipher.Now() == After(Cipher(), start, Taken(requests[..i]))
    modifies cipher, cipher.state
    ensures Answers(Cipher(), start, Taken(requests[..i]), requests[i], answer)
    ensures cipher.Valid() && cipher.Now() == After(Cipher(), start, Taken(requests[..i + 1]))
  {
    TakenNext(requests, i);
    answer := Answer(cipher, requests[i], start, Taken(requests[..i]));
  }

  method ServeMore(cipher: Base, requests: seq<Request>, answers: seq<seq<octet>>, ghost start: State)
    returns (more: seq<seq<octet>>)
    requires |answers| < |requests| && Served(start, requests, answers)
    requires cipher.Valid() && cipher.Now() == After(Cipher(), start, Taken(requests[..|answers|]))
    modifies cipher, cipher.state
    ensures |more| == |answers| + 1 && Served(start, requests, more)
    ensures cipher.Valid() && cipher.Now() == After(Cipher(), start, Taken(requests[..|more|]))
  {
    var answer := ServeNext(cipher, requests, |answers|, start);
    ServedNext(start, requests, answers, answer);
    more := answers + [answer];
  }

  // However the calls are mixed, every octet of the one key stream is used in its turn.
  method Serve(cipher: Base, requests: seq<Request>) returns (answers: seq<seq<octet>>)
    requires cipher.Valid()
    modifies cipher, cipher.state
    ensures |answers| == |requests| && Served(old(cipher.Now()), requests, answers)
    ensures cipher.Valid() && cipher.Now() == After(Cipher(), old(cipher.Now()), Taken(requests))
  {
    ghost var start := cipher.Now();
    answers := [];
    while |answers| < |requests|
      invariant |answers| <= |requests| && Served(start, requests, answers)
      invariant cipher.Valid() && cipher.Now() == After(Cipher(), start, Taken(requests[..|answers|]))
      decreases |requests| - |answers|
    {
      answers := ServeMore(cipher, requests, answers, start);
    }
    assert requests[..|requests|] == requests;
  }

  lemma CipheredNext<T>(g: Generator<T>, st: T, parts: seq<seq<octet>>, i: nat)
    requires i < |parts|
    ensures Concat(parts[..i + 1]) == Concat(parts[..i]) + parts[i]
    ensures After(g, After(g, st, |Concat(parts[..i])|), |parts[i]|) == After(g, st, |Concat(parts[..i + 1])|)
    ensures Ciphered(g, st, Concat(parts[..i + 1]))
         == Ciphered(g, st, Concat(parts[..i])) + Ciphered(g, After(g, st, |Concat(parts[..i])|), parts[i])
  {
    ConcatNext(parts, i);
    AfterAdds(g, st, |Concat(parts[..i])|, |parts[i]|);
    CipheredSplits(g, st, Concat(parts[..i]), parts[i]);
  }

  method ProcessNext(cipher: Base, parts: seq<seq<octet>>, i: nat, text: seq<octet>, ghost start: State)
    returns (next: seq<octet>)
    requires i < |parts| && cipher.Valid() && cipher.Now() == After(Cipher(), start, |Concat(parts[..i])|)
    requires text == Ciphered(Cipher(), start, Concat(parts[..i]))
    modifies cipher, cipher.state
    ensures cipher.Valid() && cipher.Now() == After(Cipher(), start, |Concat(parts[..i + 1])|)
    ensures next == Ciphered(Cipher(), start, Concat(parts[..i + 1]))
  {
    CipheredNext(Cipher(), start, parts, i);
    var part := ProcessString(cipher, parts[i]);
    next := text + part;
  }

  // Data in any pieces, processed from the state that the key sets up.
  method ProcessParts(key: seq<octet>, discardBytes: nat, parts: seq<seq<octet>>) returns (text: seq<octet>)
    requires 1 <= |key| <= 256
    ensures text == Ciphered(Cipher(), After(Cipher(), KeyState(key), discardBytes), Concat(parts))
  {
    var cipher := new Base();
    var ok := cipher.UncheckedSetKey(key, discardBytes);
    text := ProcessAll(cipher, parts);
  }

  method ProcessAll(cipher: Base, parts: seq<seq<octet>>) returns (text: seq<octet>)
    requires cipher.Valid()
    modifies cipher, cipher.state
    ensures cipher.Valid() && text == Ciphered(Cipher(), old(cipher.Now()), Concat(parts))
  {
    ghost var start := cipher.Now();
    text := [];
    for i := 0 to |parts|
      invariant cipher.Valid() && cipher.Now() == After(Cipher(), start, |Concat(parts[..i])|)
      invariant text == Ciphered(Cipher(), start, Concat(parts[..i]))
    {
      text := ProcessNext(cipher, parts, i, text, start);
    }
    assert parts[..|parts|] == parts;
  }

  // Processing again under the same key, in pieces cut in any other way, restores the data.
  method RoundTripInParts(key: seq<octet>, discardBytes: nat, parts: seq<seq<octet>>, cut: seq<octet> -> seq<seq<octet>>)
    returns (data: seq<octet>)
    requires 1 <= |key| <= 256 && forall s :: Concat(cut(s)) == s
    ensures data == Concat(parts)
  {
    var text := ProcessParts(key, discardBytes, parts);
    data := ProcessParts(key, discardBytes, cut(text));
    CipheredTwice(Cipher(), After(Cipher(), KeyState(key), discardBytes), Concat(parts));
  }
}
