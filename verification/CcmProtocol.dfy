// The CCM protocol as a function of the calls alone: what any sequence of calls, refused ones included, leads to.

module CcmProtocol {
  import Numbers
  import opened Blocks
  import opened Ccm
  import opened CcmFormat
  import opened Wrappers

  datatype Call =
    | Resynchronize(iv: seq<byte>)
    | Specify(headerLength: nat, messageLength: nat)
    | Update(input: seq<byte>)
    | Process(input: seq<byte>)
    | Final(macSize: nat)
    | Verify(digest: seq<byte>)
  {
    // What the types of the source and its buffers demand.
    predicate Fits() {
      match this
      case Specify(headerLength, messageLength) => headerLength < WORD && messageLength < WORD
      case Final(macSize) => macSize <= SIZE
      case _ => true
    }

    predicate AsksForTag() {
      Final? || Verify?
    }
  }

  datatype Setting = Setting(digestSize: nat, isEncryption: bool)

  // What can be seen of a run since the last Resynchronize. The data is what ProcessData took, the cipher text when
  // decrypting; the refused bytes are those it counted and did not take.
  datatype View = View(state: State, nonce: seq<byte>, lengthSize: nat, aadLength: nat, messageLength: nat,
    header: seq<byte>, data: seq<byte>, footer: seq<byte>, refused: nat, specified: Specified, lastBlocks: seq<LastBlock>)

  // Before the first call.
  function Start(): View {
    View(KeySet, [], 8, 0, 0, [], [], [], 0, NotYet, [])
  }

  // The total length of the message that the object counts.
  function Total(v: View): nat {
    Wrapped(|v.data| + v.refused)
  }

  // How a call is refused, if it is.
  function Refusal(m: Setting, v: View, call: Call): Option<Error> {
    match call
    case Resynchronize(iv) => if NonceFits(iv) then None else Some(InvalidArgument)
    case Specify(_, messageLength) =>
      if messageLength > MaxLength(v.lengthSize) then Some(InvalidArgument) else if v.state != IvSet then Some(BadState) else None
    case Update(input) => if input == [] then None else UpdateRefusal(v)
    case Process(input) => ProcessRefusal(v, |input|)
    case Final(_) => TagRefusal(v)
    case Verify(digest) => if |digest| > m.digestSize then Some(InvalidArgument) else TagRefusal(v)
  }

  function UpdateRefusal(v: View): Option<Error> {
    match v.state
    case KeySet => Some(BadState)
    case IvSet => None
    case AuthFooter => None
    case _ => if v.messageLength == Total(v) then None else Some(InvalidArgument)
  }

  function ProcessRefusal(v: View, length: nat): Option<Error> {
    if v.state != KeySet && Wrapped(Total(v) + length) > MaxLength(v.lengthSize) then Some(InvalidArgument)
    else
      match v.state
      case KeySet => Some(BadState)
      case AuthFooter => Some(BadState)
      case IvSet => if v.aadLength == |v.header| then None else Some(InvalidArgument)
      case _ => None
  }

  function TagRefusal(v: View): Option<Error> {
    if |v.header| > MAX_HEADER_LENGTH || v.footer != [] then Some(InvalidArgument)
    else
      match v.state
      case KeySet => Some(BadState)
      case IvSet => if v.aadLength == |v.header| && v.messageLength == Total(v) then None else Some(InvalidArgument)
      case AuthFooter => None
      case _ => if v.messageLength == Total(v) then None else Some(InvalidArgument)
  }

  // A call that asks for a tag with the header complete, no footer, and the message count wrong.
  predicate AsksEarly(m: Setting, v: View, call: Call) {
    && call.AsksForTag() && (call.Verify? ==> |call.digest| <= m.digestSize)
    && |v.header| <= MAX_HEADER_LENGTH && v.footer == []
    && v.state == IvSet && v.aadLength == |v.header| && v.messageLength != Total(v)
  }

  // What a call leads to.
  function Step(m: Setting, v: View, call: Call): View {
    var accepted := Refusal(m, v, call) == None;
    match call
    case Resynchronize(iv) => NewView(v, iv)
    case Specify(headerLength, messageLength) =>
      if accepted then
        v.(aadLength := headerLength, messageLength := messageLength, specified := Given(v.specified, true))
      else v
    case Update(input) => if accepted && input != [] then WithUpdate(v, input) else v
    case Process(input) => if accepted then WithData(m, v, input) else v.(refused := v.refused + |input|)
    case _ => if accepted then WithTag(v) else if AsksEarly(m, v, call) then WithHeaderClosed(v) else v
  }

  function NewView(v: View, iv: seq<byte>): View {
    if NonceFits(iv) then View(IvSet, iv, 15 - |iv|, 0, 0, [], [], [], 0, NotYet, [])
    else View(KeySet, iv, v.lengthSize, v.aadLength, v.messageLength, [], [], [], 0, NotYet, [])
  }

  function WithUpdate(v: View, input: seq<byte>): View {
    match v.state
    case IvSet => v.(header := v.header + input, specified := Begun(v.specified))
    case AuthFooter => v.(footer := v.footer + input)
    case _ => v.(state := AuthFooter, footer := v.footer + input, lastBlocks := v.lastBlocks + [LastConfidentialBlock])
  }

  function WithData(m: Setting, v: View, input: seq<byte>): View {
    var begun := if v.state == IvSet then WithHeaderClosed(v) else v;
    begun.(state := if m.isEncryption then AuthUntransformed else AuthTransformed, data := v.data + input)
  }

  function WithHeaderClosed(v: View): View {
    v.(lastBlocks := v.lastBlocks + [LastHeaderBlock], specified := Begun(v.specified))
  }

  function WithTag(v: View): View {
    v.(state := KeySet, lastBlocks := v.lastBlocks + Due(v.state), specified := Begun(v.specified))
  }

  // The last blocks that a tag still needs.
  function Due(state: State): seq<LastBlock> {
    match state
    case IvSet => [LastHeaderBlock, LastConfidentialBlock, LastFooterBlock]
    case AuthFooter => [LastFooterBlock]
    case _ => [LastConfidentialBlock, LastFooterBlock]
  }

  // What calls on a new object lead to.
  function Ran(m: Setting, calls: seq<Call>): View {
    if calls == [] then Start() else Step(m, Ran(m, calls[..|calls| - 1]), calls[|calls| - 1])
  }

  // How many of the calls since the last Resynchronize asked for a tag too early.
  function EarlyCalls(m: Setting, calls: seq<Call>): nat {
    if calls == [] || calls[|calls| - 1].Resynchronize? then 0
    else
      var before := calls[..|calls| - 1];
      EarlyCalls(m, before) + if AsksEarly(m, Ran(m, before), calls[|calls| - 1]) then 1 else 0
  }

  function HeaderEnds(n: nat): (ends: seq<LastBlock>)
    ensures |ends| == n
  {
    if n == 0 then [] else HeaderEnds(n - 1) + [LastHeaderBlock]
  }

  // The last blocks are determined by the state and that number.
  ghost predicate PhaseIs(m: Setting, v: View, early: nat) {
    match v.state
    case KeySet => v.lastBlocks == ForTag(HeaderEnds(early)) || (v.lastBlocks == [] && early == 0)
    case IvSet => v.lastBlocks == HeaderEnds(early) && v.data == [] && v.footer == []
    case AuthUntransformed => v.lastBlocks == HeaderEnds(early + 1) && v.footer == [] && m.isEncryption
    case AuthTransformed => v.lastBlocks == HeaderEnds(early + 1) && v.footer == [] && !m.isEncryption
    case AuthFooter => v.lastBlocks == HeaderEnds(early) + [LastHeaderBlock, LastConfidentialBlock] && v.footer != []
  }

  lemma StepKeepsPhase(m: Setting, v: View, call: Call, early: nat)
    requires PhaseIs(m, v, early)
    ensures var next := if call.Resynchronize? then 0 else early + if AsksEarly(m, v, call) then 1 else 0;
            PhaseIs(m, Step(m, v, call), next)
  {
    ForTagInParts(HeaderEnds(early));
  }

  lemma {:induction false} RanKeepsPhase(m: Setting, calls: seq<Call>)
    ensures PhaseIs(m, Ran(m, calls), EarlyCalls(m, calls))
  {
    if calls != [] {
      RanKeepsPhase(m, calls[..|calls| - 1]);
      StepKeepsPhase(m, Ran(m, calls[..|calls| - 1]), calls[|calls| - 1], EarlyCalls(m, calls[..|calls| - 1]));
    }
  }

  // A tag comes with one of each last block, in order, if and only if none was asked for too early.
  lemma OneOfEachExactly(m: Setting, calls: seq<Call>)
    requires Ran(m, calls).state == KeySet && Ran(m, calls).lastBlocks != []
    ensures Ran(m, calls).lastBlocks == [LastHeaderBlock, LastConfidentialBlock, LastFooterBlock] <==> EarlyCalls(m, calls) == 0
  {
    RanKeepsPhase(m, calls);
    OneOfEach(HeaderEnds(EarlyCalls(m, calls)));
  }

  // After the nonce, the view has a message length that fits and, without lengths, none; a footer phase has a footer.
  ghost predicate Sound(v: View) {
    && 2 <= v.lengthSize <= 8
    && (v.state != KeySet ==> NonceFits(v.nonce) && v.lengthSize == 15 - |v.nonce| && v.messageLength <= MaxLength(v.lengthSize))
    && (v.state != KeySet && (v.specified == NotYet || v.specified == Without) ==> v.aadLength == v.messageLength == 0)
    && (v.state == AuthFooter ==> v.footer != [])
  }

  lemma {:induction false} RanIsSound(m: Setting, calls: seq<Call>)
    ensures Sound(Ran(m, calls))
  {
    if calls != [] {
      RanIsSound(m, calls[..|calls| - 1]);
    }
  }

  // Wherever a tag is given, the announced blocks are those of the message, unless that is too long, if and only if the
  // bytes refused since the last Resynchronize come to a multiple of 2^64.
  lemma RightBlocks(m: Setting, v: View, call: Call, plain: seq<byte>)
    requires 4 <= m.digestSize <= 16 && call.AsksForTag() && Sound(v) && Refusal(m, v, call) == None
    requires |plain| == |v.data| <= MaxLength(v.lengthSize)
    ensures NonceFits(v.nonce)
    ensures BlocksAnnouncing(v.nonce, v.header, v.messageLength, plain, m.digestSize)
         == AuthenticatedBlocks(v.nonce, v.header, plain, m.digestSize)
       <==> Wrapped(v.refused) == 0
  {
    RefusedBytesShow(v.nonce, v.header, v.messageLength, plain, v.refused, m.digestSize);
  }

  lemma RightBlocksExactly(m: Setting, calls: seq<Call>, call: Call, plain: seq<byte>)
    requires 4 <= m.digestSize <= 16 && call.AsksForTag() && Refusal(m, Ran(m, calls), call) == None
    requires |plain| == |Ran(m, calls).data| <= MaxLength(Ran(m, calls).lengthSize)
    ensures var v := Ran(m, calls);
            && NonceFits(v.nonce)
            && (BlocksAnnouncing(v.nonce, v.header, v.messageLength, plain, m.digestSize)
                == AuthenticatedBlocks(v.nonce, v.header, plain, m.digestSize)
                <==> Wrapped(v.refused) == 0)
  {
    RanIsSound(m, calls);
    RightBlocks(m, Ran(m, calls), call, plain);
  }

  // A tag without any lengths is given for no header and a count of 0 only.
  lemma TagWithoutLengths(m: Setting, calls: seq<Call>, call: Call)
    requires call.AsksForTag() && Refusal(m, Ran(m, calls), call) == None
    requires Ran(m, calls).specified == NotYet || Ran(m, calls).specified == Without
    ensures Total(Ran(m, calls)) == 0 && (Ran(m, calls).state == IvSet ==> Ran(m, calls).header == [])
  {
    RanIsSound(m, calls);
    RanKeepsPhase(m, calls);
  }

  ghost predicate NoRestart(calls: seq<Call>) {
    forall i :: 0 <= i < |calls| ==> !calls[i].Resynchronize?
  }

  lemma KeySetStays(m: Setting, v: View, call: Call)
    requires v.state == KeySet && !call.Resynchronize?
    ensures Step(m, v, call) == v.(refused := Step(m, v, call).refused)
    ensures Refusal(m, v, call) == None ==> call == Update([])
  {
  }

  // After a tag, or before the first nonce, nothing is accepted but the next Resynchronize, and an Update with nothing.
  lemma {:induction false} NothingAfterTag(m: Setting, calls: seq<Call>, more: seq<Call>)
    requires Ran(m, calls).state == KeySet && NoRestart(more)
    ensures Ran(m, calls + more) == Ran(m, calls).(refused := Ran(m, calls + more).refused)
    ensures more != [] && Refusal(m, Ran(m, (calls + more)[..|calls + more| - 1]), more[|more| - 1]) == None
      ==> more[|more| - 1] == Update([])
    decreases |more|
  {
    if more == [] {
      assert calls + more == calls;
    } else {
      var init, last := more[..|more| - 1], more[|more| - 1];
      assert (calls + more)[..|calls + more| - 1] == calls + init;
      NothingAfterTag(m, calls, init);
      KeySetStays(m, Ran(m, calls + init), last);
    }
  }

  datatype Part = HeaderPart | MessagePart | FooterPart

  function Rank(part: Part): nat {
    match part
    case HeaderPart => 0
    case MessagePart => 1
    case FooterPart => 2
  }

  // What a call is accepted as.
  function PartOf(m: Setting, v: View, call: Call): seq<Part> {
    if Refusal(m, v, call) != None then []
    else
      match call
      case Update(input) => if input == [] then [] else if v.state == IvSet then [HeaderPart] else [FooterPart]
      case Process(_) => [MessagePart]
      case _ => []
  }

  // What the calls since the last Resynchronize were accepted as.
  function Parts(m: Setting, calls: seq<Call>): seq<Part> {
    if calls == [] || calls[|calls| - 1].Resynchronize? then []
    else Parts(m, calls[..|calls| - 1]) + PartOf(m, Ran(m, calls[..|calls| - 1]), calls[|calls| - 1])
  }

  ghost predicate InOrder(parts: seq<Part>) {
    forall i, j :: 0 <= i < j < |parts| ==> Rank(parts[i]) <= Rank(parts[j])
  }

  // How far the parts can have come in a state.
  function Furthest(state: State): nat {
    match state
    case IvSet => 0
    case AuthUntransformed => 1
    case AuthTransformed => 1
    case _ => 2
  }

  ghost predicate NoneBeyond(parts: seq<Part>, furthest: nat) {
    forall i :: 0 <= i < |parts| ==> Rank(parts[i]) <= furthest
  }

  // A part that is accepted is as far as the state has come then.
  lemma StepKeepsOrder(m: Setting, v: View, call: Call)
    requires !call.Resynchronize?
    ensures Furthest(v.state) <= Furthest(Step(m, v, call).state)
    ensures var part := PartOf(m, v, call);
            |part| <= 1 && (part != [] ==> Furthest(v.state) <= Rank(part[0]) <= Furthest(Step(m, v, call).state))
  {
  }

  lemma OneMorePart(parts: seq<Part>, furthest: nat, part: seq<Part>, next: nat)
    requires InOrder(parts) && NoneBeyond(parts, furthest) && furthest <= next
    requires |part| <= 1 && (part != [] ==> furthest <= Rank(part[0]) <= next)
    ensures InOrder(parts + part) && NoneBeyond(parts + part, next)
  {
  }

  // Header, message and footer come in this order.
  lemma {:induction false} PartsInOrder(m: Setting, calls: seq<Call>)
    ensures InOrder(Parts(m, calls)) && NoneBeyond(Parts(m, calls), Furthest(Ran(m, calls).state))
  {
    if calls != [] && !calls[|calls| - 1].Resynchronize? {
      var before, call := calls[..|calls| - 1], calls[|calls| - 1];
      var v := Ran(m, before);
      PartsInOrder(m, before);
      StepKeepsOrder(m, v, call);
      OneMorePart(Parts(m, before), Furthest(v.state), PartOf(m, v, call), Furthest(Step(m, v, call).state));
    }
  }

  lemma RanOneMore(m: Setting, calls: seq<Call>, call: Call)
    ensures Ran(m, calls + [call]) == Step(m, Ran(m, calls), call)
    ensures EarlyCalls(m, calls + [call])
         == if call.Resynchronize? then 0 else EarlyCalls(m, calls) + if AsksEarly(m, Ran(m, calls), call) then 1 else 0
  {
    assert (calls + [call])[..|calls|] == calls;
  }

  // The start of a run with its lengths.
  function Begin(iv: seq<byte>, headerLength: nat, messageLength: nat): seq<Call> {
    [Resynchronize(iv)] + [Specify(headerLength, messageLength)]
  }

  lemma Begins(m: Setting, iv: seq<byte>, headerLength: nat, messageLength: nat)
    requires NonceFits(iv) && messageLength <= 10
    ensures EarlyCalls(m, Begin(iv, headerLength, messageLength)) == 0
    ensures Ran(m, Begin(iv, headerLength, messageLength))
         == View(IvSet, iv, 15 - |iv|, headerLength, messageLength, [], [], [], 0, BeforeData, [])
  {
    assert [] + [Resynchronize(iv)] == [Resynchronize(iv)];
    RanTo(m, [], Start(), Resynchronize(iv), NewView(Start(), iv));
    LengthsTaken(m, NewView(Start(), iv), headerLength, messageLength);
    RanOneMore(m, [Resynchronize(iv)], Specify(headerLength, messageLength));
  }

  lemma LengthsTaken(m: Setting, v: View, headerLength: nat, messageLength: nat)
    requires v.state == IvSet && v.specified == NotYet && 2 <= v.lengthSize <= 8 && messageLength <= 10
    ensures Step(m, v, Specify(headerLength, messageLength))
         == v.(aadLength := headerLength, messageLength := messageLength, specified := BeforeData)
  {
    RoomForMessage(v.lengthSize);
  }

  lemma RanTo(m: Setting, calls: seq<Call>, v: View, call: Call, next: View)
    requires Ran(m, calls) == v && Step(m, v, call) == next
    ensures Ran(m, calls + [call]) == next
  {
    RanOneMore(m, calls, call);
  }

  lemma RanTwo(m: Setting, calls: seq<Call>, v: View, first: Call, middle: View, second: Call, next: View)
    requires Ran(m, calls) == v && Step(m, v, first) == middle && Step(m, middle, second) == next
    ensures Ran(m, calls + [first] + [second]) == next
  {
    RanTo(m, calls, v, first, middle);
    RanTo(m, calls + [first], middle, second, next);
  }

  lemma ClosedEarly(m: Setting, iv: seq<byte>)
    requires NonceFits(iv)
    ensures EarlyCalls(m, Begin(iv, 0, 1) + [Final(SIZE)]) == 1
    ensures Ran(m, Begin(iv, 0, 1) + [Final(SIZE)])
         == View(IvSet, iv, 15 - |iv|, 0, 1, [], [], [], 0, BeforeData, [LastHeaderBlock])
  {
    Begins(m, iv, 0, 1);
    RanOneMore(m, Begin(iv, 0, 1), Final(SIZE));
  }

  lemma NotEarly(m: Setting, calls: seq<Call>, v: View, call: Call)
    requires Ran(m, calls) == v && !AsksEarly(m, v, call) && !call.Resynchronize?
    ensures EarlyCalls(m, calls + [call]) == EarlyCalls(m, calls)
  {
    RanOneMore(m, calls, call);
  }

  // A run in which the header is closed twice: a tag is asked for before the message. One header block too many
  // comes with the tag.
  lemma HeaderClosedTwice(m: Setting, iv: seq<byte>, b: byte)
    requires NonceFits(iv)
    ensures var calls := Begin(iv, 0, 1) + [Final(SIZE)] + [Process([b])] + [Final(SIZE)];
            && Ran(m, calls).state == KeySet && EarlyCalls(m, calls) == 1
            && Ran(m, calls).lastBlocks == [LastHeaderBlock, LastHeaderBlock, LastConfidentialBlock, LastFooterBlock]
  {
    var calls := Begin(iv, 0, 1) + [Final(SIZE)];
    var early := View(IvSet, iv, 15 - |iv|, 0, 1, [], [], [], 0, BeforeData, [LastHeaderBlock]);
    ClosedEarly(m, iv);
    RoomForMessage(15 - |iv|);
    DataTaken(m, early, [b]);
    var taken := Step(m, early, Process([b]));
    RanTo(m, calls, early, Process([b]), taken);
    NotEarly(m, calls, early, Process([b]));
    GetsTag(m, taken);
    RanTo(m, calls + [Process([b])], taken, Final(SIZE), WithTag(taken));
    NotEarly(m, calls + [Process([b])], taken, Final(SIZE));
  }

  lemma DataTaken(m: Setting, v: View, data: seq<byte>)
    requires v.state == IvSet && v.aadLength == |v.header| && v.data == [] && v.specified == BeforeData
    requires Wrapped(v.refused + |data|) <= MaxLength(v.lengthSize)
    ensures Refusal(m, v, Process(data)) == None
    ensures Step(m, v, Process(data))
         == v.(state := if m.isEncryption then AuthUntransformed else AuthTransformed, data := data,
               lastBlocks := v.lastBlocks + [LastHeaderBlock])
  {
    WrappedAdds(v.refused, |data|);
    assert Refusal(m, v, Process(data)) == None;
    assert [] + data == data;
  }

  // Data that comes before the header is refused, but it is counted; then the header and the rest of the message.
  function TooSoon(iv: seq<byte>, headerLength: nat, messageLength: nat, first: seq<byte>, second: seq<byte>): seq<Call> {
    Begin(iv, headerLength, messageLength) + [Process(first)] + [Process(second)]
  }

  lemma RanTooSoon(m: Setting, iv: seq<byte>, headerLength: nat, messageLength: nat, first: seq<byte>, second: seq<byte>)
    requires NonceFits(iv) && headerLength > 0 && messageLength <= 10
    ensures Ran(m, TooSoon(iv, headerLength, messageLength, first, second))
         == View(IvSet, iv, 15 - |iv|, headerLength, messageLength, [], [], [], |first| + |second|, BeforeData, [])
  {
    Begins(m, iv, headerLength, messageLength);
    var calls := Begin(iv, headerLength, messageLength);
    var v := View(IvSet, iv, 15 - |iv|, headerLength, messageLength, [], [], [], 0, BeforeData, []);
    RanTwo(m, calls, v, Process(first), v.(refused := |first|), Process(second), v.(refused := |first| + |second|));
  }

  function Refused(iv: seq<byte>, messageLength: nat, first: seq<byte>, second: seq<byte>, header: seq<byte>,
      data: seq<byte>): seq<Call>
  {
    TooSoon(iv, |header|, messageLength, first, second) + [Update(header)] + [Process(data)]
  }

  // The header and the rest of the message.
  lemma RanCompleted(m: Setting, calls: seq<Call>, v: View, header: seq<byte>, data: seq<byte>)
    requires Ran(m, calls) == v && v.state == IvSet && v.header == [] && v.data == [] && v.specified == BeforeData
    requires header != [] && v.aadLength == |header| && Wrapped(v.refused + |data|) <= MaxLength(v.lengthSize)
    ensures Ran(m, calls + [Update(header)] + [Process(data)])
         == v.(state := if m.isEncryption then AuthUntransformed else AuthTransformed, header := header, data := data,
               lastBlocks := v.lastBlocks + [LastHeaderBlock])
  {
    HeaderTaken(m, v, header);
    var complete := v.(header := header);
    DataTaken(m, complete, data);
    RanTwo(m, calls, v, Update(header), complete, Process(data), Step(m, complete, Process(data)));
  }

  lemma HeaderTaken(m: Setting, v: View, header: seq<byte>)
    requires v.state == IvSet && v.header == [] && header != [] && v.specified == BeforeData
    ensures Step(m, v, Update(header)) == v.(header := header)
  {
    assert [] + header == header;
  }

  // With five bytes refused, a message of five bytes for which ten were announced gets a tag that is not over its blocks;
  // with 2^64 refused, one for which five were announced gets one that is.
  lemma RefusedBytesMatter(m: Setting, iv: seq<byte>, messageLength: nat, first: seq<byte>, second: seq<byte>, header: seq<byte>,
                           data: seq<byte>) returns (calls: seq<Call>, v: View)
    requires 4 <= m.digestSize <= 16 && NonceFits(iv) && 0 < |header| <= MAX_HEADER_LENGTH && |data| == 5
    requires if messageLength == 10 then |first| + |second| == 5 else messageLength == 5 && |first| + |second| == WORD
    ensures calls == Refused(iv, messageLength, first, second, header, data) && v == Ran(m, calls)
    ensures Refusal(m, v, Final(SIZE)) == None && v.specified == BeforeData
    ensures v.nonce == iv && v.header == header && v.data == data && v.messageLength == messageLength
    ensures BlocksAnnouncing(iv, header, messageLength, data, m.digestSize) == AuthenticatedBlocks(iv, header, data, m.digestSize)
       <==> |first| + |second| == WORD
  {
    FiveOrAll(|first| + |second|);
    calls := TooSoon(iv, |header|, messageLength, first, second);
    v := View(IvSet, iv, 15 - |iv|, |header|, messageLength, [], [], [], |first| + |second|, BeforeData, []);
    RanTooSoon(m, iv, |header|, messageLength, first, second);
    RoomForMessage(15 - |iv|);
    RanCompleted(m, calls, v, header, data);
    calls := calls + [Update(header)] + [Process(data)];
    v := v.(state := if m.isEncryption then AuthUntransformed else AuthTransformed, header := header, data := data,
            lastBlocks := v.lastBlocks + [LastHeaderBlock]);
    GetsTag(m, v);
    RightBlocks(m, v, Final(SIZE), data);
  }

  lemma GetsTag(m: Setting, v: View)
    requires (v.state == AuthUntransformed || v.state == AuthTransformed) && v.footer == []
    requires |v.header| <= MAX_HEADER_LENGTH && v.messageLength == Total(v)
    ensures Refusal(m, v, Final(SIZE)) == None
  {
  }

  lemma FiveOrAll(refused: nat)
    ensures refused == 5 ==> Wrapped(refused + 5) == 10 && Wrapped(refused) != 0
    ensures refused == WORD ==> Wrapped(refused + 5) == 5 && Wrapped(refused) == 0
  {
  }

  lemma RoomForMessage(lengthSize: nat)
    requires 2 <= lengthSize <= 8
    ensures MaxLength(lengthSize) >= 10
  {
    Numbers.Pow2Monotonic(8, 8 * lengthSize);
    assert Numbers.Pow2(8) == 256;
  }
}
