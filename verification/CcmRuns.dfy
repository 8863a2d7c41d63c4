// Runs of any calls on the CCM object: it does what the protocol says of the calls.

module CcmRuns {
  import opened Blocks
  import opened Ccm
  import opened CcmFormat
  import opened CcmProtocol
  import opened Wrappers

  // The message in the data that was taken.
  function Plain(p: Parameters, isEncryption: bool, v: View): (plain: seq<byte>)
    ensures |plain| == |v.data|
  {
    if isEncryption || !NonceFits(v.nonce) then v.data else CipherText(p, v.nonce, v.data)
  }

  // What a call gives back: an error, output or a tag, a verdict.
  datatype Outcome = Outcome(error: Option<Error>, output: seq<byte>, verdict: bool)

  // What a call gives back in a view: the stream over its input, and tags of the blocks that announce the length given,
  // where it was given before any data.
  ghost predicate IsOutcome(p: Parameters, isEncryption: bool, v: View, call: Call, o: Outcome) {
    && o.error == Refusal(Setting(p.digestSize, isEncryption), v, call)
    && (o.error == None ==>
          match call
          case Process(input) =>
            NonceFits(v.nonce) && o.output == Streamed(p, CounterBlock(v.nonce), SIZE + |v.data|, input)
          case Final(macSize) => |o.output| == macSize && (v.specified == BeforeData ==> IsRunTag(p, isEncryption, v, o.output))
          case Verify(digest) => v.specified == BeforeData ==> (o.verdict <==> IsRunTag(p, isEncryption, v, digest))
          case _ => true)
  }

  ghost predicate IsRunTag(p: Parameters, isEncryption: bool, v: View, mac: seq<byte>) {
    && p.Valid() && NonceFits(v.nonce)
    && IsTagOf(p, v.nonce, BlocksAnnouncing(v.nonce, v.header, v.messageLength, Plain(p, isEncryption, v), p.digestSize), mac)
  }

  // The fields of the object that a view shows.
  datatype Fields = Fields(state: State, lengthSize: nat, aadLength: nat, messageLength: nat, refused: nat, run: Run)

  ghost function FieldsOf(c: Ccm): Fields
    reads c
  {
    Fields(c.state, c.lengthSize, c.aadLength, c.messageLength, c.refused, c.run)
  }

  ghost predicate AreShown(p: Parameters, isEncryption: bool, f: Fields, v: View) {
    && f.state == v.state && f.lengthSize == v.lengthSize && f.aadLength == v.aadLength && f.messageLength == v.messageLength
    && f.run.nonce == v.nonce && f.run.header == v.header && f.run.footer == v.footer
    && f.run.message == Plain(p, isEncryption, v)
    && f.refused == v.refused && f.run.specified == v.specified && f.run.lastBlocks == v.lastBlocks
  }

  // The object is in the state that the view shows.
  ghost predicate Mirrors(c: Ccm, v: View)
    reads c
  {
    AreShown(c.p, c.isEncryption, FieldsOf(c), v)
  }

  ghost function SettingOf(c: Ccm): Setting {
    Setting(c.p.digestSize, c.isEncryption)
  }

  // The call is done as the protocol says.
  ghost predicate Follows(c: Ccm, v: View, call: Call, o: Outcome)
    reads c
  {
    Mirrors(c, Step(SettingOf(c), v, call)) && IsOutcome(c.p, c.isEncryption, v, call, o)
  }

  // A tag that is given, and one that is not.
  lemma TagIsShown(p: Parameters, isEncryption: bool, f: Fields, v: View, call: Call, next: Fields)
    requires AreShown(p, isEncryption, f, v) && InPhase(f.run, f.state, isEncryption)
    requires call.AsksForTag() && Refusal(Setting(p.digestSize, isEncryption), v, call) == None
    requires next == f.(state := KeySet,
                        run := f.run.(lastBlocks := ForTag(f.run.early), specified := Begun(f.run.specified)))
    ensures AreShown(p, isEncryption, next, Step(Setting(p.digestSize, isEncryption), v, call))
  {
    ForTagInParts(f.run.early);
    assert f.run.lastBlocks + Due(f.state) == ForTag(f.run.early);
  }

  lemma DenialIsShown(p: Parameters, isEncryption: bool, f: Fields, v: View, call: Call, early: bool, next: Fields)
    requires AreShown(p, isEncryption, f, v) && early == AsksEarly(Setting(p.digestSize, isEncryption), v, call)
    requires call.AsksForTag() && Refusal(Setting(p.digestSize, isEncryption), v, call) != None
    requires next == f.(run := Denied(f.run, early))
    ensures AreShown(p, isEncryption, next, Step(Setting(p.digestSize, isEncryption), v, call))
  {
  }

  // Where the lengths came in time, the tag of what was authenticated is the tag of the run.
  lemma TagOfRun(p: Parameters, isEncryption: bool, f: Fields, v: View, ended: Run, done: seq<byte>, mac: seq<byte>)
    requires p.Valid() && NonceFits(f.run.nonce) && AreShown(p, isEncryption, f, v)
    requires ended == f.run.(lastBlocks := ended.lastBlocks, specified := ended.specified)
    requires Announces(ended, f.refused, f.messageLength, p.digestSize, done)
    ensures IsTagOf(p, v.nonce, done, mac) <==> IsRunTag(p, isEncryption, v, mac)
  {
  }

  // What a call that asks for a tag does to the fields and gives back is what the protocol says.
  lemma TagFollows(p: Parameters, isEncryption: bool, f: Fields, v: View, call: Call, early: bool, next: Fields, done: seq<byte>,
                   o: Outcome)
    requires p.Valid() && AreShown(p, isEncryption, f, v) && InPhase(f.run, f.state, isEncryption) && call.AsksForTag()
    requires early == AsksEarly(Setting(p.digestSize, isEncryption), v, call)
    requires o.error == Refusal(Setting(p.digestSize, isEncryption), v, call)
    requires o.error != None ==> next == f.(run := Denied(f.run, early))
    requires o.error == None ==>
               && next == f.(state := KeySet,
                             run := f.run.(lastBlocks := ForTag(f.run.early), specified := Begun(f.run.specified)))
               && NonceFits(v.nonce)
               && (v.specified == BeforeData ==> Announces(next.run, f.refused, f.messageLength, p.digestSize, done))
    requires o.error == None && call.Final? ==> |o.output| == call.macSize && IsTagOf(p, v.nonce, done, o.output)
    requires o.error == None && call.Verify? ==> (o.verdict <==> IsTagOf(p, v.nonce, done, call.digest))
    ensures AreShown(p, isEncryption, next, Step(Setting(p.digestSize, isEncryption), v, call))
    ensures IsOutcome(p, isEncryption, v, call, o)
  {
    if o.error != None {
      DenialIsShown(p, isEncryption, f, v, call, early, next);
    } else {
      TagIsShown(p, isEncryption, f, v, call, next);
      if v.specified == BeforeData {
        TagOfRun(p, isEncryption, f, v, next.run, done, if call.Final? then o.output else call.digest);
      }
    }
  }

  method AskTag(c: Ccm, call: Call, ghost v: View) returns (o: Outcome)
    requires c.Valid() && Mirrors(c, v) && call.Final? && call.Fits()
    modifies c, c.auth, c.auth.cbcBuffer
    ensures c.Valid() && Follows(c, v, call, o)
  {
    ghost var before, early := FieldsOf(c), c.TooEarly();
    assert c.TagError() == TagRefusal(v) && early == AsksEarly(SettingOf(c), v, call);
    var mac, error := c.TruncatedFinal(call.macSize);
    o := Outcome(error, mac, false);
    TagFollows(c.p, c.isEncryption, before, v, call, early, FieldsOf(c), c.auth.done, o);
  }

  method AskVerdict(c: Ccm, call: Call, ghost v: View) returns (o: Outcome)
    requires c.Valid() && Mirrors(c, v) && call.Verify? && call.Fits()
    modifies c, c.auth, c.auth.cbcBuffer
    ensures c.Valid() && Follows(c, v, call, o)
  {
    ghost var before := FieldsOf(c);
    if |call.digest| > c.p.digestSize {
      var ok, error := c.TruncatedVerify(call.digest);
      o := Outcome(error, [], ok);
      DenialIsShown(c.p, c.isEncryption, before, v, call, false, FieldsOf(c));
    } else {
      o := AskShortVerdict(c, call, v);
    }
  }

  method AskShortVerdict(c: Ccm, call: Call, ghost v: View) returns (o: Outcome)
    requires c.Valid() && Mirrors(c, v) && call.Verify? && |call.digest| <= c.p.digestSize
    modifies c, c.auth, c.auth.cbcBuffer
    ensures c.Valid() && Follows(c, v, call, o)
  {
    ghost var before, early := FieldsOf(c), c.TooEarly();
    assert c.TagError() == TagRefusal(v) && early == AsksEarly(SettingOf(c), v, call);
    var ok, error := c.TruncatedVerify(call.digest);
    o := Outcome(error, [], ok);
    TagFollows(c.p, c.isEncryption, before, v, call, early, FieldsOf(c), c.auth.done, o);
  }

  method GiveLengths(c: Ccm, call: Call, ghost v: View) returns (o: Outcome)
    requires c.Valid() && Mirrors(c, v) && call.Specify? && call.Fits()
    modifies c, c.auth, c.auth.buffer, c.auth.cbcBuffer
    ensures c.Valid() && Follows(c, v, call, o)
  {
    var error := c.SpecifyDataLengths(call.headerLength, call.messageLength);
    o := Outcome(error, [], false);
  }

  // What Update does to the fields is what the protocol says.
  lemma UpdateFollows(p: Parameters, isEncryption: bool, f: Fields, v: View, input: seq<byte>, next: Fields, o: Outcome)
    requires AreShown(p, isEncryption, f, v) && o.error == if input == [] then None else UpdateRefusal(v)
    requires o.error != None || input == [] ==> next == f
    requires o.error == None && input != [] && f.state == IvSet ==>
               next == f.(run := f.run.(header := f.run.header + input, specified := Begun(f.run.specified)))
    requires o.error == None && input != [] && f.state == AuthFooter ==>
               next == f.(run := f.run.(footer := f.run.footer + input))
    requires o.error == None && input != [] && f.state != IvSet && f.state != AuthFooter ==>
               next == f.(state := AuthFooter, run := f.run.(footer := f.run.footer + input,
                                                             lastBlocks := f.run.lastBlocks + [LastConfidentialBlock]))
    ensures AreShown(p, isEncryption, next, Step(Setting(p.digestSize, isEncryption), v, Update(input)))
    ensures IsOutcome(p, isEncryption, v, Update(input), o)
  {
  }

  method GiveHeader(c: Ccm, input: seq<byte>, ghost v: View) returns (o: Outcome)
    requires c.Valid() && Mirrors(c, v)
    modifies c, c.auth, c.auth.buffer, c.auth.cbcBuffer
    ensures c.Valid() && Follows(c, v, Update(input), o)
  {
    ghost var before := FieldsOf(c);
    assert c.totalMessageLength == Total(v);
    var error := c.Update(input);
    o := Outcome(error, [], false);
    UpdateFollows(c.p, c.isEncryption, before, v, input, FieldsOf(c), o);
  }

  lemma PlainGrows(p: Parameters, isEncryption: bool, v: View, input: seq<byte>)
    requires NonceFits(v.nonce)
    ensures Plain(p, isEncryption, v.(data := v.data + input))
         == Plain(p, isEncryption, v) + if isEncryption then input else Streamed(p, CounterBlock(v.nonce), SIZE + |v.data|, input)
  {
    CipherTextGrows(p, v.nonce, v.data, input);
  }

  // The first data closes the header.
  function ClosedBy(f: Fields): seq<LastBlock> {
    if f.state == IvSet then f.run.lastBlocks + [LastHeaderBlock] else f.run.lastBlocks
  }

  lemma DataIsShown(p: Parameters, isEncryption: bool, f: Fields, v: View, input: seq<byte>, output: seq<byte>, next: Fields)
    requires AreShown(p, isEncryption, f, v) && Refusal(Setting(p.digestSize, isEncryption), v, Process(input)) == None
    requires NonceFits(v.nonce) && output == Streamed(p, CounterBlock(v.nonce), SIZE + |v.data|, input)
    requires InPhase(f.run, f.state, isEncryption)
    requires next == f.(state := if isEncryption then AuthUntransformed else AuthTransformed,
                        run := f.run.(message := f.run.message + (if isEncryption then input else output),
                                      lastBlocks := ClosedBy(f),
                                      specified := Begun(f.run.specified)))
    requires f.state != IvSet ==> f.run.specified != NotYet
    ensures AreShown(p, isEncryption, next, Step(Setting(p.digestSize, isEncryption), v, Process(input)))
  {
    PlainGrows(p, isEncryption, v, input);
  }

  lemma DataRefusal(p: Parameters, isEncryption: bool, f: Fields, v: View, total: nat, length: nat, error: Option<Error>)
    requires AreShown(p, isEncryption, f, v) && total == Wrapped(Total(v) + length)
    requires error == if f.state != KeySet && total > MaxLength(f.lengthSize) then Some(InvalidArgument) else
                      match f.state
                      case KeySet => Some(BadState)
                      case AuthFooter => Some(BadState)
                      case IvSet => if f.aadLength == |f.run.header| then None else Some(InvalidArgument)
                      case _ => None
    ensures error == ProcessRefusal(v, length)
  {
  }

  lemma DataFollows(p: Parameters, isEncryption: bool, f: Fields, v: View, total: nat, input: seq<byte>, next: Fields, o: Outcome)
    requires AreShown(p, isEncryption, f, v) && InPhase(f.run, f.state, isEncryption)
    requires total == Wrapped(Total(v) + |input|)
    requires o.error == if f.state != KeySet && total > MaxLength(f.lengthSize) then Some(InvalidArgument) else
                        match f.state
                        case KeySet => Some(BadState)
                        case AuthFooter => Some(BadState)
                        case IvSet => if f.aadLength == |f.run.header| then None else Some(InvalidArgument)
                        case _ => None
    requires o.error != None ==> next == f.(refused := f.refused + |input|)
    requires o.error == None ==> NonceFits(v.nonce) && o.output == Streamed(p, CounterBlock(v.nonce), SIZE + |v.data|, input)
    requires o.error == None ==>
               next == f.(state := if isEncryption then AuthUntransformed else AuthTransformed,
                          run := f.run.(message := f.run.message + (if isEncryption then input else o.output),
                                        lastBlocks := ClosedBy(f),
                                        specified := Begun(f.run.specified)))
    requires f.state != IvSet && f.state != KeySet ==> f.run.specified != NotYet
    ensures AreShown(p, isEncryption, next, Step(Setting(p.digestSize, isEncryption), v, Process(input)))
    ensures IsOutcome(p, isEncryption, v, Process(input), o)
  {
    DataRefusal(p, isEncryption, f, v, total, |input|, o.error);
    if o.error == None {
      DataIsShown(p, isEncryption, f, v, input, o.output, next);
    }
  }

  method GiveData(c: Ccm, input: seq<byte>, ghost v: View) returns (o: Outcome)
    requires c.Valid() && Mirrors(c, v)
    modifies c, c.auth, c.auth.buffer, c.auth.cbcBuffer
    ensures c.Valid() && Follows(c, v, Process(input), o)
  {
    ghost var before := FieldsOf(c);
    assert c.totalMessageLength == Total(v);
    var output, error := c.ProcessData(input);
    o := Outcome(error, output, false);
    DataFollows(c.p, c.isEncryption, before, v, c.totalMessageLength, input, FieldsOf(c), o);
  }

  method Restart(c: Ccm, call: Call, ghost v: View) returns (o: Outcome)
    requires c.Valid() && Mirrors(c, v) && call.Resynchronize? && call.Fits()
    modifies c, c.auth, c.auth.buffer, c.auth.cbcBuffer
    ensures c.Valid() && Follows(c, v, call, o)
  {
    var error := c.Resynchronize(call.iv);
    o := Outcome(error, [], false);
  }

  method Perform(c: Ccm, call: Call, ghost v: View) returns (o: Outcome)
    requires c.Valid() && Mirrors(c, v) && call.Fits()
    modifies c, c.auth, c.auth.buffer, c.auth.cbcBuffer
    ensures c.Valid() && Follows(c, v, call, o)
  {
    match call {
      case Resynchronize(_) =>
        o := Restart(c, call, v);
      case Specify(_, _) =>
        o := GiveLengths(c, call, v);
      case Update(_) =>
        o := GiveHeader(c, call.input, v);
      case Process(_) =>
        o := GiveData(c, call.input, v);
      case Final(_) =>
        o := AskTag(c, call, v);
      case Verify(_) =>
        o := AskVerdict(c, call, v);
    }
  }

  ghost predicate AllFit(calls: seq<Call>) {
    calls == [] || (AllFit(calls[..|calls| - 1]) && calls[|calls| - 1].Fits())
  }

  // Every call gave back what the protocol says after the calls before it.
  ghost predicate AreOutcomes(p: Parameters, isEncryption: bool, calls: seq<Call>, outcomes: seq<Outcome>) {
    && |outcomes| == |calls|
    && (calls == [] ||
        var n := |calls| - 1;
        && AreOutcomes(p, isEncryption, calls[..n], outcomes[..n])
        && IsOutcome(p, isEncryption, Ran(Setting(p.digestSize, isEncryption), calls[..n]), calls[n], outcomes[n]))
  }

  lemma {:induction false} OutcomeOfRun(p: Parameters, isEncryption: bool, calls: seq<Call>, outcomes: seq<Outcome>, i: nat)
    requires AreOutcomes(p, isEncryption, calls, outcomes) && i < |calls|
    ensures |outcomes| == |calls|
    ensures IsOutcome(p, isEncryption, Ran(Setting(p.digestSize, isEncryption), calls[..i]), calls[i], outcomes[i])
  {
    var n := |calls| - 1;
    if i < n {
      OutcomeOfRun(p, isEncryption, calls[..n], outcomes[..n], i);
      assert calls[..n][..i] == calls[..i] && calls[..n][i] == calls[i] && outcomes[..n][i] == outcomes[i];
    }
  }

  method PerformLast(c: Ccm, calls: seq<Call>, outcomes: seq<Outcome>) returns (more: seq<Outcome>)
    requires c.Valid() && calls != [] && calls[|calls| - 1].Fits() && Mirrors(c, Ran(SettingOf(c), calls[..|calls| - 1]))
    requires AreOutcomes(c.p, c.isEncryption, calls[..|calls| - 1], outcomes)
    modifies c, c.auth, c.auth.buffer, c.auth.cbcBuffer
    ensures c.Valid() && Mirrors(c, Ran(SettingOf(c), calls)) && AreOutcomes(c.p, c.isEncryption, calls, more)
  {
    ghost var before := calls[..|calls| - 1];
    var o := Perform(c, calls[|calls| - 1], Ran(SettingOf(c), before));
    OneMoreOutcome(c.p, c.isEncryption, calls, outcomes, o);
    more := outcomes + [o];
  }

  lemma OneMoreOutcome(p: Parameters, isEncryption: bool, calls: seq<Call>, outcomes: seq<Outcome>, o: Outcome)
    requires calls != [] && AreOutcomes(p, isEncryption, calls[..|calls| - 1], outcomes)
    requires IsOutcome(p, isEncryption, Ran(Setting(p.digestSize, isEncryption), calls[..|calls| - 1]), calls[|calls| - 1], o)
    ensures AreOutcomes(p, isEncryption, calls, outcomes + [o])
  {
    assert (outcomes + [o])[..|calls| - 1] == outcomes;
  }

  method NewObject(p: Parameters, isEncryption: bool) returns (c: Ccm)
    requires p.Valid()
    ensures fresh(c) && fresh(c.auth) && fresh(c.auth.buffer) && fresh(c.auth.cbcBuffer)
    ensures c.Valid() && c.p == p && c.isEncryption == isEncryption && Mirrors(c, Ran(SettingOf(c), []))
  {
    c := new Ccm(p, isEncryption);
  }

  // Any calls in any order on a new object: what they give back, and the state they leave, is what the protocol says of the
  // calls.
  method AnyRun(p: Parameters, isEncryption: bool, calls: seq<Call>) returns (c: Ccm, outcomes: seq<Outcome>)
    requires p.Valid() && AllFit(calls)
    ensures fresh(c) && fresh(c.auth) && fresh(c.auth.buffer) && fresh(c.auth.cbcBuffer)
    ensures c.Valid() && c.p == p && c.isEncryption == isEncryption
    ensures Mirrors(c, Ran(SettingOf(c), calls)) && AreOutcomes(p, isEncryption, calls, outcomes)
    decreases |calls|
  {
    if calls == [] {
      c := NewObject(p, isEncryption);
      outcomes := [];
    } else {
      var n := |calls| - 1;
      c, outcomes := AnyRun(p, isEncryption, calls[..n]);
      outcomes := PerformLast(c, calls, outcomes);
    }
  }

  // Where the lengths came before any data and the message is not too long, a tag or a verdict is right for every run in
  // which the refused bytes come to a multiple of 2^64, and it is over other blocks in every other.
  lemma RunTagIs(p: Parameters, isEncryption: bool, calls: seq<Call>, call: Call, mac: seq<byte>)
    requires p.Valid() && call.AsksForTag()
    requires Refusal(Setting(p.digestSize, isEncryption), Ran(Setting(p.digestSize, isEncryption), calls), call) == None
    requires var v := Ran(Setting(p.digestSize, isEncryption), calls);
             |v.data| <= MaxLength(v.lengthSize) && Wrapped(v.refused) == 0
    ensures var v := Ran(Setting(p.digestSize, isEncryption), calls);
            IsRunTag(p, isEncryption, v, mac) <==> IsTag(p, v.nonce, v.header, Plain(p, isEncryption, v), mac)
  {
    var m := Setting(p.digestSize, isEncryption);
    RightBlocksExactly(m, calls, call, Plain(p, isEncryption, Ran(m, calls)));
  }
}
