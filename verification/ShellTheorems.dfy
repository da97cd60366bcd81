/** What the soundness of every run gives: the promises of the native shell. */
module ShellTheorems {
  import opened Core
  import opened ShellModel
  import opened ShellRuns

  // ---- the input window ------------------------------------------------------

  /**
    Whatever was called, the retained bytes are exactly the end of everything
    committed since creation or reset, in a buffer of 0 or 2^10 to 2^30 bytes.
   */
  lemma WindowIsTailOfInput(start: Shell, ops: seq<Op>)
    requires Created(start)
    ensures var s := Run(start, ops);
      && |s.window| <= |Bytes(s.accepted)| && s.window == Last(Bytes(s.accepted), |s.window|)
      && |s.window| <= s.capacity && IsCapacity(s.capacity)
  {
    hide Run;
    CreatedSound(start);
    RunSound(start, ops);
  }

  /** Can a parser in this state take input? */
  predicate Open(phase: Phase) {
    phase.Initialized? || phase.Parsing?
  }

  /** Is there room for `len` more bytes, by size and by the allocator's answer? */
  predicate Grantable(s: Shell, len: int, mallocOk: bool) {
    && 0 <= len && |s.window| + len <= Pow2(30)
    && (mallocOk || (0 < s.capacity && |s.window| + len <= s.capacity))
  }

  /** A buffer request is refused for its size or a failed allocation only, and then changes nothing else. */
  lemma RefusalChangesNothing(start: Shell, ops: seq<Op>, len: int, mallocOk: bool)
    requires Created(start) && Open(Run(start, ops).life.phase)
    ensures var s := Run(start, ops);
      var (t, ok) := GetBuffer(s, len, mallocOk);
      && (ok <==> Grantable(s, len, mallocOk))
      && (!ok ==> t == s.Failing(NoMemory))
      && (ok ==> t == s.(capacity := t.capacity) && |s.window| + len <= t.capacity && IsCapacity(t.capacity))
  {
    hide Run, Sound, GetBuffer;
    CreatedSound(start);
    RunSound(start, ops);
    var s := Run(start, ops);
    SoundCapacity(s);
    GetBufferExactly(s, len, mallocOk);
  }

  lemma GetBufferExactly(s: Shell, len: int, mallocOk: bool)
    requires IsCapacity(s.capacity) && s.capacity <= MAXIMUM_CAPACITY && |s.window| <= s.capacity
    requires Open(s.life.phase)
    ensures var (t, ok) := GetBuffer(s, len, mallocOk);
      && (ok <==> Grantable(s, len, mallocOk))
      && (!ok ==> t == s.Failing(NoMemory))
      && (ok ==> t == s.(capacity := t.capacity) && |s.window| + len <= t.capacity && IsCapacity(t.capacity))
  {
    hide Reserve, Grantable, IsCapacity;
    ReserveExactly(s, len, mallocOk);
    if len < 0 {
      assert !Grantable(s, len, mallocOk) by { NegativeRefused(s, len, mallocOk); }
    }
  }

  lemma NegativeRefused(s: Shell, len: int, mallocOk: bool)
    requires len < 0
    ensures !Grantable(s, len, mallocOk)
  {}

  lemma ReserveExactly(s: Shell, len: int, mallocOk: bool)
    requires IsCapacity(s.capacity) && s.capacity <= MAXIMUM_CAPACITY && |s.window| <= s.capacity
    ensures var (t, ok) := Reserve(s, len, mallocOk);
      && (ok <==> Grantable(s, len, mallocOk))
      && (!ok ==> t == s.Failing(NoMemory))
      && (ok ==> t == s.(capacity := t.capacity) && |s.window| + len <= t.capacity && IsCapacity(t.capacity))
  {
    hide CapacityFor, IsCapacity;
    CapacityBounds();
    if 0 <= len <= MAXIMUM_CAPACITY - |s.window| {
      CapacityForSound(s.capacity, |s.window| + len);
    }
  }

  /**
    `XML_Parse` is refused room under the same condition: past its guards, it enters the
    bridge exactly when there is room, and otherwise changes the error code alone.
   */
  lemma ParseRefusedExactly(start: Shell, ops: seq<Op>, bytes: seq<byte>, isFinal: bool, mallocOk: bool, reply: Reply)
    requires Created(start)
    requires Guard(Run(start, ops), true, isFinal).None?
    ensures var s := Run(start, ops);
      var (t, status, _) := Parse(s, Some(bytes), isFinal, mallocOk, reply);
      && (t.accepted == s.accepted + [Call(bytes, isFinal)] <==> Grantable(s, |bytes|, mallocOk))
      && (!Grantable(s, |bytes|, mallocOk) ==> t == s.Failing(NoMemory) && status.StatusError?)
  {
    hide Run, Sound, Guard, AcceptChunk, FinishParse;
    CreatedSound(start);
    RunSound(start, ops);
    var s := Run(start, ops);
    AcceptExactly(s, bytes, isFinal, mallocOk);
    if Grantable(s, |bytes|, mallocOk) {
      FinishKeepsAccepted(AcceptChunk(s, bytes, isFinal, mallocOk).inside, bytes, isFinal, reply);
    }
  }

  lemma AcceptExactly(s: Shell, bytes: seq<byte>, isFinal: bool, mallocOk: bool)
    requires Sound(s)
    ensures var entry := AcceptChunk(s, bytes, isFinal, mallocOk);
      if Grantable(s, |bytes|, mallocOk)
      then entry.Entered? && entry.inside.accepted == s.accepted + [Call(bytes, isFinal)]
      else entry == Rejected(s.Failing(NoMemory))
  {
    hide Sound, CapacityFor;
    SoundCapacity(s);
    CapacityBounds();
  }

  lemma FinishKeepsAccepted(s: Shell, bytes: seq<byte>, isFinal: bool, reply: Reply)
    ensures FinishParse(s, bytes, isFinal, reply).0.accepted == s.accepted
  {
    hide ActAll;
    ActAllKeeps(Logged(s, bytes, isFinal), reply.actions);
  }

  /** The branch of `XML_ParseBuffer` for a parser in PARSING without a buffer is never taken. */
  lemma ParsingHasBuffer(start: Shell, ops: seq<Op>)
    requires Created(start)
    ensures var s := Run(start, ops); s.life.phase.Parsing? ==> s.capacity > 0
  {
    hide Run;
    CreatedSound(start);
    RunSound(start, ops);
  }

  // ---- final is final ---------------------------------------------------------

  lemma {:induction false} LogBytes(log: seq<Call>, accepted: seq<Call>)
    requires LogMatches(log, accepted)
    ensures Bytes(log) == Bytes(accepted)
    decreases |log|
  {
    if log != [] {
      var l, a := |log| - 1, |accepted| - 1;
      if log[l] == accepted[a] && LogMatches(log[..l], accepted[..a]) {
        LogBytes(log[..l], accepted[..a]);
      } else {
        LogBytes(log[..l], accepted);
      }
    }
  }

  /** Every byte accepted reaches the bridge, once and in order. */
  lemma EveryByteDelivered(start: Shell, ops: seq<Op>)
    requires Created(start)
    ensures var s := Run(start, ops); Bytes(s.log) == Bytes(s.accepted)
  {
    hide Run;
    CreatedSound(start);
    RunSound(start, ops);
    var s := Run(start, ops);
    LogBytes(s.log, s.accepted);
  }

  /** One parse call accepts its chunk or none, and only in an open state. */
  lemma ParseHistory(s: Shell, input: Option<seq<byte>>, isFinal: bool, mallocOk: bool, reply: Reply)
    requires Sound(s)
    ensures var t := Parse(s, input, isFinal, mallocOk, reply).0;
      || (t.accepted == s.accepted && t.log == s.log)
      || (input.Some? && !Closed(s.life) && t.accepted == s.accepted + [Call(input.value, isFinal)]
          && t.log == s.log + [Call(input.value, isFinal)])
  {
    hide AcceptChunk, Through, WindowSound, LogMatches, LifeSound, Guard;
    GuardSound(s, input.Some?, isFinal);
    GuardHistory(s, input.Some?, isFinal);
    if Guard(s, input.Some?, isFinal).None? {
      AcceptSound(s, input.value, isFinal, mallocOk);
      match AcceptChunk(s, input.value, isFinal, mallocOk)
      case Rejected(t) =>
      case Entered(t) => ThroughSound(t, input.value, isFinal, reply);
    }
  }

  lemma GuardHistory(s: Shell, usable: bool, isFinal: bool)
    ensures var g := Guard(s, usable, isFinal);
      g.Some? ==> g.value.accepted == s.accepted && g.value.log == s.log
  {}

  /** A resume that enters the bridge delivers no byte, with the last accepted final flag. */
  lemma ResumeDelivers(s: Shell, reply: Reply)
    requires Sound(s)
    ensures var t := ResumeParser(s, reply).0;
      && t.accepted == s.accepted
      && (s.life.phase.Suspended? ==>
            s.accepted != [] && t.log == s.log + [Call([], s.accepted[|s.accepted| - 1].isFinal)])
      && (!s.life.phase.Suspended? ==> t.log == s.log)
  {
    hide Through, WindowSound, LogMatches;
    match BeginResume(s)
    case Rejected(t) =>
    case Entered(t) => ThroughSound(t, [], s.life.finalBuffer, reply);
  }

  /** Only parse calls in an open state and resets touch the accepted chunks. */
  lemma StepHistory(s: Shell, op: Op)
    requires Sound(s) && !op.DoReset?
    ensures var t := Step(s, op).0;
      || t.accepted == s.accepted
      || (!Closed(s.life) && exists c :: t.accepted == s.accepted + [c])
  {
    hide Parse, BufferRefusal, ResumeParser, Sound, Closed;
    match op
    case DoParse(input, isFinal, mallocOk, reply) => ParseHistory(s, input, isFinal, mallocOk, reply);
    case DoParseBuffer(input, isFinal, mallocOk, reply) =>
      ParseHistory(s, input, isFinal, mallocOk, reply);
    case DoResume(reply) => ResumeDelivers(s, reply);
    case _ =>
  }

  /**
    Once a final chunk has been accepted, nothing is accepted any more and no
    further byte reaches the bridge until the parser is reset.
   */
  lemma {:induction false} FinalIsFinal(s: Shell, ops: seq<Op>)
    requires Sound(s) && FinalAccepted(s)
    requires forall op :: op in ops ==> !op.DoReset?
    ensures Run(s, ops).accepted == s.accepted && Bytes(Run(s, ops).log) == Bytes(s.log)
    decreases ops
  {
    hide Step, Closed, WindowSound;
    RunSound(s, ops);
    LogBytes(Run(s, ops).log, Run(s, ops).accepted);
    LogBytes(s.log, s.accepted);
    hide LogMatches, Bytes;
    if ops != [] {
      StepSound(s, ops[0]);
      StepHistory(s, ops[0]);
      FinalIsFinal(Step(s, ops[0]).0, ops[1..]);
    }
  }

  // ---- FINISHED ---------------------------------------------------------------

  lemma ConsumeTouchesWindow(s: Shell, pending: int)
    ensures var t := ConsumePrefix(s, pending); t == s.(window := t.window)
  {}

  /** FINISHED is left by reset alone. */
  lemma FinishedStaysFinished(s: Shell, op: Op)
    requires s.life.phase.Finished? && !op.DoReset?
    ensures Step(s, op).0.life.phase.Finished? && Step(s, op).0.accepted == s.accepted && Step(s, op).0.log == s.log
  {
    hide AcceptChunk, FinishParse, Through, Reserve, ConsumePrefix;
    ConsumeTouchesWindow(s, if op.DoConsume? then op.pending else 0);
  }
}
