/** Stop requests: when flags and state agree, and what the bridge contract is worth. */
module ShellStops {
  import opened Core
  import opened ShellModel
  import opened ShellRuns

  /** A pending stop request agrees with the lifecycle state. */
  predicate FlagsMatch(l: Life) {
    l.stopRequested ==> l.phase == if l.stopResumable then Suspended else Finished
  }

  lemma ActFlags(s: Shell, action: Action)
    requires FlagsMatch(s.life)
    ensures FlagsMatch(Act(s, action).life)
  {
    hide Kept;
  }

  lemma {:induction false} ActAllFlags(s: Shell, actions: seq<Action>)
    requires FlagsMatch(s.life)
    ensures FlagsMatch(ActAll(s, actions).life)
    decreases |actions|
  {
    hide Act, FlagsMatch;
    if actions != [] {
      ActAllFlags(s, actions[..|actions| - 1]);
      ActFlags(ActAll(s, actions[..|actions| - 1]), actions[|actions| - 1]);
    }
  }

  // ---- the exact condition on the bridge -----------------------------------------

  /**
    The answers after which flags and state agree: OK if no stop is pending, or an abort
    on a final chunk; SUSPENDED if no abort is pending; ERROR always.
   */
  predicate AnswerFits(inside: Life, status: Status, isFinal: bool) {
    match status
    case StatusOk => !inside.stopRequested || (isFinal && !inside.stopResumable)
    case StatusSuspended => !inside.stopRequested || inside.stopResumable
    case StatusError => true
  }

  /** Does the answer fit, in a call of `len` bytes and after the merges of a child? */
  predicate ReplyFits(inside: Shell, len: int, isFinal: bool, reply: Reply) {
    AnswerFits(inside.life, FinishChild(inside, reply.status, len, isFinal, reply).1, isFinal)
  }

  predicate FitsParse(s: Shell, input: Option<seq<byte>>, isFinal: bool, mallocOk: bool, reply: Reply) {
    match BeginParse(s, input, isFinal, mallocOk)
    case Rejected(_) => true
    case Entered(t) => ReplyFits(ActAll(Logged(t, input.value, isFinal), reply.actions), |input.value|, isFinal, reply)
  }

  predicate FitsResume(s: Shell, reply: Reply) {
    match BeginResume(s)
    case Rejected(_) => true
    case Entered(t) =>
      ReplyFits(ActAll(Logged(t, [], s.life.finalBuffer), reply.actions), 0, s.life.finalBuffer, reply)
  }

  predicate Fits(s: Shell, op: Op) {
    match op
    case DoParse(input, isFinal, mallocOk, reply) => FitsParse(s, input, isFinal, mallocOk, reply)
    case DoParseBuffer(input, isFinal, mallocOk, reply) =>
      BufferRefusal(s, input).None? ==> FitsParse(s, input, isFinal, mallocOk, reply)
    case DoResume(reply) => FitsResume(s, reply)
    case _ => true
  }

  predicate FitsRun(s: Shell, ops: seq<Op>)
    decreases ops
  {
    ops == [] || (Fits(s, ops[0]) && FitsRun(Step(s, ops[0]).0, ops[1..]))
  }

  lemma LeaveFlagsExactly(inside: Shell, len: int, isFinal: bool, reply: Reply)
    requires FlagsMatch(inside.life)
    ensures FlagsMatch(LeaveBridge(inside, len, isFinal, reply).0.life) <==> ReplyFits(inside, len, isFinal, reply)
  {}

  lemma BeginFlags(s: Shell, input: Option<seq<byte>>, isFinal: bool, mallocOk: bool)
    requires FlagsMatch(s.life)
    ensures match BeginParse(s, input, isFinal, mallocOk)
      case Rejected(t) => FlagsMatch(t.life)
      case Entered(t) => FlagsMatch(t.life) && input.Some?
  {
    hide Reserve;
    if input.Some? {
      ReserveKeepsLife(s, |input.value|, mallocOk);
    }
  }

  lemma ReserveKeepsLife(s: Shell, len: int, mallocOk: bool)
    ensures var t := Reserve(s, len, mallocOk).0; t.life == s.life.(error := t.life.error)
  {
    hide CapacityFor, NeedsAllocation;
  }

  lemma ParseFlagsExactly(s: Shell, input: Option<seq<byte>>, isFinal: bool, mallocOk: bool, reply: Reply)
    requires FlagsMatch(s.life)
    ensures FlagsMatch(Parse(s, input, isFinal, mallocOk, reply).0.life) <==>
      FitsParse(s, input, isFinal, mallocOk, reply)
  {
    hide BeginParse, ActAll, LeaveBridge, ReplyFits;
    BeginFlags(s, input, isFinal, mallocOk);
    match BeginParse(s, input, isFinal, mallocOk)
    case Rejected(_) =>
    case Entered(t) =>
      var inside := Logged(t, input.value, isFinal);
      ActAllFlags(inside, reply.actions);
      LeaveFlagsExactly(ActAll(inside, reply.actions), |input.value|, isFinal, reply);
  }

  lemma ResumeFlagsExactly(s: Shell, reply: Reply)
    requires FlagsMatch(s.life)
    requires s.life.phase.Suspended? ==> s.attached
    ensures FlagsMatch(ResumeParser(s, reply).0.life) <==> FitsResume(s, reply)
  {
    hide ActAll, LeaveBridge, ReplyFits;
    match BeginResume(s)
    case Rejected(_) =>
    case Entered(t) =>
      var inside := Logged(t, [], s.life.finalBuffer);
      ActAllFlags(inside, reply.actions);
      LeaveFlagsExactly(ActAll(inside, reply.actions), 0, s.life.finalBuffer, reply);
  }

  lemma StepFlagsExactly(s: Shell, op: Op)
    requires FlagsMatch(s.life)
    requires s.life.phase.Suspended? ==> s.attached
    ensures FlagsMatch(Step(s, op).0.life) <==> Fits(s, op)
  {
    hide Parse, ResumeParser, FitsParse, FitsResume, BufferRefusal, Reserve;
    match op
    case DoParse(input, isFinal, mallocOk, reply) => ParseFlagsExactly(s, input, isFinal, mallocOk, reply);
    case DoGetBuffer(len, mallocOk) => ReserveKeepsFlags(s, len, mallocOk);
    case DoParseBuffer(input, isFinal, mallocOk, reply) =>
      if BufferRefusal(s, input).None? {
        ParseFlagsExactly(s, input, isFinal, mallocOk, reply);
      }
    case DoResume(reply) => ResumeFlagsExactly(s, reply);
    case _ =>
  }

  lemma ReserveKeepsFlags(s: Shell, len: int, mallocOk: bool)
    ensures var l := Reserve(s, len, mallocOk).0.life;
      l.phase == s.life.phase && l.stopRequested == s.life.stopRequested && l.stopResumable == s.life.stopResumable
  {}

  lemma {:induction false} FlagsAlways(s: Shell, ops: seq<Op>, p: Shell -> bool)
    requires Sound(s) && FlagsMatch(s.life)
    requires forall t: Shell :: p(t) <==> FlagsMatch(t.life)
    ensures Always(s, ops, p) <==> FitsRun(s, ops)
    decreases ops
  {
    hide Step, Fits, FlagsMatch, WindowSound, LogMatches;
    if ops != [] {
      var t := Step(s, ops[0]).0;
      StepSound(s, ops[0]);
      StepFlagsExactly(s, ops[0]);
      if p(t) {
        FlagsAlways(t, ops[1..], p);
      }
    }
  }

  /** Flags and state agree after every call of a run, if and only if every answer of the bridge fits. */
  lemma FlagsMatchExactly(s: Shell, ops: seq<Op>)
    requires Sound(s) && FlagsMatch(s.life)
    ensures (forall k :: 0 <= k <= |ops| ==> FlagsMatch(Run(s, ops[..k]).life)) <==> FitsRun(s, ops)
  {
    hide Run, FitsRun, FlagsMatch, Sound;
    var p := (t: Shell) => FlagsMatch(t.life);
    AlwaysIsEveryPrefix(s, ops, p);
    FlagsAlways(s, ops, p);
  }

  // ---- when the guards for a pending stop are reached --------------------------------

  /** The state the two guards of `XML_StopParser` ask for. */
  predicate Pending(l: Life) {
    l.phase.Parsing? && l.stopRequested
  }

  /** The call ends, after the merges of a child, with OK on a chunk that is not final, over a stop taken. */
  predicate HidesStop(inside: Shell, len: int, isFinal: bool, reply: Reply) {
    FinishChild(inside, reply.status, len, isFinal, reply).1.StatusOk? && !isFinal && inside.life.stopRequested
  }

  lemma LeavePendingExactly(inside: Shell, len: int, isFinal: bool, reply: Reply)
    requires FlagsMatch(inside.life)
    ensures Pending(LeaveBridge(inside, len, isFinal, reply).0.life) <==> HidesStop(inside, len, isFinal, reply)
  {}

  predicate ParseHides(s: Shell, input: Option<seq<byte>>, isFinal: bool, mallocOk: bool, reply: Reply) {
    match BeginParse(s, input, isFinal, mallocOk)
    case Rejected(_) => false
    case Entered(t) => HidesStop(ActAll(Logged(t, input.value, isFinal), reply.actions), |input.value|, isFinal, reply)
  }

  predicate ResumeHides(s: Shell, reply: Reply) {
    match BeginResume(s)
    case Rejected(_) => false
    case Entered(t) =>
      HidesStop(ActAll(Logged(t, [], s.life.finalBuffer), reply.actions), 0, s.life.finalBuffer, reply)
  }

  predicate Hides(s: Shell, op: Op) {
    match op
    case DoParse(input, isFinal, mallocOk, reply) => ParseHides(s, input, isFinal, mallocOk, reply)
    case DoParseBuffer(input, isFinal, mallocOk, reply) =>
      BufferRefusal(s, input).None? && ParseHides(s, input, isFinal, mallocOk, reply)
    case DoResume(reply) => ResumeHides(s, reply)
    case _ => false
  }

  predicate NoneHides(s: Shell, ops: seq<Op>)
    decreases ops
  {
    ops == [] || (!Hides(s, ops[0]) && NoneHides(Step(s, ops[0]).0, ops[1..]))
  }

  lemma GuardPending(s: Shell, usable: bool, isFinal: bool)
    requires !Pending(s.life)
    ensures var g := Guard(s, usable, isFinal);
      if g.Some? then !Pending(g.value.life) else usable
  {}

  lemma BeginPending(s: Shell, input: Option<seq<byte>>, isFinal: bool, mallocOk: bool)
    requires !Pending(s.life)
    ensures match BeginParse(s, input, isFinal, mallocOk)
      case Rejected(t) => !Pending(t.life)
      case Entered(t) => FlagsMatch(t.life) && input.Some?
  {
    hide Reserve, Guard;
    GuardPending(s, input.Some?, isFinal);
    if input.Some? {
      ReserveKeepsLife(s, |input.value|, mallocOk);
    }
  }

  lemma ParsePendingExactly(s: Shell, input: Option<seq<byte>>, isFinal: bool, mallocOk: bool, reply: Reply)
    requires !Pending(s.life)
    ensures Pending(Parse(s, input, isFinal, mallocOk, reply).0.life) <==>
      ParseHides(s, input, isFinal, mallocOk, reply)
  {
    hide BeginParse, ActAll, LeaveBridge, HidesStop;
    BeginPending(s, input, isFinal, mallocOk);
    match BeginParse(s, input, isFinal, mallocOk)
    case Rejected(_) =>
    case Entered(t) =>
      var inside := Logged(t, input.value, isFinal);
      ActAllFlags(inside, reply.actions);
      LeavePendingExactly(ActAll(inside, reply.actions), |input.value|, isFinal, reply);
  }

  lemma ResumePendingExactly(s: Shell, reply: Reply)
    requires !Pending(s.life)
    ensures Pending(ResumeParser(s, reply).0.life) <==> ResumeHides(s, reply)
  {
    hide ActAll, LeaveBridge, HidesStop;
    match BeginResume(s)
    case Rejected(_) =>
    case Entered(t) =>
      var inside := Logged(t, [], s.life.finalBuffer);
      ActAllFlags(inside, reply.actions);
      LeavePendingExactly(ActAll(inside, reply.actions), 0, s.life.finalBuffer, reply);
  }

  lemma StepPendingExactly(s: Shell, op: Op)
    requires !Pending(s.life)
    ensures Pending(Step(s, op).0.life) <==> Hides(s, op)
  {
    hide Parse, ResumeParser, ParseHides, ResumeHides, BufferRefusal, Reserve;
    match op
    case DoParse(input, isFinal, mallocOk, reply) => ParsePendingExactly(s, input, isFinal, mallocOk, reply);
    case DoGetBuffer(len, mallocOk) => ReserveKeepsFlags(s, len, mallocOk);
    case DoParseBuffer(input, isFinal, mallocOk, reply) =>
      if BufferRefusal(s, input).None? {
        ParsePendingExactly(s, input, isFinal, mallocOk, reply);
      }
    case DoResume(reply) => ResumePendingExactly(s, reply);
    case _ =>
  }

  lemma {:induction false} PendingNever(s: Shell, ops: seq<Op>, p: Shell -> bool)
    requires !Pending(s.life)
    requires forall t: Shell :: p(t) <==> !Pending(t.life)
    ensures Always(s, ops, p) <==> NoneHides(s, ops)
    decreases ops
  {
    hide Step, Hides, Pending;
    if ops != [] {
      var t := Step(s, ops[0]).0;
      StepPendingExactly(s, ops[0]);
      if p(t) {
        PendingNever(t, ops[1..], p);
      }
    }
  }

  /**
    Over every run of a parser as it was made: neither guard for a pending stop is reached
    after any call, if and only if no call ends with OK, on a chunk that is not final, over
    a stop taken in it.
   */
  lemma GuardsReachedExactly(start: Shell, ops: seq<Op>)
    requires Created(start)
    ensures (forall k :: 0 <= k <= |ops| ==> !Pending(Run(start, ops[..k]).life)) <==> NoneHides(start, ops)
  {
    hide Run, NoneHides;
    var p := (t: Shell) => !Pending(t.life);
    AlwaysIsEveryPrefix(start, ops, p);
    PendingNever(start, ops, p);
  }

  // ---- the bridge contract --------------------------------------------------------

  /** What the bridge promises about its answer, given the state its callbacks left. */
  predicate ContractKept(inside: Life, status: Status) {
    && (status.StatusOk? ==> !inside.stopRequested)
    && (status.StatusSuspended? ==> inside.phase.Suspended?)
  }

  /** Does the bridge keep its promise in the call `XML_Parse` makes, if it makes one? */
  predicate HonestParse(s: Shell, input: Option<seq<byte>>, isFinal: bool, mallocOk: bool, reply: Reply) {
    match BeginParse(s, input, isFinal, mallocOk)
    case Rejected(_) => true
    case Entered(t) => ContractKept(ActAll(Logged(t, input.value, isFinal), reply.actions).life, reply.status)
  }

  predicate HonestResume(s: Shell, reply: Reply) {
    match BeginResume(s)
    case Rejected(_) => true
    case Entered(t) => ContractKept(ActAll(Logged(t, [], s.life.finalBuffer), reply.actions).life, reply.status)
  }

  predicate Honest(s: Shell, op: Op) {
    match op
    case DoParse(input, isFinal, mallocOk, reply) => HonestParse(s, input, isFinal, mallocOk, reply)
    case DoParseBuffer(input, isFinal, mallocOk, reply) =>
      BufferRefusal(s, input).None? ==> HonestParse(s, input, isFinal, mallocOk, reply)
    case DoResume(reply) => HonestResume(s, reply)
    case _ => true
  }

  predicate HonestRun(s: Shell, ops: seq<Op>)
    decreases ops
  {
    ops == [] || (Honest(s, ops[0]) && HonestRun(Step(s, ops[0]).0, ops[1..]))
  }

  /** Leaving an honest bridge call: the flags agree with the state again. */
  lemma LeaveFlags(inside: Shell, len: int, isFinal: bool, reply: Reply)
    requires FlagsMatch(inside.life) && ContractKept(inside.life, reply.status)
    ensures var (t, status, _) := LeaveBridge(inside, len, isFinal, reply);
      && FlagsMatch(t.life)
      && (inside.life.stopRequested ==> t.life.phase == inside.life.phase)
      && (inside.life.stopRequested && !inside.life.stopResumable ==> t.life.phase.Finished? && status.StatusError?)
  {}

  lemma HonestFits(s: Shell, op: Op)
    requires FlagsMatch(s.life) && Honest(s, op)
    ensures Fits(s, op)
  {
    hide FitsParse, HonestParse, FitsResume, HonestResume;
    match op
    case DoParse(input, isFinal, mallocOk, reply) => HonestParseFits(s, input, isFinal, mallocOk, reply);
    case DoParseBuffer(input, isFinal, mallocOk, reply) =>
      if HonestParse(s, input, isFinal, mallocOk, reply) {
        HonestParseFits(s, input, isFinal, mallocOk, reply);
      }
    case DoResume(reply) => HonestResumeFits(s, reply);
    case _ =>
  }

  lemma HonestReplyFits(inside: Shell, len: int, isFinal: bool, reply: Reply)
    requires FlagsMatch(inside.life) && ContractKept(inside.life, reply.status)
    ensures ReplyFits(inside, len, isFinal, reply)
  {}

  lemma HonestParseFits(s: Shell, input: Option<seq<byte>>, isFinal: bool, mallocOk: bool, reply: Reply)
    requires FlagsMatch(s.life) && HonestParse(s, input, isFinal, mallocOk, reply)
    ensures FitsParse(s, input, isFinal, mallocOk, reply)
  {
    hide BeginParse, ActAll, ReplyFits, ContractKept;
    BeginFlags(s, input, isFinal, mallocOk);
    match BeginParse(s, input, isFinal, mallocOk)
    case Rejected(_) =>
    case Entered(t) =>
      var inside := Logged(t, input.value, isFinal);
      ActAllFlags(inside, reply.actions);
      HonestReplyFits(ActAll(inside, reply.actions), |input.value|, isFinal, reply);
  }

  lemma HonestResumeFits(s: Shell, reply: Reply)
    requires FlagsMatch(s.life) && HonestResume(s, reply)
    ensures FitsResume(s, reply)
  {
    hide ActAll, ReplyFits, ContractKept;
    match BeginResume(s)
    case Rejected(_) =>
    case Entered(t) =>
      var inside := Logged(t, [], s.life.finalBuffer);
      ActAllFlags(inside, reply.actions);
      HonestReplyFits(ActAll(inside, reply.actions), 0, s.life.finalBuffer, reply);
  }

  /**
    Under the bridge contract, after every call of every run: a pending resumable
    stop means SUSPENDED, a pending abort means FINISHED.
   */
  lemma {:induction false} StopFlagsMatchState(s: Shell, ops: seq<Op>)
    requires Sound(s) && FlagsMatch(s.life) && HonestRun(s, ops)
    ensures FlagsMatch(Run(s, ops).life)
    decreases ops
  {
    hide Step, Honest, Fits, FlagsMatch, WindowSound, LogMatches;
    if ops != [] {
      StepSound(s, ops[0]);
      HonestFits(s, ops[0]);
      StepFlagsExactly(s, ops[0]);
      StopFlagsMatchState(Step(s, ops[0]).0, ops[1..]);
    }
  }

  /**
    The contract asks for more than answers that fit. What it adds is exactly this: OK does
    not hide an abort taken on a final chunk, and SUSPENDED is not answered out of the blue.
   */
  lemma ContractAddsExactly(inside: Life, status: Status, isFinal: bool)
    requires FlagsMatch(inside)
    ensures ContractKept(inside, status) <==>
      && AnswerFits(inside, status, isFinal)
      && !(status.StatusOk? && inside.stopRequested && !inside.stopResumable && isFinal)
      && !(status.StatusSuspended? && !inside.stopRequested && !inside.phase.Suspended?)
  {}

  /**
    Hence the two guards of `XML_StopParser` for a stop request already pending in
    PARSING are never taken, neither between calls nor in any callback of a call.
   */
  lemma PendingStopGuardsUnreachable(start: Shell, ops: seq<Op>, entering: Shell, callbacks: seq<Action>)
    requires Created(start) && HonestRun(start, ops)
    ensures var l := Run(start, ops).life; l.phase.Parsing? ==> !l.stopRequested
    ensures var l := ActAll(Entering(entering), callbacks).life; l.phase.Parsing? ==> !l.stopRequested
  {
    hide Run, HonestRun, ActAll;
    CreatedSound(start);
    StopFlagsMatchState(start, ops);
    ActAllFlags(Entering(entering), callbacks);
  }

  /**
    So after any such run a stop is taken exactly in PARSING, unless it asks to suspend
    a parameter entity, or as an abort in SUSPENDED; a stop refused changes the error
    code alone, and no second stop of the same kind is taken after the first.
   */
  lemma StopTakenExactly(start: Shell, ops: seq<Op>, resumable: bool)
    requires Created(start) && HonestRun(start, ops)
    ensures var s := Run(start, ops);
      var (t, status) := StopParser(s, resumable);
      && (status.StatusOk? <==>
            || (s.life.phase.Parsing? && !(resumable && s.isParameter))
            || (s.life.phase.Suspended? && !resumable))
      && (status.StatusOk? ==> t.life.phase == if resumable then Suspended else Finished)
      && (!status.StatusOk? ==> t == s.Failing(t.life.error) && status.StatusError?)
      && (status.StatusOk? ==> StopParser(t, resumable).1.StatusError?)
      && (start.hasParent ==> s.isParameter == start.isParameter)
  {
    hide Run, Sound;
    RunSameParser(start, ops);
    CreatedSound(start);
    StopFlagsMatchState(start, ops);
  }

  /** A bridge that answers OK after an accepted abort makes the first guard reachable. */
  lemma BrokenContractReachesGuard()
    ensures var reply := Reply([Stop(false)], StatusOk, NoError, true, true);
      var s := Run(Create(true), [DoParse(Some([]), false, true, reply)]);
      s.life.phase.Parsing? && s.life.stopRequested && !s.life.stopResumable
  {
    var reply := Reply([Stop(false)], StatusOk, NoError, true, true);
    var op := DoParse(Some([]), false, true, reply);
    var t := AcceptChunk(Create(true), [], false, true);
    assert t.Entered?;
    hide Through;
    BrokenCall(t.inside, reply);
    assert Run(Create(true), [op]) == Run(Step(Create(true), op).0, []);
  }

  lemma BrokenCall(s: Shell, reply: Reply)
    requires s.life.phase.Parsing? && !s.life.stopRequested && !s.hasParent
    requires reply == Reply([Stop(false)], StatusOk, NoError, true, true)
    ensures var t := Through(s, [], false, reply).0;
      t.life.phase.Parsing? && t.life.stopRequested && !t.life.stopResumable
  {
    var inside := Logged(s, [], false);
    assert ActAll(inside, [Stop(false)]) == Act(ActAll(inside, []), Stop(false)) by {
      assert [Stop(false)][..0] == [];
    }
  }
}
