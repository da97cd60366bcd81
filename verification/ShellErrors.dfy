/** Parse errors are recorded, repeated, and kept: how long, exactly. */
module ShellErrors {
  import opened Core
  import opened ShellModel
  import opened ShellRuns
  import opened ShellTheorems

  /** An ERROR from the bridge leaves a code behind, the same in `errorCode` and `parseErrorCode`. */
  lemma ErrorIsRecorded(s: Shell, input: Option<seq<byte>>, isFinal: bool, mallocOk: bool, reply: Reply)
    requires Sound(s)
    ensures var (t, status, _) := Parse(s, input, isFinal, mallocOk, reply);
      status.StatusError? && t.log != s.log ==> t.life.error == t.life.parseError != NoError
  {
    hide ActAll, Sound, Reserve;
    GuardHistory(s, input.Some?, isFinal);
    if Guard(s, input.Some?, isFinal).None? {
      AcceptSound(s, input.value, isFinal, mallocOk);
    }
  }

  /** With a parse error on record, `XML_Parse` has no effect but its error code. */
  lemma ParseRefusesAfterError(s: Shell, input: Option<seq<byte>>, isFinal: bool, mallocOk: bool, reply: Reply)
    requires s.life.parseError != NoError
    ensures var (t, status, _) := Parse(s, input, isFinal, mallocOk, reply);
      && t == s.Failing(t.life.error) && status.StatusError?
      && (input.Some? && Open(s.life.phase) ==> t.life.error == s.life.parseError)
  {
    hide AcceptChunk, FinishParse, Guard;
    GuardAfterError(s, input.Some?, isFinal);
  }

  lemma GuardAfterError(s: Shell, usable: bool, isFinal: bool)
    requires s.life.parseError != NoError
    ensures var g := Guard(s, usable, isFinal);
      && g.Some? && g.value == s.Failing(g.value.life.error)
      && (usable && Open(s.life.phase) ==> g.value.life.error == s.life.parseError)
  {}

  /** Neither the parse error nor a history has changed. */
  predicate Unmoved(s: Shell, t: Shell) {
    t.life.parseError == s.life.parseError && t.accepted == s.accepted && t.log == s.log
  }

  /** A resume goes through to the bridge in this state; elsewhere it is refused. */
  predicate ResumeTaken(s: Shell, op: Op) {
    op.DoResume? && s.life.phase.Suspended?
  }

  lemma StepAfterError(s: Shell, op: Op)
    requires Sound(s) && s.life.parseError != NoError && !op.DoReset?
    ensures var t := Step(s, op).0;
      && t.life.parseError != NoError && t.accepted == s.accepted
      && (!ResumeTaken(s, op) ==> Unmoved(s, t))
  {
    hide Parse, ParseBuffer, GetBuffer, StopParser, ConsumePrefix, ChildRequested, ResumeParser, Sound;
    match op
    case DoParse(input, isFinal, mallocOk, reply) => ParseRefusesAfterError(s, input, isFinal, mallocOk, reply);
    case DoParseBuffer(input, isFinal, mallocOk, reply) =>
      BufferRefusesAfterError(s, input, isFinal, mallocOk, reply);
    case DoGetBuffer(len, mallocOk) => GetBufferUnmoved(s, len, mallocOk);
    case DoConsume(pending) => ConsumeTouchesWindow(s, pending);
    case DoResume(reply) => ResumeAfterError(s, reply);
    case DoStop(resumable) => StopUnmoved(s, resumable);
    case DoCreateChild(created, configured) => ChildUnmoved(s, created, configured);
  }

  lemma BufferRefusesAfterError(s: Shell, input: Option<seq<byte>>, isFinal: bool, mallocOk: bool, reply: Reply)
    requires s.life.parseError != NoError
    ensures Unmoved(s, ParseBuffer(s, input, isFinal, mallocOk, reply).0)
  {
    hide Parse;
    ParseRefusesAfterError(s, input, isFinal, mallocOk, reply);
  }

  lemma GetBufferUnmoved(s: Shell, len: int, mallocOk: bool)
    ensures Unmoved(s, GetBuffer(s, len, mallocOk).0)
  {
    hide Reserve;
    ReserveKeepsHistory(s, len, mallocOk);
  }

  lemma StopUnmoved(s: Shell, resumable: bool)
    ensures Unmoved(s, StopParser(s, resumable).0)
  {}

  lemma ChildUnmoved(s: Shell, created: bool, configured: bool)
    ensures Unmoved(s, ChildRequested(s, created, configured))
  {}

  lemma ReserveKeepsHistory(s: Shell, len: int, mallocOk: bool)
    ensures Unmoved(s, Reserve(s, len, mallocOk).0)
  {
    hide CapacityFor, NeedsAllocation;
  }

  /** The error code the callbacks of a resume taken in this state leave, before the bridge answers. */
  function CallbackError(s: Shell, actions: seq<Action>): XmlError {
    ActAll(Logged(Entering(s), [], s.life.finalBuffer), actions).life.error
  }

  /** The code a resume taken in SUSPENDED has on record afterwards. */
  function CodeAfterResume(s: Shell, reply: Reply): XmlError {
    if reply.status.StatusError?
    then ParseErrorOf(CallbackError(s, reply.actions), reply)
    else s.life.parseError
  }

  lemma ResumeAfterError(s: Shell, reply: Reply)
    requires Sound(s) && s.life.parseError != NoError
    ensures var t := ResumeParser(s, reply).0;
      && t.life.parseError != NoError && t.accepted == s.accepted
      && (!s.life.phase.Suspended? ==> Unmoved(s, t))
      && (s.life.phase.Suspended? ==> t.life.parseError == CodeAfterResume(s, reply))
  {
    hide WindowSound, LogMatches, ActAll;
    match BeginResume(s)
    case Rejected(_) =>
    case Entered(t) => ActAllKeeps(Logged(t, [], s.life.finalBuffer), reply.actions);
  }

  /** A resume keeps the code whatever the bridge may answer, if and only if it is not taken in SUSPENDED. */
  lemma ResumeKeepsCodeExactly(s: Shell)
    requires Sound(s) && s.life.parseError != NoError
    ensures (forall reply :: ResumeParser(s, reply).0.life.parseError == s.life.parseError) <==>
      !s.life.phase.Suspended?
  {
    hide ResumeParser, Sound;
    if s.life.phase.Suspended? {
      var other := if s.life.parseError == Syntax then InvalidToken else Syntax;
      var reply := Reply([], StatusError, other, true, true);
      ResumeAfterError(s, reply);
      assert ResumeParser(s, reply).0.life.parseError != s.life.parseError;
    } else {
      forall reply ensures ResumeParser(s, reply).0.life.parseError == s.life.parseError {
        ResumeAfterError(s, reply);
      }
    }
  }

  /**
    Does the call leave the recorded code alone? A resume taken does if the bridge does not
    answer ERROR, or reports this very code, or reports none where the callbacks left this
    code, or none where they left none and the code is UNEXPECTED_STATE.
   */
  predicate KeepsCode(s: Shell, op: Op) {
    ResumeTaken(s, op) && op.reply.status.StatusError? ==>
      var left := CallbackError(s, op.reply.actions);
      || op.reply.error == s.life.parseError
      || (op.reply.error == NoError && left == s.life.parseError)
      || (op.reply.error == NoError && left == NoError && s.life.parseError == UnexpectedState)
  }

  predicate KeepsCodeRun(s: Shell, ops: seq<Op>)
    decreases ops
  {
    ops == [] || (KeepsCode(s, ops[0]) && KeepsCodeRun(Step(s, ops[0]).0, ops[1..]))
  }

  predicate NoResumeTaken(s: Shell, ops: seq<Op>)
    decreases ops
  {
    ops == [] || (!ResumeTaken(s, ops[0]) && NoResumeTaken(Step(s, ops[0]).0, ops[1..]))
  }

  /**
    A parse error is never forgotten: until reset no chunk is accepted and no byte
    reaches the bridge again, and until a resume is taken in SUSPENDED the code and
    the bridge calls stay what they were.
   */
  lemma {:induction false} ErrorIsSticky(s: Shell, ops: seq<Op>)
    requires Sound(s) && s.life.parseError != NoError
    requires forall op :: op in ops ==> !op.DoReset?
    ensures var t := Run(s, ops);
      && t.life.parseError != NoError && t.accepted == s.accepted && Bytes(t.log) == Bytes(s.log)
    ensures NoResumeTaken(s, ops) ==> Unmoved(s, Run(s, ops))
    decreases ops
  {
    hide Step, WindowSound, LifeSound, ResumeTaken;
    RunSound(s, ops);
    LogBytes(Run(s, ops).log, Run(s, ops).accepted);
    LogBytes(s.log, s.accepted);
    hide LogMatches, Bytes;
    if ops != [] {
      StepSound(s, ops[0]);
      StepAfterError(s, ops[0]);
      ErrorIsSticky(Step(s, ops[0]).0, ops[1..]);
    }
  }

  lemma StepKeepsCodeExactly(s: Shell, op: Op)
    requires Sound(s) && s.life.parseError != NoError && !op.DoReset?
    ensures Step(s, op).0.life.parseError == s.life.parseError <==> KeepsCode(s, op)
  {
    hide Parse, ParseBuffer, GetBuffer, StopParser, ConsumePrefix, ChildRequested, ResumeParser, Sound, ActAll;
    StepAfterError(s, op);
    if op.DoResume? {
      ResumeAfterError(s, op.reply);
    }
  }

  /** Over whole runs: the code is the same after every call, if and only if every call keeps it. */
  lemma CodeKeptExactly(s: Shell, ops: seq<Op>)
    requires Sound(s) && s.life.parseError != NoError
    requires forall op :: op in ops ==> !op.DoReset?
    ensures (forall k :: 0 <= k <= |ops| ==> Run(s, ops[..k]).life.parseError == s.life.parseError) <==>
      KeepsCodeRun(s, ops)
  {
    hide Sound, Run, KeepsCodeRun;
    var same := (t: Shell) => t.life.parseError == s.life.parseError;
    AlwaysIsEveryPrefix(s, ops, same);
    CodeKeptAlways(s, ops, s.life.parseError, same);
  }

  lemma {:induction false} CodeKeptAlways(s: Shell, ops: seq<Op>, code: XmlError, same: Shell -> bool)
    requires Sound(s) && s.life.parseError == code != NoError
    requires forall op :: op in ops ==> !op.DoReset?
    requires forall t: Shell :: same(t) <==> t.life.parseError == code
    ensures Always(s, ops, same) <==> KeepsCodeRun(s, ops)
    decreases ops
  {
    hide Sound, Step, KeepsCode;
    if ops != [] {
      var t := Step(s, ops[0]).0;
      StepSound(s, ops[0]);
      StepKeepsCodeExactly(s, ops[0]);
      if same(t) {
        CodeKeptAlways(t, ops[1..], code, same);
      }
    }
  }

  /** A resume taken can replace the code: the resumed bridge reports another error. */
  lemma ResumeMayReplaceError()
    ensures var s := Run(Create(true), [
        DoParse(Some([]), false, true, Reply([Stop(true)], StatusError, InvalidToken, true, true)),
        DoResume(Reply([], StatusError, PartialChar, true, true))]);
      s.life.parseError == PartialChar
  {
    var first := DoParse(Some([]), false, true, Reply([Stop(true)], StatusError, InvalidToken, true, true));
    var second := DoResume(Reply([], StatusError, PartialChar, true, true));
    var s := Step(Create(true), first).0;
    SuspendedWithError(first.reply);
    assert Run(Create(true), [first, second]) == Run(s, [second]) == Run(Step(s, second).0, []);
  }

  lemma SuspendedWithError(reply: Reply)
    requires reply == Reply([Stop(true)], StatusError, InvalidToken, true, true)
    ensures var t := Parse(Create(true), Some([]), false, true, reply).0;
      t.life.phase.Suspended? && t.attached && !t.hasParent
  {
    var t := AcceptChunk(Create(true), [], false, true);
    assert t.Entered?;
    var inside := Logged(t.inside, [], false);
    assert ActAll(inside, [Stop(true)]) == Act(ActAll(inside, []), Stop(true)) by {
      assert [Stop(true)][..0] == [];
    }
  }
}
