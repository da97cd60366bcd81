/**
  Runs of one parser: any interleaving of its entry points, with whatever the
  environment answers. First what every reachable state satisfies.
 */
module ShellRuns {
  import opened Core
  import opened ShellModel

  /** One call on a parser, with the environment's choices inside it. */
  datatype Op =
    | DoParse(input: Option<seq<byte>>, isFinal: bool, mallocOk: bool, reply: Reply)
    | DoGetBuffer(len: int, mallocOk: bool)
    | DoParseBuffer(input: Option<seq<byte>>, isFinal: bool, mallocOk: bool, reply: Reply)
    | DoStop(resumable: bool)
    | DoResume(reply: Reply)
    | DoConsume(pending: int)
    | DoReset(bridgeOk: bool)
    | DoCreateChild(created: bool, configured: bool)

  /** What the caller sees of one call. */
  datatype Outcome = Answer(status: Status) | Pointer(given: bool) | Nothing

  function Step(s: Shell, op: Op): (Shell, Outcome) {
    match op
    case DoParse(input, isFinal, mallocOk, reply) =>
      var (t, status, _) := Parse(s, input, isFinal, mallocOk, reply); (t, Answer(status))
    case DoGetBuffer(len, mallocOk) =>
      var (t, ok) := GetBuffer(s, len, mallocOk); (t, Pointer(ok))
    case DoParseBuffer(input, isFinal, mallocOk, reply) =>
      var (t, status, _) := ParseBuffer(s, input, isFinal, mallocOk, reply); (t, Answer(status))
    case DoStop(resumable) =>
      var (t, status) := StopParser(s, resumable); (t, Answer(status))
    case DoResume(reply) =>
      var (t, status, _) := ResumeParser(s, reply); (t, Answer(status))
    case DoConsume(pending) => (ConsumePrefix(s, pending), Nothing)
    case DoReset(bridgeOk) =>
      var (t, ok) := Reset(s, bridgeOk); (t, Pointer(ok))
    case DoCreateChild(created, configured) =>
      (ChildRequested(s, created, configured), Pointer(s.attached && created && configured))
  }

  function Run(s: Shell, ops: seq<Op>): Shell
    decreases ops
  {
    if ops == [] then s else Run(Step(s, ops[0]).0, ops[1..])
  }

  // ---- what every reachable state satisfies ------------------------------

  predicate IsCapacity(c: int) {
    c == 0 || exists k :: 10 <= k <= 30 && c == Pow2(k)
  }

  /** The window is the end of everything committed, and fits its buffer. */
  predicate WindowSound(capacity: nat, window: seq<byte>, accepted: seq<Call>) {
    && IsCapacity(capacity)
    && |window| <= capacity
    && |window| <= |Bytes(accepted)|
    && window == Last(Bytes(accepted), |window|)
  }

  /**
    The bridge calls are the accepted chunks in order, with empty re-deliveries
    in between that repeat the final flag of the last accepted chunk.
   */
  predicate LogMatches(log: seq<Call>, accepted: seq<Call>) {
    if log == [] then accepted == []
    else
      var l := |log| - 1;
      var a := |accepted| - 1;
      && accepted != []
      && (|| (log[l] == accepted[a] && LogMatches(log[..l], accepted[..a]))
          || (log[l] == Call([], accepted[a].isFinal) && LogMatches(log[..l], accepted)))
  }

  predicate FinalAccepted(s: Shell) {
    s.accepted != [] && s.accepted[|s.accepted| - 1].isFinal
  }

  /** Nothing can be accepted in this state. */
  predicate Closed(l: Life) {
    l.phase.Suspended? || l.phase.Finished? || l.parseError != NoError
  }

  /** How lifecycle and history go together between calls. */
  predicate LifeSound(s: Shell) {
    && (!s.attached ==> s.accepted == [] && !s.life.phase.Suspended?)
    && (s.accepted == [] ==> !s.life.phase.Parsing? && !s.life.phase.Suspended?)
    && (s.accepted != [] ==> s.capacity > 0 && s.life.finalBuffer == s.accepted[|s.accepted| - 1].isFinal)
    && (forall i :: 0 <= i < |s.accepted| - 1 ==> !s.accepted[i].isFinal)
    && (FinalAccepted(s) ==> Closed(s.life))
  }

  predicate Sound(s: Shell) {
    && WindowSound(s.capacity, s.window, s.accepted)
    && LogMatches(s.log, s.accepted)
    && LifeSound(s)
  }

  // ---- capacities ----------------------------------------------------------

  lemma Pow2Doubles(k: nat)
    ensures Pow2(k + 1) == 2 * Pow2(k)
  {}

  lemma {:induction false} Pow2Monotone(j: nat, k: nat)
    requires j <= k
    ensures Pow2(j) <= Pow2(k)
    decreases k
  {
    if j < k {
      Pow2Monotone(j, k - 1);
    }
  }

  lemma CapacityBounds()
    ensures Pow2(10) == INITIAL_CAPACITY && Pow2(30) == MAXIMUM_CAPACITY
  {
    assert Pow2(5) == 32;
    assert Pow2(10) == 32 * Pow2(5);
    assert Pow2(15) == 32 * Pow2(10);
    assert Pow2(20) == 32 * Pow2(15);
    assert Pow2(25) == 32 * Pow2(20);
    assert Pow2(30) == 32 * Pow2(25);
  }

  /**
    The doubling loop started on a power of two stops at a power of two that is
    at most 2^30, and overshoots the request by less than a factor of two.
   */
  lemma {:induction false} GrownIsPow2(k: nat, required: int)
    requires 10 <= k <= 30 && required <= MAXIMUM_CAPACITY
    ensures IsCapacity(Grown(Pow2(k), required))
    ensures required <= Grown(Pow2(k), required) <= MAXIMUM_CAPACITY
    ensures Grown(Pow2(k), required) == Pow2(k) || Grown(Pow2(k), required) < 2 * required
    decreases 30 - k
  {
    CapacityBounds();
    Pow2Monotone(k, 30);
    if Pow2(k) < required {
      Pow2Doubles(k);
      GrownIsPow2(k + 1, required);
    }
  }

  lemma CapacityForSound(capacity: nat, required: int)
    requires IsCapacity(capacity) && 0 <= required <= MAXIMUM_CAPACITY
    ensures IsCapacity(CapacityFor(capacity, required))
    ensures 0 < CapacityFor(capacity, required) <= MAXIMUM_CAPACITY
    ensures required <= CapacityFor(capacity, required)
    ensures var c := CapacityFor(capacity, required);
      c == capacity || c == INITIAL_CAPACITY || c < 2 * required
  {
    CapacityBounds();
    if capacity == 0 {
      GrownIsPow2(10, required);
    } else {
      var k: nat :| 10 <= k <= 30 && capacity == Pow2(k);
      GrownIsPow2(k, required);
    }
  }

  // ---- what callbacks never touch -------------------------------------------

  lemma StoppedKeeps(l: Life, isParameter: bool, resumable: bool)
    ensures var t := Stopped(l, isParameter, resumable).0;
      t.parseError == l.parseError && t.finalBuffer == l.finalBuffer
  {}

  lemma ActKeeps(s: Shell, action: Action)
    ensures var t := Act(s, action);
      && t.life.parseError == s.life.parseError && t.life.finalBuffer == s.life.finalBuffer
      && t.accepted == s.accepted && t.log == s.log
  {
    hide Stopped, Kept;
    if action.Stop? {
      StoppedKeeps(s.life, s.isParameter, action.resumable);
    }
  }

  lemma {:induction false} ActAllKeeps(s: Shell, actions: seq<Action>)
    ensures var t := ActAll(s, actions);
      && t.life.parseError == s.life.parseError && t.life.finalBuffer == s.life.finalBuffer
      && t.accepted == s.accepted && t.log == s.log
    decreases |actions|
  {
    hide Act;
    if actions != [] {
      ActAllKeeps(s, actions[..|actions| - 1]);
      ActKeeps(ActAll(s, actions[..|actions| - 1]), actions[|actions| - 1]);
    }
  }

  // ---- every step keeps soundness -----------------------------------------

  /** Same parser and history, whatever happened to window and lifecycle. */
  predicate SameHistory(s: Shell, t: Shell) {
    && t.attached == s.attached && t.hasParent == s.hasParent && t.isParameter == s.isParameter
    && t.capacity == s.capacity && t.accepted == s.accepted && t.log == s.log && t.merges == s.merges
    && t.life.parseError == s.life.parseError && t.life.finalBuffer == s.life.finalBuffer
  }

  lemma ConsumeSound(s: Shell, pending: int)
    requires WindowSound(s.capacity, s.window, s.accepted)
    ensures var t := ConsumePrefix(s, pending);
      WindowSound(t.capacity, t.window, t.accepted) && SameHistory(s, t) && t.life == s.life
  {
    hide IsCapacity, Bytes;
    if s.capacity != 0 && 0 <= pending <= |s.window| {
      var keep := Kept(|s.window|, pending);
      assert Last(Last(Bytes(s.accepted), |s.window|), keep) == Last(Bytes(s.accepted), keep);
    }
  }

  lemma ActSound(s: Shell, action: Action)
    requires WindowSound(s.capacity, s.window, s.accepted) && !s.life.phase.Initialized?
    ensures var t := Act(s, action);
      WindowSound(t.capacity, t.window, t.accepted) && SameHistory(s, t) && !t.life.phase.Initialized?
  {
    hide WindowSound, ConsumePrefix;
    match action
    case Stop(_) =>
    case Consume(pending) => ConsumeSound(s, pending);
    case AskChild(_, _) =>
  }

  lemma {:induction false} ActAllSound(s: Shell, actions: seq<Action>)
    requires WindowSound(s.capacity, s.window, s.accepted) && !s.life.phase.Initialized?
    ensures var t := ActAll(s, actions);
      WindowSound(t.capacity, t.window, t.accepted) && SameHistory(s, t) && !t.life.phase.Initialized?
    decreases |actions|
  {
    if actions != [] {
      var init, last := actions[..|actions| - 1], actions[|actions| - 1];
      hide WindowSound, Act;
      ActAllSound(s, init);
      ActSound(ActAll(s, init), last);
    }
  }

  /** What `s` and the state `t` after one bridge call on it have in common. */
  predicate AfterCall(s: Shell, t: Shell, bytes: seq<byte>, isFinal: bool) {
    && t.attached == s.attached && t.hasParent == s.hasParent && t.isParameter == s.isParameter
    && t.capacity == s.capacity && t.accepted == s.accepted && t.log == s.log + [Call(bytes, isFinal)]
    && t.life.finalBuffer == s.life.finalBuffer
    && !t.life.phase.Initialized?
    && (isFinal || s.life.parseError != NoError ==> Closed(t.life))
  }

  lemma LeaveBridgeKeeps(s: Shell, len: int, isFinal: bool, reply: Reply)
    requires !s.life.phase.Initialized?
    ensures var t := LeaveBridge(s, len, isFinal, reply).0;
      && t.window == s.window && t.capacity == s.capacity && t.accepted == s.accepted && t.log == s.log
      && t.attached == s.attached && t.hasParent == s.hasParent && t.isParameter == s.isParameter
      && t.life.finalBuffer == s.life.finalBuffer && !t.life.phase.Initialized?
      && (isFinal || s.life.parseError != NoError ==> Closed(t.life))
  {}

  /** What one bridge call leaves behind, whatever the environment answers. */
  lemma ThroughSound(s: Shell, bytes: seq<byte>, isFinal: bool, reply: Reply)
    requires WindowSound(s.capacity, s.window, s.accepted) && s.life.phase.Parsing?
    ensures var t := Through(s, bytes, isFinal, reply).0;
      WindowSound(t.capacity, t.window, t.accepted) && AfterCall(s, t, bytes, isFinal)
  {
    hide ActAll, LeaveBridge, Closed, WindowSound;
    var inside := Logged(s, bytes, isFinal);
    ActAllSound(inside, reply.actions);
    LeaveBridgeKeeps(ActAll(inside, reply.actions), |bytes|, isFinal, reply);
  }

  lemma BytesSnoc(calls: seq<Call>, c: Call)
    ensures Bytes(calls + [c]) == Bytes(calls) + c.bytes
  {
    assert (calls + [c])[..|calls|] == calls;
  }

  lemma AcceptSound(s: Shell, bytes: seq<byte>, isFinal: bool, mallocOk: bool)
    requires Sound(s)
    ensures match AcceptChunk(s, bytes, isFinal, mallocOk)
      case Rejected(t) => t == s.Failing(NoMemory)
      case Entered(t) =>
        && WindowSound(t.capacity, t.window, t.accepted) && t.life.phase.Parsing? && t.capacity > 0
        && t.attached == s.attached && t.hasParent == s.hasParent && t.log == s.log
        && t.accepted == s.accepted + [Call(bytes, isFinal)]
        && t.life.parseError == s.life.parseError
  {
    hide WindowSound, AcceptChunk, LogMatches, LifeSound;
    AcceptWindow(s, bytes, isFinal, mallocOk);
  }

  lemma AcceptWindow(s: Shell, bytes: seq<byte>, isFinal: bool, mallocOk: bool)
    requires WindowSound(s.capacity, s.window, s.accepted)
    ensures match AcceptChunk(s, bytes, isFinal, mallocOk)
      case Rejected(t) => t == s.Failing(NoMemory)
      case Entered(t) =>
        && WindowSound(t.capacity, t.window, t.accepted) && t.life.phase.Parsing? && t.capacity > 0
        && t.attached == s.attached && t.hasParent == s.hasParent && t.log == s.log
        && t.accepted == s.accepted + [Call(bytes, isFinal)]
        && t.life.parseError == s.life.parseError
  {
    hide Grown, CapacityFor, NeedsAllocation, IsCapacity, LogMatches, LifeSound;
    if RequestGranted(|s.window|, s.capacity, |bytes|, mallocOk) {
      CapacityForSound(s.capacity, |s.window| + |bytes|);
      BytesSnoc(s.accepted, Call(bytes, isFinal));
      var all := Bytes(s.accepted) + bytes;
      assert s.window + bytes == Last(all, |s.window| + |bytes|);
    }
  }

  lemma LogSnoc(log: seq<Call>, accepted: seq<Call>, c: Call)
    requires LogMatches(log, accepted)
    ensures LogMatches(log + [c], accepted + [c])
    ensures accepted != [] && c == Call([], accepted[|accepted| - 1].isFinal) ==> LogMatches(log + [c], accepted)
  {
    assert (log + [c])[..|log|] == log && (accepted + [c])[..|accepted|] == accepted;
  }

  /** An accepted chunk, once the bridge has answered. */
  lemma FinishParseSound(s: Shell, t: Shell, bytes: seq<byte>, isFinal: bool, reply: Reply)
    requires Sound(s) && s.attached && !Closed(s.life)
    requires WindowSound(t.capacity, t.window, t.accepted) && t.life.phase.Parsing? && t.capacity > 0
    requires t.attached && t.log == s.log
    requires t.accepted == s.accepted + [Call(bytes, isFinal)]
    ensures Sound(FinishParse(t, bytes, isFinal, reply).0)
  {
    hide Through, WindowSound, LogMatches;
    ThroughSound(t, bytes, isFinal, reply);
    LogSnoc(s.log, s.accepted, Call(bytes, isFinal));
  }

  /** Between calls, soundness looks at the lifecycle only through `LifeSound`. */
  lemma LifeChangeSound(s: Shell, l: Life)
    requires Sound(s) && LifeSound(s.(life := l))
    ensures Sound(s.(life := l))
  {
    hide LogMatches, LifeSound, WindowSound;
  }

  lemma GuardSound(s: Shell, usable: bool, isFinal: bool)
    requires Sound(s)
    ensures match Guard(s, usable, isFinal)
      case Some(t) => Sound(t)
      case None => usable && s.attached && !Closed(s.life)
  {
    hide LogMatches, WindowSound;
    match Guard(s, usable, isFinal)
    case Some(t) => LifeChangeSound(s, t.life);
    case None =>
  }

  lemma ParseSound(s: Shell, input: Option<seq<byte>>, isFinal: bool, mallocOk: bool, reply: Reply)
    requires Sound(s)
    ensures Sound(Parse(s, input, isFinal, mallocOk, reply).0)
  {
    hide Guard, AcceptChunk, FinishParse, Sound, WindowSound, Closed;
    GuardSound(s, input.Some?, isFinal);
    if Guard(s, input.Some?, isFinal).None? {
      FailingSound(s, NoMemory);
      AcceptSound(s, input.value, isFinal, mallocOk);
      match AcceptChunk(s, input.value, isFinal, mallocOk)
      case Rejected(t) =>
      case Entered(t) => FinishParseSound(s, t, input.value, isFinal, reply);
    }
  }

  lemma ReserveSound(s: Shell, len: int, mallocOk: bool)
    requires Sound(s)
    ensures Sound(Reserve(s, len, mallocOk).0)
  {
    hide Grown, CapacityFor, NeedsAllocation, IsCapacity, LogMatches, Bytes;
    if RequestGranted(|s.window|, s.capacity, len, mallocOk) {
      CapacityForSound(s.capacity, |s.window| + len);
    }
  }

  lemma ResumeSound(s: Shell, reply: Reply)
    requires Sound(s)
    ensures Sound(ResumeParser(s, reply).0)
  {
    hide Through, LogMatches, WindowSound;
    match BeginResume(s)
    case Rejected(t) =>
    case Entered(t) =>
      ThroughSound(t, [], s.life.finalBuffer, reply);
      LogSnoc(s.log, s.accepted, Call([], s.life.finalBuffer));
  }

  lemma GetBufferSound(s: Shell, len: int, mallocOk: bool)
    requires Sound(s)
    ensures Sound(GetBuffer(s, len, mallocOk).0)
  {
    hide Sound, Reserve;
    ReserveSound(s, len, mallocOk);
    FailingSound(s, NoMemory);
    FailingSound(s, ErrSuspended);
    FailingSound(s, ErrFinished);
  }

  lemma FailingSound(s: Shell, code: XmlError)
    requires Sound(s)
    ensures Sound(s.Failing(code))
  {
    LifeChangeSound(s, s.life.(error := code));
  }

  lemma ParseBufferSound(s: Shell, input: Option<seq<byte>>, isFinal: bool, mallocOk: bool, reply: Reply)
    requires Sound(s)
    ensures Sound(ParseBuffer(s, input, isFinal, mallocOk, reply).0)
  {
    hide Sound, Parse, BufferRefusal;
    match BufferRefusal(s, input)
    case Some(code) => FailingSound(s, code);
    case None => ParseSound(s, input, isFinal, mallocOk, reply);
  }

  lemma StopSound(s: Shell, resumable: bool)
    requires Sound(s)
    ensures Sound(StopParser(s, resumable).0)
  {
    hide LogMatches, WindowSound;
    LifeChangeSound(s, Stopped(s.life, s.isParameter, resumable).0);
  }

  lemma ConsumeCallSound(s: Shell, pending: int)
    requires Sound(s)
    ensures Sound(ConsumePrefix(s, pending))
  {
    ConsumeSound(s, pending);
    hide ConsumePrefix, WindowSound, LogMatches;
  }

  lemma ChildRequestSound(s: Shell, created: bool, configured: bool)
    requires Sound(s)
    ensures Sound(ChildRequested(s, created, configured))
  {
    FailingSound(s, NotStarted);
    FailingSound(s, NoMemory);
    FailingSound(s, InvalidArgument);
    hide Sound;
  }

  /** A parser as it was made, by its user or for an external entity. */
  predicate Created(s: Shell) {
    s == Create(s.attached) || s == CreateChild(s.attached, s.isParameter)
  }

  lemma CreatedSound(s: Shell)
    requires Created(s)
    ensures Sound(s)
  {}

  lemma FreshWithStorage(capacity: nat)
    requires IsCapacity(capacity)
    ensures Sound(Create(true).(capacity := capacity))
  {
    hide IsCapacity;
  }

  lemma ResetSound(s: Shell, bridgeOk: bool)
    requires Sound(s)
    ensures Sound(Reset(s, bridgeOk).0)
  {
    hide Sound, IsCapacity;
    SoundCapacity(s);
    FreshWithStorage(s.capacity);
    FailingSound(s, NotStarted);
  }

  lemma StepSound(s: Shell, op: Op)
    requires Sound(s)
    ensures Sound(Step(s, op).0)
  {
    hide Sound, Parse, ParseBuffer, GetBuffer, StopParser, ResumeParser, ConsumePrefix, Reset, ChildRequested;
    match op
    case DoParse(input, isFinal, mallocOk, reply) => ParseSound(s, input, isFinal, mallocOk, reply);
    case DoGetBuffer(len, mallocOk) => GetBufferSound(s, len, mallocOk);
    case DoParseBuffer(input, isFinal, mallocOk, reply) => ParseBufferSound(s, input, isFinal, mallocOk, reply);
    case DoStop(resumable) => StopSound(s, resumable);
    case DoResume(reply) => ResumeSound(s, reply);
    case DoConsume(pending) => ConsumeCallSound(s, pending);
    case DoReset(bridgeOk) => ResetSound(s, bridgeOk);
    case DoCreateChild(created, configured) => ChildRequestSound(s, created, configured);
  }

  lemma {:induction false} RunSound(s: Shell, ops: seq<Op>)
    requires Sound(s)
    ensures Sound(Run(s, ops))
    decreases ops
  {
    hide Sound, Step;
    if ops != [] {
      StepSound(s, ops[0]);
      RunSound(Step(s, ops[0]).0, ops[1..]);
    }
  }

  lemma SoundCapacity(s: Shell)
    requires Sound(s)
    ensures IsCapacity(s.capacity) && s.capacity <= MAXIMUM_CAPACITY && |s.window| <= s.capacity
  {
    CapacityForSound(s.capacity, 0);
  }

  // ---- what stays for life ------------------------------------------------------

  /** Bridge and parent stay; only reset, which children do not have, touches the parameter flag. */
  predicate SameParser(s: Shell, t: Shell) {
    t.attached == s.attached && t.hasParent == s.hasParent && (t.isParameter == s.isParameter || !s.hasParent)
  }

  lemma {:induction false} ActAllSameParser(s: Shell, actions: seq<Action>)
    ensures SameParser(s, ActAll(s, actions))
    decreases |actions|
  {
    hide Stopped;
    if actions != [] {
      ActAllSameParser(s, actions[..|actions| - 1]);
    }
  }

  lemma ThroughSameParser(s: Shell, bytes: seq<byte>, isFinal: bool, reply: Reply)
    ensures SameParser(s, Through(s, bytes, isFinal, reply).0)
  {
    hide ActAll;
    ActAllSameParser(Logged(s, bytes, isFinal), reply.actions);
  }

  lemma ParseSameParser(s: Shell, input: Option<seq<byte>>, isFinal: bool, mallocOk: bool, reply: Reply)
    ensures SameParser(s, Parse(s, input, isFinal, mallocOk, reply).0)
  {
    hide Through, CapacityFor, NeedsAllocation;
    match BeginParse(s, input, isFinal, mallocOk)
    case Rejected(_) =>
    case Entered(t) => ThroughSameParser(t, input.value, isFinal, reply);
  }

  lemma ResumeSameParser(s: Shell, reply: Reply)
    ensures SameParser(s, ResumeParser(s, reply).0)
  {
    hide Through;
    match BeginResume(s)
    case Rejected(_) =>
    case Entered(t) => ThroughSameParser(t, [], s.life.finalBuffer, reply);
  }

  lemma StepSameParser(s: Shell, op: Op)
    ensures SameParser(s, Step(s, op).0)
  {
    hide Parse, ResumeParser, Stopped, CapacityFor, NeedsAllocation;
    match op
    case DoParse(input, isFinal, mallocOk, reply) => ParseSameParser(s, input, isFinal, mallocOk, reply);
    case DoParseBuffer(input, isFinal, mallocOk, reply) => ParseSameParser(s, input, isFinal, mallocOk, reply);
    case DoResume(reply) => ResumeSameParser(s, reply);
    case _ =>
  }

  lemma {:induction false} RunSameParser(s: Shell, ops: seq<Op>)
    ensures SameParser(s, Run(s, ops))
    decreases ops
  {
    hide Step;
    if ops != [] {
      StepSameParser(s, ops[0]);
      RunSameParser(Step(s, ops[0]).0, ops[1..]);
    }
  }

  // ---- all states of a run ------------------------------------------------------

  /** Does `p` hold before the run and after each of its calls? */
  predicate Always(s: Shell, ops: seq<Op>, p: Shell -> bool)
    decreases ops
  {
    p(s) && (ops == [] || Always(Step(s, ops[0]).0, ops[1..], p))
  }

  lemma {:induction false} AlwaysIsEveryPrefix(s: Shell, ops: seq<Op>, p: Shell -> bool)
    ensures Always(s, ops, p) <==> forall k :: 0 <= k <= |ops| ==> p(Run(s, ops[..k]))
    decreases ops
  {
    hide Step;
    assert ops[..0] == [];
    if ops != [] {
      var t, rest := Step(s, ops[0]).0, ops[1..];
      AlwaysIsEveryPrefix(t, rest, p);
      forall k | 1 <= k <= |ops| ensures Run(s, ops[..k]) == Run(t, rest[..k - 1]) {
        assert ops[..k][1..] == rest[..k - 1];
      }
      if Always(s, ops, p) {
        forall k | 0 <= k <= |ops| ensures p(Run(s, ops[..k])) {
          assert k > 0 ==> p(Run(t, rest[..k - 1]));
        }
      } else if p(s) {
        var j :| 0 <= j <= |rest| && !p(Run(t, rest[..j]));
        assert Run(s, ops[..j + 1]) == Run(t, rest[..j + 1 - 1]);
      }
    }
  }
}
