/**
  Memory of a long run: with bounded chunks and bounded pending input, the window
  and the buffer stay bounded whatever the total input, and the window always
  holds the pending bytes and 1024 bytes of context before them.
 */
module ShellBounds {
  import opened Core
  import opened ShellModel
  import opened ShellRuns
  import opened ShellTheorems

  /** Limits of a run: chunk and request sizes, and pending bytes between calls. */
  datatype Limits = Limits(chunk: nat, pending: nat)

  /** Bytes still unparsed after `xp_consume_input_prefix(p)`; a negative `p` is ignored. */
  function PendingAfter(pending: nat, action: Action): nat {
    if action.Consume? && 0 <= action.pending then action.pending else pending
  }

  function PendingAfterAll(pending: nat, actions: seq<Action>): nat {
    if actions == [] then pending
    else PendingAfter(PendingAfterAll(pending, actions[..|actions| - 1]), actions[|actions| - 1])
  }

  /** No callback declares more bytes pending than were. */
  predicate Shrinking(pending: nat, actions: seq<Action>) {
    actions == [] ||
    (&& Shrinking(pending, actions[..|actions| - 1])
     && PendingAfterAll(pending, actions) <= PendingAfterAll(pending, actions[..|actions| - 1]))
  }

  /** How many bytes `op` commits in state `s`. */
  function Committed(s: Shell, op: Op): nat {
    var t := Step(s, op).0;
    if |t.accepted| > |s.accepted| then |t.accepted[|t.accepted| - 1].bytes| else 0
  }

  /** The callbacks that run during `op`: none when the bridge is not entered. */
  function ActionsOf(s: Shell, op: Op): seq<Action> {
    if op.DoConsume? then [Consume(op.pending)]
    else if (op.DoParse? || op.DoParseBuffer? || op.DoResume?) && |Step(s, op).0.log| > |s.log| then op.reply.actions
    else []
  }

  /** Pending bytes after `op`: what it commits is added before its callbacks run. */
  function PendingNext(s: Shell, op: Op, pending: nat): nat {
    if op.DoReset? && Reset(s, op.bridgeOk).1 then 0
    else PendingAfterAll(pending + Committed(s, op), ActionsOf(s, op))
  }

  /** Could the parser take input or a buffer request now? */
  predicate Ready(l: Life) {
    l.phase.Initialized? || l.phase.Parsing?
  }

  /** The assumptions on one call: sizes, honest pending counts, and consumption before the next input. */
  predicate Bounded(s: Shell, op: Op, pending: nat, limits: Limits) {
    && (op.DoParse? && op.input.Some? ==> |op.input.value| <= limits.chunk)
    && (op.DoParseBuffer? && op.input.Some? ==> |op.input.value| <= limits.chunk)
    && (op.DoGetBuffer? ==> op.len <= limits.chunk)
    && Shrinking(pending + Committed(s, op), ActionsOf(s, op))
    && (Ready(Step(s, op).0.life) ==> PendingNext(s, op, pending) <= limits.pending)
  }

  predicate BoundedRun(s: Shell, ops: seq<Op>, pending: nat, limits: Limits)
    decreases ops
  {
    ops == [] ||
    (Bounded(s, ops[0], pending, limits)
     && BoundedRun(Step(s, ops[0]).0, ops[1..], PendingNext(s, ops[0], pending), limits))
  }

  function PendingAt(s: Shell, ops: seq<Op>, pending: nat): nat
    decreases ops
  {
    if ops == [] then pending
    else PendingAt(Step(s, ops[0]).0, ops[1..], PendingNext(s, ops[0], pending))
  }

  /** The window holds exactly the pending bytes and up to 1024 bytes before them. */
  predicate HoldsContext(length: nat, total: nat, pending: nat) {
    pending <= total && length == Min(total, CONTEXT_BYTES + pending)
  }

  /** Largest window a run within `limits` can need. */
  function WindowLimit(limits: Limits): nat {
    CONTEXT_BYTES + limits.pending + limits.chunk
  }

  /** Context, size of the window and size of its buffer, after every call. */
  predicate WithinLimits(s: Shell, pending: nat, limits: Limits) {
    && HoldsContext(|s.window|, |Bytes(s.accepted)|, pending)
    && pending <= limits.pending + limits.chunk
    && (Ready(s.life) ==> pending <= limits.pending)
    && (s.capacity <= INITIAL_CAPACITY || s.capacity < 2 * WindowLimit(limits))
  }

  // ---- proofs ------------------------------------------------------------------

  lemma ConsumeHolds(s: Shell, action: Action, total: nat, pending: nat)
    requires HoldsContext(|s.window|, total, pending) && |s.window| <= s.capacity
    requires PendingAfter(pending, action) <= pending
    ensures HoldsContext(|Act(s, action).window|, total, PendingAfter(pending, action))
  {}

  lemma {:induction false} ActAllHolds(s: Shell, actions: seq<Action>, total: nat, pending: nat)
    requires HoldsContext(|s.window|, total, pending) && |s.window| <= s.capacity
    requires Shrinking(pending, actions)
    ensures var t := ActAll(s, actions);
      && HoldsContext(|t.window|, total, PendingAfterAll(pending, actions))
      && |t.window| <= |s.window| && t.capacity == s.capacity
      && PendingAfterAll(pending, actions) <= pending
    decreases |actions|
  {
    if actions != [] {
      var init := actions[..|actions| - 1];
      ActAllHolds(s, init, total, pending);
      ConsumeHolds(ActAll(s, init), actions[|actions| - 1], total, PendingAfterAll(pending, init));
    }
  }

  /** One bridge call on a state that has just committed its chunk. */
  lemma ThroughHolds(s: Shell, bytes: seq<byte>, isFinal: bool, reply: Reply, total: nat, pending: nat)
    requires HoldsContext(|s.window|, total, pending) && |s.window| <= s.capacity
    requires Shrinking(pending, reply.actions) && s.life.phase.Parsing?
    ensures var t := Through(s, bytes, isFinal, reply).0;
      && HoldsContext(|t.window|, total, PendingAfterAll(pending, reply.actions))
      && t.capacity == s.capacity && t.accepted == s.accepted && t.log == s.log + [Call(bytes, isFinal)]
      && PendingAfterAll(pending, reply.actions) <= pending
  {
    hide ActAll, LeaveBridge, HoldsContext;
    var inside := Logged(s, bytes, isFinal);
    ActAllHolds(inside, reply.actions, total, pending);
    InsideKeeps(inside, reply.actions);
    LeaveBridgeKeeps(ActAll(inside, reply.actions), |bytes|, isFinal, reply);
  }

  lemma ActStaysInside(s: Shell, action: Action)
    requires !s.life.phase.Initialized?
    ensures !Act(s, action).life.phase.Initialized?
  {
    hide Kept;
  }

  lemma {:induction false} InsideKeeps(s: Shell, actions: seq<Action>)
    requires !s.life.phase.Initialized?
    ensures var t := ActAll(s, actions);
      !t.life.phase.Initialized? && t.accepted == s.accepted && t.log == s.log
    decreases |actions|
  {
    hide Act;
    ActAllKeeps(s, actions);
    if actions != [] {
      InsideKeeps(s, actions[..|actions| - 1]);
      ActStaysInside(ActAll(s, actions[..|actions| - 1]), actions[|actions| - 1]);
    }
  }

  lemma AcceptHolds(s: Shell, bytes: seq<byte>, isFinal: bool, mallocOk: bool, pending: nat, limits: Limits)
    requires Sound(s) && WithinLimits(s, pending, limits) && Ready(s.life) && |bytes| <= limits.chunk
    ensures match AcceptChunk(s, bytes, isFinal, mallocOk)
      case Rejected(t) => t == s.Failing(NoMemory)
      case Entered(t) =>
        && HoldsContext(|t.window|, |Bytes(t.accepted)|, pending + |bytes|)
        && |Bytes(t.accepted)| == |Bytes(s.accepted)| + |bytes|
        && |t.window| <= t.capacity && t.life.phase.Parsing?
        && (t.capacity <= INITIAL_CAPACITY || t.capacity < 2 * WindowLimit(limits))
  {
    hide CapacityFor, NeedsAllocation, Bytes, IsCapacity, Sound;
    if RequestGranted(|s.window|, s.capacity, |bytes|, mallocOk) {
      SoundCapacity(s);
      CapacityForSound(s.capacity, |s.window| + |bytes|);
      BytesSnoc(s.accepted, Call(bytes, isFinal));
    }
  }

  /** `t` is `s` with another lifecycle, and no more able to take input. */
  predicate NoMoreReady(s: Shell, t: Shell) {
    t == s.(life := t.life) && (Ready(t.life) ==> Ready(s.life))
  }

  lemma ParseWithin(s: Shell, input: Option<seq<byte>>, isFinal: bool, mallocOk: bool, reply: Reply,
                    pending: nat, limits: Limits)
    requires Sound(s) && WithinLimits(s, pending, limits)
    requires input.Some? ==> |input.value| <= limits.chunk
    requires input.Some? && |Parse(s, input, isFinal, mallocOk, reply).0.accepted| > |s.accepted| ==>
      Shrinking(pending + |input.value|, reply.actions)
    ensures var t := Parse(s, input, isFinal, mallocOk, reply).0;
      || (NoMoreReady(s, t))
      || (&& input.Some? && t.accepted == s.accepted + [Call(input.value, isFinal)]
          && t.log == s.log + [Call(input.value, isFinal)]
          && HoldsContext(|t.window|, |Bytes(t.accepted)|, PendingAfterAll(pending + |input.value|, reply.actions))
          && PendingAfterAll(pending + |input.value|, reply.actions) <= limits.pending + limits.chunk
          && (t.capacity <= INITIAL_CAPACITY || t.capacity < 2 * WindowLimit(limits)))
  {
    hide AcceptChunk, Through, Bytes, Shrinking, PendingAfterAll, IsCapacity, LogMatches, LifeSound, WindowSound;
    match Guard(s, input.Some?, isFinal)
    case Some(_) =>
    case None =>
      AcceptHolds(s, input.value, isFinal, mallocOk, pending, limits);
      AcceptSound(s, input.value, isFinal, mallocOk);
      match AcceptChunk(s, input.value, isFinal, mallocOk)
      case Rejected(_) =>
      case Entered(t) =>
        ThroughSound(t, input.value, isFinal, reply);
        ThroughHolds(t, input.value, isFinal, reply, |Bytes(t.accepted)|, pending + |input.value|);
  }

  /** What one bounded step must establish for the next. */
  predicate StaysWithin(s: Shell, op: Op, pending: nat, limits: Limits) {
    WithinLimits(Step(s, op).0, PendingNext(s, op, pending), limits)
  }

  lemma NoChange(s: Shell, t: Shell, pending: nat, limits: Limits)
    requires WithinLimits(s, pending, limits) && NoMoreReady(s, t)
    ensures WithinLimits(t, pending, limits)
  {
    hide HoldsContext, Bytes;
  }

  lemma ParseStaysWithin(s: Shell, op: Op, pending: nat, limits: Limits)
    requires op.DoParse? || (op.DoParseBuffer? && BufferRefusal(s, op.input).None?)
    requires Sound(s) && WithinLimits(s, pending, limits) && Bounded(s, op, pending, limits)
    ensures StaysWithin(s, op, pending, limits)
  {
    hide Parse, Bytes, Shrinking, PendingAfterAll, Sound, HoldsContext;
    ParseHistory(s, op.input, op.isFinal, op.mallocOk, op.reply);
    ParseWithin(s, op.input, op.isFinal, op.mallocOk, op.reply, pending, limits);
    var t := Step(s, op).0;
    if NoMoreReady(s, t) {
      NoChange(s, t, pending, limits);
      NonePending(pending);
    }
  }

  lemma NonePending(pending: nat)
    ensures PendingAfterAll(pending, []) == pending
  {}

  lemma ResumeStaysWithin(s: Shell, op: Op, pending: nat, limits: Limits)
    requires op.DoResume?
    requires Sound(s) && WithinLimits(s, pending, limits) && Bounded(s, op, pending, limits)
    ensures StaysWithin(s, op, pending, limits)
  {
    hide Through, Bytes, Shrinking, PendingAfterAll, WindowSound, LogMatches, HoldsContext;
    NonePending(pending);
    ResumeDelivers(s, op.reply);
    match BeginResume(s)
    case Rejected(t) => NoChange(s, t, pending, limits);
    case Entered(t) =>
      SoundCapacity(s);
      ThroughHolds(t, [], s.life.finalBuffer, op.reply, |Bytes(s.accepted)|, pending);
  }

  lemma ReserveWithin(s: Shell, len: int, mallocOk: bool, limits: Limits)
    requires Sound(s) && |s.window| <= CONTEXT_BYTES + limits.pending && len <= limits.chunk
    requires s.capacity <= INITIAL_CAPACITY || s.capacity < 2 * WindowLimit(limits)
    ensures var t := Reserve(s, len, mallocOk).0;
      && t == s.(capacity := t.capacity, life := t.life) && t.life.phase == s.life.phase
      && (t.capacity <= INITIAL_CAPACITY || t.capacity < 2 * WindowLimit(limits))
  {
    hide CapacityFor, NeedsAllocation, IsCapacity, Sound;
    if RequestGranted(|s.window|, s.capacity, len, mallocOk) {
      SoundCapacity(s);
      CapacityForSound(s.capacity, |s.window| + len);
    }
  }

  lemma GetBufferStaysWithin(s: Shell, op: Op, pending: nat, limits: Limits)
    requires op.DoGetBuffer?
    requires Sound(s) && WithinLimits(s, pending, limits) && Bounded(s, op, pending, limits)
    ensures StaysWithin(s, op, pending, limits)
  {
    hide Reserve, Bytes, Sound, Shrinking;
    hide Parse, ParseBuffer, ResumeParser, StopParser, ConsumePrefix, Reset, ChildRequested;
    NonePending(pending);
    if Ready(s.life) {
      ReserveWithin(s, op.len, op.mallocOk, limits);
    }
  }

  lemma RefusedStaysWithin(s: Shell, op: Op, pending: nat, limits: Limits)
    requires op.DoParseBuffer? && BufferRefusal(s, op.input).Some?
    requires WithinLimits(s, pending, limits)
    ensures StaysWithin(s, op, pending, limits)
  {
    hide BufferRefusal, Parse, Bytes, HoldsContext;
    NonePending(pending);
    NoChange(s, Step(s, op).0, pending, limits);
  }

  lemma ConsumeStaysWithin(s: Shell, op: Op, pending: nat, limits: Limits)
    requires op.DoConsume?
    requires Sound(s) && WithinLimits(s, pending, limits) && Bounded(s, op, pending, limits)
    ensures StaysWithin(s, op, pending, limits)
  {
    hide Bytes, Sound;
    SoundCapacity(s);
    var one := [Consume(op.pending)];
    assert one[..0] == [];
    assert PendingAfterAll(pending, one) == PendingAfter(PendingAfterAll(pending, one[..0]), one[0]);
    assert PendingAfterAll(pending, one[..0]) == pending;
    ConsumeHolds(s, one[0], |Bytes(s.accepted)|, pending);
  }

  lemma StepStaysWithin(s: Shell, op: Op, pending: nat, limits: Limits)
    requires Sound(s) && WithinLimits(s, pending, limits) && Bounded(s, op, pending, limits)
    ensures StaysWithin(s, op, pending, limits)
  {
    hide StaysWithin, Bounded, Sound, WithinLimits, BufferRefusal;
    match op
    case DoParse(_, _, _, _) =>
      ParseStaysWithin(s, op, pending, limits);
    case DoGetBuffer(_, _) =>
      GetBufferStaysWithin(s, op, pending, limits);
    case DoParseBuffer(input, _, _, _) =>
      if BufferRefusal(s, input).None? {
        ParseStaysWithin(s, op, pending, limits);
      } else {
        RefusedStaysWithin(s, op, pending, limits);
      }
    case DoResume(_) =>
      ResumeStaysWithin(s, op, pending, limits);
    case DoConsume(_) =>
      ConsumeStaysWithin(s, op, pending, limits);
    case _ =>
      OtherStaysWithin(s, op, pending, limits);
  }

  lemma OtherStaysWithin(s: Shell, op: Op, pending: nat, limits: Limits)
    requires op.DoStop? || op.DoReset? || op.DoCreateChild?
    requires WithinLimits(s, pending, limits) && Bounded(s, op, pending, limits)
    ensures StaysWithin(s, op, pending, limits)
  {
    hide Shrinking;
    NonePending(pending);
  }

  lemma {:induction false} RunStaysWithin(s: Shell, ops: seq<Op>, pending: nat, limits: Limits)
    requires Sound(s) && WithinLimits(s, pending, limits) && BoundedRun(s, ops, pending, limits)
    ensures WithinLimits(Run(s, ops), PendingAt(s, ops, pending), limits)
    decreases ops
  {
    hide Step, Sound, Bounded, WithinLimits, PendingNext;
    if ops != [] {
      StepStaysWithin(s, ops[0], pending, limits);
      StepSound(s, ops[0]);
      RunStaysWithin(Step(s, ops[0]).0, ops[1..], PendingNext(s, ops[0], pending), limits);
    }
  }

  /**
    Whatever the total input of a run within `limits`: the window is never longer
    than 1024 + pending + chunk bytes, its buffer stays below twice that (or is the
    first allocation), and the window is exactly the last min(total, 1024 + pending)
    bytes of the input.
   */
  lemma MemoryIsBounded(start: Shell, ops: seq<Op>, limits: Limits)
    requires Created(start) && BoundedRun(start, ops, 0, limits)
    ensures var s := Run(start, ops);
      var total := Bytes(s.accepted);
      var kept := Min(|total|, 1024 + PendingAt(start, ops, 0));
      && s.window == Last(total, kept)
      && |s.window| <= 1024 + limits.pending + limits.chunk
      && s.capacity < Max(1025, 2 * (1024 + limits.pending + limits.chunk))
      && PendingAt(start, ops, 0) <= |s.window|
  {
    hide Run, BoundedRun, PendingAt, Sound, WithinLimits, WindowLimit, Bytes;
    CreatedSound(start);
    CreatedWithin(start, limits);
    RunSound(start, ops);
    RunStaysWithin(start, ops, 0, limits);
    WithinGives(Run(start, ops), PendingAt(start, ops, 0), limits);
  }

  lemma CreatedWithin(start: Shell, limits: Limits)
    requires Created(start)
    ensures WithinLimits(start, 0, limits)
  {}

  /** What the limits mean for a window that is the end of the input. */
  lemma WithinGives(s: Shell, pending: nat, limits: Limits)
    requires Sound(s) && WithinLimits(s, pending, limits)
    ensures var total := Bytes(s.accepted);
      var kept := Min(|total|, 1024 + pending);
      && s.window == Last(total, kept)
      && |s.window| <= 1024 + limits.pending + limits.chunk
      && s.capacity < Max(1025, 2 * (1024 + limits.pending + limits.chunk))
      && pending <= |s.window|
  {
    hide Bytes, LogMatches, LifeSound, IsCapacity;
  }
}
