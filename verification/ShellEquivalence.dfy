/**
  Parsers that differ in their buffer capacity alone: a reset parser against a
  new one, and input through `XML_GetBuffer`/`XML_ParseBuffer` against `XML_Parse`.
 */
module ShellEquivalence {
  import opened Core
  import opened ShellModel
  import opened ShellRuns

  /** Equal in everything but the capacity of the buffer. */
  predicate Same(a: Shell, b: Shell) {
    a.(capacity := 0) == b.(capacity := 0)
  }

  /** Equal but for capacity, and both own a buffer. */
  predicate SameOwned(a: Shell, b: Shell) {
    Same(a, b) && a.capacity > 0 && b.capacity > 0
  }

  lemma ActSame(a: Shell, b: Shell, action: Action)
    requires SameOwned(a, b)
    ensures SameOwned(Act(a, action), Act(b, action))
    ensures Act(a, action).capacity == a.capacity && Act(b, action).capacity == b.capacity
    ensures |Act(a, action).window| <= |a.window| && Act(a, action).accepted == a.accepted
  {
    hide Stopped;
  }

  lemma {:induction false} ActAllSame(a: Shell, b: Shell, actions: seq<Action>)
    requires SameOwned(a, b)
    ensures SameOwned(ActAll(a, actions), ActAll(b, actions))
    ensures ActAll(a, actions).capacity == a.capacity && ActAll(b, actions).capacity == b.capacity
    ensures |ActAll(a, actions).window| <= |a.window| && ActAll(a, actions).accepted == a.accepted
    decreases |actions|
  {
    hide Act, SameOwned;
    if actions != [] {
      var init := actions[..|actions| - 1];
      ActAllSame(a, b, init);
      ActSame(ActAll(a, init), ActAll(b, init), actions[|actions| - 1]);
    }
  }

  lemma ThroughSame(a: Shell, b: Shell, bytes: seq<byte>, isFinal: bool, reply: Reply)
    requires SameOwned(a, b)
    ensures var (t, st, ct) := Through(a, bytes, isFinal, reply);
      var (u, su, cu) := Through(b, bytes, isFinal, reply);
      SameOwned(t, u) && t.capacity == a.capacity && u.capacity == b.capacity && (st, ct) == (su, cu)
      && |t.window| <= |a.window| && t.accepted == a.accepted
  {
    hide ActAll;
    ActAllSame(Logged(a, bytes, isFinal), Logged(b, bytes, isFinal), reply.actions);
  }

  /** Two parsers that both get the memory they ask for accept a chunk alike. */
  lemma AcceptSame(a: Shell, b: Shell, bytes: seq<byte>, isFinal: bool, mallocA: bool, mallocB: bool)
    requires Same(a, b)
    requires mallocA || !NeedsAllocation(a.capacity, |a.window| + |bytes|)
    requires mallocB || !NeedsAllocation(b.capacity, |b.window| + |bytes|)
    ensures match (AcceptChunk(a, bytes, isFinal, mallocA), AcceptChunk(b, bytes, isFinal, mallocB))
      case (Entered(t), Entered(u)) =>
        && SameOwned(t, u) && |t.window| == |a.window| + |bytes|
        && t.capacity >= a.capacity && u.capacity >= b.capacity
        && |t.window| <= t.capacity && |t.window| <= u.capacity
        && |t.accepted| == |a.accepted| + 1
      case (Rejected(t), Rejected(u)) => Same(t, u) && t == a.Failing(NoMemory) && u == b.Failing(NoMemory)
      case _ => false
  {}

  lemma GuardSame(a: Shell, b: Shell, usable: bool, isFinal: bool)
    requires Same(a, b)
    ensures match (Guard(a, usable, isFinal), Guard(b, usable, isFinal))
      case (Some(t), Some(u)) =>
        && Same(t, u) && t.window == a.window && t.accepted == a.accepted
        && t.capacity == a.capacity && u.capacity == b.capacity
      case (None, None) => usable
      case _ => false
  {}

  lemma ParseSame(a: Shell, b: Shell, input: Option<seq<byte>>, isFinal: bool, mallocA: bool, mallocB: bool,
                  reply: Reply)
    requires Same(a, b)
    requires input.Some? ==> mallocA || !NeedsAllocation(a.capacity, |a.window| + |input.value|)
    requires input.Some? ==> mallocB || !NeedsAllocation(b.capacity, |b.window| + |input.value|)
    ensures var (t, st, ct) := Parse(a, input, isFinal, mallocA, reply);
      var (u, su, cu) := Parse(b, input, isFinal, mallocB, reply);
      && Same(t, u) && (st, ct) == (su, cu)
      && (t.accepted == a.accepted ==>
            t.window == a.window && t.capacity == a.capacity && u.capacity == b.capacity)
      && (t.accepted != a.accepted ==>
            && input.Some? && SameOwned(t, u) && |t.window| <= |a.window| + |input.value|
            && a.capacity <= t.capacity && b.capacity <= u.capacity
            && |t.window| <= t.capacity && |t.window| <= u.capacity)
  {
    hide AcceptChunk, FinishParse, NeedsAllocation, Guard;
    GuardSame(a, b, input.Some?, isFinal);
    match Guard(a, input.Some?, isFinal)
    case Some(_) =>
    case None =>
      var bytes := input.value;
      AcceptSame(a, b, bytes, isFinal, mallocA, mallocB);
      match (AcceptChunk(a, bytes, isFinal, mallocA), AcceptChunk(b, bytes, isFinal, mallocB))
      case (Entered(t), Entered(u)) => FinishSame(t, u, bytes, isFinal, reply);
      case (Rejected(t), Rejected(u)) =>
  }

  lemma FinishSame(a: Shell, b: Shell, bytes: seq<byte>, isFinal: bool, reply: Reply)
    requires SameOwned(a, b)
    ensures var (t, st, ct) := FinishParse(a, bytes, isFinal, reply);
      var (u, su, cu) := FinishParse(b, bytes, isFinal, reply);
      SameOwned(t, u) && t.capacity == a.capacity && u.capacity == b.capacity && (st, ct) == (su, cu)
      && |t.window| <= |a.window| && t.accepted == a.accepted
  {
    hide Through;
    ThroughSame(a, b, bytes, isFinal, reply);
  }

  // ---- GetBuffer and ParseBuffer simulate Parse ----------------------------

  /**
    Writing `bytes` into the region a successful `XML_GetBuffer(n)` returned and
    calling `XML_ParseBuffer` is `XML_Parse` of these bytes: same window, history,
    lifecycle, status and credit; only the capacity may differ.
   */
  lemma BufferSimulatesParse(s: Shell, n: int, bytes: seq<byte>, isFinal: bool, mallocGet: bool, mallocParse: bool,
                             reply: Reply)
    requires GetBuffer(s, n, mallocGet).1 && |bytes| <= n
    ensures var (t, st, ct) := ParseBuffer(GetBuffer(s, n, mallocGet).0, Some(bytes), isFinal, mallocParse, reply);
      var (u, su, cu) := Parse(s, Some(bytes), isFinal, true, reply);
      Same(t, u) && (st, ct) == (su, cu)
  {
    hide Parse, Grown;
    var g := GetBuffer(s, n, mallocGet).0;
    ParseSame(g, s, Some(bytes), isFinal, mallocParse, true, reply);
  }

  // ---- a reset parser and a new one -------------------------------------------

  /**
    How many bytes the caller may hand to `XML_ParseBuffer` after `op`, given how
    many it might before: what the last `XML_GetBuffer` granted, less what has
    been taken since; -1 while no buffer has been asked for.
   */
  function GrantAfter(s: Shell, op: Op, grant: int): int {
    match op
    case DoGetBuffer(len, mallocOk) => if GetBuffer(s, len, mallocOk).1 then Max(len, grant) else grant
    case DoParse(input, isFinal, mallocOk, reply) =>
      if Parse(s, input, isFinal, mallocOk, reply).0.accepted == s.accepted || input.None? then grant
      else Max(grant - |input.value|, 0)
    case DoParseBuffer(input, isFinal, mallocOk, reply) =>
      if ParseBuffer(s, input, isFinal, mallocOk, reply).0.accepted == s.accepted || input.None? then grant
      else Max(grant - |input.value|, 0)
    case DoReset(bridgeOk) => if Reset(s, bridgeOk).1 then -1 else grant
    case _ => grant
  }

  /** Allocation succeeds, and `XML_ParseBuffer` stays within the granted bytes. */
  predicate Polite(op: Op, grant: int) {
    match op
    case DoParse(_, _, mallocOk, _) => mallocOk
    case DoGetBuffer(_, mallocOk) => mallocOk
    case DoParseBuffer(input, _, _, _) => input.Some? ==> |input.value| <= grant
    case _ => true
  }

  predicate PoliteRun(s: Shell, ops: seq<Op>, grant: int)
    decreases ops
  {
    ops == [] || (Polite(ops[0], grant) && PoliteRun(Step(s, ops[0]).0, ops[1..], GrantAfter(s, ops[0], grant)))
  }

  /** What a caller sees of a run: each answer and the error code after it. */
  function Observed(s: Shell, ops: seq<Op>): seq<(Outcome, XmlError)>
    decreases ops
  {
    if ops == [] then []
    else
      var (t, outcome) := Step(s, ops[0]);
      [(outcome, t.life.error)] + Observed(t, ops[1..])
  }

  /** Both windows fit their buffers, and both parsers own at least the granted room. */
  predicate Roomy(a: Shell, b: Shell, grant: int) {
    && |a.window| <= a.capacity && |b.window| <= b.capacity
    && (grant >= 0 ==>
          && a.capacity > 0 && b.capacity > 0
          && |a.window| + grant <= a.capacity && |b.window| + grant <= b.capacity)
  }

  /** What one polite step must establish for the next. */
  predicate Alike(a: Shell, b: Shell, op: Op, grant: int) {
    var (t, ot) := Step(a, op);
    var (u, ou) := Step(b, op);
    Same(t, u) && ot == ou && Roomy(t, u, GrantAfter(a, op, grant))
  }

  lemma CapacityCovers(capacity: nat, required: int)
    ensures var c := CapacityFor(capacity, required); 0 < c && required <= c && capacity <= c
  {}

  lemma ReserveSame(a: Shell, b: Shell, len: int)
    requires Same(a, b)
    ensures var (t, ot) := Reserve(a, len, true);
      var (u, ou) := Reserve(b, len, true);
      && Same(t, u) && ot == ou && t.window == a.window && u.window == b.window
      && (!ot ==> t.capacity == a.capacity && u.capacity == b.capacity)
      && (ot ==> |a.window| + len <= t.capacity && |b.window| + len <= u.capacity && 0 < t.capacity && 0 < u.capacity)
      && a.capacity <= t.capacity && b.capacity <= u.capacity
  {
    hide CapacityFor, NeedsAllocation;
    CapacityCovers(a.capacity, |a.window| + len);
    CapacityCovers(b.capacity, |b.window| + len);
  }

  lemma GetBufferAlike(a: Shell, b: Shell, len: int, grant: int)
    requires Same(a, b) && Roomy(a, b, grant)
    ensures Alike(a, b, DoGetBuffer(len, true), grant)
  {
    hide GetBuffer, Roomy, Same, Parse, ParseBuffer, ResumeParser, StopParser, ConsumePrefix, Reset, ChildRequested;
    GetBufferSame(a, b, len, grant);
  }

  lemma GetBufferSame(a: Shell, b: Shell, len: int, grant: int)
    requires Same(a, b) && Roomy(a, b, grant)
    ensures var (t, ot) := GetBuffer(a, len, true);
      var (u, ou) := GetBuffer(b, len, true);
      Same(t, u) && ot == ou && Roomy(t, u, if ot then Max(len, grant) else grant)
  {
    hide Reserve, Same;
    SameLife(a, b);
    ReserveSame(a, b, len);
    FailSame(a, b, NoMemory);
    FailSame(a, b, ErrSuspended);
    FailSame(a, b, ErrFinished);
  }

  lemma SameLife(a: Shell, b: Shell)
    requires Same(a, b)
    ensures a.life == b.life && a.window == b.window
  {}

  lemma FailSame(a: Shell, b: Shell, code: XmlError)
    requires Same(a, b)
    ensures Same(a.Failing(code), b.Failing(code))
  {}

  lemma ParseAlike(a: Shell, b: Shell, op: Op, grant: int)
    requires op.DoParse? && Same(a, b) && Roomy(a, b, grant) && Polite(op, grant)
    ensures Alike(a, b, op, grant)
  {
    hide Parse, NeedsAllocation;
    ParseSame(a, b, op.input, op.isFinal, op.mallocOk, op.mallocOk, op.reply);
  }

  lemma ParseBufferAlike(a: Shell, b: Shell, op: Op, grant: int)
    requires op.DoParseBuffer? && Same(a, b) && Roomy(a, b, grant) && Polite(op, grant)
    ensures Alike(a, b, op, grant)
  {
    hide Parse;
    if BufferRefusal(a, op.input).None? {
      ParseSame(a, b, op.input, op.isFinal, op.mallocOk, op.mallocOk, op.reply);
    }
  }

  lemma ResumeAlike(a: Shell, b: Shell, reply: Reply, grant: int)
    requires Same(a, b) && Roomy(a, b, grant)
    requires a.life.phase.Suspended? ==> a.capacity > 0 && b.capacity > 0
    ensures Alike(a, b, DoResume(reply), grant)
  {
    hide Through;
    match BeginResume(a)
    case Rejected(_) =>
    case Entered(t) => ThroughSame(t, Entering(b), [], a.life.finalBuffer, reply);
  }

  lemma StepAlike(a: Shell, b: Shell, op: Op, grant: int)
    requires Same(a, b) && Roomy(a, b, grant) && Polite(op, grant)
    requires a.life.phase.Suspended? ==> a.capacity > 0 && b.capacity > 0
    ensures Alike(a, b, op, grant)
  {
    hide Alike;
    match op
    case DoParse(_, _, _, _) => ParseAlike(a, b, op, grant);
    case DoGetBuffer(len, _) => GetBufferAlike(a, b, len, grant);
    case DoParseBuffer(_, _, _, _) => ParseBufferAlike(a, b, op, grant);
    case DoResume(reply) => ResumeAlike(a, b, reply, grant);
    case _ => OtherAlike(a, b, op, grant);
  }

  lemma OtherAlike(a: Shell, b: Shell, op: Op, grant: int)
    requires Same(a, b) && Roomy(a, b, grant)
    requires op.DoStop? || op.DoConsume? || op.DoReset? || op.DoCreateChild?
    ensures Alike(a, b, op, grant)
  {
    hide Parse, ParseBuffer, ResumeParser, GetBuffer, Stopped;
  }

  /** Polite runs from states equal up to capacity cannot be told apart. */
  lemma {:induction false} RunAlike(a: Shell, b: Shell, ops: seq<Op>, grant: int)
    requires Same(a, b) && Roomy(a, b, grant) && Sound(a) && Sound(b) && PoliteRun(a, ops, grant)
    ensures Observed(a, ops) == Observed(b, ops) && Same(Run(a, ops), Run(b, ops))
    decreases ops
  {
    hide Step, Polite, WindowSound, LogMatches;
    if ops != [] {
      StepAlike(a, b, ops[0], grant);
      StepSound(a, ops[0]);
      StepSound(b, ops[0]);
      RunAlike(Step(a, ops[0]).0, Step(b, ops[0]).0, ops[1..], GrantAfter(a, ops[0], grant));
    }
  }

  /**
    A successful reset gives a fresh parser: every later polite run has the same
    answers, error codes and bridge calls as on a newly created parser.
   */
  lemma ResetIsFresh(start: Shell, before: seq<Op>, bridgeOk: bool, after: seq<Op>)
    requires Created(start) && Reset(Run(start, before), bridgeOk).1
    requires PoliteRun(Create(true), after, -1)
    ensures var r := Reset(Run(start, before), bridgeOk).0;
      && Observed(r, after) == Observed(Create(true), after)
      && Same(Run(r, after), Run(Create(true), after))
  {
    hide Run, Observed, PoliteRun, Sound;
    CreatedSound(start);
    CreatedSound(Create(true));
    RunSound(start, before);
    var s := Run(start, before);
    ResetSound(s, bridgeOk);
    RunAlike(Create(true), Reset(s, bridgeOk).0, after, -1);
  }

  /**
    Politeness is needed: handing bytes to `XML_ParseBuffer` right after reset is
    answered as on a new parser if and only if no input storage was retained.
   */
  lemma StorageShowsAfterReset(s: Shell, bytes: seq<byte>, isFinal: bool, reply: Reply)
    requires Sound(s) && Reset(s, true).1
    ensures var (t, st, _) := ParseBuffer(Reset(s, true).0, Some(bytes), isFinal, true, reply);
      var (u, su, _) := ParseBuffer(Create(true), Some(bytes), isFinal, true, reply);
      (st, t.life.error, t.log) == (su, u.life.error, u.log) <==> s.capacity == 0
  {
    hide Sound, ParseBuffer;
    SoundCapacity(s);
    var r := Reset(s, true).0;
    assert r == Create(true).(capacity := s.capacity);
    WithoutStorage(bytes, isFinal, reply);
    if s.capacity > 0 {
      WithStorage(r, bytes, isFinal, reply);
    }
  }

  /** A new parser has no buffer to parse. */
  lemma WithoutStorage(bytes: seq<byte>, isFinal: bool, reply: Reply)
    ensures var (u, _, _) := ParseBuffer(Create(true), Some(bytes), isFinal, true, reply);
      u.life.error == NoBuffer && u.log == []
  {
    hide Parse;
  }

  lemma WithStorage(r: Shell, bytes: seq<byte>, isFinal: bool, reply: Reply)
    requires r.capacity > 0 && r.capacity <= MAXIMUM_CAPACITY && r == Create(true).(capacity := r.capacity)
    ensures var (t, _, _) := ParseBuffer(r, Some(bytes), isFinal, true, reply);
      t.life.error != NoBuffer || t.log != []
  {
    hide Parse;
    if |bytes| <= r.capacity {
      hide ActAll;
      ParsedWithStorage(r, bytes, isFinal, reply);
    }
  }

  lemma ParsedWithStorage(r: Shell, bytes: seq<byte>, isFinal: bool, reply: Reply)
    requires 0 < r.capacity <= MAXIMUM_CAPACITY && r == Create(true).(capacity := r.capacity)
    requires |bytes| <= r.capacity
    ensures Parse(r, Some(bytes), isFinal, true, reply).0.log != []
  {
    hide ActAll, CapacityFor;
    var t := AcceptChunk(r, bytes, isFinal, true);
    ActAllKeeps(Logged(t.inside, bytes, isFinal), reply.actions);
  }
}
