/**
  What each call answers and leaves behind: state, status and error code, case by case,
  and that a parser goes on taking input as long as its bridge is content.
 */
module ShellOutcomes {
  import opened Core
  import opened ShellModel
  import opened ShellRuns
  import opened ShellTheorems

  /** The call is refused: ERROR, with this code, and nothing else has changed. */
  predicate Refused(s: Shell, t: Shell, status: Status, code: XmlError) {
    status.StatusError? && t == s.Failing(code)
  }

  /** Would `XML_Parse` of usable input get to its input buffer? */
  predicate Willing(s: Shell) {
    s.attached && Open(s.life.phase) && s.life.parseError == NoError
  }

  // ---- XML_Parse -----------------------------------------------------------------------

  /** The refusals of `XML_Parse`, with their codes; the first that applies is the one given. */
  lemma ParseRefusals(s: Shell, input: Option<seq<byte>>, isFinal: bool, mallocOk: bool, reply: Reply)
    ensures var (t, status, _) := Parse(s, input, isFinal, mallocOk, reply);
      && (input.None? ==> Refused(s, t, status, InvalidArgument))
      && (input.Some? && s.life.phase.Suspended? ==> Refused(s, t, status, ErrSuspended))
      && (input.Some? && s.life.phase.Finished? ==> Refused(s, t, status, ErrFinished))
      && (input.Some? && Open(s.life.phase) && s.life.parseError != NoError ==>
            Refused(s, t, status, s.life.parseError))
  {
    hide AcceptChunk, FinishParse;
  }

  /** Without a bridge the first input ends the parser's life. */
  lemma ParseWithoutBridge(s: Shell, bytes: seq<byte>, isFinal: bool, mallocOk: bool, reply: Reply)
    requires !s.attached && Open(s.life.phase) && s.life.parseError == NoError
    ensures var (t, status, _) := Parse(s, Some(bytes), isFinal, mallocOk, reply);
      && status.StatusError? && t.life.phase.Finished? && t.life.error == NotStarted && t.life.finalBuffer == isFinal
      && t == s.(life := t.life)
  {
    hide AcceptChunk, FinishParse;
  }

  /** What the caller is told, given what the bridge answered: only a child's merges can turn OK into ERROR. */
  function Told(s: Shell, len: int, isFinal: bool, reply: Reply): Status {
    if s.hasParent && isFinal && len > 0 && reply.status.StatusOk?
       && !(reply.mergeOk && (s.isParameter ==> reply.contextOk))
    then StatusError
    else reply.status
  }

  /** The state in which a call leaves the parser when no callback asked for a stop. */
  function PhaseAfter(told: Status, isFinal: bool): Phase {
    match told
    case StatusOk => if isFinal then Finished else Parsing
    case StatusSuspended => Suspended
    case StatusError => Parsing
  }

  predicate NoStop(actions: seq<Action>) {
    forall a :: a in actions ==> !a.Stop?
  }

  /** The code on record after ERROR: the bridge's, or a failed merge's, or the callbacks', or UNEXPECTED_STATE. */
  predicate CodeTold(code: XmlError, reply: Reply) {
    && code != NoError
    && (reply.error != NoError ==> code == reply.error)
    && (reply.error == NoError && reply.status.StatusOk? ==> code == ExternalEntityHandling)
    && (reply.error == NoError && !reply.status.StatusOk? && reply.actions == [] ==> code == UnexpectedState)
  }

  /** A bridge call of `len` bytes that ended with `status`, leaving `l`. */
  predicate Concluded(s: Shell, len: int, isFinal: bool, reply: Reply, l: Life, status: Status) {
    && status == Told(s, len, isFinal, reply)
    && (!status.StatusError? ==> l.error == NoError && l.parseError == s.life.parseError)
    && (!status.StatusError? || NoStop(reply.actions) ==> l.phase == PhaseAfter(status, isFinal))
    && (status.StatusError? ==> l.error == l.parseError && CodeTold(l.error, reply))
  }

  lemma {:induction false} NoStopKeepsPhase(s: Shell, actions: seq<Action>)
    requires NoStop(actions)
    ensures ActAll(s, actions).life.phase == s.life.phase
    decreases |actions|
  {
    hide Kept;
    if actions != [] {
      var init, last := actions[..|actions| - 1], actions[|actions| - 1];
      assert last in actions && forall a :: a in init ==> a in actions;
      NoStopKeepsPhase(s, init);
    }
  }

  lemma ThroughConcludes(s: Shell, bytes: seq<byte>, isFinal: bool, reply: Reply)
    requires s.life.phase.Parsing? && s.life.error == NoError
    ensures var (t, status, _) := Through(s, bytes, isFinal, reply);
      Concluded(s, |bytes|, isFinal, reply, t.life, status)
  {
    hide ActAll;
    var before := Logged(s, bytes, isFinal);
    ActAllKeeps(before, reply.actions);
    ActAllSameParameter(before, reply.actions);
    if NoStop(reply.actions) {
      NoStopKeepsPhase(before, reply.actions);
    }
    if reply.actions == [] {
      NoActions(before);
    }
    LeaveConcludes(before, ActAll(before, reply.actions), |bytes|, isFinal, reply);
  }

  lemma NoActions(s: Shell)
    ensures ActAll(s, []) == s
  {}

  lemma {:induction false} ActAllSameParameter(s: Shell, actions: seq<Action>)
    ensures var t := ActAll(s, actions); t.hasParent == s.hasParent && t.isParameter == s.isParameter
    decreases |actions|
  {
    hide Stopped, Kept;
    if actions != [] {
      ActAllSameParameter(s, actions[..|actions| - 1]);
    }
  }

  lemma LeaveConcludes(before: Shell, inside: Shell, len: int, isFinal: bool, reply: Reply)
    requires before.life.phase.Parsing? && before.life.error == NoError
    requires inside.hasParent == before.hasParent && inside.isParameter == before.isParameter
    requires inside.life.parseError == before.life.parseError
    requires NoStop(reply.actions) ==> inside.life.phase == before.life.phase
    requires reply.actions == [] ==> inside == before
    ensures var (t, status, _) := LeaveBridge(inside, len, isFinal, reply);
      Concluded(before, len, isFinal, reply, t.life, status)
  {
    hide Settled, Concluded;
    MergeTells(inside, len, isFinal, reply);
    var (t, status, _) := FinishChild(inside, reply.status, len, isFinal, reply);
    SettledConcludes(before, t.life, status, len, isFinal, reply);
  }

  /** The merges decide what is told, and a failed one leaves its code. */
  lemma MergeTells(inside: Shell, len: int, isFinal: bool, reply: Reply)
    ensures var (t, status, _) := FinishChild(inside, reply.status, len, isFinal, reply);
      && status == Told(inside, len, isFinal, reply)
      && t.life == inside.life.(error := t.life.error)
      && t.life.error == if status == reply.status then inside.life.error else ExternalEntityHandling
  {}

  lemma SettledConcludes(before: Shell, l: Life, status: Status, len: int, isFinal: bool, reply: Reply)
    requires status == Told(before, len, isFinal, reply)
    requires l.parseError == before.life.parseError
    requires NoStop(reply.actions) ==> l.phase.Parsing?
    requires status != reply.status ==> l.error == ExternalEntityHandling
    requires status == reply.status && reply.actions == [] ==> l.error == NoError
    ensures Concluded(before, len, isFinal, reply, Settled(l, status, isFinal, reply), status)
  {}

  /** A parse that gets past its guards and its allocation is concluded as the bridge and the merges say. */
  lemma ParseConcludes(s: Shell, bytes: seq<byte>, isFinal: bool, mallocOk: bool, reply: Reply)
    requires Sound(s) && Willing(s) && Grantable(s, |bytes|, mallocOk)
    ensures var (t, status, _) := Parse(s, Some(bytes), isFinal, mallocOk, reply);
      && t.accepted == s.accepted + [Call(bytes, isFinal)] && t.log == s.log + [Call(bytes, isFinal)]
      && Concluded(s, |bytes|, isFinal, reply, t.life, status) && t.life.finalBuffer == isFinal
  {
    hide Sound, AcceptChunk, Through, Willing, Guard, Concluded, Grantable;
    WillingUnguarded(s, isFinal);
    AcceptExactly(s, bytes, isFinal, mallocOk);
    AcceptSound(s, bytes, isFinal, mallocOk);
    AcceptEnters(s, bytes, isFinal, mallocOk);
    var t := AcceptChunk(s, bytes, isFinal, mallocOk).inside;
    ThroughConcludes(t, bytes, isFinal, reply);
    ThroughKeepsHistory(t, bytes, isFinal, reply);
    ConcludedSame(t, s, bytes, isFinal, reply, Through(t, bytes, isFinal, reply).0.life, isFinal);
  }

  lemma WillingUnguarded(s: Shell, isFinal: bool)
    requires Willing(s)
    ensures Guard(s, true, isFinal).None?
  {}

  lemma AcceptEnters(s: Shell, bytes: seq<byte>, isFinal: bool, mallocOk: bool)
    ensures var entry := AcceptChunk(s, bytes, isFinal, mallocOk);
      entry.Entered? ==>
        && entry.inside.life.phase.Parsing? && entry.inside.life.error == NoError
        && entry.inside.life.parseError == s.life.parseError
        && entry.inside.hasParent == s.hasParent && entry.inside.isParameter == s.isParameter
  {
    hide CapacityFor, NeedsAllocation;
  }

  lemma ThroughKeepsHistory(s: Shell, bytes: seq<byte>, isFinal: bool, reply: Reply)
    ensures var t := Through(s, bytes, isFinal, reply).0;
      t.accepted == s.accepted && t.log == s.log + [Call(bytes, isFinal)]
  {
    hide ActAll;
    ActAllKeeps(Logged(s, bytes, isFinal), reply.actions);
  }

  lemma ConcludedSame(t: Shell, s: Shell, bytes: seq<byte>, isFinal: bool, reply: Reply, l: Life, finalBuffer: bool)
    requires t.hasParent == s.hasParent && t.isParameter == s.isParameter && t.life.parseError == s.life.parseError
    ensures forall status :: Concluded(t, |bytes|, isFinal, reply, l, status) ==>
      Concluded(s, |bytes|, isFinal, reply, l.(finalBuffer := finalBuffer), status)
  {}

  /** A resume taken in SUSPENDED is concluded in the same way, as a call of no bytes. */
  lemma ResumeConcludes(s: Shell, reply: Reply)
    requires s.attached && s.life.phase.Suspended?
    ensures var (t, status, _) := ResumeParser(s, reply);
      Concluded(s, 0, s.life.finalBuffer, reply, t.life, status)
  {
    hide Through, Concluded;
    ThroughConcludes(Entering(s), [], s.life.finalBuffer, reply);
    var l := ResumeParser(s, reply).0.life;
    ConcludedSame(Entering(s), s, [], s.life.finalBuffer, reply, l, l.finalBuffer);
  }

  // ---- progress --------------------------------------------------------------------------

  /** A quiet chunk: not final, granted its memory, answered OK. */
  lemma OkStaysWilling(s: Shell, bytes: seq<byte>, mallocOk: bool, reply: Reply)
    requires Sound(s) && Willing(s) && Grantable(s, |bytes|, mallocOk) && reply.status.StatusOk?
    ensures var (t, status, _) := Parse(s, Some(bytes), false, mallocOk, reply);
      && status.StatusOk? && Willing(t) && t.life.phase.Parsing? && Sound(t)
      && t.accepted == s.accepted + [Call(bytes, false)]
  {
    hide Sound, Parse;
    ParseSound(s, Some(bytes), false, mallocOk, reply);
    ParseConcludes(s, bytes, false, mallocOk, reply);
    ParseSameParser(s, Some(bytes), false, mallocOk, reply);
  }

  /** The chunks one after the other, each with its reply. */
  function ParsesOf(chunks: seq<seq<byte>>, replies: seq<Reply>): seq<Op>
    requires |replies| == |chunks|
  {
    if chunks == [] then []
    else [DoParse(Some(chunks[0]), false, true, replies[0])] + ParsesOf(chunks[1..], replies[1..])
  }

  function CallsOf(chunks: seq<seq<byte>>): seq<Call> {
    if chunks == [] then [] else [Call(chunks[0], false)] + CallsOf(chunks[1..])
  }

  function SizeOf(chunks: seq<seq<byte>>): nat {
    if chunks == [] then 0 else |chunks[0]| + SizeOf(chunks[1..])
  }

  lemma ParseWindow(s: Shell, bytes: seq<byte>, isFinal: bool, mallocOk: bool, reply: Reply)
    ensures |Parse(s, Some(bytes), isFinal, mallocOk, reply).0.window| <= |s.window| + |bytes|
  {
    hide Through, CapacityFor, NeedsAllocation;
    match BeginParse(s, Some(bytes), isFinal, mallocOk)
    case Rejected(_) =>
    case Entered(t) => ThroughWindow(t, bytes, isFinal, reply);
  }

  lemma ThroughWindow(s: Shell, bytes: seq<byte>, isFinal: bool, reply: Reply)
    ensures |Through(s, bytes, isFinal, reply).0.window| <= |s.window|
  {
    hide ActAll;
    ActAllWindow(Logged(s, bytes, isFinal), reply.actions);
  }

  lemma {:induction false} ActAllWindow(s: Shell, actions: seq<Action>)
    ensures |ActAll(s, actions).window| <= |s.window|
    decreases |actions|
  {
    hide Stopped;
    if actions != [] {
      ActAllWindow(s, actions[..|actions| - 1]);
    }
  }

  /**
    A willing parser whose bridge answers OK takes every chunk it is given, up to 2^30 bytes
    in all, whatever the chunks and callbacks, and is ready for more.
   */
  lemma {:induction false} ChunksAreTaken(s: Shell, chunks: seq<seq<byte>>, replies: seq<Reply>)
    requires Sound(s) && Willing(s) && |replies| == |chunks|
    requires forall r :: r in replies ==> r.status.StatusOk?
    requires |s.window| + SizeOf(chunks) <= Pow2(30)
    ensures var t := Run(s, ParsesOf(chunks, replies));
      Sound(t) && Willing(t) && t.accepted == s.accepted + CallsOf(chunks)
    decreases |chunks|
  {
    hide Sound, Willing, Parse, Pow2, Run, Step;
    if chunks == [] {
      NoRun(s);
      assert s.accepted + [] == s.accepted;
    } else {
      OneChunkIsTaken(s, chunks[0], SizeOf(chunks[1..]), replies[0]);
      var op := DoParse(Some(chunks[0]), false, true, replies[0]);
      var t := Step(s, op).0;
      assert forall r :: r in replies[1..] ==> r in replies;
      ChunksAreTaken(t, chunks[1..], replies[1..]);
      RunCons(s, op, ParsesOf(chunks[1..], replies[1..]));
      CallsCons(s.accepted, Call(chunks[0], false), CallsOf(chunks[1..]));
    }
  }

  lemma CallsCons(accepted: seq<Call>, c: Call, rest: seq<Call>)
    ensures (accepted + [c]) + rest == accepted + ([c] + rest)
  {}

  lemma NoRun(s: Shell)
    ensures Run(s, []) == s
  {}

  lemma RunCons(s: Shell, op: Op, ops: seq<Op>)
    ensures Run(s, [op] + ops) == Run(Step(s, op).0, ops)
  {
    hide Step;
    assert ([op] + ops)[1..] == ops;
  }

  lemma OneChunkIsTaken(s: Shell, bytes: seq<byte>, more: nat, reply: Reply)
    requires Sound(s) && Willing(s) && reply.status.StatusOk? && |s.window| + |bytes| + more <= Pow2(30)
    ensures var (t, outcome) := Step(s, DoParse(Some(bytes), false, true, reply));
      && outcome == Answer(StatusOk) && Sound(t) && Willing(t)
      && t.accepted == s.accepted + [Call(bytes, false)] && |t.window| + more <= Pow2(30)
  {
    hide Sound, Willing, Parse, Pow2;
    OkStaysWilling(s, bytes, true, reply);
    ParseWindow(s, bytes, false, true, reply);
    assert StatusOk == Parse(s, Some(bytes), false, true, reply).1;
  }

  /** A parser as it was made, with a bridge, is willing. */
  lemma CreatedIsWilling(s: Shell)
    requires Created(s) && s.attached
    ensures Sound(s) && Willing(s) && s.window == []
  {}

  // ---- the other entry points --------------------------------------------------------------

  /** A new parser has seen nothing and reports no error, or NOT_STARTED without a bridge. */
  lemma CreatedReports(s: Shell)
    requires Created(s)
    ensures s.life.phase.Initialized? && s.life.error == (if s.attached then NoError else NotStarted)
    ensures s.life.parseError == NoError && !s.life.finalBuffer && s.accepted == [] && s.log == []
  {}

  /** The codes `XML_StopParser` leaves, for a parser with no stop already pending in PARSING. */
  lemma StopCodes(s: Shell, resumable: bool)
    requires s.life.phase.Parsing? ==> !s.life.stopRequested
    ensures var (t, status) := StopParser(s, resumable);
      && (s.life.phase.Initialized? ==> Refused(s, t, status, NotStarted))
      && (s.life.phase.Finished? ==> Refused(s, t, status, ErrFinished))
      && (s.life.phase.Suspended? && resumable ==> Refused(s, t, status, ErrSuspended))
      && (s.life.phase.Parsing? && resumable && s.isParameter ==> Refused(s, t, status, SuspendPe))
      && (status.StatusOk? ==>
            && t.life.error == (if resumable then NoError else Aborted)
            && t.life.stopRequested && t.life.stopResumable == resumable
            && t == s.(life := t.life) && t.life.parseError == s.life.parseError
            && t.life.finalBuffer == s.life.finalBuffer)
  {}

  /** A stop pending in PARSING, which only a bridge that breaks its contract can leave, refuses another. */
  lemma PendingStopCodes(s: Shell, resumable: bool)
    requires s.life.phase.Parsing? && s.life.stopRequested
    ensures var (t, status) := StopParser(s, resumable);
      && (!s.life.stopResumable ==> Refused(s, t, status, ErrFinished))
      && (s.life.stopResumable && resumable ==> Refused(s, t, status, ErrSuspended))
      && (s.life.stopResumable && !resumable ==>
            status.StatusOk? && t.life.phase.Finished? && t.life.error == Aborted)
  {}

  /** The codes of a refused `XML_GetBuffer`. */
  lemma GetBufferCodes(s: Shell, len: int, mallocOk: bool)
    ensures var (t, ok) := GetBuffer(s, len, mallocOk);
      && (len < 0 ==> !ok && t == s.Failing(NoMemory))
      && (0 <= len && s.life.phase.Suspended? ==> !ok && t == s.Failing(ErrSuspended))
      && (0 <= len && s.life.phase.Finished? ==> !ok && t == s.Failing(ErrFinished))
  {
    hide Reserve;
  }

  /** The codes of `XML_ParseBuffer`; a call that is not refused is the one of `XML_Parse`. */
  lemma ParseBufferCodes(s: Shell, input: Option<seq<byte>>, isFinal: bool, mallocOk: bool, reply: Reply)
    requires Sound(s)
    ensures var (t, status, credited) := ParseBuffer(s, input, isFinal, mallocOk, reply);
      && (input.None? ==> Refused(s, t, status, InvalidArgument))
      && (input.Some? && s.life.phase.Suspended? ==> Refused(s, t, status, ErrSuspended))
      && (input.Some? && s.life.phase.Finished? ==> Refused(s, t, status, ErrFinished))
      && (input.Some? && Open(s.life.phase) && s.capacity == 0 ==> Refused(s, t, status, NoBuffer))
      && (input.Some? && Open(s.life.phase) && s.capacity > 0 && |input.value| > s.capacity - |s.window| ==>
            Refused(s, t, status, InvalidArgument))
      && (input.Some? && Open(s.life.phase) && s.capacity > 0 && |input.value| <= s.capacity - |s.window| ==>
            (t, status, credited) == Parse(s, input, isFinal, mallocOk, reply))
  {
    hide Parse, WindowSound, LogMatches;
  }

  /** Without a bridge, which no suspended parser is, a resume would end the parser's life. */
  lemma ResumeWithoutBridge(s: Shell, reply: Reply)
    requires s.life.phase.Suspended? && !s.attached
    ensures var (t, status, _) := ResumeParser(s, reply);
      && status.StatusError? && t == s.(life := t.life)
      && t.life.phase.Finished? && t.life.error == NotStarted
    ensures !Sound(s)
  {
    hide Through, WindowSound, LogMatches;
  }

  /**
    `xp_consume_input_prefix` keeps exactly the pending bytes and up to 1024 bytes before
    them; a count that is negative or larger than the window changes nothing.
   */
  lemma ConsumeExactly(s: Shell, pending: int)
    requires |s.window| <= s.capacity
    ensures ConsumePrefix(s, pending) ==
      if 0 <= pending <= |s.window| then s.(window := Last(s.window, Min(|s.window|, 1024 + pending))) else s
  {
    assert s.window == [] ==> Last(s.window, 0) == s.window;
  }

  /** A resume elsewhere than in SUSPENDED is refused. */
  lemma ResumeRefused(s: Shell, reply: Reply)
    ensures var (t, status, _) := ResumeParser(s, reply);
      !s.life.phase.Suspended? ==> Refused(s, t, status, NotSuspended)
  {
    hide Through;
  }

  /** Reset refuses children, parsers without a bridge, and when the bridge does; only the second leaves a code. */
  lemma ResetCodes(s: Shell, bridgeOk: bool)
    ensures var (t, ok) := Reset(s, bridgeOk);
      && (ok <==> !s.hasParent && s.attached && bridgeOk)
      && (!ok ==> t == if !s.hasParent && !s.attached then s.Failing(NotStarted) else s)
      && (ok ==> Created(t.(capacity := 0)) && t.attached && !t.hasParent && t.capacity == s.capacity)
  {}

  /** The codes a failed request for a child leaves in the parent. */
  lemma ChildCodes(s: Shell, created: bool, configured: bool)
    ensures var t := ChildRequested(s, created, configured);
      && (s.attached && created && configured ==> t == s)
      && (!s.attached ==> t == s.Failing(NotStarted))
      && (s.attached && !created ==> t == s.Failing(NoMemory))
      && (s.attached && created && !configured ==> t == s.Failing(InvalidArgument))
  {}
}
