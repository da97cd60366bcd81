/**
  Parsers and their external-entity children as one state machine. A call on one
  parser is open from `Begin` to `End`; meanwhile its callbacks act on it, and
  any other parser, its children included, may be created, fed, stopped or reset.
 */
module ChildForest {
  import opened Core
  import opened ShellModel
  import opened ShellRuns

  /** The bridge call a parser is inside, if any. */
  datatype Activity = Idle | InParse(bytes: seq<byte>, isFinal: bool) | InResume

  /**
    One parser of the forest. `count` is `externalChildParseCount`; `finished` is
    history: the children whose final, non-empty `XML_Parse` returned OK since
    this parser was last reset.
   */
  datatype Member = Member(shell: Shell, parent: Option<nat>, activity: Activity, count: nat, finished: set<nat>)

  type World = seq<Member>

  datatype Event =
    | MakeRoot(attached: bool)
    | MakeChild(of: nat, attached: bool, isParameter: bool, created: bool, configured: bool)
    | Begin(id: nat, input: Option<seq<byte>>, isFinal: bool, mallocOk: bool)
    | BeginBuffer(id: nat, input: Option<seq<byte>>, isFinal: bool, mallocOk: bool)
    | Resume(id: nat)
    | Callback(id: nat, action: Action)
    | End(id: nat, reply: Reply)
    | Request(id: nat, len: int, mallocOk: bool)
    | ResetParser(id: nat, bridgeOk: bool)

  /** Calls need an idle parser, callbacks of a call need it open; stops may come at any time. */
  predicate Enabled(w: World, e: Event) {
    match e
    case MakeRoot(_) => true
    case MakeChild(of, _, _, _, _) => of < |w|
    case Callback(id, action) => id < |w| && !action.AskChild?
    case End(id, _) => id < |w| && !w[id].activity.Idle?
    case _ => e.id < |w| && w[e.id].activity.Idle?
  }

  function Enter(m: Member, entry: Entry, activity: Activity): Member {
    match entry
    case Rejected(t) => m.(shell := t)
    case Entered(t) => m.(shell := t, activity := activity)
  }

  function NewMember(shell: Shell, parent: Option<nat>): Member {
    Member(shell, parent, Idle, 0, {})
  }

  /** The parser leaves the bridge: its own state, the status returned, and the credit given. */
  function Leave(m: Member, reply: Reply): (Member, Status, bool)
    requires !m.activity.Idle?
  {
    match m.activity
    case InParse(bytes, isFinal) =>
      var (t, status, credited) := LeaveBridge(m.shell, |bytes|, isFinal, reply);
      (m.(shell := t.(life := t.life.(finalBuffer := isFinal)), activity := Idle), status, credited)
    case InResume =>
      var (t, status, credited) := LeaveBridge(m.shell, 0, m.shell.life.finalBuffer, reply);
      (m.(shell := t, activity := Idle), status, credited)
  }

  /** Did this call count as the child's finishing parse, as its caller sees it? */
  predicate Finishes(m: Member, status: Status) {
    m.activity.InParse? && m.activity.isFinal && m.activity.bytes != [] && status.StatusOk?
  }

  /** `p` after its child `id` got (or did not get) the credit, and finished (or did not). */
  function Credit(p: Member, id: nat, credited: bool, finishes: bool): Member {
    p.(count := if credited then p.count + 1 else p.count,
       finished := if finishes then p.finished + {id} else p.finished)
  }

  function Next(w: World, e: Event): World
    requires Enabled(w, e)
  {
    match e
    case MakeRoot(attached) => w + [NewMember(Create(attached), None)]
    case MakeChild(of, attached, isParameter, created, configured) =>
      var p := w[of];
      var v := w[of := p.(shell := ChildRequested(p.shell, created, configured))];
      if p.shell.attached && created && configured
      then v + [NewMember(CreateChild(attached, isParameter), Some(of))]
      else v
    case Begin(id, input, isFinal, mallocOk) =>
      w[id := Enter(w[id], Logging(BeginParse(w[id].shell, input, isFinal, mallocOk), input, isFinal),
                    InParse(if input.Some? then input.value else [], isFinal))]
    case BeginBuffer(id, input, isFinal, mallocOk) =>
      (match BufferRefusal(w[id].shell, input)
       case Some(code) => w[id := w[id].(shell := w[id].shell.Failing(code))]
       case None =>
         w[id := Enter(w[id], Logging(BeginParse(w[id].shell, input, isFinal, mallocOk), input, isFinal),
                       InParse(if input.Some? then input.value else [], isFinal))])
    case Resume(id) =>
      w[id := Enter(w[id], Logging(BeginResume(w[id].shell), Some([]), w[id].shell.life.finalBuffer), InResume)]
    case Callback(id, action) => w[id := w[id].(shell := Act(w[id].shell, action))]
    case End(id, reply) =>
      var (m, status, credited) := Leave(w[id], reply);
      var v := w[id := m];
      if m.parent.Some? && m.parent.value < |v|
      then v[m.parent.value := Credit(v[m.parent.value], id, credited, Finishes(w[id], status))]
      else v
    case Request(id, len, mallocOk) => w[id := w[id].(shell := GetBuffer(w[id].shell, len, mallocOk).0)]
    case ResetParser(id, bridgeOk) =>
      var (t, ok) := Reset(w[id].shell, bridgeOk);
      w[id := w[id].(shell := t, count := if ok then 0 else w[id].count, finished := if ok then {} else w[id].finished)]
  }

  /** The bridge sees the bytes as the call is entered. */
  function Logging(entry: Entry, input: Option<seq<byte>>, isFinal: bool): Entry {
    if entry.Entered? && input.Some? then Entered(Logged(entry.inside, input.value, isFinal)) else entry
  }

  /** A schedule: every event is enabled when its turn comes. */
  predicate Schedule(w: World, events: seq<Event>)
    decreases events
  {
    events == [] || (Enabled(w, events[0]) && Schedule(Next(w, events[0]), events[1..]))
  }

  function After(w: World, events: seq<Event>): World
    requires Schedule(w, events)
    decreases events
  {
    if events == [] then w else After(Next(w, events[0]), events[1..])
  }

  // ---- what one parser keeps --------------------------------------------------

  /** No chunk but the last accepted one is final. */
  predicate OnlyLastFinal(accepted: seq<Call>) {
    forall i :: 0 <= i < |accepted| - 1 ==> !accepted[i].isFinal
  }

  /** A parser between calls. */
  predicate IdleSound(s: Shell) {
    && LifeSound(s) && s.merges <= 1 && (s.merges > 0 ==> FinalAccepted(s))
  }

  /** A parser inside a call. */
  predicate OpenSound(s: Shell) {
    && s.attached && s.capacity > 0 && !s.life.phase.Initialized? && s.accepted != [] && OnlyLastFinal(s.accepted)
  }

  predicate MemberSound(m: Member) {
    match m.activity
    case Idle => IdleSound(m.shell)
    case InParse(bytes, isFinal) =>
      && OpenSound(m.shell) && m.shell.merges == 0
      && m.shell.accepted[|m.shell.accepted| - 1] == Call(bytes, isFinal)
    case InResume =>
      && OpenSound(m.shell) && m.shell.merges <= 1 && (m.shell.merges > 0 ==> FinalAccepted(m.shell))
      && m.shell.life.finalBuffer == m.shell.accepted[|m.shell.accepted| - 1].isFinal
  }

  lemma CallbackKeeps(m: Member, action: Action)
    requires MemberSound(m)
    ensures MemberSound(m.(shell := Act(m.shell, action)))
  {}

  lemma AcceptOpens(s: Shell, bytes: seq<byte>, isFinal: bool, mallocOk: bool)
    requires IdleSound(s) && s.attached && !Closed(s.life)
    ensures match AcceptChunk(s, bytes, isFinal, mallocOk)
      case Rejected(t) => IdleSound(t)
      case Entered(t) => MemberSound(Member(t, None, InParse(bytes, isFinal), 0, {}))
  {
    hide CapacityFor, NeedsAllocation;
    CapacityPositive(s.capacity, |s.window| + |bytes|);
    assert !FinalAccepted(s);
  }

  lemma GuardIdle(s: Shell, usable: bool, isFinal: bool)
    requires IdleSound(s)
    ensures match Guard(s, usable, isFinal)
      case Some(t) => IdleSound(t)
      case None => usable && s.attached && !Closed(s.life)
  {
    hide IdleSound;
    ErrorIsIdle(s);
    if !s.attached {
      UnattachedEnds(s, isFinal);
    }
  }

  lemma ErrorIsIdle(s: Shell)
    requires IdleSound(s)
    ensures forall code :: IdleSound(s.Failing(code))
  {}

  lemma UnattachedEnds(s: Shell, isFinal: bool)
    requires IdleSound(s) && !s.attached
    ensures IdleSound(s.(life := s.life.(error := NotStarted, phase := Finished, finalBuffer := isFinal)))
  {}

  lemma BeginKeeps(m: Member, input: Option<seq<byte>>, isFinal: bool, mallocOk: bool)
    requires MemberSound(m) && m.activity.Idle?
    ensures MemberSound(Enter(m, Logging(BeginParse(m.shell, input, isFinal, mallocOk), input, isFinal),
                              InParse(if input.Some? then input.value else [], isFinal)))
  {
    hide AcceptChunk, Guard, IdleSound, Closed;
    GuardIdle(m.shell, input.Some?, isFinal);
    if Guard(m.shell, input.Some?, isFinal).None? {
      AcceptOpens(m.shell, input.value, isFinal, mallocOk);
    }
  }

  lemma CapacityPositive(capacity: nat, required: int)
    ensures CapacityFor(capacity, required) > 0
  {}

  lemma ResumeKeeps(m: Member)
    requires MemberSound(m) && m.activity.Idle?
    ensures MemberSound(Enter(m, Logging(BeginResume(m.shell), Some([]), m.shell.life.finalBuffer), InResume))
  {}

  /** Leaving a call: one merge at most in a life, and only for a finishing parse. */
  lemma LeaveKeeps(m: Member, reply: Reply)
    requires MemberSound(m) && !m.activity.Idle?
    ensures var (t, status, credited) := Leave(m, reply);
      && MemberSound(t) && t.shell.merges >= m.shell.merges && t.shell.hasParent == m.shell.hasParent
      && (credited <==> m.shell.hasParent && Finishes(m, status))
      && (credited ==> m.shell.merges == 0 && t.shell.merges == 1)
  {
    hide Leave, MemberSound;
    if m.activity.InParse? {
      LeaveParseKeeps(m, reply);
    } else {
      LeaveResumeKeeps(m, reply);
    }
  }

  lemma LeaveParseKeeps(m: Member, reply: Reply)
    requires MemberSound(m) && m.activity.InParse?
    ensures var (t, status, credited) := Leave(m, reply);
      && MemberSound(t) && t.shell.merges >= m.shell.merges && t.shell.hasParent == m.shell.hasParent
      && (credited <==> m.shell.hasParent && Finishes(m, status))
      && (credited ==> m.shell.merges == 0 && t.shell.merges == 1)
  {}

  lemma LeaveResumeKeeps(m: Member, reply: Reply)
    requires MemberSound(m) && m.activity.InResume?
    ensures var (t, status, credited) := Leave(m, reply);
      MemberSound(t) && t.shell.merges == m.shell.merges && t.shell.hasParent == m.shell.hasParent && !credited
  {}

  lemma RequestKeeps(m: Member, len: int, mallocOk: bool)
    requires MemberSound(m) && m.activity.Idle?
    ensures MemberSound(m.(shell := GetBuffer(m.shell, len, mallocOk).0))
  {
    hide Reserve, IdleSound;
    ErrorIsIdle(m.shell);
    ReserveIdle(m.shell, len, mallocOk);
    CapacityIsIdle(m.shell);
  }

  lemma CapacityIsIdle(s: Shell)
    requires IdleSound(s)
    ensures forall c: nat :: c > 0 ==> IdleSound(s.(capacity := c))
  {}

  lemma ReserveIdle(s: Shell, len: int, mallocOk: bool)
    ensures var t := Reserve(s, len, mallocOk).0;
      t == s.Failing(NoMemory) || (t == s.(capacity := t.capacity) && t.capacity > 0)
  {
    hide CapacityFor, NeedsAllocation;
    CapacityPositive(s.capacity, |s.window| + len);
  }

  // ---- what the forest keeps ----------------------------------------------------

  /** The link and the tally of parser `i`. */
  predicate Placed(w: World, i: nat)
    requires i < |w|
  {
    && (w[i].parent.Some? <==> w[i].shell.hasParent)
    && (w[i].parent.Some? ==> w[i].parent.value < i)
    && w[i].count == |w[i].finished|
    && forall c :: c in w[i].finished ==> c < |w| && w[c].parent == Some(i) && w[c].shell.merges > 0
  }

  predicate WorldSound(w: World) {
    forall i :: 0 <= i < |w| ==> MemberSound(w[i]) && Placed(w, i)
  }

  /** One parser changes without losing a merge or its place. */
  lemma UpdateKeeps(w: World, id: nat, m: Member)
    requires WorldSound(w) && id < |w| && MemberSound(m)
    requires m.parent == w[id].parent && m.shell.hasParent == w[id].shell.hasParent
    requires m.shell.merges >= w[id].shell.merges || m.parent.None?
    requires (m.count, m.finished) == (w[id].count, w[id].finished) || (m.count, m.finished) == (0, {})
    ensures WorldSound(w[id := m])
  {
    hide MemberSound;
    var u := w[id := m];
    forall i | 0 <= i < |u| ensures Placed(u, i) {
      assert Placed(w, i);
    }
  }

  lemma AddKeeps(w: World, shell: Shell, parent: Option<nat>)
    requires WorldSound(w) && IdleSound(shell)
    requires parent.Some? <==> shell.hasParent
    requires parent.Some? ==> parent.value < |w|
    ensures WorldSound(w + [NewMember(shell, parent)])
  {
    hide IdleSound;
    var v := w + [NewMember(shell, parent)];
    forall i | 0 <= i < |w| ensures MemberSound(v[i]) && Placed(v, i) {
      assert Placed(w, i) && MemberSound(w[i]);
    }
  }

  /** A child that has just merged for the first time is new among the finished. */
  lemma CreditKeeps(v: World, p: nat, id: nat)
    requires WorldSound(v) && p < |v| && id < |v| && id !in v[p].finished
    requires v[id].parent == Some(p) && v[id].shell.merges > 0
    ensures WorldSound(v[p := Credit(v[p], id, true, true)])
  {
    hide MemberSound;
    var u := v[p := Credit(v[p], id, true, true)];
    forall i | 0 <= i < |v| ensures Placed(u, i) {
      assert Placed(v, i);
    }
    assert MemberSound(u[p]) by { SameShell(v[p], u[p]); }
  }

  lemma SameShell(m: Member, n: Member)
    requires MemberSound(m) && n.shell == m.shell && n.activity == m.activity
    ensures MemberSound(n)
  {}

  lemma EndKeeps(w: World, id: nat, reply: Reply)
    requires WorldSound(w) && Enabled(w, End(id, reply))
    ensures WorldSound(Next(w, End(id, reply)))
  {
    hide MemberSound;
    assert Placed(w, id);
    var (m, status, credited) := Leave(w[id], reply);
    LeaveKeeps(w[id], reply);
    LeaveIdentity(w[id], reply);
    hide Leave;
    var v := w[id := m];
    UpdateKeeps(w, id, m);
    if m.parent.Some? {
      var p := m.parent.value;
      assert Placed(w, p);
      if credited {
        CreditKeeps(v, p, id);
      } else {
        assert v[p := Credit(v[p], id, false, false)] == v;
      }
    }
  }

  lemma LeaveIdentity(m: Member, reply: Reply)
    requires !m.activity.Idle?
    ensures var t := Leave(m, reply).0; (t.parent, t.count, t.finished) == (m.parent, m.count, m.finished)
  {}

  /** Entering a call keeps everything but the shell and the activity. */
  lemma EnterIdentity(m: Member, input: Option<seq<byte>>, isFinal: bool, mallocOk: bool)
    requires MemberSound(m) && m.activity.Idle?
    ensures var t := Enter(m, Logging(BeginParse(m.shell, input, isFinal, mallocOk), input, isFinal),
                           InParse(if input.Some? then input.value else [], isFinal));
      && (t.parent, t.count, t.finished) == (m.parent, m.count, m.finished)
      && (t.shell.hasParent, t.shell.merges) == (m.shell.hasParent, m.shell.merges)
  {
    hide CapacityFor;
  }

  lemma BeginEventKeeps(w: World, id: nat, input: Option<seq<byte>>, isFinal: bool, mallocOk: bool)
    requires WorldSound(w) && id < |w| && w[id].activity.Idle?
    ensures WorldSound(Next(w, Begin(id, input, isFinal, mallocOk)))
  {
    hide MemberSound, BeginParse, Enter, Logging;
    var m := Enter(w[id], Logging(BeginParse(w[id].shell, input, isFinal, mallocOk), input, isFinal),
                   InParse(if input.Some? then input.value else [], isFinal));
    BeginKeeps(w[id], input, isFinal, mallocOk);
    EnterIdentity(w[id], input, isFinal, mallocOk);
    UpdateKeeps(w, id, m);
  }

  lemma FailingKeeps(m: Member, code: XmlError)
    requires MemberSound(m) && m.activity.Idle?
    ensures MemberSound(m.(shell := m.shell.Failing(code)))
  {}

  lemma BufferEventKeeps(w: World, id: nat, input: Option<seq<byte>>, isFinal: bool, mallocOk: bool)
    requires WorldSound(w) && id < |w| && w[id].activity.Idle?
    ensures WorldSound(Next(w, BeginBuffer(id, input, isFinal, mallocOk)))
  {
    hide MemberSound, BufferRefusal, BeginParse, Enter, Logging, WorldSound;
    match BufferRefusal(w[id].shell, input)
    case Some(code) => FailedEventKeeps(w, id, code);
    case None => BeginEventKeeps(w, id, input, isFinal, mallocOk);
  }

  lemma FailedEventKeeps(w: World, id: nat, code: XmlError)
    requires WorldSound(w) && id < |w| && w[id].activity.Idle?
    ensures WorldSound(w[id := w[id].(shell := w[id].shell.Failing(code))])
  {
    FailingKeeps(w[id], code);
    hide MemberSound;
    UpdateKeeps(w, id, w[id].(shell := w[id].shell.Failing(code)));
  }

  lemma ResumeEventKeeps(w: World, id: nat)
    requires WorldSound(w) && id < |w| && w[id].activity.Idle?
    ensures WorldSound(Next(w, Resume(id)))
  {
    ResumeKeeps(w[id]);
    hide MemberSound, Placed;
    var entry := Logging(BeginResume(w[id].shell), Some([]), w[id].shell.life.finalBuffer);
    UpdateKeeps(w, id, Enter(w[id], entry, InResume));
  }

  lemma CallbackEventKeeps(w: World, id: nat, action: Action)
    requires WorldSound(w) && id < |w| && !action.AskChild?
    ensures WorldSound(Next(w, Callback(id, action)))
  {
    CallbackKeeps(w[id], action);
    hide MemberSound, Placed;
    UpdateKeeps(w, id, w[id].(shell := Act(w[id].shell, action)));
  }

  lemma RequestEventKeeps(w: World, id: nat, len: int, mallocOk: bool)
    requires WorldSound(w) && id < |w| && w[id].activity.Idle?
    ensures WorldSound(Next(w, Request(id, len, mallocOk)))
  {
    hide MemberSound, Placed, CapacityFor;
    RequestKeeps(w[id], len, mallocOk);
    UpdateKeeps(w, id, w[id].(shell := GetBuffer(w[id].shell, len, mallocOk).0));
  }

  lemma ResetEventKeeps(w: World, id: nat, bridgeOk: bool)
    requires WorldSound(w) && id < |w| && w[id].activity.Idle?
    ensures WorldSound(Next(w, ResetParser(id, bridgeOk)))
  {
    assert Placed(w, id);
    hide Placed;
    UpdateKeeps(w, id, Next(w, ResetParser(id, bridgeOk))[id]);
  }

  lemma ChildEventKeeps(w: World, e: Event)
    requires e.MakeChild? && WorldSound(w) && Enabled(w, e)
    ensures WorldSound(Next(w, e))
  {
    var p := w[e.of];
    var q := p.(shell := ChildRequested(p.shell, e.created, e.configured));
    assert MemberSound(q) by { SameButError(p, q); }
    hide MemberSound, Placed;
    UpdateKeeps(w, e.of, q);
    if p.shell.attached && e.created && e.configured {
      assert IdleSound(CreateChild(e.attached, e.isParameter));
      AddKeeps(w[e.of := q], CreateChild(e.attached, e.isParameter), Some(e.of));
    }
  }

  /** The error code alone does not matter to soundness. */
  lemma SameButError(m: Member, n: Member)
    requires MemberSound(m) && n == m.(shell := n.shell)
    requires n.shell == m.shell.Failing(n.shell.life.error)
    ensures MemberSound(n)
  {}

  lemma NextKeeps(w: World, e: Event)
    requires WorldSound(w) && Enabled(w, e)
    ensures WorldSound(Next(w, e))
  {
    match e
    case MakeRoot(attached) => AddKeeps(w, Create(attached), None);
    case MakeChild(_, _, _, _, _) => hide WorldSound; ChildEventKeeps(w, e);
    case Begin(id, input, isFinal, mallocOk) => hide WorldSound, Next; BeginEventKeeps(w, id, input, isFinal, mallocOk);
    case BeginBuffer(id, input, isFinal, mallocOk) =>
      hide WorldSound, Next; BufferEventKeeps(w, id, input, isFinal, mallocOk);
    case Resume(id) => hide WorldSound, Next; ResumeEventKeeps(w, id);
    case Callback(id, action) => hide WorldSound, Next; CallbackEventKeeps(w, id, action);
    case End(id, reply) => hide WorldSound, Next; EndKeeps(w, id, reply);
    case Request(id, len, mallocOk) => hide WorldSound, Next; RequestEventKeeps(w, id, len, mallocOk);
    case ResetParser(id, bridgeOk) => hide WorldSound, Next; ResetEventKeeps(w, id, bridgeOk);
  }

  lemma {:induction false} AfterKeeps(w: World, events: seq<Event>)
    requires WorldSound(w) && Schedule(w, events)
    ensures WorldSound(After(w, events))
    decreases events
  {
    hide WorldSound, Next, Enabled;
    if events != [] {
      NextKeeps(w, events[0]);
      AfterKeeps(Next(w, events[0]), events[1..]);
    }
  }

  /**
    In every reachable forest a parser's parent was made before it, so parent links
    form a forest; a parser asks the bridge to merge at most once in its life; and
    a parent's child count is the number of its children whose final non-empty
    `XML_Parse` returned OK since the parent's last reset.
   */
  lemma ChildrenAreCountedOnce(events: seq<Event>, i: nat)
    requires Schedule([], events) && i < |After([], events)|
    ensures var w := After([], events);
      && (w[i].parent.Some? ==> w[i].parent.value < i)
      && w[i].shell.merges <= 1
      && w[i].count == |w[i].finished|
      && (forall c :: c in w[i].finished ==> c < |w| && w[c].parent == Some(i))
  {
    hide Schedule, After;
    AfterKeeps([], events);
    var w := After([], events);
    assert MemberSound(w[i]) && Placed(w, i);
  }

  /** A granted request adds the child it asked for; one not granted adds none. */
  lemma ChildIsAdded(w: World, of: nat, attached: bool, isParameter: bool, created: bool, configured: bool)
    requires Enabled(w, MakeChild(of, attached, isParameter, created, configured))
    ensures var v := Next(w, MakeChild(of, attached, isParameter, created, configured));
      if w[of].shell.attached && created && configured then
        && |v| == |w| + 1 && v[|w|].parent == Some(of) && v[|w|].activity.Idle? && v[|w|].count == 0
        && Created(v[|w|].shell) && v[|w|].shell.attached == attached
        && v[|w|].shell.hasParent && v[|w|].shell.isParameter == isParameter
      else |v| == |w|
  {}

  /** A root parser that is reset starts counting anew; a refused reset keeps the count. */
  lemma ResetForgetsChildren(w: World, id: nat, bridgeOk: bool)
    requires Enabled(w, ResetParser(id, bridgeOk))
    ensures var m, n := w[id], Next(w, ResetParser(id, bridgeOk))[id];
      if !m.shell.hasParent && m.shell.attached && bridgeOk then n.count == 0 && n.finished == {}
      else n.count == m.count && n.finished == m.finished
  {}

  /** A parent link, once made, never changes, so neither does the forest above a parser. */
  lemma {:induction false} ParentIsForever(w: World, events: seq<Event>, i: nat)
    requires Schedule(w, events) && i < |w|
    ensures i < |After(w, events)| && After(w, events)[i].parent == w[i].parent
    decreases events
  {
    if events != [] {
      hide BeginParse, BeginResume, Leave, Act, GetBuffer, Reset, BufferRefusal;
      NextParent(w, events[0], i);
      hide Next, Enabled;
      ParentIsForever(Next(w, events[0]), events[1..], i);
    }
  }

  lemma NextParent(w: World, e: Event, i: nat)
    requires Enabled(w, e) && i < |w|
    ensures i < |Next(w, e)| && Next(w, e)[i].parent == w[i].parent
  {
    hide BeginParse, BeginResume, LeaveBridge, Act, GetBuffer, Reset, BufferRefusal, Logging;
  }

  // ---- what every parser of the forest delivers ---------------------------------

  /** The window is the end of the accepted input, and the bridge has seen all of it, an open call included. */
  predicate HistorySound(s: Shell) {
    WindowSound(s.capacity, s.window, s.accepted) && Bytes(s.log) == Bytes(s.accepted)
  }

  predicate AllHistories(w: World) {
    forall i :: 0 <= i < |w| ==> HistorySound(w[i].shell)
  }

  lemma ActHistory(s: Shell, action: Action)
    requires HistorySound(s)
    ensures HistorySound(Act(s, action))
  {
    hide WindowSound, Bytes;
    if action.Consume? {
      ConsumeSound(s, action.pending);
    }
  }

  lemma BeginHistory(s: Shell, input: Option<seq<byte>>, isFinal: bool, mallocOk: bool)
    requires HistorySound(s)
    ensures match Logging(BeginParse(s, input, isFinal, mallocOk), input, isFinal)
      case Rejected(t) => HistorySound(t)
      case Entered(t) => HistorySound(t)
  {
    hide WindowSound, Bytes, AcceptChunk;
    GuardHistory(s, input.Some?, isFinal);
    if Guard(s, input.Some?, isFinal).None? && input.Some? {
      AcceptWindow(s, input.value, isFinal, mallocOk);
      BytesSnoc(s.accepted, Call(input.value, isFinal));
      BytesSnoc(s.log, Call(input.value, isFinal));
    }
  }

  lemma GuardHistory(s: Shell, usable: bool, isFinal: bool)
    ensures var g := Guard(s, usable, isFinal);
      if g.Some? then HistorySound(s) ==> HistorySound(g.value) else usable
  {
    hide WindowSound, Bytes;
  }

  lemma ResumeHistory(s: Shell)
    requires HistorySound(s)
    ensures match Logging(BeginResume(s), Some([]), s.life.finalBuffer)
      case Rejected(t) => HistorySound(t)
      case Entered(t) => HistorySound(t)
  {
    hide WindowSound, Bytes;
    BytesSnoc(s.log, Call([], s.life.finalBuffer));
  }

  lemma LeaveHistory(m: Member, reply: Reply)
    requires HistorySound(m.shell) && !m.activity.Idle?
    ensures HistorySound(Leave(m, reply).0.shell)
  {
    hide WindowSound, Bytes;
  }

  lemma RequestHistory(s: Shell, len: int, mallocOk: bool)
    requires HistorySound(s)
    ensures HistorySound(GetBuffer(s, len, mallocOk).0)
  {
    hide CapacityFor, NeedsAllocation, IsCapacity, Bytes;
    if RequestGranted(|s.window|, s.capacity, len, mallocOk) {
      CapacityForSound(s.capacity, |s.window| + len);
    }
  }

  lemma ResetHistory(s: Shell, bridgeOk: bool)
    requires HistorySound(s)
    ensures HistorySound(Reset(s, bridgeOk).0)
  {
    hide IsCapacity;
  }

  lemma ChildHistory(s: Shell, created: bool, configured: bool)
    requires HistorySound(s)
    ensures HistorySound(ChildRequested(s, created, configured))
  {
    hide WindowSound, Bytes;
  }

  lemma FreshHistory(shell: Shell)
    requires Created(shell)
    ensures HistorySound(shell)
  {}

  /** The event changes one parser's shell, or adds a new parser, or does both. */
  lemma NextHistories(w: World, e: Event)
    requires AllHistories(w) && Enabled(w, e)
    ensures AllHistories(Next(w, e))
  {
    hide HistorySound, BeginParse, BeginResume, Leave, Act, GetBuffer, Reset, ChildRequested, Logging;
    hide Create, CreateChild;
    match e
    case MakeRoot(attached) => RootHistory(attached);
    case MakeChild(of, attached, isParameter, created, configured) =>
      ChildHistory(w[of].shell, created, configured);
      NewChildHistory(attached, isParameter);
    case Begin(id, input, isFinal, mallocOk) => BeginHistory(w[id].shell, input, isFinal, mallocOk);
    case BeginBuffer(id, input, isFinal, mallocOk) =>
      BeginHistory(w[id].shell, input, isFinal, mallocOk);
      FailingHistory(w[id].shell);
    case Resume(id) => ResumeHistory(w[id].shell);
    case Callback(id, action) => ActHistory(w[id].shell, action);
    case End(id, reply) => LeaveHistory(w[id], reply);
    case Request(id, len, mallocOk) => RequestHistory(w[id].shell, len, mallocOk);
    case ResetParser(id, bridgeOk) => ResetHistory(w[id].shell, bridgeOk);
  }

  lemma RootHistory(attached: bool)
    ensures HistorySound(Create(attached))
  {
    FreshHistory(Create(attached));
  }

  lemma NewChildHistory(attached: bool, isParameter: bool)
    ensures HistorySound(CreateChild(attached, isParameter))
  {
    FreshHistory(CreateChild(attached, isParameter));
  }

  lemma FailingHistory(s: Shell)
    requires HistorySound(s)
    ensures forall code :: HistorySound(s.Failing(code))
  {
    hide WindowSound, Bytes;
  }

  lemma {:induction false} AfterHistories(w: World, events: seq<Event>)
    requires AllHistories(w) && Schedule(w, events)
    ensures AllHistories(After(w, events))
    decreases events
  {
    hide AllHistories, Next, Enabled;
    if events != [] {
      NextHistories(w, events[0]);
      AfterHistories(Next(w, events[0]), events[1..]);
    }
  }

  /**
    However the calls on parents and children are nested or interleaved: the window of
    each parser is the end of its own accepted input, and its bridge has seen exactly
    this input, in order.
   */
  lemma EveryParserDelivers(events: seq<Event>, i: nat)
    requires Schedule([], events) && i < |After([], events)|
    ensures var s := After([], events)[i].shell;
      && |s.window| <= |Bytes(s.accepted)| && s.window == Last(Bytes(s.accepted), |s.window|)
      && |s.window| <= s.capacity && IsCapacity(s.capacity)
      && Bytes(s.log) == Bytes(s.accepted)
  {
    hide Schedule, After, Bytes;
    AfterHistories([], events);
    assert HistorySound(After([], events)[i].shell);
  }
}
