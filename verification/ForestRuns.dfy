/**
  Each parser of a forest, seen on its own, makes a run: the events that concern it,
  with a call and its callbacks gathered into one operation. So what holds of all runs
  of one parser holds of every parser of a forest, however the calls are nested.
 */
module ForestRuns {
  import opened Core
  import opened ShellModel
  import opened ShellRuns
  import opened ShellTheorems
  import E = ShellErrors
  import S = ShellStops
  import B = ShellBounds
  import F = ChildForest

  /** A bridge call that is open, as it was entered. */
  datatype Opened =
    | ParseOpened(buffered: bool, input: Option<seq<byte>>, isFinal: bool, mallocOk: bool)
    | ResumeOpened

  /** The operations a parser has completed, and what is open on it, with the callbacks so far. */
  datatype Track = Track(done: seq<Op>, call: Option<Opened>, actions: seq<Action>)

  const NOTHING: Track := Track([], None, [])

  /** The reply of a call that does not reach the bridge is never looked at. */
  const SILENT: Reply := Reply([], StatusError, NoError, true, true)

  function ToOp(o: Opened, reply: Reply): Op {
    match o
    case ParseOpened(buffered, input, isFinal, mallocOk) =>
      if buffered then DoParseBuffer(input, isFinal, mallocOk, reply) else DoParse(input, isFinal, mallocOk, reply)
    case ResumeOpened => DoResume(reply)
  }

  function Began(tr: Track, o: Opened, entered: bool): Track {
    if entered then Track(tr.done, Some(o), []) else tr.(done := tr.done + [ToOp(o, SILENT)])
  }

  /** A stop, consumption or child request: inside the open call, or a call of its own. */
  function Acted(tr: Track, action: Action): Track {
    if tr.call.Some? then tr.(actions := tr.actions + [action])
    else
      tr.(done := tr.done + [match action
        case Stop(resumable) => DoStop(resumable)
        case Consume(pending) => DoConsume(pending)
        case AskChild(created, configured) => DoCreateChild(created, configured)])
  }

  /** What an event means to parser `i`. */
  function Follow(tr: Track, w: F.World, e: F.Event, i: nat): Track
    requires F.Enabled(w, e) && i < |w|
  {
    match e
    case MakeRoot(_) => tr
    case MakeChild(of, _, _, created, configured) => if of == i then Acted(tr, AskChild(created, configured)) else tr
    case Callback(id, action) => if id == i then Acted(tr, action) else tr
    case Begin(id, input, isFinal, mallocOk) =>
      if id != i then tr
      else Began(tr, ParseOpened(false, input, isFinal, mallocOk),
                 BeginParse(w[i].shell, input, isFinal, mallocOk).Entered?)
    case BeginBuffer(id, input, isFinal, mallocOk) =>
      if id != i then tr
      else Began(tr, ParseOpened(true, input, isFinal, mallocOk),
                 BufferRefusal(w[i].shell, input).None? && BeginParse(w[i].shell, input, isFinal, mallocOk).Entered?)
    case Resume(id) => if id == i then Began(tr, ResumeOpened, BeginResume(w[i].shell).Entered?) else tr
    case End(id, reply) =>
      if id == i && tr.call.Some?
      then Track(tr.done + [ToOp(tr.call.value, reply.(actions := tr.actions))], None, [])
      else tr
    case Request(id, len, mallocOk) => if id == i then tr.(done := tr.done + [DoGetBuffer(len, mallocOk)]) else tr
    case ResetParser(id, bridgeOk) => if id == i then tr.(done := tr.done + [DoReset(bridgeOk)]) else tr
  }

  /** What a schedule means to parser `i`. */
  function FollowAll(tr: Track, w: F.World, events: seq<F.Event>, i: nat): Track
    requires F.Schedule(w, events) && i < |w|
    decreases events
  {
    if events == [] then tr
    else
      F.NextParent(w, events[0], i);
      FollowAll(Follow(tr, w, events[0], i), F.Next(w, events[0]), events[1..], i)
  }

  // ---- the invariant ----------------------------------------------------------------

  /** Inside the open call on state `t`, before its callbacks. */
  function Inside(t: Shell, o: Opened): Option<Shell> {
    match o
    case ParseOpened(buffered, input, isFinal, mallocOk) =>
      var entry := BeginParse(t, input, isFinal, mallocOk);
      if input.Some? && entry.Entered? && (buffered ==> BufferRefusal(t, input).None?)
      then Some(Logged(entry.inside, input.value, isFinal)) else None
    case ResumeOpened =>
      var entry := BeginResume(t);
      if entry.Entered? then Some(Logged(entry.inside, [], t.life.finalBuffer)) else None
  }

  function ActivityOf(o: Opened): F.Activity {
    match o
    case ParseOpened(_, input, isFinal, _) => F.InParse(if input.Some? then input.value else [], isFinal)
    case ResumeOpened => F.InResume
  }

  /** The parser is where its track leads from `base`. */
  predicate Fits(m: F.Member, base: Shell, tr: Track) {
    var t := Run(base, tr.done);
    match tr.call
    case None => m.activity.Idle? && m.shell == t
    case Some(o) =>
      && m.activity == ActivityOf(o) && Inside(t, o).Some?
      && m.shell == ActAll(Inside(t, o).value, tr.actions)
  }

  lemma {:induction false} RunSnoc(s: Shell, ops: seq<Op>, op: Op)
    ensures Run(s, ops + [op]) == Step(Run(s, ops), op).0
    decreases ops
  {
    hide Step;
    if ops == [] {
      assert [op][1..] == [] && ops + [op] == [op];
    } else {
      assert (ops + [op])[1..] == ops[1..] + [op];
      RunSnoc(Step(s, ops[0]).0, ops[1..], op);
    }
  }

  lemma ActAllSnoc(s: Shell, actions: seq<Action>, action: Action)
    ensures ActAll(s, actions + [action]) == Act(ActAll(s, actions), action)
  {
    hide Act;
    assert (actions + [action])[..|actions|] == actions;
  }

  lemma ActedFits(m: F.Member, base: Shell, tr: Track, action: Action)
    requires Fits(m, base, tr)
    ensures Fits(m.(shell := Act(m.shell, action)), base, Acted(tr, action))
  {
    hide Run, Inside, StopParser, ConsumePrefix, ChildRequested;
    if tr.call.Some? {
      ActAllSnoc(Inside(Run(base, tr.done), tr.call.value).value, tr.actions, action);
    } else {
      RunSnoc(base, tr.done, Acted(tr, action).done[|tr.done|]);
    }
  }

  /** A call that leaves no trace in the activity is complete at once. */
  lemma DoneFits(m: F.Member, base: Shell, tr: Track, op: Op, n: F.Member)
    requires Fits(m, base, tr) && tr.call.None? && n.activity.Idle?
    requires n.shell == Step(m.shell, op).0
    ensures Fits(n, base, tr.(done := tr.done + [op]))
  {
    hide Run, Step;
    RunSnoc(base, tr.done, op);
  }

  lemma IdleTrack(m: F.Member, base: Shell, tr: Track)
    requires Fits(m, base, tr)
    ensures tr.call.None? <==> m.activity.Idle?
  {
    hide Run, Inside;
  }

  /** What beginning a call, directly or on the buffer, makes of a parser. */
  function BeginOf(m: F.Member, o: Opened): F.Member {
    match o
    case ParseOpened(buffered, input, isFinal, mallocOk) =>
      if buffered && BufferRefusal(m.shell, input).Some?
      then m.(shell := m.shell.Failing(BufferRefusal(m.shell, input).value))
      else F.Enter(m, F.Logging(BeginParse(m.shell, input, isFinal, mallocOk), input, isFinal), ActivityOf(o))
    case ResumeOpened =>
      F.Enter(m, F.Logging(BeginResume(m.shell), Some([]), m.shell.life.finalBuffer), ActivityOf(o))
  }

  predicate Enters(s: Shell, o: Opened) {
    match o
    case ParseOpened(buffered, input, isFinal, mallocOk) =>
      && (buffered ==> BufferRefusal(s, input).None?) && BeginParse(s, input, isFinal, mallocOk).Entered?
    case ResumeOpened => BeginResume(s).Entered?
  }

  lemma UsableWhenEntered(s: Shell, input: Option<seq<byte>>, isFinal: bool, mallocOk: bool)
    ensures BeginParse(s, input, isFinal, mallocOk).Entered? ==> input.Some?
  {
    hide AcceptChunk;
  }

  lemma EnteredInside(m: F.Member, o: Opened)
    requires Enters(m.shell, o)
    ensures Inside(m.shell, o).Some?
    ensures BeginOf(m, o) == m.(shell := Inside(m.shell, o).value, activity := ActivityOf(o))
  {
    hide BeginParse, BeginResume, BufferRefusal;
    if o.ParseOpened? {
      UsableWhenEntered(m.shell, o.input, o.isFinal, o.mallocOk);
    }
  }

  lemma RefusedIsStep(m: F.Member, o: Opened)
    requires !Enters(m.shell, o) && m.activity.Idle?
    ensures BeginOf(m, o).activity.Idle? && BeginOf(m, o).shell == Step(m.shell, ToOp(o, SILENT)).0
  {
    hide BeginParse, BeginResume, BufferRefusal;
  }

  lemma BeganFits(m: F.Member, base: Shell, tr: Track, o: Opened)
    requires Fits(m, base, tr) && m.activity.Idle?
    ensures Fits(BeginOf(m, o), base, Began(tr, o, Enters(m.shell, o)))
  {
    hide Run, Inside, BeginOf, Step, ActivityOf;
    IdleTrack(m, base, tr);
    if Enters(m.shell, o) {
      EnteredInside(m, o);
      EnteredFits(m, base, tr, o);
    } else {
      RefusedIsStep(m, o);
      DoneFits(m, base, tr, ToOp(o, SILENT), BeginOf(m, o));
    }
  }

  lemma EnteredFits(m: F.Member, base: Shell, tr: Track, o: Opened)
    requires Fits(m, base, tr) && m.activity.Idle? && Inside(m.shell, o).Some?
    ensures Fits(m.(shell := Inside(m.shell, o).value, activity := ActivityOf(o)), base, Track(tr.done, Some(o), []))
  {
    hide Run, Inside;
  }

  /** The answer of the bridge completes the call as one step of the parser's own run. */
  lemma LeftIsStep(t: Shell, o: Opened, actions: seq<Action>, m: F.Member, reply: Reply)
    requires Inside(t, o).Some? && m.activity == ActivityOf(o) && m.shell == ActAll(Inside(t, o).value, actions)
    ensures F.Leave(m, reply).0.activity.Idle?
    ensures F.Leave(m, reply).0.shell == Step(t, ToOp(o, reply.(actions := actions))).0
  {
    hide BeginParse, ActAll, LeaveBridge, BufferRefusal, Entering;
    var full := reply.(actions := actions);
    ActAllKeeps(Inside(t, o).value, actions);
    AnswerOnly(m.shell, if o.ParseOpened? then |o.input.value| else 0,
               if o.ParseOpened? then o.isFinal else m.shell.life.finalBuffer, reply, actions);
    if o.ResumeOpened? {
      EnteringKeepsFinal(t);
    }
  }

  lemma EnteringKeepsFinal(t: Shell)
    ensures Entering(t).life.finalBuffer == t.life.finalBuffer
  {}

  lemma AnswerOnly(s: Shell, len: int, isFinal: bool, reply: Reply, actions: seq<Action>)
    ensures LeaveBridge(s, len, isFinal, reply.(actions := actions)) == LeaveBridge(s, len, isFinal, reply)
  {}

  lemma LeftFits(m: F.Member, base: Shell, tr: Track, reply: Reply)
    requires Fits(m, base, tr) && !m.activity.Idle? && tr.call.Some?
    ensures Fits(F.Leave(m, reply).0, base,
                 Track(tr.done + [ToOp(tr.call.value, reply.(actions := tr.actions))], None, []))
  {
    hide Run, Inside, ActAll, Step, F.Leave;
    var o := tr.call.value;
    LeftIsStep(Run(base, tr.done), o, tr.actions, m, reply);
    RunSnoc(base, tr.done, ToOp(o, reply.(actions := tr.actions)));
  }

  // ---- one event ----------------------------------------------------------------------

  /** Only the shell and the activity matter to a track. */
  lemma FitsSame(m: F.Member, n: F.Member, base: Shell, tr: Track)
    requires Fits(m, base, tr) && n.shell == m.shell && n.activity == m.activity
    ensures Fits(n, base, tr)
  {
    hide Run, Inside, ActAll;
  }

  lemma OthersStay(w: F.World, e: F.Event, i: nat)
    requires F.Enabled(w, e) && i < |w|
    requires match e case MakeRoot(_) => true case MakeChild(of, _, _, _, _) => of != i case _ => e.id != i
    ensures i < |F.Next(w, e)| && F.Next(w, e)[i].shell == w[i].shell && F.Next(w, e)[i].activity == w[i].activity
  {
    hide BeginParse, BeginResume, F.Leave, Act, GetBuffer, Reset, BufferRefusal, F.Logging, ChildRequested;
    hide F.Enter, Create, CreateChild;
    F.NextParent(w, e, i);
  }

  lemma EndAt(w: F.World, i: nat, reply: Reply)
    requires i < |w| && !w[i].activity.Idle?
    ensures var m, n := F.Leave(w[i], reply).0, F.Next(w, F.End(i, reply))[i];
      n.shell == m.shell && n.activity == m.activity
  {
    hide F.Leave;
  }

  lemma BeginAt(w: F.World, e: F.Event, i: nat, o: Opened)
    requires i < |w| && w[i].activity.Idle?
    requires e == match o
      case ParseOpened(buffered, input, isFinal, mallocOk) =>
        if buffered then F.BeginBuffer(i, input, isFinal, mallocOk) else F.Begin(i, input, isFinal, mallocOk)
      case ResumeOpened => F.Resume(i)
    ensures F.Enabled(w, e) && F.Next(w, e)[i] == BeginOf(w[i], o)
    ensures forall tr :: Follow(tr, w, e, i) == Began(tr, o, Enters(w[i].shell, o))
  {
    hide BeginParse, BeginResume, BufferRefusal, F.Logging, Began;
  }

  lemma FollowBegin(w: F.World, e: F.Event, i: nat, o: Opened, base: Shell, tr: Track)
    requires i < |w| && w[i].activity.Idle? && Fits(w[i], base, tr)
    requires e == match o
      case ParseOpened(buffered, input, isFinal, mallocOk) =>
        if buffered then F.BeginBuffer(i, input, isFinal, mallocOk) else F.Begin(i, input, isFinal, mallocOk)
      case ResumeOpened => F.Resume(i)
    ensures F.Enabled(w, e) && Fits(F.Next(w, e)[i], base, Follow(tr, w, e, i))
  {
    hide Fits, F.Next, Follow, F.Enabled;
    BeginAt(w, e, i, o);
    BeganFits(w[i], base, tr, o);
  }

  lemma FollowEnd(w: F.World, i: nat, reply: Reply, base: Shell, tr: Track)
    requires i < |w| && !w[i].activity.Idle? && Fits(w[i], base, tr)
    ensures Fits(F.Next(w, F.End(i, reply))[i], base, Follow(tr, w, F.End(i, reply), i))
  {
    hide Fits, F.Next, F.Leave;
    F.NextParent(w, F.End(i, reply), i);
    IdleTrack(w[i], base, tr);
    LeftFits(w[i], base, tr, reply);
    EndAt(w, i, reply);
    FitsSame(F.Leave(w[i], reply).0, F.Next(w, F.End(i, reply))[i], base, Follow(tr, w, F.End(i, reply), i));
  }

  lemma FollowChild(w: F.World, e: F.Event, i: nat, base: Shell, tr: Track)
    requires i < |w| && e.MakeChild? && e.of == i && Fits(w[i], base, tr)
    ensures Fits(F.Next(w, e)[i], base, Follow(tr, w, e, i))
  {
    hide Fits, ChildRequested, Acted, F.NewMember;
    ActedFits(w[i], base, tr, AskChild(e.created, e.configured));
  }

  lemma FollowCallback(w: F.World, i: nat, action: Action, base: Shell, tr: Track)
    requires i < |w| && !action.AskChild? && Fits(w[i], base, tr)
    ensures Fits(F.Next(w, F.Callback(i, action))[i], base, Follow(tr, w, F.Callback(i, action), i))
  {
    hide Fits, Act, Acted;
    ActedFits(w[i], base, tr, action);
  }

  lemma FollowCall(w: F.World, e: F.Event, i: nat, base: Shell, tr: Track)
    requires i < |w| && (e.Request? || e.ResetParser?) && e.id == i && w[i].activity.Idle? && Fits(w[i], base, tr)
    ensures F.Enabled(w, e) && Fits(F.Next(w, e)[i], base, Follow(tr, w, e, i))
  {
    hide Fits, GetBuffer, Reset;
    IdleTrack(w[i], base, tr);
    match e
    case Request(_, len, mallocOk) => DoneFits(w[i], base, tr, DoGetBuffer(len, mallocOk), F.Next(w, e)[i]);
    case ResetParser(_, bridgeOk) => DoneFits(w[i], base, tr, DoReset(bridgeOk), F.Next(w, e)[i]);
  }

  lemma FollowFits(w: F.World, e: F.Event, i: nat, base: Shell, tr: Track)
    requires F.Enabled(w, e) && i < |w| && Fits(w[i], base, tr)
    ensures i < |F.Next(w, e)| && Fits(F.Next(w, e)[i], base, Follow(tr, w, e, i))
  {
    hide Fits, F.Next, Follow;
    F.NextParent(w, e, i);
    match e
    case MakeRoot(_) => FollowOther(w, e, i, base, tr);
    case MakeChild(of, _, _, _, _) =>
      if of == i { FollowChild(w, e, i, base, tr); } else { FollowOther(w, e, i, base, tr); }
    case _ =>
      if e.id == i { FollowOwn(w, e, i, base, tr); } else { FollowOther(w, e, i, base, tr); }
  }

  lemma FollowOther(w: F.World, e: F.Event, i: nat, base: Shell, tr: Track)
    requires F.Enabled(w, e) && i < |w| && Fits(w[i], base, tr)
    requires match e case MakeRoot(_) => true case MakeChild(of, _, _, _, _) => of != i case _ => e.id != i
    ensures i < |F.Next(w, e)| && Fits(F.Next(w, e)[i], base, Follow(tr, w, e, i))
  {
    hide Fits, F.Next;
    OthersStay(w, e, i);
    FitsSame(w[i], F.Next(w, e)[i], base, tr);
  }

  lemma FollowOwn(w: F.World, e: F.Event, i: nat, base: Shell, tr: Track)
    requires F.Enabled(w, e) && i < |w| && Fits(w[i], base, tr) && !e.MakeRoot? && !e.MakeChild? && e.id == i
    requires i < |F.Next(w, e)|
    ensures Fits(F.Next(w, e)[i], base, Follow(tr, w, e, i))
  {
    hide Fits, F.Next, Follow;
    match e
    case Begin(_, input, isFinal, mallocOk) =>
      FollowBegin(w, e, i, ParseOpened(false, input, isFinal, mallocOk), base, tr);
    case BeginBuffer(_, input, isFinal, mallocOk) =>
      FollowBegin(w, e, i, ParseOpened(true, input, isFinal, mallocOk), base, tr);
    case Resume(_) => FollowBegin(w, e, i, ResumeOpened, base, tr);
    case Callback(_, action) => FollowCallback(w, i, action, base, tr);
    case End(_, reply) => FollowEnd(w, i, reply, base, tr);
    case Request(_, _, _) => FollowCall(w, e, i, base, tr);
    case ResetParser(_, _) => FollowCall(w, e, i, base, tr);
  }

  // ---- whole schedules ------------------------------------------------------------------

  lemma {:induction false} FollowAllFits(w: F.World, events: seq<F.Event>, i: nat, base: Shell, tr: Track)
    requires F.Schedule(w, events) && i < |w| && Fits(w[i], base, tr)
    ensures i < |F.After(w, events)| && Fits(F.After(w, events)[i], base, FollowAll(tr, w, events, i))
    decreases events
  {
    hide Fits, F.Next, Follow, F.Enabled;
    if events != [] {
      F.NextParent(w, events[0], i);
      FollowFits(w, events[0], i, base, tr);
      FollowAllFits(F.Next(w, events[0]), events[1..], i, base, Follow(tr, w, events[0], i));
    }
  }

  /** The operations a schedule amounts to for a parser that is idle when it starts. */
  function OwnRun(w: F.World, events: seq<F.Event>, i: nat): seq<Op>
    requires F.Schedule(w, events) && i < |w|
  {
    FollowAll(NOTHING, w, events, i).done
  }

  /**
    Between any two moments at which a parser is idle, whatever other parsers did before,
    meanwhile or inside its calls, it has made a run of its own.
   */
  lemma IdleIsRun(w: F.World, events: seq<F.Event>, i: nat)
    requires F.Schedule(w, events) && i < |w| && w[i].activity.Idle?
    ensures i < |F.After(w, events)|
    ensures F.After(w, events)[i].activity.Idle? ==>
      F.After(w, events)[i].shell == Run(w[i].shell, OwnRun(w, events, i))
  {
    hide F.After, F.Schedule, FollowAll, Inside, ActAll;
    assert Fits(w[i], w[i].shell, NOTHING);
    FollowAllFits(w, events, i, w[i].shell, NOTHING);
  }

  // ---- reachable forests ------------------------------------------------------------------

  ghost predicate Explained(m: F.Member) {
    exists base, tr :: Created(base) && Fits(m, base, tr)
  }

  ghost predicate AllExplained(w: F.World) {
    forall i :: 0 <= i < |w| ==> Explained(w[i])
  }

  lemma NewIsExplained(shell: Shell, parent: Option<nat>)
    requires Created(shell)
    ensures Explained(F.NewMember(shell, parent))
  {
    assert Fits(F.NewMember(shell, parent), shell, NOTHING);
  }

  lemma NextExplained(w: F.World, e: F.Event)
    requires F.Enabled(w, e) && AllExplained(w)
    ensures AllExplained(F.Next(w, e))
  {
    hide F.Next, F.Enabled, Fits, Created, Explained;
    var v := F.Next(w, e);
    forall i | 0 <= i < |v| ensures Explained(v[i]) {
      if i < |w| {
        StaysExplained(w, e, i);
      } else {
        AddedIsExplained(w, e, i);
      }
    }
  }

  lemma StaysExplained(w: F.World, e: F.Event, i: nat)
    requires F.Enabled(w, e) && i < |w| && Explained(w[i])
    ensures i < |F.Next(w, e)| && Explained(F.Next(w, e)[i])
  {
    hide F.Next, F.Enabled, Fits, Created, Follow;
    var base, tr :| Created(base) && Fits(w[i], base, tr);
    FollowFits(w, e, i, base, tr);
  }

  lemma AddedIsExplained(w: F.World, e: F.Event, i: nat)
    requires F.Enabled(w, e) && |w| <= i < |F.Next(w, e)|
    ensures Explained(F.Next(w, e)[i])
  {
    hide Explained, BeginParse, BeginResume, F.Leave, Act, GetBuffer, Reset, BufferRefusal, F.Logging, ChildRequested;
    hide F.Enter, F.NewMember;
    match e
    case MakeRoot(attached) => NewIsExplained(Create(attached), None);
    case MakeChild(of, attached, isParameter, _, _) => NewIsExplained(CreateChild(attached, isParameter), Some(of));
    case _ =>
  }

  lemma {:induction false} AfterExplained(w: F.World, events: seq<F.Event>)
    requires F.Schedule(w, events) && AllExplained(w)
    ensures AllExplained(F.After(w, events))
    decreases events
  {
    hide F.Next, F.Enabled, AllExplained;
    if events != [] {
      NextExplained(w, events[0]);
      AfterExplained(F.Next(w, events[0]), events[1..]);
    }
  }

  /** Every idle parser of every reachable forest is where some run from its making leads. */
  lemma EveryParserRuns(events: seq<F.Event>, i: nat)
    requires F.Schedule([], events) && i < |F.After([], events)| && F.After([], events)[i].activity.Idle?
    ensures exists start, ops :: Created(start) && F.After([], events)[i].shell == Run(start, ops)
    ensures Sound(F.After([], events)[i].shell)
  {
    hide F.Schedule, F.After, Run, Created, Sound, Inside, ActAll;
    AfterExplained([], events);
    var m := F.After([], events)[i];
    assert Explained(m);
    var base, tr :| Created(base) && Fits(m, base, tr);
    CreatedSound(base);
    RunSound(base, tr.done);
    assert m.shell == Run(base, tr.done) by { IdleTrack(m, base, tr); }
  }

  // ---- what forests inherit ---------------------------------------------------------------

  predicate NoReset(ops: seq<Op>) {
    forall op :: op in ops ==> !op.DoReset?
  }

  predicate NeverReset(events: seq<F.Event>, i: nat) {
    forall e :: e in events && e.ResetParser? ==> e.id != i
  }

  lemma FollowResets(tr: Track, w: F.World, e: F.Event, i: nat)
    requires F.Enabled(w, e) && i < |w| && NoReset(tr.done) && (e.ResetParser? ==> e.id != i)
    ensures NoReset(Follow(tr, w, e, i).done)
  {
    hide BeginParse, BeginResume, BufferRefusal;
  }

  lemma {:induction false} OwnRunResets(tr: Track, w: F.World, events: seq<F.Event>, i: nat)
    requires F.Schedule(w, events) && i < |w| && NoReset(tr.done) && NeverReset(events, i)
    ensures NoReset(FollowAll(tr, w, events, i).done)
    decreases events
  {
    hide NoReset, F.Next, Follow, F.Enabled;
    if events != [] {
      F.NextParent(w, events[0], i);
      FollowResets(tr, w, events[0], i);
      OwnRunResets(Follow(tr, w, events[0], i), F.Next(w, events[0]), events[1..], i);
    }
  }

  /** Two moments of a reachable forest at which parser `i` is idle. */
  predicate Between(before: seq<F.Event>, events: seq<F.Event>, i: nat) {
    && F.Schedule([], before)
    && var w := F.After([], before);
      && F.Schedule(w, events) && i < |w| && i < |F.After(w, events)|
      && w[i].activity.Idle? && F.After(w, events)[i].activity.Idle?
  }

  /** Once a parser of a forest has accepted a final chunk, no byte reaches its bridge until it is reset. */
  lemma FinalIsFinalInForest(before: seq<F.Event>, events: seq<F.Event>, i: nat)
    requires Between(before, events, i) && NeverReset(events, i)
    requires FinalAccepted(F.After([], before)[i].shell)
    ensures var w := F.After([], before);
      var s, t := w[i].shell, F.After(w, events)[i].shell;
      t.accepted == s.accepted && Bytes(t.log) == Bytes(s.log)
  {
    hide F.Schedule, F.After, Run, Sound, FollowAll, FinalAccepted, Bytes;
    var w := F.After([], before);
    EveryParserRuns(before, i);
    IdleIsRun(w, events, i);
    OwnRunResets(NOTHING, w, events, i);
    FinalIsFinal(w[i].shell, OwnRun(w, events, i));
  }

  /** A parser of a forest never forgets a parse error, and accepts nothing after it, until it is reset. */
  lemma ErrorIsStickyInForest(before: seq<F.Event>, events: seq<F.Event>, i: nat)
    requires Between(before, events, i) && NeverReset(events, i)
    requires F.After([], before)[i].shell.life.parseError != NoError
    ensures var w := F.After([], before);
      var s, t := w[i].shell, F.After(w, events)[i].shell;
      && t.life.parseError != NoError && t.accepted == s.accepted && Bytes(t.log) == Bytes(s.log)
      && (E.NoResumeTaken(s, OwnRun(w, events, i)) ==> E.Unmoved(s, t))
  {
    hide F.Schedule, F.After, Run, Sound, FollowAll, Bytes, E.NoResumeTaken, E.Unmoved;
    var w := F.After([], before);
    EveryParserRuns(before, i);
    IdleIsRun(w, events, i);
    OwnRunResets(NOTHING, w, events, i);
    E.ErrorIsSticky(w[i].shell, OwnRun(w, events, i));
  }

  /** Stop flags and state of a parser agree as long as its own bridge keeps the contract. */
  lemma StopFlagsMatchInForest(before: seq<F.Event>, events: seq<F.Event>, i: nat)
    requires Between(before, events, i) && S.FlagsMatch(F.After([], before)[i].shell.life)
    requires var w := F.After([], before); S.HonestRun(w[i].shell, OwnRun(w, events, i))
    ensures S.FlagsMatch(F.After(F.After([], before), events)[i].shell.life)
  {
    hide F.Schedule, F.After, Run, Sound, FollowAll, S.FlagsMatch, S.HonestRun;
    var w := F.After([], before);
    EveryParserRuns(before, i);
    IdleIsRun(w, events, i);
    S.StopFlagsMatchState(w[i].shell, OwnRun(w, events, i));
  }

  /** The memory of a parser is bounded by its own chunks and pending bytes, whatever others are fed. */
  lemma MemoryIsBoundedInForest(before: seq<F.Event>, events: seq<F.Event>, i: nat, limits: B.Limits)
    requires Between(before, events, i) && Created(F.After([], before)[i].shell)
    requires var w := F.After([], before); B.BoundedRun(w[i].shell, OwnRun(w, events, i), 0, limits)
    ensures var t := F.After(F.After([], before), events)[i].shell;
      && |t.window| <= 1024 + limits.pending + limits.chunk
      && t.capacity < Max(1025, 2 * (1024 + limits.pending + limits.chunk))
  {
    hide F.Schedule, F.After, Run, Sound, FollowAll, B.BoundedRun, Created, B.PendingAt, Bytes;
    var w := F.After([], before);
    IdleIsRun(w, events, i);
    B.MemoryIsBounded(w[i].shell, OwnRun(w, events, i), limits);
  }
}
