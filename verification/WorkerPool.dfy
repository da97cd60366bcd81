/**
  The worker pool as a protocol between the caller, one reader thread per worker
  process, the processes, and a queue per process. Steps interleave freely;
  processes may die, and the caller may give up, at any time.
 */
module WorkerPool {
  import opened Core

  /**
    A worker process with its pipes, its reader thread and the queue it fills. A
    job, and the one line a worker answers it with, is known by the number of the
    `run` call it belongs to; None in the queue is the reader's end mark.
   */
  datatype Process = Process(alive: bool, stdin: seq<nat>, stdout: seq<nat>, lines: seq<Option<nat>>, ended: bool)

  /** Where the caller is: outside `run`, before writing the job, or waiting for a line. */
  datatype Caller = Ready | Writing | Waiting

  /** What a `run` call returns: a worker's line (for the job it answers), or a verdict of the pool. */
  datatype Result = Line(answers: nat) | Crash | TimedOut

  /**
    `current` is `self.proc` (with its `self.lines`), processes are numbered in the
    order of their start. History: `results[i]` is what call `i` returned, `servers[i]`
    the process it used.
   */
  datatype Pool = Pool(processes: seq<Process>, current: Option<nat>, caller: Caller,
                       results: seq<Result>, servers: seq<nat>)

  datatype Event =
    | Enter              // run: poll, and start a process if there is none
    | Write(ok: bool)    // the job line is written; not ok is the OSError of a broken pipe
    | Receive            // a queue item arrives in time
    | Expire             // queue.Empty
    | Close              // close() outside run
    | Work(pid: nat)     // a worker takes a job and answers it with one line
    | Die(pid: nat)      // a process ends; unread jobs are lost
    | Read(pid: nat)     // the reader moves a line, or puts the end mark

  function NewProcess(): Process {
    Process(true, [], [], [], false)
  }

  const EMPTY: Pool := Pool([], None, Ready, [], [])

  /** The process the caller talks to. */
  function Current(p: Pool): Process
    requires p.current.Some? && p.current.value < |p.processes|
  {
    p.processes[p.current.value]
  }

  predicate HasCurrent(p: Pool) {
    p.current.Some? && p.current.value < |p.processes|
  }

  predicate Enabled(p: Pool, e: Event) {
    match e
    case Enter => p.caller.Ready?
    case Write(ok) => p.caller.Writing? && HasCurrent(p) && (ok || !Current(p).alive)
    case Receive => p.caller.Waiting? && HasCurrent(p) && Current(p).lines != []
    case Expire => p.caller.Waiting? && HasCurrent(p) && Current(p).lines == []
    case Close => p.caller.Ready?
    case Work(pid) => pid < |p.processes| && p.processes[pid].alive && p.processes[pid].stdin != []
    case Die(pid) => pid < |p.processes| && p.processes[pid].alive
    case Read(pid) =>
      && pid < |p.processes| && !p.processes[pid].ended
      && (p.processes[pid].stdout != [] || !p.processes[pid].alive)
  }

  /** The call is over; giving up on the process forgets it and its queue. */
  function Return(p: Pool, result: Result): Pool {
    p.(caller := Ready, results := p.results + [result], current := if result.Line? then p.current else None)
  }

  function Next(p: Pool, e: Event): Pool
    requires Enabled(p, e)
  {
    match e
    case Enter =>
      if HasCurrent(p) && Current(p).alive then p.(caller := Writing, servers := p.servers + [p.current.value])
      else
        p.(processes := p.processes + [NewProcess()], current := Some(|p.processes|), caller := Writing,
           servers := p.servers + [|p.processes|])
    case Write(ok) =>
      if ok then
        var c := Current(p);
        p.(processes := p.processes[p.current.value := c.(stdin := c.stdin + [|p.results|])], caller := Waiting)
      else Return(p, Crash)
    case Receive =>
      var c := Current(p);
      var q := p.(processes := p.processes[p.current.value := c.(lines := c.lines[1..])]);
      Return(q, if c.lines[0].Some? then Line(c.lines[0].value) else Crash)
    case Expire => Return(p, TimedOut)
    case Close => p.(current := None)
    case Work(pid) =>
      var c := p.processes[pid];
      p.(processes := p.processes[pid := c.(stdin := c.stdin[1..], stdout := c.stdout + [c.stdin[0]])])
    case Die(pid) =>
      p.(processes := p.processes[pid := p.processes[pid].(alive := false, stdin := [])])
    case Read(pid) =>
      var c := p.processes[pid];
      p.(processes := p.processes[pid :=
        if c.stdout != [] then c.(stdout := c.stdout[1..], lines := c.lines + [Some(c.stdout[0])])
        else c.(lines := c.lines + [None], ended := true)])
  }

  predicate Schedule(p: Pool, events: seq<Event>)
    decreases events
  {
    events == [] || (Enabled(p, events[0]) && Schedule(Next(p, events[0]), events[1..]))
  }

  function After(p: Pool, events: seq<Event>): Pool
    requires Schedule(p, events)
    decreases events
  {
    if events == [] then p else After(Next(p, events[0]), events[1..])
  }

  // ---- invariant ---------------------------------------------------------------------

  /** The answers among the queue items. */
  function Answers(lines: seq<Option<nat>>): seq<nat> {
    if lines == [] then []
    else if lines[0].None? then Answers(lines[1..])
    else [lines[0].value] + Answers(lines[1..])
  }

  /** Every job the process still has, in whatever pipe or queue, oldest first. */
  function InFlight(c: Process): seq<nat> {
    Answers(c.lines) + c.stdout + c.stdin
  }

  /** The end mark is put by the reader of a dead process. */
  predicate ProcessSound(c: Process) {
    (c.ended || None in c.lines) ==> !c.alive
  }

  /** The current process has nothing in flight, or the job being waited for alone. */
  predicate OnlyOwnJob(p: Pool) {
    HasCurrent(p) ==>
      || InFlight(Current(p)) == []
      || (p.caller.Waiting? && InFlight(Current(p)) == [|p.results|])
  }

  predicate Accounted(p: Pool) {
    && (p.current.Some? ==> HasCurrent(p))
    && (!p.caller.Ready? ==> HasCurrent(p) && p.servers != [] && p.servers[|p.servers| - 1] == p.current.value)
    && |p.servers| == |p.results| + (if p.caller.Ready? then 0 else 1)
    && (forall i :: 0 <= i < |p.servers| ==> p.servers[i] < |p.processes|)
  }

  /** A result is the answer to its own call; a process that failed one is never used again. */
  predicate ResultsSound(p: Pool)
    requires Accounted(p)
  {
    forall i :: 0 <= i < |p.results| ==>
      && (p.results[i].Line? ==> p.results[i].answers == i)
      && (p.results[i].Crash? ==> !p.processes[p.servers[i]].alive)
      && (!p.results[i].Line? ==> p.current != Some(p.servers[i]))
      && (!p.results[i].Line? ==> forall j :: i < j < |p.servers| ==> p.servers[j] != p.servers[i])
  }

  predicate PoolSound(p: Pool) {
    && (forall k :: 0 <= k < |p.processes| ==> ProcessSound(p.processes[k]))
    && OnlyOwnJob(p) && Accounted(p) && ResultsSound(p)
  }

  lemma {:induction false} AnswersSnoc(lines: seq<Option<nat>>, item: Option<nat>)
    ensures Answers(lines + [item]) == Answers(lines) + (if item.Some? then [item.value] else [])
    decreases |lines|
  {
    if lines == [] {
      assert lines + [item] == [item] && [item][1..] == [];
    } else {
      assert (lines + [item])[1..] == lines[1..] + [item];
      AnswersSnoc(lines[1..], item);
    }
  }

  lemma WorkMoves(c: Process)
    requires c.stdin != []
    ensures InFlight(c.(stdin := c.stdin[1..], stdout := c.stdout + [c.stdin[0]])) == InFlight(c)
  {
    hide Answers;
    assert c.stdin == [c.stdin[0]] + c.stdin[1..];
  }

  lemma DieLoses(c: Process)
    ensures InFlight(c.(alive := false, stdin := [])) <= InFlight(c)
  {
    hide Answers;
  }

  lemma ReadMoves(c: Process)
    ensures c.stdout != [] ==>
      InFlight(c.(stdout := c.stdout[1..], lines := c.lines + [Some(c.stdout[0])])) == InFlight(c)
    ensures InFlight(c.(lines := c.lines + [None], ended := true)) == InFlight(c)
  {
    hide Answers;
    AnswersSnoc(c.lines, None);
    if c.stdout != [] {
      AnswersSnoc(c.lines, Some(c.stdout[0]));
      assert c.stdout == [c.stdout[0]] + c.stdout[1..];
    }
  }

  /** The steps of a worker and of its reader move jobs along, or lose them; they never add or reorder. */
  lemma ProcessStepKeeps(p: Pool, e: Event)
    requires (e.Work? || e.Die? || e.Read?) && Enabled(p, e) && ProcessSound(p.processes[e.pid])
    ensures var c, d := p.processes[e.pid], Next(p, e).processes[e.pid];
      && ProcessSound(d) && (!c.alive ==> !d.alive)
      && (InFlight(d) == InFlight(c) || (e.Die? && InFlight(d) <= InFlight(c)))
  {
    hide InFlight;
    var c := p.processes[e.pid];
    match e
    case Work(_) => WorkMoves(c);
    case Die(_) => DieLoses(c);
    case Read(_) => ReadMoves(c);
  }

  lemma ProcessEventKeeps(p: Pool, e: Event)
    requires (e.Work? || e.Die? || e.Read?) && Enabled(p, e) && PoolSound(p)
    ensures PoolSound(Next(p, e))
  {
    hide InFlight, ProcessSound;
    assert ProcessSound(p.processes[e.pid]);
    ProcessStepKeeps(p, e);
  }

  lemma EnterKeeps(p: Pool)
    requires Enabled(p, Enter) && PoolSound(p)
    ensures PoolSound(Next(p, Enter))
  {
    assert InFlight(NewProcess()) == [];
    hide InFlight;
  }

  lemma WriteKeeps(p: Pool, ok: bool)
    requires Enabled(p, Write(ok)) && PoolSound(p)
    ensures PoolSound(Next(p, Write(ok)))
  {
    if ok {
      var c := Current(p);
      assert InFlight(c.(stdin := c.stdin + [|p.results|])) == InFlight(c) + [|p.results|];
      hide InFlight;
    }
  }

  /** The item received is the answer to the job being waited for, or the end mark of a dead process. */
  lemma ReceivedIsOwn(p: Pool)
    requires Enabled(p, Receive) && PoolSound(p)
    ensures var c := Current(p);
      var d := c.(lines := c.lines[1..]);
      && (c.lines[0].Some? ==> c.lines[0].value == |p.results| && InFlight(d) == [])
      && (c.lines[0].None? ==> !c.alive)
      && (InFlight(d) == [] || InFlight(d) == InFlight(c))
      && ProcessSound(d)
  {
    var c := Current(p);
    assert ProcessSound(c);
    if c.lines[0].Some? {
      assert InFlight(c)[0] == c.lines[0].value;
      assert InFlight(c) == [c.lines[0].value] + InFlight(c.(lines := c.lines[1..]));
    } else {
      assert None in c.lines;
    }
  }

  lemma ReceiveKeeps(p: Pool)
    requires Enabled(p, Receive) && PoolSound(p)
    ensures PoolSound(Next(p, Receive))
  {
    ReceivedIsOwn(p);
    hide InFlight, ProcessSound;
  }

  lemma NextKeeps(p: Pool, e: Event)
    requires Enabled(p, e) && PoolSound(p)
    ensures PoolSound(Next(p, e))
  {
    hide InFlight;
    match e
    case Enter => EnterKeeps(p);
    case Write(ok) => WriteKeeps(p, ok);
    case Receive => ReceiveKeeps(p);
    case Expire =>
    case Close =>
    case _ => ProcessEventKeeps(p, e);
  }

  lemma {:induction false} AfterKeeps(p: Pool, events: seq<Event>)
    requires PoolSound(p) && Schedule(p, events)
    ensures PoolSound(After(p, events))
    decreases events
  {
    hide PoolSound, Next, Enabled;
    if events != [] {
      NextKeeps(p, events[0]);
      AfterKeeps(Next(p, events[0]), events[1..]);
    }
  }

  /**
    Over every interleaving of the caller, readers, workers, deaths and timeouts: a
    line returned by a call is the worker's answer to the job of that same call; a
    CRASH verdict is given only for a process that is dead; and a process that
    crashed or timed out is never used for a later job.
   */
  lemma AnswersMatchJobs(events: seq<Event>, i: nat)
    requires Schedule(EMPTY, events) && i < |After(EMPTY, events).results|
    ensures var p := After(EMPTY, events);
      && |p.results| <= |p.servers| && p.servers[i] < |p.processes|
      && (p.results[i].Line? ==> p.results[i].answers == i)
      && (p.results[i].Crash? ==> !p.processes[p.servers[i]].alive)
      && (!p.results[i].Line? ==> forall j :: i < j < |p.servers| ==> p.servers[j] != p.servers[i])
  {
    hide Schedule, After;
    AfterKeeps(EMPTY, events);
  }

  // ---- how calls end -----------------------------------------------------------------

  /** Why a call returned: a line came, the end mark came, the job could not be written, or time ran out. */
  datatype Ending = Answered | EndMark | BrokenPipe | OutOfTime

  function EndingOf(p: Pool, e: Event): Option<Ending>
    requires Enabled(p, e)
  {
    match e
    case Write(ok) => if ok then None else Some(BrokenPipe)
    case Receive => Some(if Current(p).lines[0].Some? then Answered else EndMark)
    case Expire => Some(OutOfTime)
    case _ => None
  }

  /** How the calls of a schedule ended, one after the other. */
  function Endings(p: Pool, events: seq<Event>): seq<Ending>
    requires Schedule(p, events)
    decreases events
  {
    if events == [] then []
    else
      var rest := Endings(Next(p, events[0]), events[1..]);
      match EndingOf(p, events[0])
      case None => rest
      case Some(ending) => [ending] + rest
  }

  /** What call `i` must return, by how it ended. */
  function ResultOf(ending: Ending, i: nat): Result {
    match ending
    case Answered => Line(i)
    case EndMark => Crash
    case BrokenPipe => Crash
    case OutOfTime => TimedOut
  }

  /** One step returns what its ending calls for, or nothing; only an answered call keeps the process. */
  lemma StepReturns(p: Pool, e: Event)
    requires Enabled(p, e) && PoolSound(p)
    ensures var q := Next(p, e);
      match EndingOf(p, e)
      case None => q.results == p.results
      case Some(ending) =>
        && q.results == p.results + [ResultOf(ending, |p.results|)] && q.caller.Ready?
        && q.current == if ending.Answered? then p.current else None
  {
    if e.Receive? {
      hide PoolSound;
      ReceivedIsOwn(p);
    }
  }

  lemma {:induction false} RunReturns(p: Pool, events: seq<Event>)
    requires Schedule(p, events) && PoolSound(p)
    ensures var ends := Endings(p, events);
      && |After(p, events).results| == |p.results| + |ends|
      && p.results <= After(p, events).results
      && forall k :: 0 <= k < |ends| ==>
           After(p, events).results[|p.results| + k] == ResultOf(ends[k], |p.results| + k)
    decreases events
  {
    hide Next, Enabled, PoolSound, EndingOf, ResultOf;
    if events != [] {
      var q := Next(p, events[0]);
      NextKeeps(p, events[0]);
      StepReturns(p, events[0]);
      RunReturns(q, events[1..]);
      var ends, rest := Endings(p, events), Endings(q, events[1..]);
      if EndingOf(p, events[0]).Some? {
        forall k | 0 <= k < |ends|
          ensures After(p, events).results[|p.results| + k] == ResultOf(ends[k], |p.results| + k)
        {
          if k > 0 {
            assert ends[k] == rest[k - 1];
            assert After(q, events[1..]).results[|q.results| + (k - 1)] == ResultOf(rest[k - 1], |q.results| + (k - 1));
          } else {
            assert q.results[|p.results|] == ResultOf(ends[0], |p.results|);
          }
        }
      }
    }
  }

  /**
    Over every interleaving, each call returns exactly what it should: the line with its own
    answer if one came in time, CRASH on the end mark or a broken pipe, TIMEOUT when time ran out.
   */
  lemma ResultsExactly(events: seq<Event>)
    requires Schedule(EMPTY, events)
    ensures var ends := Endings(EMPTY, events);
      && |After(EMPTY, events).results| == |ends|
      && forall i :: 0 <= i < |ends| ==> After(EMPTY, events).results[i] == ResultOf(ends[i], i)
  {
    hide Schedule, After, Endings, ResultOf;
    RunReturns(EMPTY, events);
    var ends := Endings(EMPTY, events);
    forall i | 0 <= i < |ends| ensures After(EMPTY, events).results[i] == ResultOf(ends[i], i) {
      assert After(EMPTY, events).results[|EMPTY.results| + i] == ResultOf(ends[i], |EMPTY.results| + i);
    }
  }

  /** A schedule in which time never runs out has no TIMEOUT. */
  lemma {:induction false} NoneOutOfTime(p: Pool, events: seq<Event>)
    requires Schedule(p, events) && Expire !in events
    ensures OutOfTime !in Endings(p, events)
    decreases events
  {
    hide Next, Enabled;
    if events != [] {
      NoneOutOfTime(Next(p, events[0]), events[1..]);
    }
  }

  /** A call uses the process at hand if it is alive, and starts one otherwise. */
  lemma EnterUses(p: Pool)
    requires Enabled(p, Enter) && PoolSound(p)
    ensures var q := Next(p, Enter);
      && HasCurrent(q) && Current(q).alive && q.caller.Writing?
      && (HasCurrent(p) && Current(p).alive ==> q.current == p.current && q.processes == p.processes)
      && (!(HasCurrent(p) && Current(p).alive) ==>
            q.current == Some(|p.processes|) && q.processes == p.processes + [NewProcess()])
  {}

  /** Lines a worker wrote before it died are still read; the jobs it had not taken are lost. */
  lemma DeathKeepsLines(p: Pool, pid: nat)
    requires Enabled(p, Die(pid))
    ensures var c, d := p.processes[pid], Next(p, Die(pid)).processes[pid];
      !d.alive && d.stdout == c.stdout && d.lines == c.lines && d.ended == c.ended && d.stdin == []
  {}

  /** `close` gives the process up, so the next call starts another. */
  lemma CloseGivesUp(p: Pool)
    requires Enabled(p, Close) && PoolSound(p)
    ensures var q := Next(p, Close);
      && q.current.None? && q.results == p.results && q.caller.Ready?
      && Next(q, Enter).current == Some(|p.processes|)
  {}

  /** The current process lives, and no job is on its way. */
  predicate AtRest(p: Pool) {
    && p.caller.Ready? && HasCurrent(p) && Current(p) == NewProcess()
  }

  /**
    From a pool at rest, a call whose worker answers in time returns that line, and leaves the
    pool at rest with the same process: any number of calls is served by one process.
   */
  lemma AnsweredInTime(p: Pool)
    requires AtRest(p)
    ensures var pid := p.current.value;
      var once := [Enter, Write(true), Work(pid), Read(pid), Receive];
      && Schedule(p, once)
      && After(p, once) == p.(results := p.results + [Line(|p.results|)], servers := p.servers + [pid])
      && AtRest(After(p, once))
  {
    var pid, n, c := p.current.value, |p.results|, NewProcess();
    var p1 := p.(caller := Writing, servers := p.servers + [pid]);
    var p2 := p1.(caller := Waiting, processes := p.processes[pid := c.(stdin := [n])]);
    var p3 := p2.(processes := p.processes[pid := c.(stdout := [n])]);
    var p4 := p3.(processes := p.processes[pid := c.(lines := [Some(n)])]);
    var p5 := p1.(caller := Ready, results := p.results + [Line(n)]);
    JobWritten(p1, pid, n);
    JobWorked(p2, p.processes, pid, n);
    LineRead(p3, p.processes, pid, n);
    LineReceived(p4, p.processes, pid, n);
    FiveSteps([p, p1, p2, p3, p4, p5], [Enter, Write(true), Work(pid), Read(pid), Receive]);
  }

  lemma JobWritten(p: Pool, pid: nat, n: nat)
    requires p.caller.Writing? && p.current == Some(pid) && pid < |p.processes|
    requires p.processes[pid] == NewProcess() && n == |p.results|
    ensures Enabled(p, Write(true))
    ensures Next(p, Write(true))
         == p.(caller := Waiting, processes := p.processes[pid := NewProcess().(stdin := [n])])
  {
    assert NewProcess().stdin + [n] == [n];
  }

  lemma JobWorked(p: Pool, ps: seq<Process>, pid: nat, n: nat)
    requires pid < |ps| && p.processes == ps[pid := NewProcess().(stdin := [n])]
    ensures Enabled(p, Work(pid))
    ensures Next(p, Work(pid)) == p.(processes := ps[pid := NewProcess().(stdout := [n])])
  {
    SetTwice(ps, pid, NewProcess().(stdin := [n]), NewProcess().(stdout := [n]));
    assert [n][1..] == [] && NewProcess().stdout + [n] == [n];
  }

  lemma LineRead(p: Pool, ps: seq<Process>, pid: nat, n: nat)
    requires pid < |ps| && p.processes == ps[pid := NewProcess().(stdout := [n])]
    ensures Enabled(p, Read(pid))
    ensures Next(p, Read(pid)) == p.(processes := ps[pid := NewProcess().(lines := [Some(n)])])
  {
    SetTwice(ps, pid, NewProcess().(stdout := [n]), NewProcess().(lines := [Some(n)]));
    assert [n][1..] == [] && NewProcess().lines + [Some(n)] == [Some(n)];
  }

  lemma LineReceived(p: Pool, ps: seq<Process>, pid: nat, n: nat)
    requires pid < |ps| && p.processes == ps[pid := NewProcess().(lines := [Some(n)])]
    requires ps[pid] == NewProcess() && p.caller.Waiting? && p.current == Some(pid)
    ensures Enabled(p, Receive)
    ensures Next(p, Receive) == p.(processes := ps, caller := Ready, results := p.results + [Line(n)])
  {
    SetTwice(ps, pid, NewProcess().(lines := [Some(n)]), NewProcess());
    assert [Some(n)][1..] == [];
  }

  /** Five steps, one after the other, are a schedule. */
  lemma FiveSteps(ps: seq<Pool>, es: seq<Event>)
    requires |ps| == 6 && |es| == 5
    requires forall k :: 0 <= k < 5 ==> Enabled(ps[k], es[k]) && Next(ps[k], es[k]) == ps[k + 1]
    ensures Schedule(ps[0], es) && After(ps[0], es) == ps[5]
  {
    hide Next, Enabled;
    OneMore(ps[4], es[4], []);
    assert [es[4]] + [] == es[4..];
    OneMore(ps[3], es[3], es[4..]);
    assert [es[3]] + es[4..] == es[3..];
    OneMore(ps[2], es[2], es[3..]);
    assert [es[2]] + es[3..] == es[2..];
    OneMore(ps[1], es[1], es[2..]);
    assert [es[1]] + es[2..] == es[1..];
    OneMore(ps[0], es[0], es[1..]);
    assert [es[0]] + es[1..] == es;
  }

  lemma SetTwice(ps: seq<Process>, i: nat, a: Process, b: Process)
    requires i < |ps|
    ensures ps[i := a][i := b] == ps[i := b] && ps[i := ps[i]] == ps && ps[i := a][i] == a
  {}

  /** Late lines do happen: a call can time out and its answer reach the queue left behind. */
  lemma LateLineIsPossible()
    ensures var events := [Enter, Write(true), Expire, Work(0), Read(0)];
      && Schedule(EMPTY, events)
      && After(EMPTY, events).results == [TimedOut]
      && After(EMPTY, events).current == None
      && After(EMPTY, events).processes[0].lines == [Some(0)]
  {
    var p1 := Next(EMPTY, Enter);
    var p2 := Next(p1, Write(true));
    var p3 := Next(p2, Expire);
    var p4 := Next(p3, Work(0));
    var p5 := Next(p4, Read(0));
    hide Next;
    assert Schedule(p5, []) && After(p5, []) == p5;
    OneMore(p4, Read(0), []);
    OneMore(p3, Work(0), [Read(0)]);
    OneMore(p2, Expire, [Work(0), Read(0)]);
    OneMore(p1, Write(true), [Expire, Work(0), Read(0)]);
    OneMore(EMPTY, Enter, [Write(true), Expire, Work(0), Read(0)]);
  }

  lemma OneMore(p: Pool, e: Event, rest: seq<Event>)
    requires Enabled(p, e) && Schedule(Next(p, e), rest)
    ensures Schedule(p, [e] + rest) && After(p, [e] + rest) == After(Next(p, e), rest)
  {
    assert ([e] + rest)[1..] == rest;
  }
}
