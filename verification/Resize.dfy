/** The handshake of src/session.c between the spice worker, which pops draw
    commands, and the thread that replaces the primary surface. The lock is also
    taken by the scanner, which stands for every other holder. */
module Resize {
  import opened Geometry
  import opened Sequences

  type Draw = nat

  datatype Holder = Free | Worker | Resizer | Scanner

  /** Where the worker stands in `session_pop_draw`, and whether it is executing a
      command that it popped. */
  datatype WorkerAt =
    | Idle | Stopping | Checked | Locked
    | Popped(draw: Option<Draw>) | Flagged(draw: Option<Draw>) | Executing(command: Draw)

  /** Where the resizing thread stands in `session_recreate_primary`. */
  datatype ResizerAt = Away | Wanting | Checking | Flushed | Destroyed | Created(ok: bool)

  datatype State = State(
    lock: Holder,
    queue: seq<Draw>,
    inProgress: bool,
    running: bool,
    worker: WorkerAt,
    resizer: ResizerAt,
    primary: bool,
    failed: bool)

  datatype Action =
    | CheckRunning | ClearFlag | TryLock | Pop | SetFlag | Unlock | Finish
    | Push(draw: Draw) | ScanLock | ScanUnlock
    | Resize | FlushLock | FlushRetry | FlushDone | DestroyPrimary | CreatePrimary(ok: bool) | ResizeUnlock
    | Stop

  predicate CanStep(s: State, a: Action) {
    match a
    case CheckRunning => s.worker.Idle?
    case ClearFlag => s.worker.Stopping?
    case TryLock => s.worker.Checked?
    case Pop => s.worker.Locked?
    case SetFlag => s.worker.Popped?
    case Unlock => s.worker.Flagged?
    case Finish => s.worker.Executing?
    case ScanLock => s.lock.Free?
    case ScanUnlock => s.lock.Scanner?
    case Resize => s.resizer.Away?
    case FlushLock => s.resizer.Wanting? && s.lock.Free?
    case FlushRetry => s.resizer.Checking? && s.inProgress
    case FlushDone => s.resizer.Checking? && !s.inProgress
    case DestroyPrimary => s.resizer.Flushed?
    case CreatePrimary(_) => s.resizer.Destroyed?
    case ResizeUnlock => s.resizer.Created?
    case _ => true
  }

  function Step(s: State, a: Action): State {
    match a
    case CheckRunning => s.(worker := if s.running then Checked else Stopping)
    case ClearFlag => s.(inProgress := false, worker := Idle)
    case TryLock => if s.lock.Free? then s.(lock := Worker, worker := Locked) else s.(worker := Idle)
    case Pop =>
      if s.queue == [] then s.(worker := Popped(None))
      else s.(worker := Popped(Some(s.queue[0])), queue := s.queue[1..])
    case SetFlag =>
      if s.worker.Popped? then s.(worker := Flagged(s.worker.draw), inProgress := s.worker.draw.Some?) else s
    case Unlock =>
      if s.worker.Flagged? && s.worker.draw.Some? then s.(lock := Free, worker := Executing(s.worker.draw.value))
      else s.(lock := Free, worker := Idle)
    case Finish => s.(worker := Idle)
    case Push(draw) => s.(queue := s.queue + [draw])
    case ScanLock => s.(lock := Scanner)
    case ScanUnlock => s.(lock := Free)
    case Resize => s.(resizer := Wanting)
    case FlushLock => s.(lock := Resizer, resizer := Checking)
    case FlushRetry => s.(lock := Free, resizer := Wanting)
    case FlushDone => s.(resizer := Flushed)
    case DestroyPrimary => s.(resizer := Destroyed, primary := false)
    case CreatePrimary(ok) => s.(resizer := Created(ok), primary := ok, failed := !ok)
    case ResizeUnlock => s.(lock := Free, resizer := Away)
    case Stop => s.(running := false)
  }

  /** The worker holds a command that it popped and has not finished. */
  predicate Outstanding(s: State) {
    s.worker.Executing? || ((s.worker.Popped? || s.worker.Flagged?) && s.worker.draw.Some?)
  }

  /** `flush_and_lock` has returned and the lock is not yet released. */
  predicate PastFlush(s: State) {
    s.resizer.Flushed? || s.resizer.Destroyed? || s.resizer.Created?
  }

  ghost predicate Consistent(s: State) {
    && (s.lock.Worker? <==> s.worker.Locked? || s.worker.Popped? || s.worker.Flagged?)
    && (s.lock.Resizer? <==> s.resizer.Checking? || PastFlush(s))
    && (s.worker.Flagged? ==> s.inProgress == s.worker.draw.Some?)
    && (s.worker.Executing? ==> s.inProgress)
    && (PastFlush(s) ==> !s.inProgress)
    && (!s.primary ==> s.resizer.Destroyed? || s.failed)
    && (s.resizer.Created? ==> s.primary == s.resizer.ok)
    && (s.worker.Stopping? ==> !s.running)
  }

  /** Past the flush the lock is held and no popped command is outstanding; and a
      command is outstanding without a primary surface only if making the last one
      failed. */
  ghost predicate Safe(s: State) {
    && (PastFlush(s) ==> s.lock.Resizer? && !Outstanding(s))
    && (Outstanding(s) && !s.primary ==> s.failed)
  }

  lemma ConsistentStep(s: State, a: Action)
    requires Consistent(s) && CanStep(s, a)
    ensures Consistent(Step(s, a))
  {
  }

  lemma ConsistentIsSafe(s: State)
    requires Consistent(s)
    ensures Safe(s)
  {
  }

  function Begin(): State {
    State(Free, [], false, true, Idle, Away, true, false)
  }

  function After(s: State, run: seq<Action>): State {
    if run == [] then s else Step(After(s, run[..|run| - 1]), run[|run| - 1])
  }

  ghost predicate IsRun(s: State, run: seq<Action>) {
    forall n :: 0 <= n < |run| ==> CanStep(After(s, run[..n]), run[n])
  }

  lemma RunPrefix(s: State, run: seq<Action>)
    requires run != [] && IsRun(s, run)
    ensures IsRun(s, run[..|run| - 1]) && CanStep(After(s, run[..|run| - 1]), run[|run| - 1])
  {
    var before := run[..|run| - 1];
    forall n | 0 <= n < |before|
      ensures CanStep(After(s, before[..n]), before[n])
    {
      assert before[..n] == run[..n];
    }
  }

  lemma {:induction false} ConsistentRun(s: State, run: seq<Action>)
    requires Consistent(s) && IsRun(s, run)
    ensures Consistent(After(s, run))
  {
    if run == [] {
    } else {
      RunPrefix(s, run);
      ConsistentRun(s, run[..|run| - 1]);
      ConsistentStep(After(s, run[..|run| - 1]), run[|run| - 1]);
    }
  }

  /** Resize safety in every interleaving. */
  lemma ResizeSafety(run: seq<Action>)
    requires IsRun(Begin(), run)
    ensures Safe(After(Begin(), run))
  {
    ConsistentRun(Begin(), run);
    ConsistentIsSafe(After(Begin(), run));
  }

  /** From the return of `flush_and_lock` until the lock is released nothing is
      popped, whatever the threads do: the queue only grows. */
  lemma {:induction false} NothingPopped(s: State, run: seq<Action>)
    requires Consistent(s) && PastFlush(s) && IsRun(s, run)
    requires forall n :: 0 <= n < |run| ==> !run[n].ResizeUnlock?
    ensures PastFlush(After(s, run)) && Consistent(After(s, run))
    ensures forall n :: 0 <= n < |run| ==> !run[n].Pop?
    ensures |s.queue| <= |After(s, run).queue| && After(s, run).queue[..|s.queue|] == s.queue
  {
    if run == [] {
    } else {
      var before, a := run[..|run| - 1], run[|run| - 1];
      RunPrefix(s, run);
      NothingPopped(s, before);
      PastFlushStep(After(s, before), a);
      assert forall n :: 0 <= n < |run| - 1 ==> run[n] == before[n];
    }
  }

  lemma PastFlushStep(s: State, a: Action)
    requires Consistent(s) && PastFlush(s) && CanStep(s, a) && !a.ResizeUnlock?
    ensures var t := Step(s, a);
      Consistent(t) && PastFlush(t) && !a.Pop? && |s.queue| <= |t.queue| && t.queue[..|s.queue|] == s.queue
  {
    ConsistentStep(s, a);
  }

  /* ---------- when making the new primary surface fails ---------- */

  /** How the last attempt of a run to make a primary surface ended. */
  function LastCreate(run: seq<Action>): Option<bool> {
    if run == [] then None
    else
      var a := run[|run| - 1];
      if a.CreatePrimary? then Some(a.ok) else LastCreate(run[..|run| - 1])
  }

  lemma {:induction false} FailedIsLast(run: seq<Action>)
    ensures After(Begin(), run).failed <==> LastCreate(run) == Some(false)
  {
    if run == [] {
    } else {
      FailedIsLast(run[..|run| - 1]);
      FailedStep(After(Begin(), run[..|run| - 1]), run[|run| - 1]);
    }
  }

  lemma FailedStep(s: State, a: Action)
    ensures Step(s, a).failed == if a.CreatePrimary? then !a.ok else s.failed
  {
  }

  /** In every run, a command is outstanding without a primary surface only if the last
      attempt to make one failed. */
  lemma OutstandingNeedsFailure(run: seq<Action>)
    requires IsRun(Begin(), run) && Outstanding(After(Begin(), run)) && !After(Begin(), run).primary
    ensures LastCreate(run) == Some(false)
  {
    ResizeSafety(run);
    FailedIsLast(run);
  }

  ghost predicate Exposes(s: State, run: seq<Action>) {
    IsRun(s, run) && Outstanding(After(s, run)) && !After(s, run).primary
  }

  /** Right after a failed attempt, the run can go on to a command that is outstanding
      without a primary surface exactly when the session is still running or the
      worker has already found it running. */
  lemma FailureExposesIff(s: State)
    requires Consistent(s) && s.resizer == Created(false)
    ensures (exists run :: Exposes(s, run)) <==> s.running || s.worker.Checked?
  {
    if s.worker.Checked? {
      CheckedExposes(s, 0);
    } else if s.running {
      FailureExposes(s, 0);
    } else {
      forall run | IsRun(s, run)
        ensures !Outstanding(After(s, run))
      {
        StoppedPopsNothing(s, run);
      }
    }
  }

  /** `states` are the states of a run. */
  ghost predicate Links(states: seq<State>, run: seq<Action>) {
    && |states| == |run| + 1
    && forall n :: 0 <= n < |run| ==> CanStep(states[n], run[n]) && states[n + 1] == Step(states[n], run[n])
  }

  lemma {:induction false} LinksReach(states: seq<State>, run: seq<Action>, n: nat)
    requires Links(states, run) && n <= |run|
    ensures After(states[0], run[..n]) == states[n]
  {
    if n == 0 {
    } else {
      LinksReach(states, run, n - 1);
      assert run[..n][..n - 1] == run[..n - 1];
    }
  }

  lemma LinksAreRun(states: seq<State>, run: seq<Action>)
    requires Links(states, run)
    ensures IsRun(states[0], run) && After(states[0], run) == states[|run|]
  {
    forall n | 0 <= n <= |run|
      ensures After(states[0], run[..n]) == states[n]
    {
      LinksReach(states, run, n);
    }
    assert run[..|run|] == run;
  }

  /** The lock is released without a primary surface, and a command is popped. */
  lemma CheckedExposes(s: State, draw: Draw)
    requires Consistent(s) && s.resizer == Created(false) && s.worker.Checked?
    ensures Exposes(s, [Push(draw), ResizeUnlock, TryLock, Pop])
  {
    var s1 := Step(s, Push(draw));
    var s2 := Step(s1, ResizeUnlock);
    var s3 := Step(s2, TryLock);
    LinksAreRun([s, s1, s2, s3, Step(s3, Pop)], [Push(draw), ResizeUnlock, TryLock, Pop]);
  }

  lemma FailureExposes(s: State, draw: Draw)
    requires Consistent(s) && s.resizer == Created(false) && s.running && !s.worker.Checked?
    ensures Exposes(s, [CheckRunning, Push(draw), ResizeUnlock, TryLock, Pop])
  {
    var s1 := Step(s, CheckRunning);
    var s2 := Step(s1, Push(draw));
    var s3 := Step(s2, ResizeUnlock);
    var s4 := Step(s3, TryLock);
    LinksAreRun([s, s1, s2, s3, s4, Step(s4, Pop)], [CheckRunning, Push(draw), ResizeUnlock, TryLock, Pop]);
  }

  lemma {:induction false} StoppedPopsNothing(s: State, run: seq<Action>)
    requires !s.running && (s.worker.Idle? || s.worker.Stopping?) && IsRun(s, run)
    ensures var t := After(s, run); !t.running && (t.worker.Idle? || t.worker.Stopping?)
  {
    if run == [] {
    } else {
      RunPrefix(s, run);
      StoppedPopsNothing(s, run[..|run| - 1]);
    }
  }

  /** A session runs until it is stopped, and then never again. */
  lemma {:induction false} RunsUntilStopped(s: State, run: seq<Action>)
    ensures After(s, run).running <==> s.running && Stop !in run
  {
    if run == [] {
    } else {
      var before, a := run[..|run| - 1], run[|run| - 1];
      assert run == before + [a];
      RunsUntilStopped(s, before);
      RunningStep(After(s, before), a);
    }
  }

  lemma RunningStep(s: State, a: Action)
    ensures Step(s, a).running == (s.running && a != Stop)
  {
  }

  function FailingRun(draw: Draw): seq<Action> {
    [Push(draw), Resize, FlushLock, FlushDone, DestroyPrimary, CreatePrimary(false), ResizeUnlock, CheckRunning,
      TryLock, Pop]
  }

  function FailingStates(draw: Draw): seq<State> {
    [
      State(Free, [], false, true, Idle, Away, true, false),
      State(Free, [draw], false, true, Idle, Away, true, false),
      State(Free, [draw], false, true, Idle, Wanting, true, false),
      State(Holder.Resizer, [draw], false, true, Idle, Checking, true, false),
      State(Holder.Resizer, [draw], false, true, Idle, Flushed, true, false),
      State(Holder.Resizer, [draw], false, true, Idle, Destroyed, false, false),
      State(Holder.Resizer, [draw], false, true, Idle, Created(false), false, true),
      State(Free, [draw], false, true, Idle, Away, false, true),
      State(Free, [draw], false, true, Checked, Away, false, true),
      State(Holder.Worker, [draw], false, true, Locked, Away, false, true),
      State(Holder.Worker, [], false, true, Popped(Some(draw)), Away, false, true)
    ]
  }

  lemma FailingLink(draw: Draw, n: nat)
    requires n < |FailingRun(draw)|
    ensures var s, a := FailingStates(draw)[n], FailingRun(draw)[n];
      CanStep(s, a) && FailingStates(draw)[n + 1] == Step(s, a)
  {
    assert [] + [draw] == [draw] && [draw][1..] == [];
  }

  /** From the start: a command waits, the new surface fails, and the worker pops the
      command. */
  lemma CommandWithoutPrimary(draw: Draw)
    ensures Exposes(Begin(), FailingRun(draw))
  {
    forall n | 0 <= n < |FailingRun(draw)|
      ensures CanStep(FailingStates(draw)[n], FailingRun(draw)[n])
      ensures FailingStates(draw)[n + 1] == Step(FailingStates(draw)[n], FailingRun(draw)[n])
    {
      FailingLink(draw, n);
    }
    LinksAreRun(FailingStates(draw), FailingRun(draw));
  }

  /** The same after the session has stopped, since the worker looked before. */
  function StoppedRun(draw: Draw): seq<Action> {
    [Push(draw), CheckRunning, Resize, FlushLock, FlushDone, DestroyPrimary, CreatePrimary(false), Stop, ResizeUnlock,
      TryLock, Pop]
  }

  function StoppedStates(draw: Draw): seq<State> {
    [
      State(Free, [], false, true, Idle, Away, true, false),
      State(Free, [draw], false, true, Idle, Away, true, false),
      State(Free, [draw], false, true, Checked, Away, true, false),
      State(Free, [draw], false, true, Checked, Wanting, true, false),
      State(Holder.Resizer, [draw], false, true, Checked, Checking, true, false),
      State(Holder.Resizer, [draw], false, true, Checked, Flushed, true, false),
      State(Holder.Resizer, [draw], false, true, Checked, Destroyed, false, false),
      State(Holder.Resizer, [draw], false, true, Checked, Created(false), false, true),
      State(Holder.Resizer, [draw], false, false, Checked, Created(false), false, true),
      State(Free, [draw], false, false, Checked, Away, false, true),
      State(Holder.Worker, [draw], false, false, Locked, Away, false, true),
      State(Holder.Worker, [], false, false, Popped(Some(draw)), Away, false, true)
    ]
  }

  lemma StoppedLink(draw: Draw, n: nat)
    requires n < |StoppedRun(draw)|
    ensures var s, a := StoppedStates(draw)[n], StoppedRun(draw)[n];
      CanStep(s, a) && StoppedStates(draw)[n + 1] == Step(s, a)
  {
    assert [] + [draw] == [draw] && [draw][1..] == [];
  }

  /** A stopped session can still come to a command without a primary surface. */
  lemma StoppedStillPops(draw: Draw)
    ensures Exposes(Begin(), StoppedRun(draw)) && !After(Begin(), StoppedRun(draw)).running
  {
    forall n | 0 <= n < |StoppedRun(draw)|
      ensures CanStep(StoppedStates(draw)[n], StoppedRun(draw)[n])
      ensures StoppedStates(draw)[n + 1] == Step(StoppedStates(draw)[n], StoppedRun(draw)[n])
    {
      StoppedLink(draw, n);
    }
    LinksAreRun(StoppedStates(draw), StoppedRun(draw));
  }

  /* ---------- commands are executed, in order ---------- */

  function Added(a: Action): seq<Draw> {
    if a.Push? then [a.draw] else []
  }

  function Taken(s: State, a: Action): seq<Draw> {
    if a.Pop? && s.queue != [] then [s.queue[0]] else []
  }

  function PushedDraws(run: seq<Action>): seq<Draw> {
    if run == [] then [] else PushedDraws(run[..|run| - 1]) + Added(run[|run| - 1])
  }

  function PoppedDraws(s: State, run: seq<Action>): seq<Draw> {
    if run == [] then []
    else PoppedDraws(s, run[..|run| - 1]) + Taken(After(s, run[..|run| - 1]), run[|run| - 1])
  }

  /** Commands are popped in the order in which they were pushed, and none is skipped. */
  lemma {:induction false} DrawsInOrder(s: State, run: seq<Action>)
    ensures PoppedDraws(s, run) + After(s, run).queue == s.queue + PushedDraws(run)
  {
    if run == [] {
      assert [] + s.queue == s.queue + [];
    } else {
      var before, a := run[..|run| - 1], run[|run| - 1];
      DrawsInOrder(s, before);
      QueueStep(After(s, before), a);
      QueueKeepsOrder(PoppedDraws(s, before), After(s, before).queue, s.queue, PushedDraws(before),
        Taken(After(s, before), a), After(s, run).queue, Added(a));
    }
  }

  lemma QueueStep(s: State, a: Action)
    ensures s.queue + Added(a) == Taken(s, a) + Step(s, a).queue
  {
  }

  /** With the lock free a call that finds the session running pops the oldest command,
      marks it in progress and executes it; with the queue empty it clears the mark. */
  lemma CallPops(s: State)
    requires Consistent(s) && s.worker.Checked? && s.lock.Free?
    ensures IsRun(s, [TryLock, Pop, SetFlag, Unlock])
    ensures var t := After(s, [TryLock, Pop, SetFlag, Unlock]);
      && t.lock.Free? && t.inProgress == (s.queue != [])
      && t.worker == (if s.queue == [] then Idle else Executing(s.queue[0]))
      && t.queue == if s.queue == [] then [] else s.queue[1..]
  {
    var s1 := Step(s, TryLock);
    var s2 := Step(s1, Pop);
    var s3 := Step(s2, SetFlag);
    LinksAreRun([s, s1, s2, s3, Step(s3, Unlock)], [TryLock, Pop, SetFlag, Unlock]);
  }

  /** With the lock held the call gives up and changes nothing; the mark stays until the
      next call that gets the lock, or that finds the session stopped. */
  lemma CallGivesUp(s: State)
    requires s.worker.Checked? && !s.lock.Free?
    ensures Step(s, TryLock) == s.(worker := Idle)
  {
  }

  lemma StoppedCallClears(s: State)
    requires s.worker.Idle? && !s.running
    ensures var t := Step(Step(s, CheckRunning), ClearFlag);
      CanStep(s, CheckRunning) && CanStep(Step(s, CheckRunning), ClearFlag) && t == s.(inProgress := false)
  {
  }

  /** A command that is finished leaves the worker idle and the mark set. */
  lemma FinishReturns(s: State)
    requires s.worker.Executing?
    ensures CanStep(s, Finish) && Step(s, Finish) == s.(worker := Idle)
  {
  }

  /** While another thread holds the lock neither the worker nor the resizer gets it; when
      it is released everything is as before. */
  lemma OtherHoldersWait(s: State)
    requires s.lock.Free?
    ensures var t := Step(s, ScanLock);
      && CanStep(s, ScanLock) && t.lock.Scanner? && !CanStep(t, FlushLock) && !CanStep(t, ScanLock)
      && (s.worker.Checked? ==> Step(t, TryLock).worker.Idle?)
      && CanStep(t, ScanUnlock) && Step(t, ScanUnlock) == s
  {
  }

  /** With the lock, `flush_and_lock` goes on exactly when no command is in progress; else
      it gives the lock up and waits for it again. */
  lemma FlushDecides(s: State)
    requires s.lock.Resizer? && s.resizer.Checking?
    ensures CanStep(s, FlushDone) <==> !s.inProgress
    ensures CanStep(s, FlushRetry) <==> s.inProgress
    ensures Step(s, FlushDone) == s.(resizer := Flushed)
    ensures var t := Step(s, FlushRetry); t.lock.Free? && CanStep(t, FlushLock) && Step(t, FlushLock) == s
  {
  }

  /** After the flush the surface is destroyed, made anew or not, and the lock released;
      in between there is none. */
  lemma RecreateReleases(s: State, ok: bool)
    requires s.lock.Resizer? && s.resizer.Flushed?
    ensures IsRun(s, [DestroyPrimary, CreatePrimary(ok), ResizeUnlock])
    ensures After(s, [DestroyPrimary, CreatePrimary(ok), ResizeUnlock]) ==
      s.(lock := Free, resizer := Away, primary := ok, failed := !ok)
    ensures !After(s, [DestroyPrimary]).primary
  {
    var s1 := Step(s, DestroyPrimary);
    var s2 := Step(s1, CreatePrimary(ok));
    LinksAreRun([s, s1, s2, Step(s2, ResizeUnlock)], [DestroyPrimary, CreatePrimary(ok), ResizeUnlock]);
  }
}
