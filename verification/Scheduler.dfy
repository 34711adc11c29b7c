/** The maintenance scheduler as a state machine: any number of callers of
    `Start`, `Stop` and `RunNow`, and the timer threads `Start` spawns. The stop
    lock and the pass lock are held across steps; a critical section on the wake
    lock is one step. */
module Scheduler {
  import opened Values

  datatype CallerPc =
    | Free
    /** `Start`, stop lock held: before and after clearing the stop flag. */
    | Starting
    | Spawning
    /** `Stop`, stop lock held: before and after setting the stop flag. */
    | Stopping
    | Signalled
    | Joining(timer: nat)
    /** `RunNow`: blocked on the pass lock, then inside the pass. */
    | Queued
    | Passing

  datatype TimerPc =
    /** At the top of `Loop`, waiting out the interval. */
    | Waiting
    /** The interval passed unstopped; the pass lock is not yet tried. */
    | Ticked
    | TimerPassing
    | Done

  datatype Holder = Caller(c: nat) | Timer(t: nat)

  datatype Sys = Sys(
    intervalMs: nat,
    stopLock: Option<nat>,
    stopping: bool,
    /** The joinable thread, if any. */
    thread: Option<nat>,
    passLock: Option<Holder>,
    callers: seq<CallerPc>,
    /** Every timer thread ever spawned. */
    timers: seq<TimerPc>,
    // What has happened so far.
    joined: seq<nat>)

  datatype Step =
    | BeginStart(caller: nat)
    | ClearFlag(caller: nat)
    | Spawn(caller: nat)
    | BeginStop(caller: nat)
    | SetFlag(caller: nat)
    | CheckJoin(caller: nat)
    | FinishJoin(caller: nat)
    | BeginRunNow(caller: nat)
    | LockPass(caller: nat)
    | EndRunNow(caller: nat)
    | Wake(timer: nat)
    | TryPass(timer: nat)
    | EndPass(timer: nat)

  predicate Init(s: Sys) {
    && s.stopLock.None? && !s.stopping && s.thread.None? && s.passLock.None?
    && (forall c :: 0 <= c < |s.callers| ==> s.callers[c].Free?)
    && s.timers == [] && s.joined == []
  }

  predicate TimerStep(step: Step) {
    step.Wake? || step.TryPass? || step.EndPass?
  }

  function At(s: Sys, c: nat, pc: CallerPc): Sys
    requires c < |s.callers|
  {
    s.(callers := s.callers[c := pc])
  }

  function TimerAt(s: Sys, t: nat, pc: TimerPc): Sys
    requires t < |s.timers|
  {
    s.(timers := s.timers[t := pc])
  }

  function CallerNext(s: Sys, step: Step): Option<Sys>
    requires !TimerStep(step)
  {
    var c := step.caller;
    if c >= |s.callers| then None
    else
      var pc := s.callers[c];
      match step
      case BeginStart(_) =>
        if !pc.Free? || s.stopLock.Some? then None
        else if s.intervalMs == 0 || s.thread.Some? then Some(s)
        else Some(At(s, c, Starting).(stopLock := Some(c)))
      case ClearFlag(_) => if pc.Starting? then Some(At(s, c, Spawning).(stopping := false)) else None
      case Spawn(_) =>
        if pc.Spawning? then
          Some(At(s, c, Free).(stopLock := None, thread := Some(|s.timers|), timers := s.timers + [Waiting]))
        else None
      case BeginStop(_) => if pc.Free? && s.stopLock.None? then Some(At(s, c, Stopping).(stopLock := Some(c))) else None
      case SetFlag(_) => if pc.Stopping? then Some(At(s, c, Signalled).(stopping := true)) else None
      case CheckJoin(_) =>
        if !pc.Signalled? then None
        else if s.thread.None? then Some(At(s, c, Free).(stopLock := None))
        else Some(At(s, c, Joining(s.thread.value)))
      case FinishJoin(_) =>
        if pc.Joining? && pc.timer < |s.timers| && s.timers[pc.timer].Done? then
          Some(At(s, c, Free).(stopLock := None, thread := None, joined := s.joined + [pc.timer]))
        else None
      case BeginRunNow(_) => if pc.Free? then Some(At(s, c, Queued)) else None
      case LockPass(_) => if pc.Queued? && s.passLock.None? then Some(At(s, c, Passing).(passLock := Some(Caller(c)))) else None
      case EndRunNow(_) => if pc.Passing? then Some(At(s, c, Free).(passLock := None)) else None
  }

  function TimerNext(s: Sys, step: Step): Option<Sys>
    requires TimerStep(step)
  {
    var t := step.timer;
    if t >= |s.timers| then None
    else
      var pc := s.timers[t];
      match step
      case Wake(_) => if pc.Waiting? then Some(TimerAt(s, t, if s.stopping then Done else Ticked)) else None
      case TryPass(_) =>
        if !pc.Ticked? then None
        else if s.passLock.Some? then Some(TimerAt(s, t, Waiting))
        else Some(TimerAt(s, t, TimerPassing).(passLock := Some(Timer(t))))
      case EndPass(_) => if pc.TimerPassing? then Some(TimerAt(s, t, Waiting).(passLock := None)) else None
  }

  function Next(s: Sys, step: Step): Option<Sys> {
    if TimerStep(step) then TimerNext(s, step) else CallerNext(s, step)
  }

  function Run(s: Sys, steps: seq<Step>): Option<Sys> {
    if steps == [] then Some(s)
    else
      var n := |steps| - 1;
      var before := Run(s, steps[..n]);
      if before.None? then None else Next(before.value, steps[n])
  }

  // ----- The invariant -----

  predicate HoldsStop(pc: CallerPc) {
    pc.Starting? || pc.Spawning? || pc.Stopping? || pc.Signalled? || pc.Joining?
  }

  ghost predicate StopLockOk(s: Sys) {
    forall c :: 0 <= c < |s.callers| ==> (s.stopLock == Some(c) <==> HoldsStop(s.callers[c]))
  }

  predicate PassRunning(s: Sys, h: Holder) {
    match h
    case Caller(c) => c < |s.callers| && s.callers[c].Passing?
    case Timer(t) => t < |s.timers| && s.timers[t].TimerPassing?
  }

  /** Whoever holds the pass lock is the one in a pass. */
  ghost predicate PassLockOk(s: Sys) {
    forall h :: PassRunning(s, h) <==> s.passLock == Some(h)
  }

  /** What a caller holding the stop lock knows. */
  predicate CallerOk(pc: CallerPc, intervalMs: nat, thread: Option<nat>, stopping: bool) {
    && (pc.Starting? ==> thread.None? && intervalMs > 0)
    && (pc.Spawning? ==> thread.None? && intervalMs > 0 && !stopping)
    && (pc.Signalled? ==> stopping)
    && (pc.Joining? ==> thread == Some(pc.timer) && stopping)
  }

  ghost predicate CallersOk(s: Sys) {
    forall c :: 0 <= c < |s.callers| ==> CallerOk(s.callers[c], s.intervalMs, s.thread, s.stopping)
  }

  /** Every timer is the joinable thread or was joined, once, after it ended. */
  ghost predicate ThreadsOk(s: Sys) {
    && (s.thread.Some? ==> s.thread.value < |s.timers|)
    && (forall t :: 0 <= t < |s.timers| && s.thread != Some(t) ==> s.timers[t].Done?)
    && (forall t :: t in s.joined <==> 0 <= t < |s.timers| && s.thread != Some(t))
    && (forall i, j :: 0 <= i < j < |s.joined| ==> s.joined[i] != s.joined[j])
    && (s.intervalMs == 0 ==> s.timers == [])
  }

  ghost predicate Inv(s: Sys) {
    StopLockOk(s) && PassLockOk(s) && CallersOk(s) && ThreadsOk(s)
  }

  lemma CallerKeepsStopLock(s: Sys, step: Step)
    requires StopLockOk(s) && !TimerStep(step) && CallerNext(s, step).Some?
    ensures StopLockOk(CallerNext(s, step).value)
  {
  }

  lemma StepKeepsPassLock(s: Sys, step: Step)
    requires Inv(s) && Next(s, step).Some?
    ensures PassLockOk(Next(s, step).value)
  {
    if TimerStep(step) {
      TimerKeepsPassLock(s, step);
    } else {
      CallerKeepsPassLock(s, step);
    }
  }

  lemma TimerKeepsPassLock(s: Sys, step: Step)
    requires PassLockOk(s) && TimerStep(step) && TimerNext(s, step).Some?
    ensures PassLockOk(TimerNext(s, step).value)
  {
    var s' := TimerNext(s, step).value;
    forall h
      ensures PassRunning(s', h) <==> s'.passLock == Some(h)
    {
      assert PassRunning(s, h) <==> s.passLock == Some(h);
      assert PassRunning(s, Timer(step.timer)) <==> s.passLock == Some(Timer(step.timer));
    }
  }

  lemma CallerKeepsPassLock(s: Sys, step: Step)
    requires PassLockOk(s) && !TimerStep(step) && CallerNext(s, step).Some?
    ensures PassLockOk(CallerNext(s, step).value)
  {
    var s' := CallerNext(s, step).value;
    forall h
      ensures PassRunning(s', h) <==> s'.passLock == Some(h)
    {
      assert PassRunning(s, h) <==> s.passLock == Some(h);
      assert PassRunning(s, Caller(step.caller)) <==> s.passLock == Some(Caller(step.caller));
    }
  }

  lemma CallerKeepsCallers(s: Sys, step: Step)
    requires StopLockOk(s) && CallersOk(s) && !TimerStep(step) && CallerNext(s, step).Some?
    ensures CallersOk(CallerNext(s, step).value)
  {
    var s' := CallerNext(s, step).value;
    forall d | 0 <= d < |s'.callers|
      ensures CallerOk(s'.callers[d], s'.intervalMs, s'.thread, s'.stopping)
    {
      assert CallerOk(s.callers[d], s.intervalMs, s.thread, s.stopping);
      assert s.stopLock == Some(d) <==> HoldsStop(s.callers[d]);
      assert s.stopLock == Some(step.caller) <==> HoldsStop(s.callers[step.caller]);
    }
  }

  lemma StepKeepsThreads(s: Sys, step: Step)
    requires Inv(s) && Next(s, step).Some?
    ensures ThreadsOk(Next(s, step).value)
  {
    if !TimerStep(step) {
      assert CallerOk(s.callers[step.caller], s.intervalMs, s.thread, s.stopping);
    }
  }

  lemma StepKeepsInv(s: Sys, step: Step)
    requires Inv(s) && Next(s, step).Some?
    ensures Inv(Next(s, step).value)
  {
    if !TimerStep(step) {
      CallerKeepsStopLock(s, step);
      CallerKeepsCallers(s, step);
    }
    StepKeepsPassLock(s, step);
    StepKeepsThreads(s, step);
  }

  lemma {:induction false} RunKeepsInv(s: Sys, steps: seq<Step>)
    requires Inv(s) && Run(s, steps).Some?
    ensures Inv(Run(s, steps).value)
  {
    if steps != [] {
      var n := |steps| - 1;
      RunKeepsInv(s, steps[..n]);
      StepKeepsInv(Run(s, steps[..n]).value, steps[n]);
    }
  }

  // ----- Over every run -----

  /** At most one pass is in progress, manual or scheduled. */
  lemma OnePassAtATime(init: Sys, steps: seq<Step>, s: Sys, h: Holder, h': Holder)
    requires Init(init) && Run(init, steps) == Some(s) && PassRunning(s, h) && PassRunning(s, h')
    ensures h == h'
  {
    RunKeepsInv(init, steps);
  }

  /** At most one timer is alive, and with no interval there never is one. */
  lemma OneTimerAtATime(init: Sys, steps: seq<Step>, s: Sys, t: nat, u: nat)
    requires Init(init) && Run(init, steps) == Some(s)
    requires t < |s.timers| && u < |s.timers| && !s.timers[t].Done? && !s.timers[u].Done?
    ensures t == u && s.intervalMs > 0
  {
    RunKeepsInv(init, steps);
  }

  /** `step` is where a `Stop` call returns. */
  predicate StopReturns(s: Sys, step: Step) {
    step.FinishJoin? || (step.CheckJoin? && s.thread.None?)
  }

  predicate NoSpawn(steps: seq<Step>) {
    forall i :: 0 <= i < |steps| ==> !steps[i].Spawn?
  }

  ghost predicate AllTimersDone(s: Sys) {
    forall t :: 0 <= t < |s.timers| ==> s.timers[t].Done?
  }

  lemma {:induction false} TimersStayDone(s: Sys, steps: seq<Step>)
    requires AllTimersDone(s) && Run(s, steps).Some? && NoSpawn(steps)
    ensures AllTimersDone(Run(s, steps).value)
  {
    if steps != [] {
      TimersStayDone(s, steps[..|steps| - 1]);
    }
  }

  /** Every timer ever spawned was joined, exactly once. */
  ghost predicate JoinedOnce(s: Sys) {
    && (forall t :: t in s.joined <==> 0 <= t < |s.timers|)
    && (forall i, j :: 0 <= i < j < |s.joined| ==> s.joined[i] != s.joined[j])
  }

  lemma StopReturnsJoined(init: Sys, before: seq<Step>, s: Sys, step: Step, next: Sys)
    requires Init(init) && Run(init, before) == Some(s)
    requires StopReturns(s, step) && Next(s, step) == Some(next)
    ensures JoinedOnce(next) && AllTimersDone(next)
  {
    RunKeepsInv(init, before);
    StepKeepsInv(s, step);
    StopLeavesNoThread(s, step, next);
    NoThreadMeansJoined(next);
  }

  lemma NoThreadMeansJoined(s: Sys)
    requires ThreadsOk(s) && s.thread.None?
    ensures JoinedOnce(s) && AllTimersDone(s)
  {
  }

  lemma StopLeavesNoThread(s: Sys, step: Step, next: Sys)
    requires Inv(s) && StopReturns(s, step) && Next(s, step) == Some(next)
    ensures next.thread.None?
  {
    assert CallerOk(s.callers[step.caller], s.intervalMs, s.thread, s.stopping);
  }

  /** When any of several `Stop` calls returns: every timer ever spawned has ended
      and been joined, exactly once, and no scheduled pass runs or starts until a
      `Start` spawns again. */
  lemma StopIsFinal(init: Sys, before: seq<Step>, s: Sys, step: Step, stopped: Sys, after: seq<Step>, later: Sys)
    requires Init(init) && Run(init, before) == Some(s)
    requires StopReturns(s, step) && Next(s, step) == Some(stopped)
    requires Run(stopped, after) == Some(later) && NoSpawn(after)
    ensures JoinedOnce(stopped) && AllTimersDone(stopped) && AllTimersDone(later)
  {
    StopReturnsJoined(init, before, s, step, stopped);
    TimersStayDone(stopped, after);
  }

  // ----- What a timer does until then -----

  /** Whether the stop flag stands after `steps`: the last to touch it set it. */
  function FlagStands(steps: seq<Step>): bool {
    if steps == [] then false
    else
      var n := |steps| - 1;
      steps[n].SetFlag? || (!steps[n].ClearFlag? && FlagStands(steps[..n]))
  }

  lemma {:induction false} FlagIs(init: Sys, steps: seq<Step>, s: Sys)
    requires Init(init) && Run(init, steps) == Some(s)
    ensures s.stopping <==> FlagStands(steps)
  {
    if steps != [] {
      FlagIs(init, steps[..|steps| - 1], Run(init, steps[..|steps| - 1]).value);
    }
  }

  lemma EndsBy(s: Sys, step: Step, s': Sys, t: nat)
    requires Next(s, step) == Some(s') && t < |s'.timers| && s'.timers[t].Done?
    ensures (t < |s.timers| && s.timers[t].Done?) || (step == Wake(t) && s.stopping)
  {
  }

  /** A timer has ended only by waking up while the stop flag stood. */
  lemma {:induction false} EndsOnlyStopped(init: Sys, steps: seq<Step>, s: Sys, t: nat) returns (n: nat)
    requires Init(init) && Run(init, steps) == Some(s) && t < |s.timers| && s.timers[t].Done?
    ensures n < |steps| && steps[n] == Wake(t) && FlagStands(steps[..n])
  {
    var last := |steps| - 1;
    var before := Run(init, steps[..last]).value;
    FlagIs(init, steps[..last], before);
    if t < |before.timers| && before.timers[t].Done? {
      n := EndsOnlyStopped(init, steps[..last], before, t);
      assert steps[..last][..n] == steps[..n];
    } else {
      n := last;
      EndsBy(before, steps[last], s, t);
    }
  }

  /** From any state of any run, a waiting timer whose interval passes unstopped goes into
      a pass when the pass lock is free, and back to waiting with nothing changed; when
      it is taken it goes back to waiting at once; and once stopped it ends. */
  lemma TickMeansPass(init: Sys, steps: seq<Step>, s: Sys, t: nat)
    requires Init(init) && Run(init, steps) == Some(s) && t < |s.timers| && s.timers[t].Waiting?
    ensures FlagStands(steps) ==> Next(s, Wake(t)) == Some(s.(timers := s.timers[t := Done]))
    ensures !FlagStands(steps) ==>
              && Next(s, Wake(t)).Some? && Next(Next(s, Wake(t)).value, TryPass(t)).Some?
              && (var tried := Next(Next(s, Wake(t)).value, TryPass(t)).value;
                  && (s.passLock.Some? ==> tried == s)
                  && (s.passLock.None? ==>
                        && tried.timers[t].TimerPassing? && tried.passLock == Some(Timer(t))
                        && Next(tried, EndPass(t)) == Some(s)))
  {
    FlagIs(init, steps, s);
    if !s.stopping {
      var ticked := s.timers[t := Ticked];
      assert ticked[t := Waiting] == s.timers && ticked[t := TimerPassing][t := Waiting] == s.timers;
    }
  }

  /** From any state of any run: with an interval and no timer, `Start` clears the flag and
      spawns one that waits, and otherwise changes nothing; `Stop` sets the flag; and
      `RunNow` goes into a pass as soon as no other is in progress. */
  lemma CallsDoTheirWork(s: Sys, c: nat)
    requires c < |s.callers| && s.callers[c].Free?
    ensures s.stopLock.None? && (s.intervalMs == 0 || s.thread.Some?) ==> Next(s, BeginStart(c)) == Some(s)
    ensures s.stopLock.None? && s.intervalMs > 0 && s.thread.None? ==>
              Then(Then(Next(s, BeginStart(c)), ClearFlag(c)), Spawn(c)) ==
              Some(s.(stopping := false, thread := Some(|s.timers|), timers := s.timers + [Waiting]))
    ensures s.stopLock.None? ==>
              var r := Then(Next(s, BeginStop(c)), SetFlag(c)); r.Some? && r.value.stopping && r.value.callers[c].Signalled?
    ensures s.passLock.None? ==>
              && (var r := Then(Next(s, BeginRunNow(c)), LockPass(c));
                  r.Some? && r.value.callers[c].Passing? && r.value.passLock == Some(Caller(c)))
              && Then(Then(Next(s, BeginRunNow(c)), LockPass(c)), EndRunNow(c)) == Some(s)
    ensures s.passLock.Some? ==> Next(s, BeginRunNow(c)).Some? && Then(Next(s, BeginRunNow(c)), LockPass(c)).None?
  {
    var callers := s.callers;
    assert callers[c := Starting][c := Spawning] == callers[c := Spawning] && callers[c := Spawning][c := Free] == callers;
    assert callers[c := Queued][c := Passing] == callers[c := Passing] && callers[c := Passing][c := Free] == callers;
  }

  function Then(s: Option<Sys>, step: Step): Option<Sys> {
    if s.None? then None else Next(s.value, step)
  }

  // ----- `Stop` does return -----

  /** How many of its own steps a signalled timer is from its end. */
  function Rank(pc: TimerPc): nat {
    match pc
    case Done => 0
    case Waiting => 1
    case TimerPassing => 2
    case Ticked => 3
  }

  function TimerMove(pc: TimerPc, t: nat): Step {
    match pc
    case Ticked => TryPass(t)
    case TimerPassing => EndPass(t)
    case _ => Wake(t)
  }

  /** The joined timer always has a step, whatever the locks, and that step brings
      it nearer its end; at its end the join goes through. */
  lemma TimerNears(s: Sys, c: nat)
    requires Inv(s) && c < |s.callers| && s.callers[c].Joining?
    ensures var t := s.callers[c].timer;
            && t < |s.timers|
            && (s.timers[t].Done? ==> Next(s, FinishJoin(c)).Some?)
            && (!s.timers[t].Done? ==>
                  var s' := Next(s, TimerMove(s.timers[t], t));
                  s'.Some? && t < |s'.value.timers| && Rank(s'.value.timers[t]) < Rank(s.timers[t]))
  {
    assert CallerOk(s.callers[c], s.intervalMs, s.thread, s.stopping);
  }

  /** No other step moves it back, and none clears the stop flag or ends the wait. */
  lemma OthersDoNotHinder(s: Sys, c: nat, other: Step)
    requires Inv(s) && c < |s.callers| && s.callers[c].Joining?
    requires Next(s, other).Some? && other != FinishJoin(c)
    ensures var s', t := Next(s, other).value, s.callers[c].timer;
            && c < |s'.callers| && s'.callers[c] == s.callers[c] && s'.stopping
            && t < |s.timers| <= |s'.timers| && Rank(s'.timers[t]) <= Rank(s.timers[t])
  {
    assert CallerOk(s.callers[c], s.intervalMs, s.thread, s.stopping);
    assert s.stopLock == Some(c);
    if !TimerStep(other) {
      assert s.stopLock == Some(other.caller) <==> HoldsStop(s.callers[other.caller]);
    }
  }

  /** `Stop` returns: in every reachable state where it waits to join, the timer can
      be moved to its end in at most three of its own steps, none of them waiting
      for anyone, after which the join goes through; no one else undoes that. */
  lemma {:induction false} StopReturnsSoon(s: Sys, c: nat) returns (steps: seq<Step>)
    requires Inv(s) && c < |s.callers| && s.callers[c].Joining?
    ensures |steps| <= 4 && steps != [] && steps[|steps| - 1] == FinishJoin(c)
    ensures forall i :: 0 <= i < |steps| - 1 ==> TimerStep(steps[i]) && steps[i].timer == s.callers[c].timer
    ensures Run(s, steps).Some? && Run(s, steps).value.callers == s.callers[c := Free]
  {
    var t := s.callers[c].timer;
    var now, moves := s, [];
    TimerNears(s, c);
    while !now.timers[t].Done?
      invariant Inv(now) && now.callers == s.callers && t < |now.timers|
      invariant Run(s, moves) == Some(now) && |moves| + Rank(now.timers[t]) <= 3
      invariant forall i :: 0 <= i < |moves| ==> TimerStep(moves[i]) && moves[i].timer == t
      decreases Rank(now.timers[t])
    {
      TimerNears(now, c);
      var move := TimerMove(now.timers[t], t);
      StepKeepsInv(now, move);
      RunSnoc(s, moves, now, move);
      moves, now := moves + [move], Next(now, move).value;
    }
    TimerNears(now, c);
    RunSnoc(s, moves, now, FinishJoin(c));
    steps := moves + [FinishJoin(c)];
  }

  lemma RunSnoc(s: Sys, steps: seq<Step>, now: Sys, step: Step)
    requires Run(s, steps) == Some(now)
    ensures Run(s, steps + [step]) == Next(now, step)
  {
    assert (steps + [step])[..|steps|] == steps;
  }
}
