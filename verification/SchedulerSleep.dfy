/** Threads that are not to run: dead, silent, or waiting for an event, until something rouses them. */
module SchedulerSleep {
  import opened Wrappers
  import opened SchedulerSteps

  /** The thread is on no CPU, and no scan picks it. */
  predicate Asleep(s: State, t: nat) {
    && t < |s.threads| && t != BOOT && !IsCurrent(s, t)
    && (s.threads[t].state.Disabled? || s.threads[t].state.Silent? || (s.threads[t].state.Blocked? && Count(s, s.threads[t].event) == 0))
  }

  predicate Dead(s: State, t: nat) {
    t < |s.threads| && s.threads[t].state.Disabled?
  }

  predicate WaitsFor(s: State, t: nat, e: nat) {
    t < |s.threads| && s.threads[t] == Thread(Blocked, e)
  }

  predicate LowestDead(s: State, i: nat) {
    i < |s.threads| && s.threads[i].state.Disabled? && forall j | 0 <= j < i :: !s.threads[j].state.Disabled?
  }

  /** The step wakes the thread, triggers the event it waits for, or gives its dead slot to a new thread. */
  predicate Rouses(s: State, step: Step, t: nat)
    requires t < |s.threads|
  {
    match step
    case WakeStep(u) => u == t
    case TriggerStep(e) => s.threads[t].state.Blocked? && s.threads[t].event == e
    case CreateStep => LowestDead(s, t)
    case ForkStep(_) => LowestDead(s, t)
    case _ => false
  }

  // ---------------------------------------------------------------- one step

  lemma TickKeepsAsleep(s: State, cpu: nat, t: nat)
    requires Fits(s, cpu) && t < |s.threads| && s.current[cpu] != Some(t)
    requires !Runnable(s, t)
    ensures Tick(s, cpu).threads[t] == s.threads[t] && Tick(s, cpu).current[cpu] != Some(t)
    ensures forall c | 0 <= c < |s.current| && c != cpu :: Tick(s, cpu).current[c] == s.current[c]
    ensures forall e: nat | Count(s, e) == 0 :: Count(Tick(s, cpu), e) == 0
  {
  }

  lemma TickAsleep(s: State, cpu: nat, t: nat)
    requires Fits(s, cpu) && Asleep(s, t)
    ensures Asleep(Tick(s, cpu), t) && Tick(s, cpu).threads[t] == s.threads[t]
  {
    hide Tick, Pick;
    TickEffect(s, cpu);
    TickKeepsAsleep(s, cpu, t);
    var u := Tick(s, cpu);
    forall c | 0 <= c < |u.current|
      ensures u.current[c] != Some(t)
    {
      assert s.current[c] != Some(t);
    }
  }

  lemma OthersAsleep(s: State, step: Step, t: nat)
    requires Enabled(s, step) && Asleep(s, t) && !Rouses(s, step, t) && !step.TickStep? && !step.BlockStep?
    ensures Asleep(Next(s, step), t) && Next(s, step).threads[t] == s.threads[t]
  {
    var u := Next(s, step);
    if step.KillStep? || step.SilenceStep? {
      assert s.current[step.cpu] == Some(s.current[step.cpu].value);
    }
    forall c | 0 <= c < |u.current|
      ensures u.current[c] != Some(t)
    {
      assert s.current[c] != Some(t);
    }
  }

  lemma StepAsleep(s: State, step: Step, t: nat)
    requires Enabled(s, step) && Asleep(s, t) && !Rouses(s, step, t)
    ensures Asleep(Next(s, step), t) && Next(s, step).threads[t] == s.threads[t]
  {
    hide Tick;
    match step
    case TickStep(cpu) => TickAsleep(s, cpu, t);
    case BlockStep(cpu, e) =>
      var mid := StartBlock(s, cpu, e);
      assert s.current[cpu] == Some(s.current[cpu].value);
      assert !IsCurrent(mid, t) by {
        assert mid.current == s.current;
      }
      TickAsleep(mid, cpu, t);
    case _ => OthersAsleep(s, step, t);
  }

  /** Every thread but one is as it was. */
  predicate OnlyThread(s: State, u: State, t: nat, st: ThreadState) {
    && t < |s.threads| == |u.threads| && u.threads[t] == s.threads[t].(state := st)
    && forall i | 0 <= i < |s.threads| && i != t :: u.threads[i] == s.threads[i]
  }

  /** Every CPU but one is as it was. */
  predicate OnlyCpu(s: State, u: State, cpu: nat, now: Option<nat>) {
    && cpu < |s.current| == |u.current| && u.current[cpu] == now
    && forall c | 0 <= c < |s.current| && c != cpu :: u.current[c] == s.current[c]
  }

  /** What the steps that are about one thread or one CPU do: those and nothing else change. */
  lemma StepEffect(s: State, step: Step)
    requires Enabled(s, step)
    ensures var u := Next(s, step);
            match step {
              case WakeStep(t) => OnlyThread(s, u, t, Idle) && u.current == s.current && u.events == s.events
              case SilenceStep(cpu) => OnlyThread(s, u, s.current[cpu].value, Silent) && u.current == s.current && u.events == s.events
              case KillStep(cpu) => OnlyThread(s, u, s.current[cpu].value, Disabled) && OnlyCpu(s, u, cpu, None) && u.events == s.events
              case BootStep(cpu) => u.threads == s.threads && OnlyCpu(s, u, cpu, Some(0)) && u.events == s.events
              case TriggerStep(e) =>
                && u.threads == s.threads && u.current == s.current
                && forall f: nat :: Count(u, f) == Count(s, f) + if f == e then 1 else 0
              case _ => true
            }
  {
  }

  // ---------------------------------------------------------------- runs

  /** No step of the run rouses the thread. */
  ghost predicate LeftAlone(s: State, steps: seq<Step>, t: nat)
    requires IsRun(s, steps)
    decreases |steps|
  {
    steps == [] || (t < |s.threads| && !Rouses(s, steps[0], t) && LeftAlone(Next(s, steps[0]), steps[1..], t))
  }

  /** At every point of the run the thread is on no CPU. */
  ghost predicate OffThroughout(s: State, steps: seq<Step>, t: nat)
    requires IsRun(s, steps)
    decreases |steps|
  {
    !IsCurrent(s, t) && (steps != [] ==> OffThroughout(Next(s, steps[0]), steps[1..], t))
  }

  /** A thread that is asleep runs at no point of a run that leaves it alone, and is at its end as it was. */
  lemma {:induction false} StaysOff(s: State, steps: seq<Step>, t: nat)
    requires IsRun(s, steps) && Asleep(s, t) && LeftAlone(s, steps, t)
    ensures OffThroughout(s, steps, t)
    ensures Asleep(After(s, steps), t) && After(s, steps).threads[t] == s.threads[t]
    decreases |steps|
  {
    hide Enabled, Next, Rouses;
    if steps != [] {
      StepAsleep(s, steps[0], t);
      StaysOff(Next(s, steps[0]), steps[1..], t);
    }
  }

  // ---------------------------------------------------------------- how threads fall asleep

  /** No other CPU has the thread. */
  lemma AloneOn(s: State, cpu: nat, c: nat)
    requires Inv(s) && cpu < |s.current| && c < |s.current| && c != cpu && s.current[cpu].Some? && s.current[cpu].value != BOOT
    ensures s.current[c] != s.current[cpu]
  {
  }

  /** A killed thread runs at no point until it is woken or its slot is taken. */
  lemma KilledStaysOff(s: State, cpu: nat, steps: seq<Step>)
    requires Inv(s) && Enabled(s, KillStep(cpu)) && IsRun(Next(s, KillStep(cpu)), steps)
    requires LeftAlone(Next(s, KillStep(cpu)), steps, s.current[cpu].value)
    ensures OffThroughout(Next(s, KillStep(cpu)), steps, s.current[cpu].value)
    ensures Dead(After(Next(s, KillStep(cpu)), steps), s.current[cpu].value)
  {
    var t, u := s.current[cpu].value, Next(s, KillStep(cpu));
    forall c | 0 <= c < |u.current|
      ensures u.current[c] != Some(t)
    {
      if c != cpu {
        AloneOn(s, cpu, c);
      }
    }
    StaysOff(u, steps, t);
  }

  /** A thread that blocks on an event without triggers runs at no point until the event is triggered or the thread woken. */
  lemma BlockedStaysOff(s: State, cpu: nat, e: nat, steps: seq<Step>)
    requires Inv(s) && Enabled(s, BlockStep(cpu, e)) && Count(s, e) == 0 && IsRun(Next(s, BlockStep(cpu, e)), steps)
    requires LeftAlone(Next(s, BlockStep(cpu, e)), steps, s.current[cpu].value)
    ensures OffThroughout(Next(s, BlockStep(cpu, e)), steps, s.current[cpu].value)
    ensures WaitsFor(After(Next(s, BlockStep(cpu, e)), steps), s.current[cpu].value, e)
  {
    hide Tick;
    var t, mid := s.current[cpu].value, StartBlock(s, cpu, e);
    LeavesCpu(s, mid, cpu, t);
    StaysOff(Next(s, BlockStep(cpu, e)), steps, t);
  }

  /** A thread that is silenced and leaves its CPU runs at no point until it is woken. */
  lemma SilencedStaysOff(s: State, cpu: nat, steps: seq<Step>)
    requires Inv(s) && Enabled(s, SilenceStep(cpu)) && s.current[cpu].value != BOOT
    requires IsRun(Tick(Next(s, SilenceStep(cpu)), cpu), steps)
    requires LeftAlone(Tick(Next(s, SilenceStep(cpu)), cpu), steps, s.current[cpu].value)
    ensures OffThroughout(Tick(Next(s, SilenceStep(cpu)), cpu), steps, s.current[cpu].value)
  {
    hide Tick;
    var t, mid := s.current[cpu].value, Next(s, SilenceStep(cpu));
    LeavesCpu(s, mid, cpu, t);
    StaysOff(Tick(mid, cpu), steps, t);
  }

  /** The tick of its own CPU takes a thread off that is not to run. */
  lemma LeavesCpu(s: State, mid: State, cpu: nat, t: nat)
    requires Inv(s) && Fits(s, cpu) && s.current[cpu] == Some(t) && t != BOOT
    requires mid.current == s.current && |mid.threads| == |s.threads|
    requires mid.threads[t].state.Silent? || (mid.threads[t].state.Blocked? && Count(mid, mid.threads[t].event) == 0)
    ensures Asleep(Tick(mid, cpu), t) && Tick(mid, cpu).threads[t] == mid.threads[t]
  {
    hide Pick;
    var u := Tick(mid, cpu);
    PickNot(mid, cpu, t);
    forall c | 0 <= c < |u.current|
      ensures u.current[c] != Some(t)
    {
      if c != cpu {
        AloneOn(s, cpu, c);
      }
    }
  }

  lemma PickNot(s: State, cpu: nat, t: nat)
    requires Fits(s, cpu) && t < |s.threads| && !Runnable(s, t)
    ensures Pick(s, s.current[cpu]) != Some(t)
  {
  }

  // ---------------------------------------------------------------- creation

  /** Slot `i` now holds a thread in state `st`; every other slot, the CPUs and the events are as they were. */
  predicate Takes(s: State, u: State, i: nat, st: ThreadState) {
    && i <= |s.threads| && |u.threads| == (if i < |s.threads| then |s.threads| else |s.threads| + 1)
    && u.threads[i].state == st && (forall j | 0 <= j < |s.threads| && j != i :: u.threads[j] == s.threads[j])
    && u.current == s.current && u.events == s.events
  }

  /** The state that a new thread starts in: a created one is silent, a forked one can run. */
  function StartState(step: Step): ThreadState {
    if step.ForkStep? then Idle else Silent
  }

  /** A new thread takes the lowest dead slot, or a new one if there is none. */
  lemma CreateTakes(s: State, step: Step)
    requires Enabled(s, step) && (step.CreateStep? || step.ForkStep?)
    ensures exists i: nat :: Takes(s, Next(s, step), i, StartState(step)) &&
              (LowestDead(s, i) || (i == |s.threads| && forall j | 0 <= j < |s.threads| :: !s.threads[j].state.Disabled?))
  {
    var i := FreeSlot(s, 0);
    assert Takes(s, Next(s, step), i, StartState(step));
  }

  /** After a kill the next thread that is created or forked takes a slot that is not above the dead thread's. */
  lemma KilledSlotReused(s: State, cpu: nat, steps: seq<Step>, step: Step)
    requires Inv(s) && Enabled(s, KillStep(cpu)) && IsRun(Next(s, KillStep(cpu)), steps)
    requires LeftAlone(Next(s, KillStep(cpu)), steps, s.current[cpu].value)
    requires step.CreateStep? || step.ForkStep?
    requires Enabled(After(Next(s, KillStep(cpu)), steps), step)
    ensures var u := After(Next(s, KillStep(cpu)), steps);
            exists i: nat :: i <= s.current[cpu].value && LowestDead(u, i) && Takes(u, Next(u, step), i, StartState(step))
  {
    hide Kill, Create, FreeSlot, Takes;
    KilledStaysOff(s, cpu, steps);
    var t := s.current[cpu].value;
    var u := After(Next(s, KillStep(cpu)), steps);
    CreateTakes(u, step);
    var i: nat :| Takes(u, Next(u, step), i, StartState(step)) &&
                  (LowestDead(u, i) || (i == |u.threads| && forall j | 0 <= j < |u.threads| :: !u.threads[j].state.Disabled?));
    assert Dead(u, t);
  }

  /** A thread that was created and not forked runs at no point until it is woken. */
  lemma CreatedStaysOff(s: State, i: nat, steps: seq<Step>)
    requires Inv(s) && Takes(s, Next(s, CreateStep), i, Silent) && (LowestDead(s, i) || i == |s.threads|)
    requires IsRun(Next(s, CreateStep), steps) && LeftAlone(Next(s, CreateStep), steps, i)
    ensures OffThroughout(Next(s, CreateStep), steps, i)
  {
    hide Create;
    var u := Next(s, CreateStep);
    forall c | 0 <= c < |u.current|
      ensures u.current[c] != Some(i)
    {
    }
    StaysOff(u, steps, i);
  }
}
