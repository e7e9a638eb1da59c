/**
 The scheduler with blocking in two steps, as two critical sections: a thread marks itself blocked, and its
 CPU switches away in a later tick.  In between another CPU can dispatch it.  Threads can also be woken while
 they are on a CPU, between the halves or not.
 */
module SchedulerSplit {
  import opened Wrappers
  import opened SchedulerSteps

  datatype SplitStep = Whole(step: Step) | StartBlockStep(cpu: nat, e: nat) | WakeOnCpuStep(t: nat)

  /** The CPU has a thread that can go on executing: not one that is still marked as blocked. */
  predicate Executes(s: State, cpu: nat) {
    Fits(s, cpu) && s.current[cpu].Some? && !s.threads[s.current[cpu].value].state.Blocked?
  }

  /** Between the halves a CPU does nothing but tick. */
  predicate Possible(s: State, x: SplitStep) {
    match x
    case StartBlockStep(cpu, _) => Executes(s, cpu) && s.current[cpu].value != BOOT
    case WakeOnCpuStep(t) => t < |s.threads| && t != BOOT && IsCurrent(s, t)
    case Whole(step) =>
      Enabled(s, step) && !step.BlockStep? &&
      (match step
       case ForkStep(cpu) => Executes(s, cpu)
       case KillStep(cpu) => Executes(s, cpu)
       case SilenceStep(cpu) => Executes(s, cpu)
       case _ => true)
  }

  function Do(s: State, x: SplitStep): State
    requires Possible(s, x)
  {
    match x
    case StartBlockStep(cpu, e) => StartBlock(s, cpu, e)
    case WakeOnCpuStep(t) => SetState(s, t, Idle)
    case Whole(step) => Next(s, step)
  }

  /** The invariant: a thread on a CPU may also be blocked or idle. */
  ghost predicate SplitInv(s: State) {
    Sound(s, SPLIT, {})
  }

  // ---------------------------------------------------------------- when a tick races

  /** The place of a thread in the scan that starts at `from` and goes round a list of `n`. */
  function Rank(from: Option<nat>, n: nat, i: nat): int
    requires from.Some? ==> from.value < n
  {
    if from.None? then i else if from.value <= i then i - from.value else i + n - from.value
  }

  /** No runnable thread comes before `t` in the scan of a CPU. */
  ghost predicate FirstInScan(s: State, cpu: nat, t: nat)
    requires Fits(s, cpu)
  {
    forall i: nat | i < |s.threads| && Rank(s.current[cpu], |s.threads|, i) < Rank(s.current[cpu], |s.threads|, t) :: !Runnable(s, i)
  }

  lemma PickIsFirst(s: State, cpu: nat, t: nat)
    requires Fits(s, cpu) && t < |s.threads|
    ensures Pick(s, s.current[cpu]) == Some(t) <==> Runnable(s, t) && FirstInScan(s, cpu, t)
  {
    var from, n := s.current[cpu], |s.threads|;
    var p := Pick(s, from);
    if p.Some? {
      PickRank(s, from, p.value);
      if p.value != t && Runnable(s, t) {
        assert Rank(from, n, p.value) < Rank(from, n, t);
      }
    }
  }

  /** The scan passes over nothing that is runnable. */
  lemma PickRank(s: State, from: Option<nat>, p: nat)
    requires from.Some? ==> from.value < |s.threads|
    requires Pick(s, from) == Some(p)
    ensures forall i: nat | i < |s.threads| && Rank(from, |s.threads|, i) < Rank(from, |s.threads|, p) :: !Runnable(s, i)
    ensures forall i: nat | i < |s.threads| && Runnable(s, i) && i != p :: Rank(from, |s.threads|, p) < Rank(from, |s.threads|, i)
  {
    if from.Some? {
      var r := First(s, from.value, |s.threads|);
      forall i: nat | i < |s.threads| && Rank(from, |s.threads|, i) < Rank(from, |s.threads|, p)
        ensures !Runnable(s, i)
      {
      }
    }
  }

  /**
   Another CPU's thread was woken there, or it has marked itself blocked and its event has been triggered
   meanwhile, and nothing runnable comes before it in this CPU's scan.
   */
  ghost predicate Races(s: State, cpu: nat, d: nat)
    requires Fits(s, cpu)
  {
    && d < |s.current| && d != cpu && s.current[d].Some?
    && var t := s.current[d].value;
       && t < |s.threads| && t != BOOT
       && (s.threads[t].state.Idle? || (s.threads[t].state.Blocked? && Count(s, s.threads[t].event) > 0))
       && FirstInScan(s, cpu, t)
  }

  ghost predicate Racy(s: State, cpu: nat)
    requires Fits(s, cpu)
  {
    exists d: nat :: Races(s, cpu, d)
  }

  lemma RacyIff(s: State, cpu: nat)
    requires SplitInv(s) && Fits(s, cpu)
    ensures Racy(s, cpu) <==> PicksCurrent(s, cpu)
  {
    hide Pick, FirstInScan;
    PickFacts(s, cpu);
    forall d: nat | d < |s.current| && d != cpu && s.current[d].Some?
      ensures s.current[d] == Pick(s, s.current[cpu]) <==> Races(s, cpu, d)
    {
      PickIsFirst(s, cpu, s.current[d].value);
    }
  }

  /** A tick puts a thread on two CPUs exactly when it races with one that is blocking or was woken on its CPU. */
  lemma TickRacesIff(s: State, cpu: nat)
    requires SplitInv(s) && Fits(s, cpu)
    ensures !Exclusive(Tick(s, cpu)) <==> Racy(s, cpu)
  {
    hide Tick, Pick, Racy;
    RacyIff(s, cpu);
    PickFacts(s, cpu);
    TickEffect(s, cpu);
    var t := Tick(s, cpu);
    if PicksCurrent(s, cpu) {
      var d: nat :| d < |s.current| && d != cpu && s.current[d].Some? && s.current[d] == Pick(s, s.current[cpu]);
      assert t.current[d] == t.current[cpu];
      assert t.current[if d < cpu then d else cpu] == t.current[if d < cpu then cpu else d];
    } else {
      TickExclusive(s, cpu);
    }
  }

  lemma DoSound(s: State, x: SplitStep)
    requires SplitInv(s) && Possible(s, x)
    requires x.Whole? && x.step.TickStep? ==> !Racy(s, x.step.cpu)
    ensures SplitInv(Do(s, x))
  {
    hide Sound, Tick, Racy, PicksCurrent;
    match x
    case StartBlockStep(cpu, e) => StartBlockSound(s, cpu, e, SPLIT);
    case WakeOnCpuStep(t) => StateSound(s, t, Idle, SPLIT);
    case Whole(step) =>
      if step.TickStep? {
        RacyIff(s, step.cpu);
        Weaken(s, SPLIT, step.cpu);
        TickSound(s, step.cpu, SPLIT);
      } else {
        OtherSound(s, step, SPLIT);
      }
  }

  // ---------------------------------------------------------------- runs

  ghost predicate IsSplitRun(s: State, xs: seq<SplitStep>)
    decreases |xs|
  {
    xs == [] || (Possible(s, xs[0]) && IsSplitRun(Do(s, xs[0]), xs[1..]))
  }

  function AfterSplit(s: State, xs: seq<SplitStep>): State
    requires IsSplitRun(s, xs)
    decreases |xs|
  {
    if xs == [] then s else AfterSplit(Do(s, xs[0]), xs[1..])
  }

  /** At every point of the run each thread is on one CPU only. */
  ghost predicate AlwaysExclusive(s: State, xs: seq<SplitStep>)
    requires IsSplitRun(s, xs)
    decreases |xs|
  {
    Exclusive(s) && (xs != [] ==> AlwaysExclusive(Do(s, xs[0]), xs[1..]))
  }

  ghost predicate RacyStep(s: State, x: SplitStep)
    requires Possible(s, x)
  {
    x.Whole? && x.step.TickStep? && Racy(s, x.step.cpu)
  }

  /** No tick of the run races. */
  ghost predicate NeverRaces(s: State, xs: seq<SplitStep>)
    requires IsSplitRun(s, xs)
    decreases |xs|
  {
    xs != [] ==> !RacyStep(s, xs[0]) && NeverRaces(Do(s, xs[0]), xs[1..])
  }

  lemma {:induction false} ExclusiveIff(s: State, xs: seq<SplitStep>)
    requires SplitInv(s) && IsSplitRun(s, xs)
    ensures AlwaysExclusive(s, xs) <==> NeverRaces(s, xs)
    decreases |xs|
  {
    hide Tick, Racy, Exclusive, CurrentIn, RunningIsCurrent;
    if xs != [] {
      if RacyStep(s, xs[0]) {
        TickRacesIff(s, xs[0].step.cpu);
      } else {
        DoSound(s, xs[0]);
        ExclusiveIff(Do(s, xs[0]), xs[1..]);
      }
    }
  }

  /** From boot, on any number of CPUs: a thread is on one CPU at every point of a run exactly when no tick of the run races. */
  lemma RunExclusiveIff(s: State, xs: seq<SplitStep>)
    requires Initial(s) && IsSplitRun(s, xs)
    ensures AlwaysExclusive(s, xs) <==> NeverRaces(s, xs)
  {
    ExclusiveIff(s, xs);
  }

  /** A race: the thread's event is triggered when it marks itself blocked, and another CPU dispatches it. */
  lemma SplitBlockRace()
    ensures var s := State([Thread(Silent, 0), Thread(Running, 0)], [Some(1), None], map[7 := 1]);
            && Inv(s) && Fits(s, 0) && Fits(StartBlock(s, 0, 7), 1)
            && Racy(StartBlock(s, 0, 7), 1) && !Exclusive(Tick(StartBlock(s, 0, 7), 1))
  {
    var s := State([Thread(Silent, 0), Thread(Running, 0)], [Some(1), None], map[7 := 1]);
    assert s.current[0] == Some(1);
    assert IsCurrent(s, 1);
    var mid := StartBlock(s, 0, 7);
    StartBlockSound(s, 0, 7, ATOMIC);
    assert !Runnable(mid, 0) && Runnable(mid, 1);
    assert FirstInScan(mid, 1, 1);
    assert Races(mid, 1, 0);
    assert IsCurrent(mid, 1);
    assert SplitInv(mid);
    TickRacesIff(mid, 1);
  }

  /** Another race: the thread is woken between the halves, without any trigger, and another CPU dispatches it. */
  lemma LateWakeRace()
    ensures var mid := StartBlock(State([Thread(Silent, 0), Thread(Running, 0)], [Some(1), None], map[]), 0, 7);
            && SplitInv(mid) && Possible(mid, WakeOnCpuStep(1)) && Fits(Do(mid, WakeOnCpuStep(1)), 1)
            && Racy(Do(mid, WakeOnCpuStep(1)), 1) && !Exclusive(Tick(Do(mid, WakeOnCpuStep(1)), 1))
  {
    hide Tick;
    var mid := StartBlock(State([Thread(Silent, 0), Thread(Running, 0)], [Some(1), None], map[]), 0, 7);
    assert mid.current[0] == Some(1);
    assert IsCurrent(mid, 1);
    assert SplitInv(mid);
    var end := Do(mid, WakeOnCpuStep(1));
    StateSound(mid, 1, Idle, SPLIT);
    assert !Runnable(end, 0) && Runnable(end, 1);
    assert FirstInScan(end, 1, 1);
    assert Races(end, 1, 0);
    TickRacesIff(end, 1);
  }

  // ---------------------------------------------------------------- blocking in one step

  /** A run of whole steps, each block as its two halves back to back. */
  function Halves(steps: seq<Step>): seq<SplitStep> {
    if steps == [] then []
    else
      (match steps[0]
       case BlockStep(cpu, e) => [StartBlockStep(cpu, e), Whole(TickStep(cpu))]
       case step => [Whole(step)]) + Halves(steps[1..])
  }

  /** Where threads on other CPUs run or are silent, no tick races. */
  lemma CalmTick(s: State, cpu: nat)
    requires Fits(s, cpu) && CurrentIn(s, ATOMIC, {cpu})
    ensures !Racy(s, cpu)
  {
  }

  lemma CalmStep(s: State, step: Step)
    requires Inv(s) && Enabled(s, step) && !step.BlockStep?
    ensures Possible(s, Whole(step)) && !RacyStep(s, Whole(step))
  {
    hide Racy, Exclusive, RunningIsCurrent;
    if step.TickStep? {
      CalmTick(s, step.cpu);
    }
  }

  lemma CalmBlock(s: State, cpu: nat, e: nat)
    requires Inv(s) && Enabled(s, BlockStep(cpu, e))
    ensures Possible(s, StartBlockStep(cpu, e))
    ensures var mid := StartBlock(s, cpu, e); Possible(mid, Whole(TickStep(cpu))) && !RacyStep(mid, Whole(TickStep(cpu)))
  {
    hide Racy, Exclusive, RunningIsCurrent;
    StartBlockSound(s, cpu, e, ATOMIC);
    CalmTick(StartBlock(s, cpu, e), cpu);
  }

  /** A step in front of a run. */
  lemma Prepend(s: State, x: SplitStep, xs: seq<SplitStep>)
    requires Possible(s, x) && IsSplitRun(Do(s, x), xs)
    ensures IsSplitRun(s, [x] + xs) && AfterSplit(s, [x] + xs) == AfterSplit(Do(s, x), xs)
    ensures NeverRaces(s, [x] + xs) <==> !RacyStep(s, x) && NeverRaces(Do(s, x), xs)
  {
    assert ([x] + xs)[1..] == xs;
  }

  /** A block's two halves in front of a calm run. */
  lemma PrependBlock(s: State, cpu: nat, e: nat, rest: seq<SplitStep>)
    requires Inv(s) && Enabled(s, BlockStep(cpu, e)) && IsSplitRun(Block(s, cpu, e), rest) && NeverRaces(Block(s, cpu, e), rest)
    ensures var xs := [StartBlockStep(cpu, e), Whole(TickStep(cpu))] + rest;
            IsSplitRun(s, xs) && NeverRaces(s, xs) && AfterSplit(s, xs) == AfterSplit(Block(s, cpu, e), rest)
  {
    hide Sound, Tick, Racy, IsSplitRun, NeverRaces, AfterSplit;
    CalmBlock(s, cpu, e);
    var mid, tick := StartBlock(s, cpu, e), Whole(TickStep(cpu));
    Prepend(mid, tick, rest);
    Prepend(s, StartBlockStep(cpu, e), [tick] + rest);
    assert [StartBlockStep(cpu, e)] + ([tick] + rest) == [StartBlockStep(cpu, e), tick] + rest;
  }

  /** With both halves back to back no tick races, and the run ends where the run of whole steps does. */
  lemma {:induction false} OneStepNeverRaces(s: State, steps: seq<Step>)
    requires Inv(s) && IsRun(s, steps)
    ensures IsSplitRun(s, Halves(steps)) && NeverRaces(s, Halves(steps)) && AfterSplit(s, Halves(steps)) == After(s, steps)
    decreases |steps|
  {
    if steps != [] {
      hide Sound, Tick, Block, RacyStep, Possible, Enabled, IsSplitRun, NeverRaces, AfterSplit;
      var next := Next(s, steps[0]);
      var rest := Halves(steps[1..]);
      NextSafe(s, steps[0]);
      OneStepNeverRaces(next, steps[1..]);
      match steps[0] {
        case BlockStep(cpu, e) => PrependBlock(s, cpu, e, rest);
        case step => CalmStep(s, step); Prepend(s, Whole(step), rest);
      }
    }
  }
}
