/** How often an event wakes threads, over every run of the scheduler. */
module SchedulerEvents {
  import opened SchedulerSteps

  /** The tick dispatches a thread that waits for the event. */
  predicate TickClaims(s: State, cpu: nat, e: nat)
    requires Fits(s, cpu)
  {
    var pick := Pick(s, s.current[cpu]);
    pick.Some? && s.threads[pick.value].state.Blocked? && s.threads[pick.value].event == e
  }

  /** How many threads the step wakes by the event: none or one. */
  function Claimed(s: State, step: Step, e: nat): nat
    requires Enabled(s, step)
  {
    match step
    case TickStep(cpu) => if TickClaims(s, cpu, e) then 1 else 0
    case BlockStep(cpu, f) => if TickClaims(StartBlock(s, cpu, f), cpu, e) then 1 else 0
    case _ => 0
  }

  function Claims(s: State, steps: seq<Step>, e: nat): nat
    requires IsRun(s, steps)
    decreases |steps|
  {
    if steps == [] then 0 else Claimed(s, steps[0], e) + Claims(Next(s, steps[0]), steps[1..], e)
  }

  function Triggers(steps: seq<Step>, e: nat): nat {
    if steps == [] then 0 else (if steps[0] == TriggerStep(e) then 1 else 0) + Triggers(steps[1..], e)
  }

  lemma TickCounts(s: State, cpu: nat, e: nat)
    requires Fits(s, cpu)
    ensures Count(Tick(s, cpu), e) + (if TickClaims(s, cpu, e) then 1 else 0) == Count(s, e)
  {
  }

  lemma StepCounts(s: State, step: Step, e: nat)
    requires Enabled(s, step)
    ensures Count(Next(s, step), e) + Claimed(s, step, e) == Count(s, e) + if step == TriggerStep(e) then 1 else 0
  {
    hide Tick, TickClaims, Pick;
    match step
    case TickStep(cpu) => TickCounts(s, cpu, e);
    case BlockStep(cpu, f) => TickCounts(StartBlock(s, cpu, f), cpu, e);
    case _ =>
  }

  /** Over every run, what the counter holds and what was claimed add up to what it held and what was triggered. */
  lemma {:induction false} RunCounts(s: State, steps: seq<Step>, e: nat)
    requires IsRun(s, steps)
    ensures Count(After(s, steps), e) + Claims(s, steps, e) == Count(s, e) + Triggers(steps, e)
    decreases |steps|
  {
    hide Count, Claimed, Next, Enabled;
    if steps != [] {
      StepCounts(s, steps[0], e);
      RunCounts(Next(s, steps[0]), steps[1..], e);
    }
  }
}
