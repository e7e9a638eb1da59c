/** How long a runnable thread waits, and whom it is safe to wake. */
module SchedulerFairness {
  import opened Wrappers
  import opened SchedulerSteps

  // ---------------------------------------------------------------- bounded waiting

  /** Ticks of any CPUs, one after the other. */
  ghost predicate TicksFit(s: State, ticks: seq<nat>) {
    forall i | 0 <= i < |ticks| :: ticks[i] < |s.current|
  }

  function AfterTicks(s: State, ticks: seq<nat>): State
    requires Inv(s) && TicksFit(s, ticks)
    decreases |ticks|
  {
    if ticks == [] then s
    else
      InvFits(s, ticks[0]);
      TickKeepsShape(s, ticks[0]);
      AfterTicks(Tick(s, ticks[0]), ticks[1..])
  }

  lemma InvFits(s: State, cpu: nat)
    requires Inv(s) && cpu < |s.current|
    ensures Fits(s, cpu) && Sound(s, ATOMIC, {cpu})
  {
  }

  lemma TickKeepsShape(s: State, cpu: nat)
    requires Inv(s) && cpu < |s.current|
    ensures Fits(s, cpu) && Inv(Tick(s, cpu))
    ensures |Tick(s, cpu).current| == |s.current| && |Tick(s, cpu).threads| == |s.threads|
  {
    InvFits(s, cpu);
    TickSafe(s, cpu);
    TickEffect(s, cpu);
  }

  function CountOf(ticks: seq<nat>, cpu: nat): nat {
    if ticks == [] then 0 else (if ticks[0] == cpu then 1 else 0) + CountOf(ticks[1..], cpu)
  }

  /** Threads that the CPU looks at before it comes to `t`, going round the list. */
  function Distance(s: State, cpu: nat, t: nat): nat
    requires cpu < |s.current| && t < |s.threads| && Fits(s, cpu)
  {
    if s.current[cpu].None? then |s.threads|
    else
      var u := s.current[cpu].value;
      if u <= t then t - u else t + |s.threads| - u
  }

  /** A tick of the CPU either dispatches the thread or brings the CPU closer to it. */
  lemma TickApproaches(s: State, cpu: nat, t: nat)
    requires Inv(s) && cpu < |s.current| && t < |s.threads| && s.threads[t].state.Idle?
    ensures Fits(s, cpu) && Fits(Tick(s, cpu), cpu)
    ensures |Tick(s, cpu).threads| == |s.threads|
    ensures Tick(s, cpu).threads[t].state.Running? ||
            (Tick(s, cpu).threads[t].state.Idle? && Distance(Tick(s, cpu), cpu, t) < Distance(s, cpu, t))
  {
    InvFits(s, cpu);
    TickEffect(s, cpu);
    TickKeepsShape(s, cpu);
    var pick := Pick(s, s.current[cpu]);
    assert Runnable(s, t);
    PickCloser(s, cpu, t);
    hide Tick, Pick;
  }

  /** The scan picks the thread itself or one that comes before it and is not the current one. */
  lemma PickCloser(s: State, cpu: nat, t: nat)
    requires Inv(s) && cpu < |s.current| && t < |s.threads| && s.threads[t].state.Idle?
    ensures Fits(s, cpu) && Pick(s, s.current[cpu]).Some?
    ensures var p := Pick(s, s.current[cpu]).value;
            p != t ==> (if p <= t then t - p else t + |s.threads| - p) < Distance(s, cpu, t)
  {
    InvFits(s, cpu);
    assert Runnable(s, t);
    if s.current[cpu].Some? {
      assert !Runnable(s, s.current[cpu].value);
    }
  }

  /** A tick of another CPU dispatches the thread or leaves it and this CPU as they were. */
  lemma TickElsewhere(s: State, cpu: nat, other: nat, t: nat)
    requires Inv(s) && cpu < |s.current| && other < |s.current| && other != cpu
    requires t < |s.threads| && s.threads[t].state.Idle?
    ensures Fits(s, cpu) && Fits(s, other) && Fits(Tick(s, other), cpu)
    ensures |Tick(s, other).threads| == |s.threads|
    ensures Tick(s, other).threads[t].state.Running? ||
            (Tick(s, other).threads[t].state.Idle? && Distance(Tick(s, other), cpu, t) == Distance(s, cpu, t))
  {
    InvFits(s, cpu);
    InvFits(s, other);
    TickEffect(s, other);
    hide Tick, Pick;
  }

  lemma {:induction false} Waits(s: State, ticks: seq<nat>, cpu: nat, t: nat) returns (k: nat)
    requires Inv(s) && TicksFit(s, ticks) && cpu < |s.current| && t < |s.threads| && s.threads[t].state.Idle?
    requires Fits(s, cpu) && CountOf(ticks, cpu) >= Distance(s, cpu, t)
    ensures k <= |ticks| && TicksFit(s, ticks[..k])
    ensures t < |AfterTicks(s, ticks[..k]).threads| && AfterTicks(s, ticks[..k]).threads[t].state.Running?
    decreases |ticks|
  {
    hide Tick, Distance;
    IdleIsAway(s, cpu, t);
    var rest := ticks[1..];
    InvFits(s, ticks[0]);
    TickKeepsShape(s, ticks[0]);
    var next := Tick(s, ticks[0]);
    if ticks[0] == cpu {
      TickApproaches(s, cpu, t);
    } else {
      TickElsewhere(s, cpu, ticks[0], t);
    }
    var j := 0;
    if !next.threads[t].state.Running? {
      j := Waits(next, rest, cpu, t);
    }
    k := j + 1;
    assert ticks[..k][1..] == rest[..j] && ticks[..k][0] == ticks[0];
    assert AfterTicks(s, ticks[..k]) == AfterTicks(next, rest[..j]);
  }

  /** An idle thread is not current, so some tick is left. */
  lemma IdleIsAway(s: State, cpu: nat, t: nat)
    requires Inv(s) && cpu < |s.current| && t < |s.threads| && s.threads[t].state.Idle? && Fits(s, cpu)
    ensures 0 < Distance(s, cpu, t) <= |s.threads|
  {
  }

  /** With a fixed thread list and preemption only, an idle thread runs within as many ticks of any one CPU as there are threads. */
  lemma BoundedWaiting(s: State, ticks: seq<nat>, cpu: nat, t: nat)
    requires Inv(s) && TicksFit(s, ticks) && cpu < |s.current| && t < |s.threads| && s.threads[t].state.Idle?
    requires CountOf(ticks, cpu) >= |s.threads|
    ensures exists k | 0 <= k <= |ticks| ::
              TicksFit(s, ticks[..k]) && t < |AfterTicks(s, ticks[..k]).threads| && AfterTicks(s, ticks[..k]).threads[t].state.Running?
  {
    InvFits(s, cpu);
    IdleIsAway(s, cpu, t);
    var k := Waits(s, ticks, cpu, t);
  }

  /** At some point of the ticks the thread runs. */
  ghost predicate RunsWithin(s: State, ticks: seq<nat>, t: nat)
    requires Inv(s) && TicksFit(s, ticks)
  {
    exists k | 0 <= k <= |ticks| ::
      TicksFit(s, ticks[..k]) && t < |AfterTicks(s, ticks[..k]).threads| && AfterTicks(s, ticks[..k]).threads[t].state.Running?
  }

  /** A thread that is woken runs within as many ticks of any one CPU as there are threads. */
  lemma WokenRuns(s: State, t: nat, ticks: seq<nat>, cpu: nat)
    requires Inv(s) && Enabled(s, WakeStep(t)) && TicksFit(s, ticks) && cpu < |s.current| && CountOf(ticks, cpu) >= |s.threads|
    ensures Inv(Next(s, WakeStep(t))) && RunsWithin(Next(s, WakeStep(t)), ticks, t)
  {
    hide RunsWithin;
    var u := Next(s, WakeStep(t));
    NextSafe(s, WakeStep(t));
    IdleRuns(u, ticks, cpu, t);
  }

  /** So does a forked thread, whichever slot it got. */
  lemma ForkedRuns(s: State, parent: nat, ticks: seq<nat>, cpu: nat)
    requires Inv(s) && Enabled(s, ForkStep(parent)) && TicksFit(s, ticks) && cpu < |s.current| && CountOf(ticks, cpu) > |s.threads|
    ensures var u := Next(s, ForkStep(parent));
            Inv(u) && exists t: nat :: t < |u.threads| && (t < |s.threads| ==> s.threads[t].state.Disabled?) && RunsWithin(u, ticks, t)
  {
    hide RunsWithin;
    var u, t := Next(s, ForkStep(parent)), FreeSlot(s, 0);
    NextSafe(s, ForkStep(parent));
    IdleRuns(u, ticks, cpu, t);
  }

  lemma IdleRuns(s: State, ticks: seq<nat>, cpu: nat, t: nat)
    requires Inv(s) && TicksFit(s, ticks) && cpu < |s.current| && t < |s.threads| && s.threads[t].state.Idle?
    requires CountOf(ticks, cpu) >= |s.threads|
    ensures RunsWithin(s, ticks, t)
  {
    BoundedWaiting(s, ticks, cpu, t);
  }

  // ---------------------------------------------------------------- waking

  /** Waking a thread keeps the invariant exactly when it is current nowhere and not the boot thread. */
  lemma WakeSafeIff(s: State, t: nat)
    requires Inv(s) && t < |s.threads|
    ensures Inv(SetState(s, t, Idle)) <==> t != BOOT && !IsCurrent(s, t)
  {
    if t != BOOT && !IsCurrent(s, t) {
      StateSound(s, t, Idle, ATOMIC);
    } else if t != BOOT {
      var c :| 0 <= c < |s.current| && s.current[c] == Some(t);
      assert SetState(s, t, Idle).current[c] == Some(t);
    }
  }
}
