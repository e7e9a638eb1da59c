/**
 The scheduler as a state machine.  Each step is one critical section of the scheduler lock.  Blocking
 and switching away is one step here; `SchedulerSplit` takes its two halves apart.
 */
module SchedulerSteps {
  import opened Wrappers

  datatype ThreadState = Disabled | Idle | Running | Blocked | Silent

  /** A slot of the thread list; slots are never removed, so a thread is named by its index. */
  datatype Thread = Thread(state: ThreadState, event: nat)

  datatype State = State(threads: seq<Thread>, current: seq<Option<nat>>, events: map<nat, nat>)

  /** The thread that every CPU boots on. */
  const BOOT: nat := 0

  function Count(s: State, e: nat): nat {
    if e in s.events then s.events[e] else 0
  }

  predicate Runnable(s: State, i: nat)
    requires i < |s.threads|
  {
    s.threads[i].state.Idle? || (s.threads[i].state.Blocked? && Count(s, s.threads[i].event) > 0)
  }

  /** The first runnable thread in `lo..hi`. */
  function First(s: State, lo: nat, hi: nat): (r: Option<nat>)
    requires lo <= hi <= |s.threads|
    ensures r.Some? ==> lo <= r.value < hi && Runnable(s, r.value) && forall i | lo <= i < r.value :: !Runnable(s, i)
    ensures r.None? ==> forall i | lo <= i < hi :: !Runnable(s, i)
    decreases hi - lo
  {
    if lo == hi then None
    else if Runnable(s, lo) then Some(lo)
    else First(s, lo + 1, hi)
  }

  /** Round robin: from the current thread to the end of the list, then from its start. */
  function Pick(s: State, from: Option<nat>): (r: Option<nat>)
    requires from.Some? ==> from.value < |s.threads|
    ensures r.Some? ==> r.value < |s.threads| && Runnable(s, r.value)
    ensures r.None? ==> forall i | 0 <= i < |s.threads| :: !Runnable(s, i)
  {
    if from.None? then First(s, 0, |s.threads|)
    else
      var r := First(s, from.value, |s.threads|);
      if r.Some? then r else First(s, 0, from.value)
  }

  function SetState(s: State, i: nat, st: ThreadState): State
    requires i < |s.threads|
  {
    s.(threads := s.threads[i := s.threads[i].(state := st)])
  }

  /** A blocked thread that is picked uses up one trigger of its event. */
  function Claim(s: State, i: nat): State
    requires i < |s.threads| && Runnable(s, i)
  {
    if s.threads[i].state.Idle? then s
    else SetState(s.(events := s.events[s.threads[i].event := Count(s, s.threads[i].event) - 1]), i, Idle)
  }

  /** The thread leaving a CPU stays runnable unless it blocked, died or was silenced. */
  function Leave(s: State, was: Option<nat>): State
    requires was.Some? ==> was.value < |s.threads|
  {
    if was.Some? && s.threads[was.value].state.Running? then SetState(s, was.value, Idle) else s
  }

  predicate Fits(s: State, cpu: nat) {
    cpu < |s.current| && (s.current[cpu].Some? ==> s.current[cpu].value < |s.threads|)
  }

  /** The timer interrupt. */
  function Tick(s: State, cpu: nat): State
    requires Fits(s, cpu)
  {
    var was := s.current[cpu];
    match Pick(s, was)
    case None => var t := Leave(s, was); t.(current := t.current[cpu := None])
    case Some(next) =>
      var t := Leave(Claim(s, next), was);
      SetState(t.(current := t.current[cpu := Some(next)]), next, Running)
  }

  /** The first half of blocking: the thread waits for the event but is still current. */
  function StartBlock(s: State, cpu: nat, e: nat): State
    requires Fits(s, cpu) && s.current[cpu].Some?
  {
    s.(threads := s.threads[s.current[cpu].value := Thread(Blocked, e)])
  }

  /** The current thread starts to wait for an event, and the CPU switches away from it. */
  function Block(s: State, cpu: nat, e: nat): State
    requires Fits(s, cpu) && s.current[cpu].Some?
  {
    Tick(StartBlock(s, cpu, e), cpu)
  }

  function Trigger(s: State, e: nat): State {
    s.(events := s.events[e := Count(s, e) + 1])
  }

  /** The lowest slot at or above `k` whose thread is dead, else the end of the list. */
  function FreeSlot(s: State, k: nat): (i: nat)
    requires k <= |s.threads|
    ensures k <= i <= |s.threads|
    ensures i < |s.threads| ==> s.threads[i].state.Disabled?
    ensures forall j | k <= j < i :: !s.threads[j].state.Disabled?
    decreases |s.threads| - k
  {
    if k == |s.threads| || s.threads[k].state.Disabled? then k else FreeSlot(s, k + 1)
  }

  /** A new thread in the first dead slot or at the end of the list. */
  function Create(s: State, st: ThreadState): State {
    var i := FreeSlot(s, 0);
    if i < |s.threads| then SetState(s, i, st) else s.(threads := s.threads + [Thread(st, 0)])
  }

  function Kill(s: State, cpu: nat): State
    requires Fits(s, cpu) && s.current[cpu].Some?
  {
    var t := SetState(s, s.current[cpu].value, Disabled);
    t.(current := t.current[cpu := None])
  }

  datatype Step =
    | TickStep(cpu: nat)
    | BlockStep(cpu: nat, e: nat)
    | TriggerStep(e: nat)
    | CreateStep
    | WakeStep(t: nat)
    | ForkStep(cpu: nat)
    | KillStep(cpu: nat)
    | SilenceStep(cpu: nat)
    | BootStep(cpu: nat)

  predicate IsCurrent(s: State, t: nat) {
    exists c | 0 <= c < |s.current| :: s.current[c] == Some(t)
  }

  /**
   When a step can happen: the boot thread does not block, fork or die, a CPU boots once, and a thread
   that is woken is on no CPU.
   */
  predicate Enabled(s: State, step: Step) {
    match step
    case TickStep(cpu) => Fits(s, cpu)
    case BlockStep(cpu, _) => Fits(s, cpu) && s.current[cpu].Some? && s.current[cpu].value != BOOT
    case TriggerStep(_) => true
    case CreateStep => true
    case WakeStep(t) => t < |s.threads| && t != BOOT && !IsCurrent(s, t)
    case ForkStep(cpu) => Fits(s, cpu) && s.current[cpu].Some? && s.current[cpu].value != BOOT
    case KillStep(cpu) => Fits(s, cpu) && s.current[cpu].Some? && s.current[cpu].value != BOOT
    case SilenceStep(cpu) => Fits(s, cpu) && s.current[cpu].Some?
    case BootStep(cpu) => cpu < |s.current| && s.current[cpu].None? && |s.threads| > 0
  }

  function Next(s: State, step: Step): State
    requires Enabled(s, step)
  {
    match step
    case TickStep(cpu) => Tick(s, cpu)
    case BlockStep(cpu, e) => Block(s, cpu, e)
    case TriggerStep(e) => Trigger(s, e)
    case CreateStep => Create(s, Silent)
    case WakeStep(t) => SetState(s, t, Idle)
    case ForkStep(cpu) => Create(s, Idle)
    case KillStep(cpu) => Kill(s, cpu)
    case SilenceStep(cpu) => SetState(s, s.current[cpu].value, Silent)
    case BootStep(cpu) => s.(current := s.current[cpu := Some(BOOT)])
  }

  // ---------------------------------------------------------------- safety

  /**
   States that a thread on a CPU can be in when blocking and switching away are one step, and when they are
   two and it can also be woken there.
   */
  const ATOMIC: set<ThreadState> := {Running, Silent}
  const SPLIT: set<ThreadState> := {Running, Silent, Blocked, Idle}

  /** Threads on CPUs other than those of `but` are in one of the states of `busy`. */
  ghost predicate CurrentIn(s: State, busy: set<ThreadState>, but: set<nat>) {
    forall c: nat | c < |s.current| && c !in but && s.current[c].Some? ::
      s.current[c].value < |s.threads| && s.threads[s.current[c].value].state in busy
  }

  /** No thread but the boot thread is current on two CPUs. */
  ghost predicate Exclusive(s: State) {
    forall c, d | 0 <= c < d < |s.current| && s.current[c].Some? && s.current[c] == s.current[d] :: s.current[c].value == BOOT
  }

  ghost predicate RunningIsCurrent(s: State) {
    forall t | 0 <= t < |s.threads| && s.threads[t].state.Running? :: IsCurrent(s, t)
  }

  ghost predicate Sound(s: State, busy: set<ThreadState>, but: set<nat>) {
    && |s.threads| > 0 && s.threads[BOOT].state.Silent?
    && CurrentIn(s, busy, but) && Exclusive(s) && RunningIsCurrent(s)
  }

  ghost predicate Inv(s: State) {
    Sound(s, ATOMIC, {})
  }

  /** What a tick does, thread by thread and CPU by CPU. */
  lemma TickEffect(s: State, cpu: nat)
    requires Fits(s, cpu)
    ensures var t := Tick(s, cpu);
            var pick := Pick(s, s.current[cpu]);
            && |t.threads| == |s.threads| && t.current == s.current[cpu := pick]
            && forall i | 0 <= i < |s.threads| :: t.threads[i].state ==
                 if pick == Some(i) then Running
                 else if s.current[cpu] == Some(i) && s.threads[i].state.Running? then Idle
                 else s.threads[i].state
  {
  }

  /** The tick would dispatch a thread that another CPU has not left yet. */
  ghost predicate PicksCurrent(s: State, cpu: nat)
    requires Fits(s, cpu)
  {
    exists d: nat :: d < |s.current| && d != cpu && s.current[d].Some? && s.current[d] == Pick(s, s.current[cpu])
  }

  lemma PickFacts(s: State, cpu: nat)
    requires Fits(s, cpu) && |s.threads| > 0 && s.threads[BOOT].state.Silent?
    ensures Pick(s, s.current[cpu]) != Some(BOOT)
    ensures Pick(s, s.current[cpu]).Some? ==> Pick(s, s.current[cpu]).value < |s.threads|
  {
  }

  lemma TickCurrent(s: State, cpu: nat, busy: set<ThreadState>)
    requires Fits(s, cpu) && Sound(s, busy, {cpu}) && Running in busy && Silent in busy && !PicksCurrent(s, cpu)
    ensures CurrentIn(Tick(s, cpu), busy, {})
  {
    hide Tick, Pick, RunningIsCurrent;
    TickEffect(s, cpu);
    PickFacts(s, cpu);
    var t := Tick(s, cpu);
    forall c: nat | c < |t.current| && t.current[c].Some?
      ensures t.current[c].value < |t.threads| && t.threads[t.current[c].value].state in busy
    {
      if c != cpu && s.current[cpu] == s.current[c] {
        assert s.current[c].value == BOOT;
      }
    }
  }

  lemma TickExclusive(s: State, cpu: nat)
    requires Fits(s, cpu) && Exclusive(s) && !PicksCurrent(s, cpu)
    ensures Exclusive(Tick(s, cpu))
  {
    hide Tick, Pick;
    TickEffect(s, cpu);
  }

  lemma TickRunning(s: State, cpu: nat)
    requires Fits(s, cpu) && RunningIsCurrent(s)
    ensures RunningIsCurrent(Tick(s, cpu))
  {
    hide Tick, Pick;
    TickEffect(s, cpu);
    var t := Tick(s, cpu);
    forall i | 0 <= i < |t.threads| && t.threads[i].state.Running?
      ensures IsCurrent(t, i)
    {
      if Pick(s, s.current[cpu]) == Some(i) {
        assert t.current[cpu] == Some(i);
      } else {
        assert s.threads[i].state.Running?;
        var c :| 0 <= c < |s.current| && s.current[c] == Some(i);
        assert t.current[c] == Some(i);
      }
    }
  }

  /** A tick that picks no other CPU's thread restores the invariant, whatever state the ticking CPU's thread is in. */
  lemma TickSound(s: State, cpu: nat, busy: set<ThreadState>)
    requires Fits(s, cpu) && Sound(s, busy, {cpu}) && Running in busy && Silent in busy && !PicksCurrent(s, cpu)
    ensures Sound(Tick(s, cpu), busy, {})
  {
    hide Tick, Pick, CurrentIn, Exclusive, RunningIsCurrent, PicksCurrent;
    TickEffect(s, cpu);
    PickFacts(s, cpu);
    TickExclusive(s, cpu);
    TickRunning(s, cpu);
    TickCurrent(s, cpu, busy);
  }

  /** A runnable thread is on no CPU as long as threads on CPUs run or are silent. */
  lemma PicksElsewhere(s: State, cpu: nat)
    requires Fits(s, cpu) && CurrentIn(s, ATOMIC, {cpu})
    ensures !PicksCurrent(s, cpu)
  {
  }

  lemma TickSafe(s: State, cpu: nat)
    requires Fits(s, cpu) && Sound(s, ATOMIC, {cpu})
    ensures Inv(Tick(s, cpu))
  {
    hide Tick, CurrentIn, Exclusive, RunningIsCurrent, PicksCurrent;
    PicksElsewhere(s, cpu);
    TickSound(s, cpu, ATOMIC);
  }

  lemma Weaken(s: State, busy: set<ThreadState>, cpu: nat)
    requires Sound(s, busy, {})
    ensures Sound(s, busy, {cpu})
  {
  }

  /** Between the halves only the CPU's own thread may be blocked. */
  lemma StartBlockSound(s: State, cpu: nat, e: nat, busy: set<ThreadState>)
    requires Sound(s, busy, {}) && Fits(s, cpu) && s.current[cpu].Some? && s.current[cpu].value != BOOT
    ensures Sound(StartBlock(s, cpu, e), busy, {cpu})
    ensures Blocked in busy ==> Sound(StartBlock(s, cpu, e), busy, {})
  {
    var t := s.current[cpu].value;
    var mid := StartBlock(s, cpu, e);
    forall c | 0 <= c < |s.current| && c != cpu && s.current[c].Some?
      ensures s.current[c].value != t
    {
    }
    KeptRunning(s, mid);
  }

  /** Where no CPU changes its thread and no thread starts running, running threads are still current. */
  lemma KeptRunning(s: State, t: State)
    requires RunningIsCurrent(s)
    requires forall i | 0 <= i < |t.threads| && t.threads[i].state.Running? :: i < |s.threads| && s.threads[i].state.Running?
    requires forall i | 0 <= i < |t.threads| && t.threads[i].state.Running? && IsCurrent(s, i) :: IsCurrent(t, i)
    ensures RunningIsCurrent(t)
  {
  }

  lemma BlockSafe(s: State, cpu: nat, e: nat)
    requires Inv(s) && Fits(s, cpu) && s.current[cpu].Some? && s.current[cpu].value != BOOT
    ensures Inv(Block(s, cpu, e))
  {
    hide Tick, Sound;
    StartBlockSound(s, cpu, e, ATOMIC);
    TickSafe(StartBlock(s, cpu, e), cpu);
  }

  lemma CreateSound(s: State, st: ThreadState, busy: set<ThreadState>)
    requires Sound(s, busy, {}) && st in {Silent, Idle} && Disabled !in busy
    ensures Sound(Create(s, st), busy, {})
  {
    var t := Create(s, st);
    KeptRunning(s, t);
  }

  lemma KillSound(s: State, cpu: nat, busy: set<ThreadState>)
    requires Sound(s, busy, {}) && Fits(s, cpu) && s.current[cpu].Some? && s.current[cpu].value != BOOT
    ensures Sound(Kill(s, cpu), busy, {})
  {
    var t := Kill(s, cpu);
    forall i | 0 <= i < |t.threads| && t.threads[i].state.Running?
      ensures IsCurrent(t, i)
    {
      var c :| 0 <= c < |s.current| && s.current[c] == Some(i);
      assert t.current[c] == Some(i);
    }
  }

  lemma StateSound(s: State, i: nat, st: ThreadState, busy: set<ThreadState>)
    requires Sound(s, busy, {}) && i < |s.threads| && Silent in busy
    requires st.Silent? || (st.Idle? && i != BOOT && (Idle in busy || !IsCurrent(s, i)))
    ensures Sound(SetState(s, i, st), busy, {})
  {
    var t := SetState(s, i, st);
    KeptRunning(s, t);
    if st.Idle? && Idle !in busy {
      forall c | 0 <= c < |s.current| && s.current[c].Some?
        ensures s.current[c].value != i
      {
      }
    }
  }

  lemma BootSound(s: State, cpu: nat, busy: set<ThreadState>)
    requires Sound(s, busy, {}) && cpu < |s.current| && s.current[cpu].None? && Silent in busy
    ensures Sound(s.(current := s.current[cpu := Some(BOOT)]), busy, {})
  {
    var t := s.(current := s.current[cpu := Some(BOOT)]);
    forall i | 0 <= i < |t.threads| && t.threads[i].state.Running?
      ensures IsCurrent(t, i)
    {
      var c :| 0 <= c < |s.current| && s.current[c] == Some(i);
      assert t.current[c] == Some(i);
    }
  }

  lemma TriggerSound(s: State, e: nat, busy: set<ThreadState>)
    requires Sound(s, busy, {})
    ensures Sound(Trigger(s, e), busy, {})
  {
    KeptRunning(s, Trigger(s, e));
  }

  /** Every step but ticks and blocking keeps the invariant, in both machines. */
  lemma OtherSound(s: State, step: Step, busy: set<ThreadState>)
    requires Sound(s, busy, {}) && Enabled(s, step) && busy in {ATOMIC, SPLIT} && !step.TickStep? && !step.BlockStep?
    ensures Sound(Next(s, step), busy, {})
  {
    hide Sound, Kill, Create;
    match step
    case TriggerStep(e) => TriggerSound(s, e, busy);
    case CreateStep => CreateSound(s, Silent, busy);
    case WakeStep(t) => StateSound(s, t, Idle, busy);
    case ForkStep(cpu) => CreateSound(s, Idle, busy);
    case KillStep(cpu) => KillSound(s, cpu, busy);
    case SilenceStep(cpu) => StateSound(s, s.current[cpu].value, Silent, busy);
    case BootStep(cpu) => BootSound(s, cpu, busy);
  }

  lemma NextSafe(s: State, step: Step)
    requires Inv(s) && Enabled(s, step)
    ensures Inv(Next(s, step))
  {
    hide Sound, Tick, Block, Kill, Create;
    if step.TickStep? {
      Weaken(s, ATOMIC, step.cpu);
      TickSafe(s, step.cpu);
    } else if step.BlockStep? {
      BlockSafe(s, step.cpu, step.e);
    } else {
      OtherSound(s, step, ATOMIC);
    }
  }

  /** A run: every step is enabled where it happens. */
  ghost predicate IsRun(s: State, steps: seq<Step>)
    decreases |steps|
  {
    steps == [] || (Enabled(s, steps[0]) && IsRun(Next(s, steps[0]), steps[1..]))
  }

  function After(s: State, steps: seq<Step>): State
    requires IsRun(s, steps)
    decreases |steps|
  {
    if steps == [] then s else After(Next(s, steps[0]), steps[1..])
  }

  /** The state of a machine that has only the boot thread, current on no CPU yet. */
  predicate Initial(s: State) {
    && s.threads == [Thread(Silent, 0)]
    && forall c | 0 <= c < |s.current| :: s.current[c].None?
  }

  lemma {:induction false} RunKeepsInv(s: State, steps: seq<Step>)
    requires Inv(s) && IsRun(s, steps)
    ensures Inv(After(s, steps))
    decreases |steps|
  {
    if steps != [] {
      NextSafe(s, steps[0]);
      RunKeepsInv(Next(s, steps[0]), steps[1..]);
    }
  }

  /**
   In every reachable state, on any number of CPUs: no thread except the boot thread is current on two
   CPUs, a running thread is current on exactly one, and an idle, disabled or blocked one on none.
   */
  lemma Safety(s: State, steps: seq<Step>)
    requires Initial(s) && IsRun(s, steps)
    ensures var t := After(s, steps);
            && (forall c, d | 0 <= c < |t.current| && 0 <= d < |t.current| && c != d && t.current[c].Some? && t.current[c] == t.current[d] ::
                  t.current[c].value == BOOT)
            && (forall i | 0 <= i < |t.threads| && t.threads[i].state.Running? ::
                  exists c :: 0 <= c < |t.current| && t.current[c] == Some(i) &&
                    forall d | 0 <= d < |t.current| && d != c :: t.current[d] != Some(i))
            && (forall i, c | 0 <= i < |t.threads| && 0 <= c < |t.current| && t.current[c] == Some(i) ::
                  !t.threads[i].state.Idle? && !t.threads[i].state.Disabled? && !t.threads[i].state.Blocked?)
  {
    hide After, IsRun;
    RunKeepsInv(s, steps);
    InvMeans(After(s, steps));
  }

  lemma InvMeans(t: State)
    requires Inv(t)
    ensures forall i | 0 <= i < |t.threads| && t.threads[i].state.Running? ::
              exists c :: 0 <= c < |t.current| && t.current[c] == Some(i) &&
                forall d | 0 <= d < |t.current| && d != c :: t.current[d] != Some(i)
  {
    forall i | 0 <= i < |t.threads| && t.threads[i].state.Running?
      ensures exists c :: 0 <= c < |t.current| && t.current[c] == Some(i) &&
                forall d | 0 <= d < |t.current| && d != c :: t.current[d] != Some(i)
    {
      var c :| 0 <= c < |t.current| && t.current[c] == Some(i);
      assert forall d | 0 <= d < |t.current| && d != c :: t.current[d] != Some(i);
    }
  }
}
