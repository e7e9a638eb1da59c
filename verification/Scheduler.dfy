/** The scheduler's own code, which changes the thread list and the per-CPU current threads in place. */
module Scheduler {
  import opened Wrappers
  import opened SchedulerSteps

  /** Perform the steps of a sequence that can happen where it is their turn. */
  function Performed(s: State, steps: seq<Step>): State
    decreases |steps|
  {
    if steps == [] then s
    else Performed(if Enabled(s, steps[0]) then Next(s, steps[0]) else s, steps[1..])
  }

  class Scheduler {
    var threads: seq<Thread>
    var current: seq<Option<nat>>
    var events: map<nat, nat>

    ghost function View(): State
      reads this
    {
      State(threads, current, events)
    }

    constructor (cpus: nat)
      ensures Initial(View()) && |current| == cpus && Inv(View())
    {
      threads := [Thread(Silent, 0)];
      current := seq(cpus, _ => None);
      events := map[];
      new;
      assert Initial(View());
    }

    /** Consume one trigger of an event, if there is one. */
    method HasTriggered(e: nat) returns (b: bool)
      modifies this`events
      ensures b == (Count(old(View()), e) > 0)
      ensures View() == if b then old(View()).(events := old(events)[e := Count(old(View()), e) - 1]) else old(View())
    {
      if e !in events || events[e] == 0 {
        return false;
      }
      events := events[e := events[e] - 1];
      return true;
    }

    method CheckThread(i: nat) returns (b: bool)
      requires i < |threads|
      modifies this`threads, this`events
      ensures b == Runnable(old(View()), i)
      ensures View() == if b then Claim(old(View()), i) else old(View())
    {
      if threads[i].state.Idle? {
        return true;
      } else if threads[i].state.Blocked? {
        var triggered := HasTriggered(threads[i].event);
        if triggered {
          threads := threads[i := threads[i].(state := Idle)];
          return true;
        }
      }
      return false;
    }

    /** Scan `lo..hi` for a thread to run. */
    method Scan(lo: nat, hi: nat) returns (r: Option<nat>)
      requires lo <= hi <= |threads|
      modifies this`threads, this`events
      ensures r == First(old(View()), lo, hi)
      ensures View() == if r.Some? then Claim(old(View()), r.value) else old(View())
    {
      var it := lo;
      while it != hi
        invariant lo <= it <= hi && View() == old(View())
        invariant First(old(View()), lo, hi) == First(old(View()), it, hi)
        decreases hi - it
      {
        var found := CheckThread(it);
        if found {
          return Some(it);
        }
        it := it + 1;
      }
      return None;
    }

    /** Round robin from the thread that is current on the CPU. */
    method Schedule(from: Option<nat>) returns (r: Option<nat>)
      requires from.Some? ==> from.value < |threads|
      modifies this`threads, this`events
      ensures r == Pick(old(View()), from)
      ensures View() == if r.Some? then Claim(old(View()), r.value) else old(View())
    {
      if from.None? {
        r := Scan(0, |threads|);
        return;
      }
      r := Scan(from.value, |threads|);
      if r.None? {
        r := Scan(0, from.value);
      }
    }

    method IdleCpu(cpu: nat)
      requires Fits(View(), cpu)
      modifies this`threads, this`current
      ensures View() == Leave(old(View()), old(current[cpu])).(current := old(current)[cpu := None])
    {
      var was := current[cpu];
      if was.Some? {
        if threads[was.value].state.Running? {
          threads := threads[was.value := threads[was.value].(state := Idle)];
        }
        current := current[cpu := None];
      }
      assert current == old(current)[cpu := None];
    }

    method TimerHandler(cpu: nat)
      requires Fits(View(), cpu)
      modifies this
      ensures View() == Tick(old(View()), cpu)
    {
      var was := current[cpu];
      var next := Schedule(was);
      if next.None? {
        IdleCpu(cpu);
        return;
      }
      if was.Some? && threads[was.value].state.Running? {
        threads := threads[was.value := threads[was.value].(state := Idle)];
      }
      current := current[cpu := next];
      threads := threads[next.value := threads[next.value].(state := Running)];
    }

    /** The current thread waits for an event and the CPU switches away. */
    method BlockCurrent(cpu: nat, e: nat)
      requires Fits(View(), cpu) && current[cpu].Some?
      modifies this
      ensures View() == Block(old(View()), cpu, e)
    {
      threads := threads[current[cpu].value := Thread(Blocked, e)];
      TimerHandler(cpu);
    }

    method TriggerEvent(e: nat)
      modifies this`events
      ensures View() == Trigger(old(View()), e)
    {
      events := events[e := (if e in events then events[e] else 0) + 1];
    }

    /** A thread that does not run yet, in the first dead slot or a new one. */
    method CreateBlockedThread() returns (tid: nat)
      modifies this`threads
      ensures View() == Create(old(View()), Silent) && tid == FreeSlot(old(View()), 0)
    {
      tid := 0;
      while tid < |threads|
        invariant tid <= |threads| && View() == old(View())
        invariant FreeSlot(old(View()), 0) == FreeSlot(old(View()), tid)
      {
        if threads[tid].state.Disabled? {
          threads := threads[tid := threads[tid].(state := Silent)];
          return;
        }
        tid := tid + 1;
      }
      threads := threads + [Thread(Silent, 0)];
    }

    method Wake(tid: nat)
      requires tid < |threads|
      modifies this`threads
      ensures View() == SetState(old(View()), tid, Idle)
    {
      threads := threads[tid := threads[tid].(state := Idle)];
    }

    /** Fork: a new thread that is ready to run.  Nothing happens on a CPU without a current thread. */
    method ForkCurrent(cpu: nat) returns (tid: Option<nat>)
      requires Fits(View(), cpu)
      modifies this`threads
      ensures old(current[cpu]).None? ==> tid == None && View() == old(View())
      ensures old(current[cpu]).Some? ==> tid == Some(FreeSlot(old(View()), 0)) && View() == Create(old(View()), Idle)
    {
      if current[cpu].None? {
        return None;
      }
      var child := CreateBlockedThread();
      Wake(child);
      return Some(child);
    }

    method KillCurrent(cpu: nat)
      requires Fits(View(), cpu) && current[cpu].Some?
      modifies this`threads, this`current
      ensures View() == Kill(old(View()), cpu)
    {
      var t := current[cpu].value;
      threads := threads[t := threads[t].(state := Disabled)];
      current := current[cpu := None];
      IdleCpu(cpu);
    }

    method SilenceCurrent(cpu: nat)
      requires Fits(View(), cpu) && current[cpu].Some?
      modifies this`threads
      ensures View() == SetState(old(View()), old(current[cpu].value), Silent)
    {
      var t := current[cpu].value;
      threads := threads[t := threads[t].(state := Silent)];
    }

    method InitCpu(cpu: nat)
      requires cpu < |current|
      modifies this`current
      ensures View() == old(View()).(current := old(current)[cpu := Some(BOOT)])
    {
      current := current[cpu := Some(BOOT)];
    }

    /** Any interleaving of steps, skipping those that cannot happen, goes as the state machine does and keeps the safety invariant. */
    method Execute(steps: seq<Step>)
      requires Inv(View())
      modifies this
      ensures Inv(View()) && View() == Performed(old(View()), steps)
    {
      hide Inv, Next, Enabled;
      for i := 0 to |steps|
        invariant Inv(View()) && Performed(View(), steps[i..]) == Performed(old(View()), steps)
      {
        assert steps[i..][1..] == steps[i + 1..];
        Perform(steps[i]);
      }
    }

    method Perform(step: Step)
      requires Inv(View())
      modifies this
      ensures View() == if Enabled(old(View()), step) then Next(old(View()), step) else old(View())
      ensures Inv(View())
    {
      hide Inv;
      if Enabled(State(threads, current, events), step) {
        NextSafe(View(), step);
        match step
        case TickStep(cpu) => TimerHandler(cpu);
        case BlockStep(cpu, e) => BlockCurrent(cpu, e);
        case TriggerStep(e) => TriggerEvent(e);
        case CreateStep => var tid := CreateBlockedThread();
        case WakeStep(t) => Wake(t);
        case ForkStep(cpu) => var tid := ForkCurrent(cpu);
        case KillStep(cpu) => KillCurrent(cpu);
        case SilenceStep(cpu) => SilenceCurrent(cpu);
        case BootStep(cpu) => InitCpu(cpu);
      }
    }
  }
}
