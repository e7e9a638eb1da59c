/** The event counter that wakes blocked threads, with a test and a decrement that are two separate steps. */
module Events {
  const WORD: nat := 0x1_0000_0000_0000_0000

  type Waiter = nat

  /**
   The counter, the waiters that have seen it non-zero and have yet to decrement it, and how often the
   event was triggered and how often a waiter was let through.
   */
  datatype State = State(count: nat, admitted: set<Waiter>, triggers: nat, wakeups: nat)

  datatype Step = Trigger | Test(waiter: Waiter) | Take(waiter: Waiter)

  const START := State(0, {}, 0, 0)

  predicate Enabled(s: State, step: Step, waiters: nat) {
    match step
    case Trigger => true
    case Test(w) => w < waiters && w !in s.admitted
    case Take(w) => w < waiters && w in s.admitted
  }

  function Next(s: State, step: Step): State {
    match step
    case Trigger => s.(count := (s.count + 1) % WORD, triggers := s.triggers + 1)
    case Test(w) => if s.count == 0 then s else s.(admitted := s.admitted + {w})
    case Take(w) => s.(count := (s.count + WORD - 1) % WORD, admitted := s.admitted - {w}, wakeups := s.wakeups + 1)
  }

  ghost predicate Possible(s: State, steps: seq<Step>, waiters: nat)
    decreases |steps|
  {
    steps != [] ==> Enabled(s, steps[0], waiters) && Possible(Next(s, steps[0]), steps[1..], waiters)
  }

  function Run(s: State, steps: seq<Step>): State
    decreases |steps|
  {
    if steps == [] then s else Run(Next(s, steps[0]), steps[1..])
  }

  /** Triggers are either taken or still counted, and an admitted waiter has one to take. */
  ghost predicate Balanced(s: State) {
    && (s.triggers < WORD ==> s.count + s.wakeups == s.triggers)
    && (s.triggers < WORD && s.admitted != {} ==> s.count > 0)
    && s.admitted <= {0}
  }

  lemma {:induction false} OneWaiterBalanced(s: State, steps: seq<Step>)
    requires Balanced(s) && Possible(s, steps, 1)
    ensures Balanced(Run(s, steps)) && s.triggers <= Run(s, steps).triggers
    decreases |steps|
  {
    if steps != [] {
      var r := Next(s, steps[0]);
      assert steps[0].Take? ==> r.admitted == {} by {
        assert steps[0].Take? ==> steps[0].waiter == 0;
      }
      assert Balanced(r);
      OneWaiterBalanced(r, steps[1..]);
    }
  }

  /** Every run lets waiters through at most as often as the event was triggered. */
  ghost predicate NeverTooMany(waiters: nat) {
    forall steps: seq<Step> :: Possible(START, steps, waiters) && Run(START, steps).triggers < WORD ==>
      Run(START, steps).wakeups <= Run(START, steps).triggers
  }

  /** Two waiters that both see the same single trigger both get through. */
  lemma TwoWaiters(waiters: nat)
    requires waiters >= 2
    ensures var steps := [Trigger, Test(0), Test(1), Take(0), Take(1)];
            Possible(START, steps, waiters) && Run(START, steps) == State(WORD - 1, {}, 1, 2)
  {
    var steps := [Trigger, Test(0), Test(1), Take(0), Take(1)];
    var s1 := Next(START, steps[0]);
    var s2 := Next(s1, steps[1]);
    var s3 := Next(s2, steps[2]);
    var s4 := Next(s3, steps[3]);
    var s5 := Next(s4, steps[4]);
    assert s5.admitted == {};
    assert steps[1..] == [Test(0), Test(1), Take(0), Take(1)];
    assert steps[1..][1..] == [Test(1), Take(0), Take(1)];
    assert steps[1..][1..][1..] == [Take(0), Take(1)];
    assert steps[1..][1..][1..][1..] == [Take(1)];
    assert steps[1..][1..][1..][1..][1..] == [];
    assert Run(START, steps) == Run(s5, []);
    assert Possible(s4, [Take(1)], waiters);
    assert Possible(s3, [Take(0), Take(1)], waiters);
    assert Possible(s2, [Test(1), Take(0), Take(1)], waiters);
  }

  /** Wakeups never exceed triggers exactly when at most one thread waits on the event. */
  lemma NeverTooManyIff(waiters: nat)
    ensures NeverTooMany(waiters) <==> waiters <= 1
  {
    if waiters <= 1 {
      forall steps: seq<Step> | Possible(START, steps, waiters) && Run(START, steps).triggers < WORD
        ensures Run(START, steps).wakeups <= Run(START, steps).triggers
      {
        MoreWaiters(START, steps, waiters);
        OneWaiterBalanced(START, steps);
      }
    } else {
      TwoWaiters(waiters);
    }
  }

  lemma {:induction false} MoreWaiters(s: State, steps: seq<Step>, waiters: nat)
    requires waiters <= 1 && Possible(s, steps, waiters)
    ensures Possible(s, steps, 1)
    decreases |steps|
  {
    if steps != [] {
      MoreWaiters(Next(s, steps[0]), steps[1..], waiters);
    }
  }
}
