/** Rings and scheduler together: every message triggers the event of the end it is sent to. */
module Wakeups {
  import opened SchedulerSteps
  import opened SchedulerEvents
  import Ipc

  /** A step of the scheduler, or an operation on a ring. */
  datatype Joint = Sched(step: Step) | OnRing(op: Ipc.Op)

  /** The events of the two ends of a ring. */
  datatype Ends = Ends(a: Ipc.Tid, b: Ipc.Tid, eventA: nat, eventB: nat)

  /** The ring operations of a joint run. */
  function Ops(js: seq<Joint>): seq<Ipc.Op> {
    if js == [] then [] else (if js[0].OnRing? then [js[0].op] else []) + Ops(js[1..])
  }

  /** The scheduler steps of a joint run: a send triggers the other end's event. */
  function Steps(ends: Ends, js: seq<Joint>): seq<Step> {
    if js == [] then [] else StepsOf(ends, js[0]) + Steps(ends, js[1..])
  }

  function StepsOf(ends: Ends, j: Joint): seq<Step> {
    match j
    case Sched(step) => [step]
    case OnRing(op) =>
      if !op.Send? then []
      else if op.tid == ends.a then [TriggerStep(ends.eventB)]
      else if op.tid == ends.b then [TriggerStep(ends.eventA)]
      else []
  }

  /** The events of the ring are its own: they differ, and only sends trigger them. */
  ghost predicate Owns(ends: Ends, js: seq<Joint>) {
    && ends.a != ends.b && ends.eventA != ends.eventB
    && forall i | 0 <= i < |js| && js[i].Sched? :: js[i].step != TriggerStep(ends.eventA) && js[i].step != TriggerStep(ends.eventB)
  }

  lemma {:induction false} TriggersConcat(a: seq<Step>, b: seq<Step>, e: nat)
    ensures Triggers(a + b, e) == Triggers(a, e) + Triggers(b, e)
  {
    if a == [] {
      assert a + b == b;
    } else {
      assert (a + b)[1..] == a[1..] + b;
      TriggersConcat(a[1..], b, e);
    }
  }

  lemma {:induction false} SendsTrigger(ends: Ends, js: seq<Joint>)
    requires Owns(ends, js)
    ensures Triggers(Steps(ends, js), ends.eventA) == |Ipc.SentBy(ends.b, Ops(js))|
    ensures Triggers(Steps(ends, js), ends.eventB) == |Ipc.SentBy(ends.a, Ops(js))|
  {
    if js != [] {
      SendsTrigger(ends, js[1..]);
      var first := StepsOf(ends, js[0]);
      TriggersConcat(first, Steps(ends, js[1..]), ends.eventA);
      TriggersConcat(first, Steps(ends, js[1..]), ends.eventB);
      OneTrigger(ends, js[0], ends.eventA);
      OneTrigger(ends, js[0], ends.eventB);
      OpsFirst(ends.b, js);
      OpsFirst(ends.a, js);
    }
  }

  function SentIn(t: Ipc.Tid, j: Joint): nat {
    if j.OnRing? then |Ipc.OneSent(t, j.op)| else 0
  }

  lemma OpsFirst(t: Ipc.Tid, js: seq<Joint>)
    requires js != []
    ensures |Ipc.SentBy(t, Ops(js))| == SentIn(t, js[0]) + |Ipc.SentBy(t, Ops(js[1..]))|
  {
    if js[0].OnRing? {
      assert Ops(js)[1..] == Ops(js[1..]);
    } else {
      assert Ops(js) == Ops(js[1..]);
    }
  }

  lemma OneTrigger(ends: Ends, j: Joint, e: nat)
    requires ends.a != ends.b && ends.eventA != ends.eventB && (j.Sched? ==> j.step != TriggerStep(e)) && e in {ends.eventA, ends.eventB}
    ensures Triggers(StepsOf(ends, j), e) == SentIn(if e == ends.eventA then ends.b else ends.a, j)
  {
    var steps := StepsOf(ends, j);
    if steps != [] {
      assert steps[1..] == [];
    }
  }

  /**
   Over every run of scheduler and ring together, an end is woken by the ring's event no more often than
   messages were sent to it.
   */
  lemma WakeupsWithinSends(ends: Ends, s: State, js: seq<Joint>)
    requires Owns(ends, js) && Initial(s) && s.events == map[] && IsRun(s, Steps(ends, js))
    requires Ipc.Run(Ipc.Start(ends.a, ends.b), Ops(js)).Some?
    ensures var ring := Ipc.Run(Ipc.Start(ends.a, ends.b), Ops(js)).value;
            && Claims(s, Steps(ends, js), ends.eventA) <= |ring.toA.sent|
            && Claims(s, Steps(ends, js), ends.eventB) <= |ring.toB.sent|
  {
    RunCounts(s, Steps(ends, js), ends.eventA);
    RunCounts(s, Steps(ends, js), ends.eventB);
    SendsTrigger(ends, js);
    Ipc.LogsGrow(Ipc.Start(ends.a, ends.b), Ops(js));
  }
}
