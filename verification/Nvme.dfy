/** An NVMe queue pair: the driver's side of the submission and completion rings, facing a modelled controller. */
module Nvme {
  const UINT16: nat := 0x1_0000

  datatype Command = Command(cid: nat, body: seq<nat>)

  datatype Status = Status(phase: bool, code: nat, codeType: nat)

  datatype Completion = Completion(cid: nat, status: Status)

  /** The driver's place in a ring: a 16-bit index, and the phase it expects there. */
  datatype Place = Place(index: nat, phase: bool)

  /** Move on by one entry, as the driver does after each completion. */
  function Advance(n: nat, at: Place): Place {
    var next := (at.index + 1) % UINT16;
    if next == n then Place(0, !at.phase) else Place(next, at.phase)
  }

  /** The driver's place after `k` completions. */
  function After(n: nat, k: nat): Place {
    if k == 0 then Place(0, true) else Advance(n, After(n, k - 1))
  }

  /** Completions before entry `slot` of lap `lap`. */
  function Number(n: nat, lap: nat, slot: nat): nat {
    lap * n + slot
  }

  function NextSlot(n: nat, slot: nat): nat {
    if slot + 1 == n then 0 else slot + 1
  }

  function NextLap(n: nat, lap: nat, slot: nat): nat {
    if slot + 1 == n then lap + 1 else lap
  }

  lemma NumberNext(n: nat, lap: nat, slot: nat)
    ensures Number(n, NextLap(n, lap, slot), NextSlot(n, slot)) == Number(n, lap, slot) + 1
  {
  }

  /** On entry `slot` of lap `lap` the driver reads that entry and expects the phase of that lap. */
  ghost predicate InStep(n: nat, lap: nat, slot: nat) {
    After(n, Number(n, lap, slot)) == Place(slot, lap % 2 == 0)
  }

  lemma {:induction false} LapsInStep(n: nat, lap: nat, slot: nat)
    requires 0 < n < UINT16 && slot < n
    ensures InStep(n, lap, slot)
    decreases lap, slot
  {
    if slot > 0 {
      LapsInStep(n, lap, slot - 1);
      StepOn(n, lap, slot - 1);
    } else if lap > 0 {
      LapsInStep(n, lap - 1, n - 1);
      StepOn(n, lap - 1, n - 1);
    } else {
      assert Number(n, 0, 0) == 0;
    }
  }

  lemma StepOn(n: nat, lap: nat, slot: nat)
    requires 0 < n < UINT16 && slot < n && InStep(n, lap, slot)
    ensures InStep(n, NextLap(n, lap, slot), NextSlot(n, slot))
  {
    hide Number;
    NumberNext(n, lap, slot);
  }

  lemma {:induction false} FirstLap(n: nat, k: nat)
    requires k < UINT16 <= n
    ensures After(n, k) == Place(k, true)
  {
    if k > 0 {
      FirstLap(n, k - 1);
    }
  }

  /**
   The driver follows the rings lap after lap exactly when they have fewer than 65536 entries.  The
   largest size a controller can report, 65536, is one too many: the index wraps before it equals the
   size, and the phase never flips.
   */
  lemma InStepIff(n: nat)
    requires n > 0
    ensures (forall lap: nat, slot: nat | slot < n :: InStep(n, lap, slot)) <==> n < 0x1_0000
  {
    if n < UINT16 {
      forall lap: nat, slot: nat | slot < n
        ensures InStep(n, lap, slot)
      {
        LapsInStep(n, lap, slot);
      }
    } else {
      FirstLap(n, UINT16 - 1);
      assert After(n, UINT16) == Place(0, true);
      if n == UINT16 {
        assert !InStep(n, 1, 0);
      } else {
        assert !InStep(n, 0, UINT16);
      }
    }
  }

  // ---------------------------------------------------------------- the rings

  /** How the controller will treat a command: after how many of the driver's polls it answers, and with what. */
  datatype Reply = Reply(polls: nat, code: nat, codeType: nat)

  /** The number of the command that filled each entry of the completion ring; none in the zeroed ring. */
  ghost predicate Origins(origin: seq<int>, n: nat, lap: nat, slot: nat) {
    && |origin| == n
    && (forall i | 0 <= i < slot <= n :: origin[i] == Number(n, lap, i))
    && (forall i | slot <= i < n :: origin[i] == if lap == 0 then -1 else Number(n, lap - 1, i))
  }

  /** Entries before `slot` carry the phase of this lap, the others that of the lap before. */
  ghost predicate Phases(entries: seq<Completion>, lap: nat, slot: nat) {
    && (forall i | 0 <= i < slot <= |entries| :: entries[i].status.phase == (lap % 2 == 0))
    && (forall i | slot <= i < |entries| :: entries[i].status.phase == (lap % 2 == 1))
  }

  lemma PhasesNext(before: seq<Completion>, after: seq<Completion>, lap: nat, slot: nat)
    requires Phases(before, lap, slot) && slot < |before| == |after|
    requires after == before[slot := after[slot]] && after[slot].status.phase == (lap % 2 == 0)
    ensures Phases(after, NextLap(|after|, lap, slot), NextSlot(|after|, slot))
  {
  }

  lemma OriginsNext(before: seq<int>, after: seq<int>, n: nat, lap: nat, slot: nat)
    requires Origins(before, n, lap, slot) && slot < n && after == before[slot := Number(n, lap, slot)]
    ensures Origins(after, n, NextLap(n, lap, slot), NextSlot(n, slot))
  {
  }

  /** The entry the driver waits on still carries the phase of the lap before. */
  lemma Unanswered(entries: seq<Completion>, origin: seq<int>, n: nat, lap: nat, slot: nat)
    requires Phases(entries, lap, slot) && Origins(origin, n, lap, slot) && slot < |entries|
    ensures entries[slot].status.phase == (lap % 2 == 1) && |origin| == n
  {
  }

  class QueuePair {
    const n: nat
    const submissions: array<Command>
    const completions: array<Completion>
    var tail: nat
    var head: nat
    var expectedPhase: bool
    var tailDoorbell: nat
    var headDoorbell: nat

    // The controller's side.
    var fetchIndex: nat
    var postIndex: nat
    var postPhase: bool
    ghost var executed: seq<Command>
    ghost var origin: seq<int>

    // The driver's place, as lap and entry.
    ghost var lap: nat
    ghost var slot: nat

    ghost predicate Rings()
      reads this, submissions, completions
    {
      && 2 <= n < UINT16 && submissions.Length == n && completions.Length == n && slot < n
      && |executed| == Number(n, lap, slot)
      && Origins(origin, n, lap, slot) && Phases(completions[..], lap, slot)
    }

    /** No command is outstanding, and both sides stand at the same entry of the same lap. */
    ghost predicate Valid()
      reads this, submissions, completions
    {
      && Rings()
      && tail == head == tailDoorbell == headDoorbell == slot && expectedPhase == (lap % 2 == 0)
      && fetchIndex == postIndex == slot && postPhase == expectedPhase
    }

    /** Zeroed rings. */
    constructor (n: nat)
      requires 2 <= n < UINT16
      ensures Valid() && this.n == n && executed == [] && fresh(submissions) && fresh(completions)
    {
      this.n := n;
      submissions := new Command[n](_ => Command(0, []));
      completions := new Completion[n](_ => Completion(0, Status(false, 0, 0)));
      tail, head, expectedPhase, tailDoorbell, headDoorbell := 0, 0, true, 0, 0;
      fetchIndex, postIndex, postPhase, executed := 0, 0, true, [];
      origin := seq(n, _ => -1);
      lap, slot := 0, 0;
      new;
    }

    /** The controller fetches the next command, executes it and posts its completion with the phase of its lap. */
    method Answer(reply: Reply)
      requires Rings() && fetchIndex == postIndex == slot && postPhase == (lap % 2 == 0) && tailDoorbell != fetchIndex
      modifies this`fetchIndex, this`postIndex, this`postPhase, this`executed, this`origin, completions
      ensures executed == old(executed) + [submissions[slot]] && Answered()
      ensures completions[slot].status == Status(lap % 2 == 0, reply.code, reply.codeType) && origin[slot] == |old(executed)|
      ensures fetchIndex == postIndex == NextSlot(n, slot) && postPhase == (NextLap(n, lap, slot) % 2 == 0)
    {
      hide Origins, Phases, Number;
      Unanswered(completions[..], origin, n, lap, slot);
      var command := submissions[fetchIndex];
      origin := origin[postIndex := |executed|];
      executed := executed + [command];
      completions[postIndex] := Completion(command.cid, Status(postPhase, reply.code, reply.codeType));
      PhasesNext(old(completions[..]), completions[..], lap, slot);
      OriginsNext(old(origin), origin, n, lap, slot);
      NumberNext(n, lap, slot);
      fetchIndex := if fetchIndex + 1 == n then 0 else fetchIndex + 1;
      postIndex := postIndex + 1;
      if postIndex == n {
        postIndex, postPhase := 0, !postPhase;
      }
    }

    /** The entry at the driver's place has been filled. */
    ghost predicate Answered()
      reads this, completions
    {
      && 2 <= n < UINT16 && completions.Length == n && slot < n && |origin| == n
      && |executed| == Number(n, NextLap(n, lap, slot), NextSlot(n, slot))
      && Origins(origin, n, NextLap(n, lap, slot), NextSlot(n, slot))
      && Phases(completions[..], NextLap(n, lap, slot), NextSlot(n, slot))
    }

    /** Put a command on the submission ring and ring its doorbell.  Command ids are never taken, so it is always 0. */
    method SendCommand(command: Command) returns (cid: nat)
      requires Valid()
      modifies this`tail, this`tailDoorbell, submissions
      ensures cid == 0 && submissions[..] == old(submissions[..])[slot := command.(cid := 0)]
      ensures tail == tailDoorbell == NextSlot(n, slot)
    {
      hide Origins, Phases, Number;
      cid := 0;
      submissions[tail] := command.(cid := cid);
      var next := (tail + 1) % UINT16;
      if next == n {
        next := 0;
      }
      tailDoorbell := next;
      tail := next;
    }

    /**
     Send a command and wait.  Whenever the controller answers, the entry the driver takes is the completion
     of this very command, and the controller has executed exactly this command.
     */
    method SendAndWait(command: Command, reply: Reply) returns (ok: bool, ghost taken: int)
      requires Valid()
      modifies this, submissions, completions
      ensures Valid() && taken == |old(executed)|
      ensures executed == old(executed) + [command.(cid := 0)]
      ensures ok <==> reply.code == 0
    {
      hide Origins, Phases, Number, NextLap;
      var index := head;
      var cid := SendCommand(command);
      var waited := 0;
      while true
        invariant waited <= reply.polls && Waiting(command)
        invariant executed == old(executed)
        invariant lap == old(lap) && slot == old(slot)
        decreases reply.polls - waited
      {
        Unanswered(completions[..], origin, n, lap, slot);
        if waited == reply.polls {
          Answer(reply);
        }
        var phase := completions[head].status.phase;
        if phase == expectedPhase {
          break;
        }
        waited := waited + 1;
      }
      taken := origin[head];
      ok := completions[head].status.code == 0;
      Consume(index);
    }

    /** Move past the entry just read. */
    method Consume(index: nat)
      requires Answered() && submissions.Length == n && index == head == slot && expectedPhase == (lap % 2 == 0)
      requires fetchIndex == postIndex == tail == tailDoorbell == NextSlot(n, slot)
      requires postPhase == (NextLap(n, lap, slot) % 2 == 0)
      modifies this`head, this`headDoorbell, this`expectedPhase, this`lap, this`slot
      ensures Valid()
    {
      hide Origins, Phases, Number;
      var next := (index + 1) % UINT16;
      if next == n {
        next := 0;
        expectedPhase := !expectedPhase;
      }
      headDoorbell := next;
      head := next;
      lap, slot := NextLap(n, lap, slot), NextSlot(n, slot);
    }

    /** The command is on its ring and the controller has not answered. */
    ghost predicate Waiting(command: Command)
      reads this, submissions, completions
    {
      && Rings()
      && head == headDoorbell == slot && expectedPhase == (lap % 2 == 0)
      && fetchIndex == postIndex == slot && postPhase == expectedPhase
      && tail == tailDoorbell == NextSlot(n, slot)
      && submissions[slot] == command.(cid := 0)
    }
  
    /** Any number of commands, however the controller paces its answers: each gets its own answer, in order. */
    method SendAll(commands: seq<Command>, replies: seq<Reply>) returns (oks: seq<bool>)
      requires Valid() && |replies| == |commands|
      modifies this, submissions, completions
      ensures Valid() && |oks| == |commands| && forall i | 0 <= i < |oks| :: oks[i] <==> replies[i].code == 0
      ensures executed == old(executed) + seq(|commands|, i requires 0 <= i < |commands| => commands[i].(cid := 0))
    {
      hide Rings, Valid;
      oks := [];
      for k := 0 to |commands|
        invariant Valid() && |oks| == k && forall i | 0 <= i < k :: oks[i] <==> replies[i].code == 0
        invariant |executed| == |old(executed)| + k && executed[..|old(executed)|] == old(executed)
        invariant forall i | 0 <= i < k :: executed[|old(executed)| + i] == commands[i].(cid := 0)
      {
        var ok, taken := SendAndWait(commands[k], replies[k]);
        oks := oks + [ok];
      }
    }
  }
}
