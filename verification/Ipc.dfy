/** Rings that carry messages between two threads, over growing buffers that give back the newest item first. */
module Ipc {
  import opened Wrappers

  type Message = seq<nat>

  type Tid = nat

  // ---------------------------------------------------------------- the growing buffer

  class Buffer {
    var items: array<Message>
    var capacity: nat
    var offset: nat

    ghost predicate Valid()
      reads this
    {
      offset <= capacity == items.Length
    }

    ghost function Contents(): (s: seq<Message>)
      requires Valid()
      reads this, items
      ensures |s| == offset
    {
      items[..offset]
    }

    constructor ()
      ensures Valid() && fresh(items) && Contents() == []
    {
      items := new Message[0];
      capacity, offset := 0, 0;
    }

    /** Make room; growing moves every item to a larger array. */
    method EnsureCapacity(c: nat)
      requires Valid()
      modifies this`items, this`capacity
      ensures Valid() && capacity >= c && Contents() == old(Contents())
      ensures items == old(items) || fresh(items)
    {
      if c <= capacity {
        return;
      }
      var larger := capacity + c + 16;
      var moved := new Message[larger](_ => []);
      for i := 0 to capacity
        invariant items == old(items) && capacity == old(capacity) && moved[..i] == items[..i]
      {
        moved[i] := items[i];
      }
      assert moved[..offset] == items[..offset] by {
        assert moved[..capacity][..offset] == moved[..offset];
        assert items[..capacity][..offset] == items[..offset];
      }
      items := moved;
      capacity := larger;
    }

    method Push(m: Message)
      requires Valid()
      modifies this, items
      ensures Valid() && Contents() == old(Contents()) + [m]
      ensures items == old(items) || fresh(items)
    {
      EnsureCapacity(offset + 1);
      items[offset] := m;
      offset := offset + 1;
    }

    /** Take the newest item; there is none to take from an empty buffer. */
    method Pop() returns (r: Option<Message>)
      requires Valid()
      modifies this`offset
      ensures Valid() && (r.None? <==> old(Contents()) == [])
      ensures r.Some? ==> old(Contents()) == Contents() + [r.value]
      ensures r.None? ==> Contents() == []
    {
      if offset == 0 {
        return None;
      }
      offset := offset - 1;
      r := Some(items[offset]);
    }

    method Back() returns (r: Option<Message>)
      requires Valid()
      ensures r == if Contents() == [] then None else Some(Contents()[|Contents()| - 1])
    {
      if offset == 0 {
        return None;
      }
      r := Some(items[offset - 1]);
    }
  }

  // ---------------------------------------------------------------- the ring, as a value

  /** The messages under way to each end, oldest first, and the logs of what was sent to and received by each end. */
  datatype Ring = Ring(a: Tid, b: Tid, toA: Lane, toB: Lane)

  datatype Lane = Lane(pending: seq<Message>, sent: seq<Message>, received: seq<Message>, triggers: nat)

  datatype Op = Send(tid: Tid, data: Message) | Receive(tid: Tid) | Size(tid: Tid)

  datatype Reply = Done(ok: bool) | Got(data: Message) | Bytes(size: nat)

  function Sent(l: Lane, m: Message): Lane {
    l.(pending := l.pending + [m], sent := l.sent + [m], triggers := l.triggers + 1)
  }

  function Received(l: Lane): (Lane, Reply) {
    if l.pending == [] then (l, Done(false))
    else
      var m := l.pending[|l.pending| - 1];
      (l.(pending := l.pending[..|l.pending| - 1], received := l.received + [m]), Got(m))
  }

  function TopSize(l: Lane): Reply {
    Bytes(if l.pending == [] then 0 else |l.pending[|l.pending| - 1]|)
  }

  /** One operation of a thread; a thread that is neither end stops the kernel. */
  function Step(r: Ring, op: Op): Option<(Ring, Reply)> {
    match op
    case Send(t, m) =>
      if t == r.a then Some((r.(toB := Sent(r.toB, m)), Done(true)))
      else if t == r.b then Some((r.(toA := Sent(r.toA, m)), Done(true)))
      else None
    case Receive(t) =>
      if t == r.a then Some((r.(toA := Received(r.toA).0), Received(r.toA).1))
      else if t == r.b then Some((r.(toB := Received(r.toB).0), Received(r.toB).1))
      else None
    case Size(t) =>
      if t == r.a then Some((r, TopSize(r.toA)))
      else if t == r.b then Some((r, TopSize(r.toB)))
      else None
  }

  function Run(r: Ring, ops: seq<Op>): Option<Ring>
    decreases |ops|
  {
    if ops == [] then Some(r)
    else
      match Step(r, ops[0])
      case None => None
      case Some(next) => Run(next.0, ops[1..])
  }

  const EMPTY := Lane([], [], [], 0)

  function Start(a: Tid, b: Tid): Ring {
    Ring(a, b, EMPTY, EMPTY)
  }

  /** What was sent is what was received and what is under way, each message as often as it was sent. */
  ghost predicate Conserved(l: Lane) {
    && multiset(l.sent) == multiset(l.received) + multiset(l.pending)
    && l.triggers == |l.sent|
  }

  lemma SentConserved(l: Lane, m: Message)
    requires Conserved(l)
    ensures Conserved(Sent(l, m))
  {
  }

  lemma ReceivedConserved(l: Lane)
    requires Conserved(l)
    ensures Conserved(Received(l).0)
  {
    if l.pending != [] {
      assert l.pending == l.pending[..|l.pending| - 1] + [l.pending[|l.pending| - 1]];
    }
  }

  lemma {:induction false} RunConserves(r: Ring, ops: seq<Op>)
    requires Conserved(r.toA) && Conserved(r.toB) && Run(r, ops).Some?
    ensures Conserved(Run(r, ops).value.toA) && Conserved(Run(r, ops).value.toB)
    decreases |ops|
  {
    if ops != [] {
      match ops[0] {
        case Send(t, m) => SentConserved(r.toA, m); SentConserved(r.toB, m);
        case Receive(t) => ReceivedConserved(r.toA); ReceivedConserved(r.toB);
        case Size(t) =>
      }
      RunConserves(Step(r, ops[0]).value.0, ops[1..]);
    }
  }

  /** What a thread sent in a run. */
  function SentBy(t: Tid, ops: seq<Op>): seq<Message> {
    if ops == [] then []
    else OneSent(t, ops[0]) + SentBy(t, ops[1..])
  }

  /** What a thread was handed by its receives in a run. */
  function GotBy(r: Ring, t: Tid, ops: seq<Op>): seq<Message>
    requires Run(r, ops).Some?
    decreases |ops|
  {
    if ops == [] then []
    else
      var (next, reply) := Step(r, ops[0]).value;
      OneGot(t, ops[0], reply) + GotBy(next, t, ops[1..])
  }

  function OneSent(t: Tid, op: Op): seq<Message> {
    if op.Send? && op.tid == t then [op.data] else []
  }

  function OneGot(t: Tid, op: Op, reply: Reply): seq<Message> {
    if op.tid == t && reply.Got? then [reply.data] else []
  }

  /** A lane's logs grow by what was sent and received on it. */
  ghost predicate Grew(before: Lane, after: Lane, sent: seq<Message>, got: seq<Message>) {
    after.sent == before.sent + sent && after.received == before.received + got
  }

  lemma GrewTwice(l0: Lane, l1: Lane, l2: Lane, sent1: seq<Message>, sent2: seq<Message>, got1: seq<Message>, got2: seq<Message>)
    requires Grew(l0, l1, sent1, got1) && Grew(l1, l2, sent2, got2)
    ensures Grew(l0, l2, sent1 + sent2, got1 + got2)
  {
    assert l0.sent + sent1 + sent2 == l0.sent + (sent1 + sent2);
    assert l0.received + got1 + got2 == l0.received + (got1 + got2);
  }

  lemma StepLogs(r: Ring, op: Op)
    requires r.a != r.b && Step(r, op).Some?
    ensures var (s, reply) := Step(r, op).value;
            && s.a == r.a && s.b == r.b
            && Grew(r.toA, s.toA, OneSent(r.b, op), OneGot(r.a, op, reply))
            && Grew(r.toB, s.toB, OneSent(r.a, op), OneGot(r.b, op, reply))
  {
  }

  lemma {:induction false} LogsGrow(r: Ring, ops: seq<Op>)
    requires r.a != r.b && Run(r, ops).Some?
    ensures Grew(r.toA, Run(r, ops).value.toA, SentBy(r.b, ops), GotBy(r, r.a, ops))
    ensures Grew(r.toB, Run(r, ops).value.toB, SentBy(r.a, ops), GotBy(r, r.b, ops))
    decreases |ops|
  {
    if ops != [] {
      hide Grew, OneSent, OneGot, Step;
      var (next, reply) := Step(r, ops[0]).value;
      var end := Run(r, ops).value;
      StepLogs(r, ops[0]);
      LogsGrow(next, ops[1..]);
      GrewTwice(r.toA, next.toA, end.toA, OneSent(r.b, ops[0]), SentBy(r.b, ops[1..]), OneGot(r.a, ops[0], reply), GotBy(next, r.a, ops[1..]));
      GrewTwice(r.toB, next.toB, end.toB, OneSent(r.a, ops[0]), SentBy(r.a, ops[1..]), OneGot(r.b, ops[0], reply), GotBy(next, r.b, ops[1..]));
    }
  }

  /**
   On a ring between two different threads, in every run each end is handed exactly messages the other end
   sent, unchanged and none more often than it was sent; the rest is still under way.
   */
  lemma Delivered(a: Tid, b: Tid, ops: seq<Op>)
    requires a != b && Run(Start(a, b), ops).Some?
    ensures var r := Run(Start(a, b), ops).value;
            && multiset(SentBy(b, ops)) == multiset(GotBy(Start(a, b), a, ops)) + multiset(r.toA.pending)
            && multiset(SentBy(a, ops)) == multiset(GotBy(Start(a, b), b, ops)) + multiset(r.toB.pending)
            && r.toA.triggers == |SentBy(b, ops)| && r.toB.triggers == |SentBy(a, ops)|
  {
    var r := Start(a, b);
    RunConserves(r, ops);
    LogsGrow(r, ops);
    var s := Run(r, ops).value;
    assert s.toA.sent == SentBy(b, ops) && s.toB.sent == SentBy(a, ops);
    assert s.toA.received == GotBy(r, a, ops) && s.toB.received == GotBy(r, b, ops);
  }

  lemma {:induction false} SelfRingSilent(r: Ring, ops: seq<Op>)
    requires r.a == r.b && r.toA.pending == [] && Run(r, ops).Some?
    ensures GotBy(r, r.a, ops) == []
    decreases |ops|
  {
    if ops != [] {
      SelfRingSilent(Step(r, ops[0]).value.0, ops[1..]);
    }
  }

  /** Some run of a ring hands its first end a message exactly when the two ends are different threads. */
  lemma DeliversIff(a: Tid, b: Tid)
    ensures (exists ops :: Run(Start(a, b), ops).Some? && GotBy(Start(a, b), a, ops) != []) <==> a != b
  {
    var r := Start(a, b);
    if a == b {
      forall ops | Run(r, ops).Some?
        ensures GotBy(r, a, ops) == []
      {
        SelfRingSilent(r, ops);
      }
    } else {
      var ops := [Send(b, [1]), Receive(a)];
      assert ops[1..] == [Receive(a)] && ops[1..][1..] == [];
      var next := Step(r, ops[0]).value.0;
      assert Run(r, ops) == Run(next, ops[1..]);
      assert Run(next, ops[1..]).Some?;
      assert GotBy(next, a, ops[1..]) == [[1]] + GotBy(Step(next, Receive(a)).value.0, a, []);
      assert GotBy(r, a, ops) != [];
    }
  }

  /** The messages on their way to an end of the ring. */
  function PendingAt(r: Ring, t: Tid): seq<Message> {
    if t == r.a then r.toA.pending else r.toB.pending
  }

  /** An operation of an end that sends nothing to `t` and receives nothing there. */
  predicate LeavesAlone(r: Ring, t: Tid, op: Op) {
    op.tid in {r.a, r.b} && (op.Send? ==> op.tid == t) && (op.Receive? ==> op.tid != t)
  }

  lemma {:induction false} PendingKept(r: Ring, t: Tid, ops: seq<Op>)
    requires r.a != r.b && t in {r.a, r.b} && forall i | 0 <= i < |ops| :: LeavesAlone(r, t, ops[i])
    ensures Run(r, ops).Some?
    ensures var s := Run(r, ops).value; s.a == r.a && s.b == r.b && PendingAt(s, t) == PendingAt(r, t)
    decreases |ops|
  {
    if ops != [] {
      assert LeavesAlone(r, t, ops[0]);
      var next := Step(r, ops[0]).value.0;
      forall i | 0 <= i < |ops[1..]|
        ensures LeavesAlone(next, t, ops[1..][i])
      {
        assert LeavesAlone(r, t, ops[i + 1]);
      }
      PendingKept(next, t, ops[1..]);
    }
  }

  /** The size asked for is the size of the message the end's next receive hands over, whatever happens before it but a send to that end. */
  lemma SizeMatches(r: Ring, t: Tid, ops: seq<Op>)
    requires r.a != r.b && t in {r.a, r.b} && forall i | 0 <= i < |ops| :: LeavesAlone(r, t, ops[i])
    ensures var later := Run(r, ops);
            && later.Some? && Step(r, Size(t)).Some? && Step(later.value, Receive(t)).Some?
            && var size := Step(r, Size(t)).value.1.size;
               match Step(later.value, Receive(t)).value.1
               case Got(m) => |m| == size
               case Done(ok) => !ok && size == 0
               case Bytes(n) => false
  {
    hide Run;
    PendingKept(r, t, ops);
  }

  function Sends(t: Tid, ms: seq<Message>): (r: seq<Op>)
    ensures |r| == |ms|
  {
    if ms == [] then [] else [Send(t, ms[0])] + Sends(t, ms[1..])
  }

  function Receives(t: Tid, n: nat): seq<Op> {
    if n == 0 then [] else [Receive(t)] + Receives(t, n - 1)
  }

  lemma {:induction false} ManySends(r: Ring, ms: seq<Message>)
    requires r.a != r.b
    ensures var s := Run(r, Sends(r.a, ms));
            s.Some? && s.value.a == r.a && s.value.b == r.b && s.value.toB.pending == r.toB.pending + ms
    decreases |ms|
  {
    if ms != [] {
      var next := Step(r, Send(r.a, ms[0])).value.0;
      ManySends(next, ms[1..]);
      assert Sends(r.a, ms)[1..] == Sends(r.a, ms[1..]);
      assert next.toB.pending + ms[1..] == r.toB.pending + ms;
    }
  }

  lemma {:induction false} ManyReceives(r: Ring, ms: seq<Message>)
    requires r.a != r.b && r.toB.pending == ms
    ensures Run(r, Receives(r.b, |ms|)).Some? && GotBy(r, r.b, Receives(r.b, |ms|)) == Backwards(ms)
    decreases |ms|
  {
    if ms != [] {
      var next := Step(r, Receive(r.b)).value.0;
      ManyReceives(next, ms[..|ms| - 1]);
      assert Receives(r.b, |ms|)[1..] == Receives(r.b, |ms| - 1);
    }
  }

  function Backwards(ms: seq<Message>): (r: seq<Message>)
    ensures |r| == |ms| && forall i | 0 <= i < |ms| :: r[i] == ms[|ms| - 1 - i]
  {
    if ms == [] then [] else [ms[|ms| - 1]] + Backwards(ms[..|ms| - 1])
  }

  /** A burst of messages that is then drained arrives newest first. */
  lemma BurstReversed(a: Tid, b: Tid, ms: seq<Message>)
    requires a != b
    ensures var sent := Run(Start(a, b), Sends(a, ms));
            sent.Some? && Run(sent.value, Receives(b, |ms|)).Some? && GotBy(sent.value, b, Receives(b, |ms|)) == Backwards(ms)
  {
    hide Run, GotBy, Sends, Receives, Backwards;
    ManySends(Start(a, b), ms);
    var sent := Run(Start(a, b), Sends(a, ms)).value;
    assert [] + ms == ms;
    ManyReceives(sent, ms);
  }

  // ---------------------------------------------------------------- the ring, in place

  /** Copy a message to the start of a piece of memory. */
  method CopyTo(data: array<nat>, m: Message)
    requires |m| <= data.Length
    modifies data
    ensures data[..] == m + old(data[..])[|m|..]
  {
    for i := 0 to |m|
      invariant forall k | 0 <= k < i :: data[k] == m[k]
      invariant forall k | i <= k < data.Length :: data[k] == old(data[k])
    {
      data[i] := m[i];
    }
  }

  class Queue {
    const buffer: Buffer
    /** Triggers of the receive event. */
    var triggers: nat
    ghost var sent: seq<Message>
    ghost var received: seq<Message>

    ghost predicate Valid()
      reads this, buffer
    {
      buffer.Valid()
    }

    ghost function View(): Lane
      requires Valid()
      reads this, buffer, buffer.items
    {
      Lane(buffer.Contents(), sent, received, triggers)
    }

    constructor ()
      ensures Valid() && View() == EMPTY && fresh(buffer) && fresh(buffer.items)
    {
      buffer := new Buffer();
      triggers, sent, received := 0, [], [];
    }

    /** Queue a copy of the first `size` bytes of the sender's memory, if there is memory for the copy. */
    method Send(data: array<nat>, size: nat, memory: bool) returns (ok: bool)
      requires Valid() && size <= data.Length
      modifies this, buffer, buffer.items
      ensures Valid() && ok == memory
      ensures View() == if memory then Sent(old(View()), old(data[..size])) else old(View())
      ensures buffer.items == old(buffer.items) || fresh(buffer.items)
    {
      if !memory {
        return false;
      }
      var copy := data[..size];
      buffer.Push(copy);
      sent := sent + [copy];
      triggers := triggers + 1;
      return true;
    }

    /** Copy the newest message to the receiver's memory, which has to have room for it. */
    method Receive(data: array<nat>) returns (reply: Reply)
      requires Valid()
      requires View().pending != [] ==> TopSize(View()).size <= data.Length
      modifies this, buffer, data
      ensures Valid() && (View(), reply) == Received(old(View()))
      ensures reply.Got? ==> data[..] == reply.data + old(data[..])[|reply.data|..]
      ensures !reply.Got? ==> data[..] == old(data[..])
      ensures buffer.items == old(buffer.items)
    {
      var m := buffer.Pop();
      if m.None? {
        return Done(false);
      }
      CopyTo(data, m.value);
      received := received + [m.value];
      return Got(m.value);
    }

    method TopMessageSize() returns (size: nat)
      requires Valid()
      ensures Bytes(size) == TopSize(View())
    {
      var top := buffer.Back();
      return if top.None? then 0 else |top.value|;
    }
  }

  class IpcRing {
    const a: Tid
    const b: Tid
    const aQueue: Queue
    const bQueue: Queue

    ghost function Parts(): set<object>
      reads aQueue, bQueue, aQueue.buffer, bQueue.buffer
    {
      {aQueue, bQueue, aQueue.buffer, bQueue.buffer, aQueue.buffer.items, bQueue.buffer.items}
    }

    ghost predicate Valid()
      reads aQueue, bQueue, aQueue.buffer, bQueue.buffer
    {
      && aQueue != bQueue && aQueue.buffer != bQueue.buffer && aQueue.buffer.items != bQueue.buffer.items
      && aQueue.Valid() && bQueue.Valid()
    }

    ghost function View(): Ring
      reads aQueue, bQueue, aQueue.buffer, bQueue.buffer, aQueue.buffer.items, bQueue.buffer.items
      requires Valid()
    {
      Ring(a, b, aQueue.View(), bQueue.View())
    }

    constructor (a: Tid, b: Tid)
      ensures Valid() && View() == Start(a, b) && fresh(Parts())
    {
      this.a, this.b := a, b;
      aQueue := new Queue();
      bQueue := new Queue();
    }

    /** Send to the other end; nothing is returned to a thread that is neither end. */
    method SendFrom(tid: Tid, data: array<nat>, size: nat, memory: bool) returns (r: Option<bool>)
      requires Valid() && size <= data.Length
      modifies Parts()
      ensures Valid() && fresh(Parts() - old(Parts()))
      ensures match Step(old(View()), Send(tid, old(data[..size])))
              case None => r == None && View() == old(View())
              case Some(next) => r == Some(memory) && View() == if memory then next.0 else old(View())
    {
      if tid == a {
        var ok := bQueue.Send(data, size, memory);
        return Some(ok);
      } else if tid == b {
        var ok := aQueue.Send(data, size, memory);
        return Some(ok);
      }
      return None;
    }

    method ReceiveAt(tid: Tid, data: array<nat>) returns (r: Option<Reply>)
      requires Valid()
      requires match Step(View(), Size(tid)) case None => true case Some(top) => top.1.size <= data.Length
      modifies Parts(), data
      ensures Valid() && fresh(Parts() - old(Parts()))
      ensures match Step(old(View()), Receive(tid))
              case None => r == None && View() == old(View())
              case Some(next) => r == Some(next.1) && View() == next.0 && (next.1.Got? ==> data[..|next.1.data|] == next.1.data)
    {
      if tid == a {
        var reply := aQueue.Receive(data);
        return Some(reply);
      } else if tid == b {
        var reply := bQueue.Receive(data);
        return Some(reply);
      }
      return None;
    }

    method TopMessageSize(tid: Tid) returns (size: Option<nat>)
      requires Valid()
      ensures match Step(View(), Size(tid))
              case None => size == None
              case Some(next) => size.Some? && next.1 == Bytes(size.value)
    {
      if tid == a {
        var n := aQueue.TopMessageSize();
        return Some(n);
      } else if tid == b {
        var n := bQueue.TopMessageSize();
        return Some(n);
      }
      return None;
    }
  }
}
