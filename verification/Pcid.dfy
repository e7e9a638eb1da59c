/** The per-CPU cache of address spaces that keep their translations under a process-context identifier. */
module Pcid {
  import opened Wrappers

  const SLOTS: nat := 8
  const WORD: nat := 0x1_0000_0000_0000_0000

  /** The address of a paging context. */
  type Context = nat

  datatype Slot = Slot(context: Option<Context>, timestamp: nat)

  /** What the kernel keeps for one CPU; `pcid` says whether the CPU has the feature. */
  datatype Cpu = Cpu(pcid: bool, slots: seq<Slot>, active: nat, nextTimestamp: nat)

  /** A write to CR3: `keep` leaves the translations of the identifier in place, otherwise they are flushed. */
  datatype Load = Load(slot: nat, context: Context, keep: bool)

  predicate WellFormed(cpu: Cpu) {
    |cpu.slots| == SLOTS && cpu.active < SLOTS
  }

  predicate Holds(slots: seq<Slot>, p: nat, c: Context) {
    p < |slots| && slots[p].context == Some(c)
  }

  ghost predicate Cached(slots: seq<Slot>, c: Context) {
    exists p: nat :: Holds(slots, p, c)
  }

  /** The first slot from `i` on that holds a context. */
  function FirstHolding(slots: seq<Slot>, c: Context, i: nat): (r: Option<nat>)
    requires i <= |slots|
    ensures r.Some? ==> i <= r.value && Holds(slots, r.value, c)
    ensures r.None? ==> forall p | i <= p < |slots| :: !Holds(slots, p, c)
    decreases |slots| - i
  {
    if i == |slots| then None
    else if Holds(slots, i, c) then Some(i)
    else FirstHolding(slots, c, i + 1)
  }

  /** A slot whose timestamp is least among the first `n`. */
  predicate Least(slots: seq<Slot>, n: nat, v: nat) {
    && v < n <= |slots|
    && (forall p | 0 <= p < n :: slots[v].timestamp <= slots[p].timestamp)
    && (forall p | 0 <= p < v :: slots[v].timestamp < slots[p].timestamp)
  }

  /** The slot to give away: the first one with the least timestamp. */
  function Victim(slots: seq<Slot>, n: nat): (v: nat)
    requires 0 < n <= |slots|
    ensures Least(slots, n, v)
  {
    if n == 1 then 0
    else
      var v := Victim(slots, n - 1);
      if slots[n - 1].timestamp < slots[v].timestamp then n - 1 else v
  }

  lemma LeastUnique(slots: seq<Slot>, n: nat, v: nat, w: nat)
    requires Least(slots, n, v) && Least(slots, n, w)
    ensures v == w
  {
    assert slots[v].timestamp <= slots[w].timestamp && slots[w].timestamp <= slots[v].timestamp;
  }

  /** Record a load of a slot. */
  function Stamp(cpu: Cpu, p: nat, c: Context): Cpu
    requires WellFormed(cpu) && p < SLOTS
  {
    cpu.(slots := cpu.slots[p := Slot(Some(c), cpu.nextTimestamp)], active := p,
         nextTimestamp := (cpu.nextTimestamp + 1) % WORD)
  }

  /** Switch to a context: the state afterwards and the CR3 write, if there is one. */
  function Switch(cpu: Cpu, c: Context): (Cpu, Option<Load>)
    requires WellFormed(cpu)
  {
    if !cpu.pcid then (Stamp(cpu, 0, c), Some(Load(0, c, false)))
    else
      match FirstHolding(cpu.slots, c, 0)
      case Some(p) =>
        if p == cpu.active then (cpu, None) else (Stamp(cpu, p, c), Some(Load(p, c, true)))
      case None =>
        var v := Victim(cpu.slots, SLOTS);
        (Stamp(cpu, v, c), Some(Load(v, c, false)))
  }

  class PcidCpu {
    const pcid: bool
    const slots: array<Slot>
    var active: nat
    var nextTimestamp: nat

    ghost predicate Valid()
      reads this, slots
    {
      slots.Length == SLOTS && active < SLOTS
    }

    ghost function View(): (cpu: Cpu)
      requires Valid()
      reads this, slots
      ensures WellFormed(cpu)
    {
      Cpu(pcid, slots[..], active, nextTimestamp)
    }

    constructor (pcid: bool)
      ensures Valid() && View() == Start(pcid) && fresh(slots) && slots.Length == 8
    {
      this.pcid := pcid;
      slots := new Slot[SLOTS](_ => Slot(None, 0));
      active, nextTimestamp := 0, 0;
      new;
      assert View().slots == Start(pcid).slots;
    }

    /** Load a slot whose context is known already. */
    method SetContext(p: nat, c: Context, keep: bool) returns (load: Load)
      requires Valid() && p < SLOTS
      modifies this`active, this`nextTimestamp, slots
      ensures Valid() && View() == Stamp(old(View()), p, c) && load == Load(p, c, keep)
    {
      slots[p] := Slot(Some(c), nextTimestamp);
      nextTimestamp := (nextTimestamp + 1) % WORD;
      active := p;
      assert View().slots == Stamp(old(View()), p, c).slots;
      return Load(p, c, keep);
    }

    method SetCurrentInfo(c: Context) returns (load: Option<Load>)
      requires Valid()
      modifies this`active, this`nextTimestamp, slots
      ensures Valid() && (View(), load) == Switch(old(View()), c)
    {
      if pcid {
        var v := 0;
        for i := 0 to SLOTS
          invariant slots[..] == old(slots[..]) && active == old(active) && nextTimestamp == old(nextTimestamp)
          invariant FirstHolding(slots[..], c, 0) == FirstHolding(slots[..], c, i)
          invariant if i == 0 then v == 0 else Least(slots[..], i, v)
        {
          if slots[i].context == Some(c) {
            assert Holds(slots[..], i, c);
            if i != active {
              var kept := SetContext(i, c, true);
              return Some(kept);
            }
            return None;
          }
          if slots[i].timestamp < slots[v].timestamp {
            v := i;
          }
        }
        LeastUnique(slots[..], SLOTS, v, Victim(slots[..], SLOTS));
        var flushed := SetContext(v, c, false);
        return Some(flushed);
      } else {
        var flushed := SetContext(0, c, false);
        return Some(flushed);
      }
    }
  }

  function Start(pcid: bool): (cpu: Cpu)
    ensures WellFormed(cpu)
  {
    Cpu(pcid, seq(SLOTS, _ => Slot(None, 0)), 0, 0)
  }

  // ---------------------------------------------------------------- the translation cache

  /** A translation's origin: a context, and how often its tables had been built anew. */
  datatype Tag = Tag(context: Context, generation: nat)

  /**
   A CPU and its translation cache.  `tlb[p]` are the origins of the translations that may be cached under
   identifier p, `since[p]` the generation of the slot's context when p was last flushed, `loads` the
   slots that were loaded, oldest first, and `asked` the last context switched to.
   */
  datatype State = State(cpu: Cpu, generations: map<Context, nat>, tlb: seq<set<Tag>>, since: seq<nat>,
                         loads: seq<nat>, asked: Option<Context>)

  datatype Event = SwitchTo(context: Context) | Rebuild(context: Context)

  function Generation(s: State, c: Context): nat {
    if c in s.generations then s.generations[c] else 0
  }

  predicate Shaped(s: State) {
    WellFormed(s.cpu) && |s.tlb| == SLOTS && |s.since| == SLOTS
  }

  function Boot(pcid: bool): (s: State)
    ensures Shaped(s)
  {
    State(Start(pcid), map[], seq(SLOTS, _ => {}), seq(SLOTS, _ => 0), [], None)
  }

  /**
   The effect of a CR3 write on the cache, as section 4.10.4.1 of the Intel SDM Vol. 3A describes it.  From
   then on translations of the new context enter the cache.
   */
  function Loaded(s: State, cpu: Cpu, load: Load): State
    requires Shaped(s) && load.slot < SLOTS
  {
    var c := load.context;
    var g := Generation(s, c);
    var before := if s.cpu.pcid then s.tlb else seq(SLOTS, _ => {});
    State(cpu, s.generations,
          before[load.slot := (if load.keep then before[load.slot] else {}) + {Tag(c, g)}],
          if load.keep then s.since else s.since[load.slot := g],
          s.loads + [load.slot], Some(c))
  }

  function Step(s: State, e: Event): (r: State)
    requires Shaped(s)
    ensures Shaped(r)
  {
    match e
    case SwitchTo(c) =>
      var (cpu, load) := Switch(s.cpu, c);
      if load.None? then s.(asked := Some(c)) else Loaded(s, cpu, load.value)
    case Rebuild(c) =>
      s.(generations := s.generations[c := Generation(s, c) + 1])
  }

  function Run(s: State, events: seq<Event>): (r: State)
    requires Shaped(s)
    ensures Shaped(r)
    decreases |events|
  {
    if events == [] then s else Run(Step(s, events[0]), events[1..])
  }

  ghost predicate Distinct(slots: seq<Slot>) {
    forall p: nat, q: nat, c | Holds(slots, p, c) && Holds(slots, q, c) :: p == q
  }

  /** Only translations of the slot's own context are cached under its identifier. */
  ghost predicate Owned(s: State, p: nat)
    requires Shaped(s) && p < SLOTS
  {
    match s.cpu.slots[p].context
    case None => s.tlb[p] == {}
    case Some(c) =>
      && Tag(c, s.since[p]) in s.tlb[p]
      && forall t | t in s.tlb[p] :: t.context == c && s.since[p] <= t.generation <= Generation(s, c)
  }

  ghost predicate ActiveIsAsked(s: State)
    requires Shaped(s)
  {
    match s.asked
    case None => s.loads == [] && forall p | 0 <= p < SLOTS :: s.cpu.slots[p].context == None
    case Some(c) => s.loads != [] && Holds(s.cpu.slots, s.cpu.active, c)
  }

  ghost predicate Inv(s: State) {
    && Shaped(s) && Distinct(s.cpu.slots) && ActiveIsAsked(s)
    && (!s.cpu.pcid ==> s.cpu.active == 0 && forall p | 0 < p < SLOTS :: s.cpu.slots[p].context == None)
    && (forall p | 0 <= p < SLOTS :: Owned(s, p))
  }

  lemma StepKeeps(s: State, e: Event)
    requires Inv(s)
    ensures Inv(Step(s, e))
  {
    match e {
      case SwitchTo(c) => SwitchKeeps(s, c);
      case Rebuild(c) => RebuildKeeps(s, c);
    }
  }

  lemma RebuildKeeps(s: State, c: Context)
    requires Inv(s)
    ensures Inv(Step(s, Rebuild(c)))
  {
    var r := Step(s, Rebuild(c));
    forall p | 0 <= p < SLOTS
      ensures Owned(r, p)
    {
      assert Owned(s, p);
    }
  }

  lemma PutDistinct(slots: seq<Slot>, p: nat, c: Context, t: nat)
    requires p < |slots| && Distinct(slots) && forall q: nat | Holds(slots, q, c) :: q == p
    ensures Distinct(slots[p := Slot(Some(c), t)])
  {
    var after := slots[p := Slot(Some(c), t)];
    forall q: nat, r: nat, d | Holds(after, q, d) && Holds(after, r, d)
      ensures q == r
    {
      assert q != p ==> Holds(slots, q, d);
      assert r != p ==> Holds(slots, r, d);
    }
  }

  /** A CR3 write goes to the slot of the context, or flushes a slot when there is none. */
  lemma LoadFits(s: State, c: Context)
    requires Inv(s)
    ensures var (cpu, load) := Switch(s.cpu, c);
            match load {
              case None => s.cpu.pcid && cpu == s.cpu && Holds(s.cpu.slots, s.cpu.active, c)
              case Some(l) =>
                && l.slot < SLOTS && l.context == c && cpu == Stamp(s.cpu, l.slot, c)
                && (l.keep ==> s.cpu.pcid && Holds(s.cpu.slots, l.slot, c))
                && (forall q: nat | Holds(s.cpu.slots, q, c) :: q == l.slot)
                && (if s.cpu.pcid then Holds(s.cpu.slots, l.slot, c) ==> l.keep else l.slot == 0)
            }
  {
  }

  lemma SwitchKeeps(s: State, c: Context)
    requires Inv(s)
    ensures Inv(Step(s, SwitchTo(c)))
  {
    hide Switch;
    var r := Step(s, SwitchTo(c));
    var (cpu, load) := Switch(s.cpu, c);
    LoadFits(s, c);
    if load.Some? {
      PutDistinct(s.cpu.slots, load.value.slot, c, s.cpu.nextTimestamp);
      forall p | 0 <= p < SLOTS
        ensures Owned(r, p)
      {
        LoadedOwned(s, cpu, load.value, p);
      }
    }
  }

  lemma LoadedOwned(s: State, cpu: Cpu, load: Load, p: nat)
    requires Inv(s) && p < SLOTS && load.slot < SLOTS && cpu == Stamp(s.cpu, load.slot, load.context)
    requires load.keep ==> s.cpu.pcid && Holds(s.cpu.slots, load.slot, load.context)
    requires !s.cpu.pcid ==> load.slot == 0
    ensures Owned(Loaded(s, cpu, load), p)
  {
    var r := Loaded(s, cpu, load);
    assert Owned(s, p);
    if p == load.slot {
      var base: set<Tag> := if load.keep then s.tlb[p] else {};
      assert r.tlb[p] == base + {Tag(load.context, Generation(s, load.context))};
    } else {
      assert r.cpu.slots[p] == s.cpu.slots[p] && r.since[p] == s.since[p];
      assert s.cpu.pcid ==> r.tlb[p] == s.tlb[p];
    }
  }

  lemma BootInv(pcid: bool)
    ensures Inv(Boot(pcid))
  {
  }

  /** On every run, contexts sit in distinct slots, the active slot holds the context last asked for, and an identifier's cached translations are all of its slot's context. */
  lemma {:induction false} RunKeeps(s: State, events: seq<Event>)
    requires Inv(s)
    ensures Inv(Run(s, events))
    decreases |events|
  {
    if events != [] {
      StepKeeps(s, events[0]);
      RunKeeps(Step(s, events[0]), events[1..]);
    }
  }

  // ---------------------------------------------------------------- stale translations

  /** Every translation the CPU can use is of the context asked for, as its tables are now. */
  ghost predicate Fresh(s: State)
    requires Shaped(s)
  {
    s.asked.Some? && s.tlb[s.cpu.active] == {Tag(s.asked.value, Generation(s, s.asked.value))}
  }

  /** The context sits in a slot whose identifier was last flushed before the context's tables were built anew. */
  ghost predicate Outdated(s: State, c: Context)
    requires Shaped(s)
  {
    s.cpu.pcid && exists p: nat :: Holds(s.cpu.slots, p, c) && s.since[p] != Generation(s, c)
  }

  lemma LoadedTlb(s: State, cpu: Cpu, load: Load)
    requires Shaped(s) && load.slot < SLOTS && (load.keep ==> s.cpu.pcid)
    ensures var t := Tag(load.context, Generation(s, load.context));
            Loaded(s, cpu, load).tlb[load.slot] == if load.keep then s.tlb[load.slot] + {t} else {t}
  {
    var none: set<Tag> := {};
    var t := Tag(load.context, Generation(s, load.context));
    assert none + {t} == {t};
  }

  /** A switch leaves only current translations exactly when the context was not rebuilt while it sat in a slot. */
  lemma SwitchFreshIff(s: State, c: Context)
    requires Inv(s)
    ensures Fresh(Step(s, SwitchTo(c))) <==> !Outdated(s, c)
  {
    hide Switch, Loaded, Stamp;
    var (cpu, load) := Switch(s.cpu, c);
    LoadFits(s, c);
    var p := if load.Some? then load.value.slot else s.cpu.active;
    assert Owned(s, p);
    if load.Some? {
      LoadedTlb(s, cpu, load.value);
      LoadedNow(s, load.value, c);
    }
    if s.cpu.pcid && Holds(s.cpu.slots, p, c) {
      assert Outdated(s, c) <==> s.since[p] != Generation(s, c);
      assert Tag(c, s.since[p]) in s.tlb[p];
    } else {
      assert !Outdated(s, c);
    }
  }

  lemma LoadedNow(s: State, load: Load, c: Context)
    requires Shaped(s) && load.slot < SLOTS && load.context == c
    ensures var r := Loaded(s, Stamp(s.cpu, load.slot, c), load);
            r.cpu.active == load.slot && r.asked == Some(c) && r.generations == s.generations
  {
  }

  /** No context in a slot was rebuilt since the slot was filled. */
  ghost predicate Clean(s: State)
    requires Shaped(s)
  {
    forall c :: !Outdated(s, c)
  }

  /** The run rebuilds contexts only while they are in no slot. */
  ghost predicate Careful(s: State, events: seq<Event>)
    requires Shaped(s)
    decreases |events|
  {
    events != [] ==>
      && (events[0].Rebuild? ==> !Cached(s.cpu.slots, events[0].context))
      && Careful(Step(s, events[0]), events[1..])
  }

  lemma SwitchClean(s: State, c: Context)
    requires Inv(s) && Clean(s)
    ensures Clean(Step(s, SwitchTo(c)))
  {
    hide Switch;
    var r := Step(s, SwitchTo(c));
    var (cpu, load) := Switch(s.cpu, c);
    LoadFits(s, c);
    forall d
      ensures !Outdated(r, d)
    {
      assert !Outdated(s, d);
      forall p: nat | Holds(r.cpu.slots, p, d)
        ensures s.cpu.pcid ==> r.since[p] == Generation(r, d)
      {
        assert d == c || Holds(s.cpu.slots, p, d);
      }
    }
  }

  lemma RebuildClean(s: State, c: Context)
    requires Inv(s) && Clean(s) && !Cached(s.cpu.slots, c)
    ensures Clean(Step(s, Rebuild(c)))
  {
    var r := Step(s, Rebuild(c));
    forall d
      ensures !Outdated(r, d)
    {
      assert !Outdated(s, d);
      assert d == c ==> !Cached(s.cpu.slots, d);
    }
  }

  /** On a careful run the switch that follows never leaves a stale translation in reach. */
  lemma {:induction false} CarefulRunFresh(s: State, events: seq<Event>, c: Context)
    requires Inv(s) && Clean(s) && Careful(s, events)
    ensures Fresh(Run(s, events + [SwitchTo(c)]))
    decreases |events|
  {
    if events == [] {
      SwitchFreshIff(s, c);
      assert (events + [SwitchTo(c)])[1..] == [];
    } else {
      StepKeeps(s, events[0]);
      match events[0] {
        case SwitchTo(d) => SwitchClean(s, d);
        case Rebuild(d) => RebuildClean(s, d);
      }
      CarefulRunFresh(Step(s, events[0]), events[1..], c);
      assert (events + [SwitchTo(c)])[1..] == events[1..] + [SwitchTo(c)];
    }
  }

  /** A context that is destroyed and built anew at the same address between two visits keeps its old translations. */
  lemma StaleExample(a: Context, b: Context, d: Context)
    requires a != b && a != d && b != d
    ensures var before := Step(Step(Step(Step(Boot(true), SwitchTo(d)), SwitchTo(a)), SwitchTo(b)), Rebuild(a));
            var s := Step(before, SwitchTo(a));
            s.asked == Some(a) && Generation(s, a) == 1 && Tag(a, 0) in s.tlb[s.cpu.active]
  {
    hide Switch, Loaded;
    var s0 := Boot(true);
    var s1 := Step(s0, SwitchTo(d));
    var s2 := Step(s1, SwitchTo(a));
    var s3 := Step(s2, SwitchTo(b));
    var s4 := Step(s3, Rebuild(a));
    var s5 := Step(s4, SwitchTo(a));
    Miss(s0, d, 0);
    Miss(s1, a, 0);
    Miss(s2, b, 1);
    assert Holds(s4.cpu.slots, 0, a) && s4.cpu.active == 1;
    KeptVisit(s4, a, 0);
  }

  /** A switch to a context in no slot. */
  lemma Miss(s: State, c: Context, v: nat)
    requires Shaped(s) && s.cpu.pcid && (forall p: nat :: !Holds(s.cpu.slots, p, c)) && Least(s.cpu.slots, SLOTS, v)
    ensures var r := Step(s, SwitchTo(c));
            r.cpu == Stamp(s.cpu, v, c) && r.generations == s.generations && r.tlb == s.tlb[v := {Tag(c, Generation(s, c))}]
  {
    LeastUnique(s.cpu.slots, SLOTS, v, Victim(s.cpu.slots, SLOTS));
    var none: set<Tag> := {};
    assert none + {Tag(c, Generation(s, c))} == {Tag(c, Generation(s, c))};
  }

  /** A switch to a context in a slot that is not active keeps what is cached. */
  lemma KeptVisit(s: State, c: Context, p: nat)
    requires Shaped(s) && s.cpu.pcid && Holds(s.cpu.slots, p, c) && p != s.cpu.active
    requires forall q: nat | Holds(s.cpu.slots, q, c) :: q == p
    ensures var r := Step(s, SwitchTo(c));
            r.asked == Some(c) && r.cpu.active == p && r.generations == s.generations && s.tlb[p] <= r.tlb[p]
  {
  }

  // ---------------------------------------------------------------- which slot is given away

  /** When a slot was last loaded: the position in the history, or -1 for never. */
  function LastUse(loads: seq<nat>, p: nat): (r: int)
    ensures -1 <= r < |loads|
    ensures r >= 0 ==> loads[r] == p
    ensures forall i | r < i < |loads| :: loads[i] != p
  {
    if loads == [] then -1
    else if loads[|loads| - 1] == p then |loads| - 1
    else LastUse(loads[..|loads| - 1], p)
  }

  /** No slot was left unused for longer. */
  ghost predicate LeastRecent(loads: seq<nat>, v: nat) {
    forall p | 0 <= p < SLOTS :: LastUse(loads, v) <= LastUse(loads, p)
  }

  /** Timestamps record the history until the counter wraps. */
  ghost predicate Stamped(s: State)
    requires Shaped(s)
  {
    && s.cpu.nextTimestamp == |s.loads| % WORD
    && (|s.loads| <= WORD ==> forall p | 0 <= p < SLOTS ::
          s.cpu.slots[p].timestamp == if LastUse(s.loads, p) < 0 then 0 else LastUse(s.loads, p))
  }

  /** The first two loads both went to slot 0. */
  ghost predicate Opening(s: State)
    requires Shaped(s)
  {
    && (|s.loads| >= 1 ==> s.loads[0] == 0)
    && (|s.loads| >= 2 ==> s.loads[1] == 0)
    && (|s.loads| == 1 ==> s.cpu.active == 0 && forall p | 0 < p < SLOTS :: s.cpu.slots[p] == Slot(None, 0))
    && (|s.loads| == 1 ==> s.cpu.slots[0].timestamp == 0)
    && (|s.loads| == 0 ==> forall p | 0 <= p < SLOTS :: s.cpu.slots[p] == Slot(None, 0))
  }

  lemma LastUseAppend(loads: seq<nat>, q: nat, p: nat)
    ensures LastUse(loads + [q], p) == if p == q then |loads| else LastUse(loads, p)
  {
    assert (loads + [q])[..|loads|] == loads;
  }

  ghost predicate History(s: State) {
    Inv(s) && s.cpu.pcid && Stamped(s) && Opening(s)
  }

  lemma StampedStep(s: State, c: Context)
    requires Inv(s) && Stamped(s)
    ensures Stamped(Step(s, SwitchTo(c)))
  {
    hide Switch;
    var r := Step(s, SwitchTo(c));
    var (cpu, load) := Switch(s.cpu, c);
    LoadFits(s, c);
    if load.Some? {
      forall p | 0 <= p < SLOTS
        ensures LastUse(r.loads, p) == if p == load.value.slot then |s.loads| else LastUse(s.loads, p)
      {
        LastUseAppend(s.loads, load.value.slot, p);
      }
    }
  }

  /** The second context takes the slot of the first: both slots' stamps are still zero. */
  lemma OpeningStep(s: State, c: Context)
    requires History(s)
    ensures Opening(Step(s, SwitchTo(c)))
  {
    var (cpu, load) := Switch(s.cpu, c);
    if |s.loads| <= 1 && load.Some? {
      assert forall p | 0 <= p < SLOTS :: s.cpu.slots[p].timestamp == 0;
      assert load.value.slot == 0;
    }
  }

  lemma {:induction false} RunHistory(s: State, events: seq<Event>)
    requires History(s)
    ensures History(Run(s, events))
    decreases |events|
  {
    if events != [] {
      StepKeeps(s, events[0]);
      match events[0] {
        case SwitchTo(c) => StampedStep(s, c); OpeningStep(s, c);
        case Rebuild(c) =>
      }
      RunHistory(Step(s, events[0]), events[1..]);
    }
  }

  /**
   As long as the timestamp counter has not wrapped, the slot given away is the one left unused longest,
   an empty one if there is any, exactly when this is not the second load.
   */
  lemma VictimIff(s: State)
    requires History(s) && |s.loads| <= WORD
    ensures LeastRecent(s.loads, Victim(s.cpu.slots, SLOTS)) <==> |s.loads| != 1
  {
    var v := Victim(s.cpu.slots, SLOTS);
    if |s.loads| == 1 {
      assert v == 0;
      assert LastUse(s.loads, 1) == -1 && LastUse(s.loads, 0) == 0;
    } else {
      forall p | 0 <= p < SLOTS
        ensures LastUse(s.loads, v) <= LastUse(s.loads, p)
      {
        NotFirst(s, v);
        NotFirst(s, p);
        assert s.cpu.slots[v].timestamp <= s.cpu.slots[p].timestamp;
      }
    }
  }

  /** After the second load no slot's last load is the very first one. */
  lemma NotFirst(s: State, p: nat)
    requires Shaped(s) && Opening(s) && |s.loads| != 1
    ensures LastUse(s.loads, p) != 0
  {
  }

  /** The whole statement from boot: any run, on a CPU with the feature. */
  lemma GivesAwayOldest(events: seq<Event>)
    ensures var s := Run(Boot(true), events);
            && Inv(s)
            && (|s.loads| <= WORD ==> (LeastRecent(s.loads, Victim(s.cpu.slots, SLOTS)) <==> |s.loads| != 1))
  {
    BootInv(true);
    RunHistory(Boot(true), events);
    var s := Run(Boot(true), events);
    if |s.loads| <= WORD {
      VictimIff(s);
    }
  }
}
