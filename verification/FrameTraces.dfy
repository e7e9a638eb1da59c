/** What holds over every sequence of allocator calls. */
module FrameTraces {
  import opened FrameRuns

  datatype Call = AllocOne | AllocMany(n: nat) | FreeOne(f: nat)

  datatype Event = Granted(f: nat) | Returned(f: nat)

  /** The allocator and everything it has handed out and taken back so far. */
  datatype State = State(runs: seq<Run>, capacity: nat, log: seq<Event>)

  /** A call succeeds, panics, or was not allowed: a caller may only free a frame it holds. */
  datatype Outcome = Ok(s: State) | Panic | Misuse

  ghost function Live(log: seq<Event>): set<nat> {
    if log == [] then {} else
      match log[|log| - 1]
      case Granted(f) => Live(log[..|log| - 1]) + {f}
      case Returned(f) => Live(log[..|log| - 1]) - {f}
  }

  function Grants(base: nat, n: nat): seq<Event> {
    if n == 0 then [] else Grants(base, n - 1) + [Granted(base + n - 1)]
  }

  ghost function Step(s: State, c: Call): Outcome {
    match c
    case AllocOne =>
      (match Alloc(s.runs)
       case None => Panic
       case Some((f, rest)) => Ok(s.(runs := rest, log := s.log + [Granted(f)])))
    case AllocMany(n) =>
      var base := LastFit(s.runs, n);
      if base == 0 then Panic
      else Ok(s.(runs := ShrinkAll(s.runs, n), log := s.log + Grants(base, n)))
    case FreeOne(f) =>
      if f !in Live(s.log) then Misuse
      else if FirstTouching(s.runs, f, 0) == |s.runs| && |s.runs| + 2 == s.capacity then Panic
      else Ok(s.(runs := Free(s.runs, f), log := s.log + [Returned(f)]))
  }

  ghost function Execute(s: State, calls: seq<Call>): Outcome {
    if calls == [] then Ok(s) else
      match Execute(s, calls[..|calls| - 1])
      case Ok(t) => Step(t, calls[|calls| - 1])
      case bad => bad
  }

  /** Between two grants of a frame it was given back. */
  ghost predicate NoDoubleGrant(log: seq<Event>) {
    forall i, j | 0 <= i < j < |log| && log[i].Granted? && log[i] == log[j] ::
      exists k :: i < k < j && log[k] == Returned(log[i].f)
  }

  ghost predicate Safe(s: State) {
    Disjoint(s.runs) && Live(s.log) !! FreeSet(s.runs) && NoDoubleGrant(s.log)
  }

  /** A frame that is not live now was returned after each of its grants. */
  lemma {:induction false} ReturnedSince(log: seq<Event>, i: nat)
    requires i < |log| && log[i].Granted? && log[i].f !in Live(log)
    ensures exists k :: i < k < |log| && log[k] == Returned(log[i].f)
  {
    var n := |log| - 1;
    assert log[n] != Granted(log[i].f);
    if log[n] != Returned(log[i].f) {
      ReturnedSince(log[..n], i);
      var k :| i < k < n && log[..n][k] == Returned(log[i].f);
      assert log[k] == Returned(log[i].f);
    }
  }

  lemma LogOne(log: seq<Event>, e: Event)
    requires NoDoubleGrant(log) && (e.Granted? ==> e.f !in Live(log))
    ensures NoDoubleGrant(log + [e])
    ensures Live(log + [e]) == if e.Granted? then Live(log) + {e.f} else Live(log) - {e.f}
  {
    var after := log + [e];
    assert after[..|log|] == log;
    forall i, j | 0 <= i < j < |after| && after[i].Granted? && after[i] == after[j]
      ensures exists k :: i < k < j && after[k] == Returned(after[i].f)
    {
      if j < |log| {
        var k :| i < k < j && log[k] == Returned(log[i].f);
        assert after[k] == Returned(after[i].f);
      } else {
        ReturnedSince(log, i);
        var k :| i < k < |log| && log[k] == Returned(log[i].f);
        assert after[k] == Returned(after[i].f);
      }
    }
  }

  lemma {:induction false} LogGrants(log: seq<Event>, base: nat, n: nat)
    requires NoDoubleGrant(log) && Live(log) !! Span(base, n)
    ensures NoDoubleGrant(log + Grants(base, n))
    ensures Live(log + Grants(base, n)) == Live(log) + Span(base, n)
  {
    hide NoDoubleGrant, Live;
    if n == 0 {
      assert log + Grants(base, n) == log;
    } else {
      LogGrants(log, base, n - 1);
      var before := log + Grants(base, n - 1);
      assert log + Grants(base, n) == before + [Granted(base + n - 1)];
      LogOne(before, Granted(base + n - 1));
    }
  }

  /** Free and live frames together, at two moments. */
  ghost predicate Conserved(s: State, t: State) {
    FreeSet(t.runs) + Live(t.log) == FreeSet(s.runs) + Live(s.log)
  }

  lemma AllocOneSafe(s: State)
    requires Safe(s) && Alloc(s.runs).Some?
    ensures var t := Step(s, AllocOne).s; Safe(t) && Conserved(s, t)
  {
    hide FreeSet, Disjoint, NoDoubleGrant, Alloc, Live;
    AllocTakesOne(s.runs);
    LogOne(s.log, Granted(Alloc(s.runs).value.0));
  }

  /** No frame becomes free or live that was neither. */
  ghost predicate Within(s: State, t: State) {
    FreeSet(t.runs) + Live(t.log) <= FreeSet(s.runs) + Live(s.log)
  }

  /** The call loses no frame: all do but a request for several frames that more than one run could serve. */
  ghost predicate LosesNone(runs: seq<Run>, c: Call) {
    c.AllocMany? && c.n >= 1 ==> OneFits(runs, c.n)
  }

  lemma AllocManySafe(s: State, n: nat)
    requires Safe(s) && LastFit(s.runs, n) != 0
    ensures var t := Step(s, AllocMany(n)).s; Safe(t) && Within(s, t) && (Conserved(s, t) <==> LosesNone(s.runs, AllocMany(n)))
  {
    hide FreeSet, Disjoint, NoDoubleGrant, ShrinkAll, LastFit, Live, Grants, OneFits;
    AllocManyIsSafe(s.runs, n);
    LogGrants(s.log, LastFit(s.runs, n), n);
    if n >= 1 {
      AllocManyConservesIff(s.runs, n);
    } else {
      ShrinkByNone(s.runs);
    }
  }

  lemma ShrinkByNone(runs: seq<Run>)
    ensures ShrinkAll(runs, 0) == runs
  {
    assert forall i | 0 <= i < |runs| :: ShrinkAll(runs, 0)[i] == runs[i];
  }

  lemma FreeOneSafe(s: State, f: nat)
    requires Safe(s) && Step(s, FreeOne(f)).Ok?
    ensures var t := Step(s, FreeOne(f)).s; Safe(t) && Conserved(s, t)
  {
    hide FreeSet, Disjoint, NoDoubleGrant, Free, Live;
    FreeAddsOne(s.runs, f);
    FreeDisjointIff(s.runs, f);
    LogOne(s.log, Returned(f));
  }

  lemma StepSafe(s: State, c: Call)
    requires Safe(s) && Step(s, c).Ok?
    ensures var t := Step(s, c).s; Safe(t) && Within(s, t) && (Conserved(s, t) <==> LosesNone(s.runs, c))
  {
    hide Safe, FreeSet, Live;
    match c
    case AllocOne => AllocOneSafe(s);
    case AllocMany(n) => AllocManySafe(s, n);
    case FreeOne(f) => FreeOneSafe(s, f);
  }

  /**
   Over every run of the allocator, free runs stay disjoint, no live frame is free, and no frame is
   handed out twice without being freed in between.
   */
  lemma {:induction false} ExecuteSafe(s: State, calls: seq<Call>)
    requires Safe(s) && Execute(s, calls).Ok?
    ensures Safe(Execute(s, calls).s)
  {
    if calls != [] {
      ExecuteSafe(s, calls[..|calls| - 1]);
      StepSafe(Execute(s, calls[..|calls| - 1]).s, calls[|calls| - 1]);
    }
  }

  /** No call of the run loses a frame where it happens. */
  ghost predicate NeverLoses(s: State, calls: seq<Call>) {
    calls == [] || (
      && NeverLoses(s, calls[..|calls| - 1])
      && (Execute(s, calls[..|calls| - 1]).Ok? ==> LosesNone(Execute(s, calls[..|calls| - 1]).s.runs, calls[|calls| - 1])))
  }

  /** Free and live frames together are the same at the end as at the start exactly when no call loses a frame. */
  lemma {:induction false} ExecuteConservesIff(s: State, calls: seq<Call>)
    requires Safe(s) && Execute(s, calls).Ok?
    ensures Within(s, Execute(s, calls).s)
    ensures Conserved(s, Execute(s, calls).s) <==> NeverLoses(s, calls)
  {
    hide Safe, FreeSet, Live, LosesNone, Step;
    if calls != [] {
      var init := calls[..|calls| - 1];
      ExecuteConservesIff(s, init);
      ExecuteSafe(s, init);
      StepSafe(Execute(s, init).s, calls[|calls| - 1]);
    }
  }

  /** A multi-frame request served from two runs loses frames: they are neither free nor live afterwards. */
  lemma AllocManyLeaks()
    ensures var s := State([Run(8, 2), Run(16, 2)], 8, []);
            && Safe(s) && Step(s, AllocMany(1)).Ok?
            && FreeSet(Step(s, AllocMany(1)).s.runs) + Live(Step(s, AllocMany(1)).s.log) != FreeSet(s.runs) + Live(s.log)
  {
    var s := State([Run(8, 2), Run(16, 2)], 8, []);
    assert LastFit(s.runs, 1) == 16;
    InFreeSet(s.runs, 0, 8);
    var t := Step(s, AllocMany(1)).s;
    LogGrants([], 16, 1);
    assert t.log == [] + Grants(16, 1);
    assert t.runs == [Run(9, 1), Run(17, 1)];
    assert 8 !in FreeSet(t.runs);
  }

  /** The stack has more slots than there can ever be non-empty runs. */
  ghost predicate Roomy(s: State) {
    && Safe(s) && NoEmptyRun(s.runs)
    && |FreeSet(s.runs) + Live(s.log)| + 2 <= s.capacity
  }

  /** Freeing a live frame then always finds a slot. */
  lemma FreeHasRoom(s: State, f: nat)
    requires Roomy(s) && f in Live(s.log)
    ensures |s.runs| + 2 < s.capacity
  {
    RunsWithinFrames(s.runs);
    assert f !in FreeSet(s.runs);
    SubsetSize(FreeSet(s.runs) + {f}, FreeSet(s.runs) + Live(s.log));
    assert |FreeSet(s.runs) + {f}| == |FreeSet(s.runs)| + 1;
  }

  lemma StepPanics(s: State, c: Call)
    requires Roomy(s) && !c.AllocMany?
    ensures Step(s, c).Panic? <==> c.AllocOne? && FreeSet(s.runs) == {}
  {
    AllocTakesOne(s.runs);
    if c.FreeOne? && c.f in Live(s.log) {
      FreeHasRoom(s, c.f);
    }
  }

  lemma StepRoomy(s: State, c: Call)
    requires Roomy(s) && !c.AllocMany? && Step(s, c).Ok?
    ensures Roomy(Step(s, c).s)
  {
    StepSafe(s, c);
    if c.AllocOne? {
      AllocKeepsNonEmpty(s.runs);
    } else {
      FreeKeepsNonEmpty(s.runs, c.f);
    }
  }

  /** The call at `k` asks for a frame when every frame is handed out. */
  ghost predicate RanDry(s: State, calls: seq<Call>, k: int) {
    && 0 <= k < |calls| && calls[k].AllocOne? && Execute(s, calls[..k]).Ok?
    && FreeSet(Execute(s, calls[..k]).s.runs) == {}
  }

  /**
   From a state with room, a run of single-frame calls can only panic for want of a free frame:
   freeing never overflows the stack.
   */
  lemma {:induction false} ExecuteNeverOverflows(s: State, calls: seq<Call>)
    requires Roomy(s)
    requires forall c | c in calls :: !c.AllocMany?
    ensures Execute(s, calls).Ok? ==> Roomy(Execute(s, calls).s)
    ensures Execute(s, calls).Panic? ==> exists k :: RanDry(s, calls, k)
  {
    hide Roomy, Step, FreeSet;
    if calls != [] {
      var n := |calls| - 1;
      ExecuteNeverOverflows(s, calls[..n]);
      var before := Execute(s, calls[..n]);
      if before.Ok? {
        StepPanics(before.s, calls[n]);
        assert Execute(s, calls).Panic? ==> RanDry(s, calls, n);
        if Execute(s, calls).Ok? {
          StepRoomy(before.s, calls[n]);
        }
      } else if before.Panic? {
        var k :| RanDry(s, calls[..n], k);
        assert calls[..n][..k] == calls[..k];
        assert RanDry(s, calls, k);
      }
    }
  }
}
