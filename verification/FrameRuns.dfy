/**
 The free list of the physical frame allocator, as a value: a stack of runs of consecutive frames,
 bottom first.  Frames are named by number, so one block is 1.
 */
module FrameRuns {
  import opened Wrappers

  datatype Run = Run(base: nat, pages: nat) {
    predicate Covers(p: nat) {
      base <= p < base + pages
    }

    function End(): nat {
      base + pages
    }
  }

  /** The `n` frames from `base` on. */
  function Span(base: nat, n: nat): (s: set<nat>)
    ensures forall p: nat :: p in s <==> base <= p < base + n
  {
    set p: nat | base <= p < base + n && Run(base, n).Covers(p)
  }

  /** Runs that have no frame in common. */
  predicate Apart(r: Run, s: Run) {
    r.pages == 0 || s.pages == 0 || r.End() <= s.base || s.End() <= r.base
  }

  ghost predicate Disjoint(runs: seq<Run>) {
    forall i, j | 0 <= i < j < |runs| :: Apart(runs[i], runs[j])
  }

  /** The set of free frames that a stack of runs stands for. */
  ghost function FreeSet(runs: seq<Run>): set<nat> {
    set i: nat, p: nat | i < |runs| && p in Span(runs[i].base, runs[i].pages) :: p
  }

  lemma InFreeSet(runs: seq<Run>, i: nat, p: nat)
    requires i < |runs| && runs[i].Covers(p)
    ensures p in FreeSet(runs)
  {
    assert p in Span(runs[i].base, runs[i].pages);
  }

  lemma RunOf(runs: seq<Run>, p: nat) returns (i: nat)
    requires p in FreeSet(runs)
    ensures i < |runs| && runs[i].Covers(p)
  {
    i :| i < |runs| && p in Span(runs[i].base, runs[i].pages);
  }

  /** Two disjoint runs do not cover the same frame. */
  lemma RunUnique(runs: seq<Run>, i: nat, j: nat, p: nat)
    requires Disjoint(runs) && i < |runs| && j < |runs| && runs[i].Covers(p) && runs[j].Covers(p)
    ensures i == j
  {
  }

  // ---------------------------------------------------------------- one block

  /** Pop runs until a non-empty one comes up, take its first frame and push what is left of it. */
  function Alloc(runs: seq<Run>): Option<(nat, seq<Run>)> {
    if runs == [] then None
    else
      var n := |runs| - 1;
      var r := runs[n];
      if r.pages == 0 then Alloc(runs[..n])
      else if r.pages == 1 then Some((r.base, runs[..n]))
      else Some((r.base, runs[..n] + [Run(r.base + 1, r.pages - 1)]))
  }

  lemma AllocNone()
    ensures Alloc([]) == None
  {
  }

  lemma AllocTop(rest: seq<Run>, r: Run)
    ensures Alloc(rest + [r]) ==
              if r.pages == 0 then Alloc(rest)
              else Some((r.base, if r.pages == 1 then rest else rest + [Run(r.base + 1, r.pages - 1)]))
  {
    assert (rest + [r])[..|rest|] == rest;
  }

  /** Whatever the runs are, allocation fails only when no frame is free; otherwise it takes a free frame and frees none. */
  lemma {:induction false} AllocCovers(runs: seq<Run>)
    ensures Alloc(runs).None? <==> FreeSet(runs) == {}
    ensures Alloc(runs).Some? ==>
              var (f, rest) := Alloc(runs).value;
              f in FreeSet(runs) && FreeSet(rest) + {f} == FreeSet(runs) && |rest| <= |runs|
  {
    if runs != [] {
      var n := |runs| - 1;
      if runs[n].pages == 0 {
        AllocCovers(runs[..n]);
        DropEmptyTop(runs);
      } else {
        TakeFirstCovers(runs);
      }
    }
  }

  /** From disjoint runs it takes exactly one frame out of the free set. */
  lemma {:induction false} AllocTakesOne(runs: seq<Run>)
    requires Disjoint(runs)
    ensures Alloc(runs).None? <==> FreeSet(runs) == {}
    ensures Alloc(runs).Some? ==>
              var (f, rest) := Alloc(runs).value;
              && f in FreeSet(runs) && FreeSet(rest) == FreeSet(runs) - {f} && Disjoint(rest)
              && |rest| <= |runs|
  {
    AllocCovers(runs);
    if Alloc(runs).Some? {
      AllocApart(runs);
    }
  }

  lemma {:induction false} AllocApart(runs: seq<Run>)
    requires Disjoint(runs) && Alloc(runs).Some?
    ensures var (f, rest) := Alloc(runs).value; f !in FreeSet(rest) && Disjoint(rest)
  {
    var n := |runs| - 1;
    if runs[n].pages == 0 {
      AllocApart(runs[..n]);
    } else {
      TakeFirstApart(runs);
    }
  }

  lemma TakeFirstCovers(runs: seq<Run>)
    requires runs != [] && runs[|runs| - 1].pages > 0
    ensures var (f, rest) := Alloc(runs).value; f in FreeSet(runs) && FreeSet(rest) + {f} == FreeSet(runs)
  {
    hide FreeSet, Alloc;
    var n := |runs| - 1;
    var init, r := runs[..n], runs[n];
    assert runs == init + [r];
    AllocTop(init, r);
    var rest := if r.pages == 1 then init else init + [Run(r.base + 1, r.pages - 1)];
    InFreeSet(runs, n, r.base);
    forall p | p in FreeSet(rest)
      ensures p in FreeSet(runs)
    {
      var i := RunOf(rest, p);
      InFreeSet(runs, i, p);
    }
    forall p | p in FreeSet(runs) && p != r.base
      ensures p in FreeSet(rest)
    {
      var i := RunOf(runs, p);
      InFreeSet(rest, i, p);
    }
  }

  lemma TakeFirstApart(runs: seq<Run>)
    requires Disjoint(runs) && runs != [] && runs[|runs| - 1].pages > 0
    ensures var (f, rest) := Alloc(runs).value; f !in FreeSet(rest) && Disjoint(rest)
  {
    hide FreeSet;
    var n := |runs| - 1;
    var (f, rest) := Alloc(runs).value;
    if f in FreeSet(rest) {
      var i := RunOf(rest, f);
      RunUnique(runs, i, n, f);
    }
  }

  lemma DropEmptyTop(runs: seq<Run>)
    requires runs != [] && runs[|runs| - 1].pages == 0
    ensures FreeSet(runs) == FreeSet(runs[..|runs| - 1])
  {
    var rest := runs[..|runs| - 1];
    forall p
      ensures p in FreeSet(runs) <==> p in FreeSet(rest)
    {
      if p in FreeSet(runs) {
        var i := RunOf(runs, p);
        InFreeSet(rest, i, p);
      }
      if p in FreeSet(rest) {
        var i := RunOf(rest, p);
        InFreeSet(runs, i, p);
      }
    }
  }

  // ---------------------------------------------------------------- freeing

  predicate Touches(r: Run, f: nat) {
    f + 1 == r.base || r.End() == f
  }

  /** The run grown by the frame just below it or, failing that, just above it. */
  function Grow(r: Run, f: nat): Run
    requires Touches(r, f)
  {
    if f + 1 == r.base then Run(r.base - 1, r.pages + 1) else Run(r.base, r.pages + 1)
  }

  /** The index of the lowest run at or above `k` that the frame can be joined to; `|runs|` if none. */
  function FirstTouching(runs: seq<Run>, f: nat, k: nat): (i: nat)
    requires k <= |runs|
    ensures k <= i <= |runs|
    ensures i < |runs| ==> Touches(runs[i], f)
    ensures forall j | k <= j < i :: !Touches(runs[j], f)
    decreases |runs| - k
  {
    if k == |runs| || Touches(runs[k], f) then k else FirstTouching(runs, f, k + 1)
  }

  /** Join the frame to the first run it touches, else push a run of its own. */
  function Free(runs: seq<Run>, f: nat): seq<Run> {
    var i := FirstTouching(runs, f, 0);
    if i < |runs| then runs[i := Grow(runs[i], f)] else runs + [Run(f, 1)]
  }

  /** Freeing a frame adds exactly that frame to the free set. */
  lemma FreeAddsOne(runs: seq<Run>, f: nat)
    ensures FreeSet(Free(runs, f)) == FreeSet(runs) + {f}
  {
    hide FreeSet;
    var i := FirstTouching(runs, f, 0);
    var after := Free(runs, f);
    InFreeSet(after, i, f);
    forall p | p in FreeSet(after)
      ensures p in FreeSet(runs) + {f}
    {
      var j := RunOf(after, p);
      if p != f {
        InFreeSet(runs, j, p);
      }
    }
    forall p | p in FreeSet(runs)
      ensures p in FreeSet(after)
    {
      var j := RunOf(runs, p);
      InFreeSet(after, j, p);
    }
  }

  lemma FreeKeepsApart(runs: seq<Run>, f: nat)
    requires Disjoint(runs) && f !in FreeSet(runs)
    ensures Disjoint(Free(runs, f))
  {
    var i := FirstTouching(runs, f, 0);
    var after := Free(runs, f);
    forall j: nat | j < |runs| && j != i
      ensures Apart(runs[j], after[i])
    {
      if runs[j].Covers(f) {
        InFreeSet(runs, j, f);
      }
      if i < j && i < |runs| {
        assert Apart(runs[i], runs[j]);
      } else if j < i < |runs| {
        assert Apart(runs[j], runs[i]);
      }
    }
  }

  /** Runs that overlap go on overlapping, whatever is freed. */
  lemma FreeKeepsOverlap(runs: seq<Run>, f: nat)
    requires Disjoint(Free(runs, f))
    ensures Disjoint(runs)
  {
    var after := Free(runs, f);
    forall i, j | 0 <= i < j < |runs|
      ensures Apart(runs[i], runs[j])
    {
      assert Apart(after[i], after[j]);
    }
  }

  /** Freeing keeps the runs disjoint exactly when they were and the frame was not free already. */
  lemma FreeDisjointIff(runs: seq<Run>, f: nat)
    ensures Disjoint(Free(runs, f)) <==> Disjoint(runs) && f !in FreeSet(runs)
  {
    hide FreeSet;
    var i := FirstTouching(runs, f, 0);
    var after := Free(runs, f);
    if Disjoint(runs) && f !in FreeSet(runs) {
      FreeKeepsApart(runs, f);
    }
    if Disjoint(after) {
      FreeKeepsOverlap(runs, f);
      if f in FreeSet(runs) {
        var j := RunOf(runs, f);
        RunUnique(after, i, j, f);
      }
    }
  }

  // ---------------------------------------------------------------- several blocks

  /** What one large-enough run loses. */
  function Shrink(r: Run, n: nat): Run {
    if r.pages >= n then Run(r.base + n, r.pages - n) else r
  }

  function ShrinkAll(runs: seq<Run>, n: nat): (s: seq<Run>)
    ensures |s| == |runs|
    ensures forall i | 0 <= i < |runs| :: s[i] == Shrink(runs[i], n)
  {
    seq(|runs|, i requires 0 <= i < |runs| => Shrink(runs[i], n))
  }

  /** The base of the topmost run with at least `n` frames, 0 if there is none. */
  function LastFit(runs: seq<Run>, n: nat): nat {
    if runs == [] then 0
    else if runs[|runs| - 1].pages >= n then runs[|runs| - 1].base
    else LastFit(runs[..|runs| - 1], n)
  }

  /**
   Every large-enough run loses `n` frames, but only those of the topmost one are handed out.  So the
   frames handed out were free and no longer are, no frame becomes free, and runs stay disjoint.
   */
  lemma AllocManyIsSafe(runs: seq<Run>, n: nat)
    requires Disjoint(runs)
    ensures Disjoint(ShrinkAll(runs, n))
    ensures FreeSet(ShrinkAll(runs, n)) <= FreeSet(runs)
    ensures LastFit(runs, n) != 0 ==> Span(LastFit(runs, n), n) <= FreeSet(runs) - FreeSet(ShrinkAll(runs, n))
  {
    var after := ShrinkAll(runs, n);
    forall p | p in FreeSet(after)
      ensures p in FreeSet(runs)
    {
      var i := RunOf(after, p);
      InFreeSet(runs, i, p);
    }
    ShrinkKeepsApart(runs, n);
    if LastFit(runs, n) != 0 {
      var k := LastFitIndex(runs, n);
      forall p | p in Span(LastFit(runs, n), n)
        ensures p in FreeSet(runs) && p !in FreeSet(after)
      {
        InFreeSet(runs, k, p);
        if p in FreeSet(after) {
          var i := RunOf(after, p);
          RunUnique(runs, i, k, p);
        }
      }
    }
  }

  /** At most one run is large enough. */
  ghost predicate OneFits(runs: seq<Run>, n: nat) {
    forall i, j | 0 <= i < |runs| && 0 <= j < |runs| && runs[i].pages >= n && runs[j].pages >= n :: i == j
  }

  /** Nothing is lost exactly when only one run is large enough. */
  lemma AllocManyConservesIff(runs: seq<Run>, n: nat)
    requires Disjoint(runs) && n >= 1 && LastFit(runs, n) != 0
    ensures FreeSet(ShrinkAll(runs, n)) + Span(LastFit(runs, n), n) == FreeSet(runs)
       <==> OneFits(runs, n)
  {
    var after := ShrinkAll(runs, n);
    var k := LastFitIndex(runs, n);
    AllocManyIsSafe(runs, n);
    forall i: nat | i < |runs| && runs[i].pages >= n && i != k
      ensures runs[i].base in FreeSet(runs) && runs[i].base !in FreeSet(after) + Span(LastFit(runs, n), n)
    {
      LostBase(runs, n, i, k);
    }
    if forall i: nat | i < |runs| && runs[i].pages >= n :: i == k {
      forall p | p in FreeSet(runs)
        ensures p in FreeSet(after) + Span(LastFit(runs, n), n)
      {
        var i := RunOf(runs, p);
        if p !in Span(LastFit(runs, n), n) {
          InFreeSet(after, i, p);
        }
      }
    }
  }

  lemma LostBase(runs: seq<Run>, n: nat, i: nat, k: nat)
    requires Disjoint(runs) && n >= 1 && i < |runs| && k < |runs| && i != k
    requires runs[i].pages >= n && runs[k].pages >= n
    ensures runs[i].base in FreeSet(runs)
    ensures runs[i].base !in FreeSet(ShrinkAll(runs, n))
    ensures runs[i].base !in Span(runs[k].base, n)
  {
    var b := runs[i].base;
    InFreeSet(runs, i, b);
    if b in FreeSet(ShrinkAll(runs, n)) {
      var j := RunOf(ShrinkAll(runs, n), b);
      RunUnique(runs, i, j, b);
    }
    if b in Span(runs[k].base, n) {
      RunUnique(runs, i, k, b);
    }
  }

  lemma ShrinkKeepsApart(runs: seq<Run>, n: nat)
    requires Disjoint(runs)
    ensures Disjoint(ShrinkAll(runs, n))
  {
    forall i, j | 0 <= i < j < |runs|
      ensures Apart(ShrinkAll(runs, n)[i], ShrinkAll(runs, n)[j])
    {
      assert Apart(runs[i], runs[j]);
    }
  }

  lemma {:induction false} LastFitIndex(runs: seq<Run>, n: nat) returns (k: nat)
    requires LastFit(runs, n) != 0
    ensures k < |runs| && runs[k].base == LastFit(runs, n) && runs[k].pages >= n
  {
    k := |runs| - 1;
    if runs[k].pages < n {
      k := LastFitIndex(runs[..k], n);
    }
  }

  // ---------------------------------------------------------------- room on the stack

  ghost predicate NoEmptyRun(runs: seq<Run>) {
    forall i | 0 <= i < |runs| :: runs[i].pages > 0
  }

  /** Non-empty disjoint runs are no more than the frames they cover, so they cannot overflow a stack of that size. */
  lemma {:induction false} RunsWithinFrames(runs: seq<Run>)
    requires Disjoint(runs) && NoEmptyRun(runs)
    ensures |runs| <= |FreeSet(runs)|
  {
    if runs != [] {
      var n := |runs| - 1;
      var b := runs[n].base;
      RunsWithinFrames(runs[..n]);
      InFreeSet(runs, n, b);
      forall p | p in FreeSet(runs[..n])
        ensures p in FreeSet(runs) - {b}
      {
        var i := RunOf(runs[..n], p);
        InFreeSet(runs, i, p);
        if p == b {
          RunUnique(runs, i, n, p);
        }
      }
      SubsetSize(FreeSet(runs[..n]), FreeSet(runs) - {b});
    }
  }

  lemma {:induction false} SubsetSize(a: set<nat>, b: set<nat>)
    requires a <= b
    ensures |a| <= |b|
  {
    if a != {} {
      var x :| x in a;
      SubsetSize(a - {x}, b - {x});
    }
  }

  lemma {:induction false} AllocKeepsNonEmpty(runs: seq<Run>)
    requires NoEmptyRun(runs) && Alloc(runs).Some?
    ensures NoEmptyRun(Alloc(runs).value.1)
  {
  }

  lemma FreeKeepsNonEmpty(runs: seq<Run>, f: nat)
    requires NoEmptyRun(runs)
    ensures NoEmptyRun(Free(runs, f))
  {
  }
}
