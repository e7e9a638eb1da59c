/** Cutting the frames that are already in use out of the free list, and the whole of boot. */
module FrameReserve {
  import opened FrameRuns
  import opened FrameAllocator
  import opened FrameBoot

  /** Number of frames in the 64-bit address space; frame counts are taken modulo this. */
  const WRAP: nat := 0x10_0000_0000_0000

  /** The test made by the scan: the upper bound is inclusive, and wraps. */
  predicate Matches(r: Run, a: nat) {
    r.base <= a <= r.End() % WRAP && r.pages != 0
  }

  function FirstMatch(runs: seq<Run>, a: nat, k: nat): (i: nat)
    requires k <= |runs|
    ensures k <= i <= |runs|
    ensures i < |runs| ==> Matches(runs[i], a)
    ensures forall j | k <= j < i :: !Matches(runs[j], a)
    decreases |runs| - k
  {
    if k == |runs| || Matches(runs[k], a) then k else FirstMatch(runs, a, k + 1)
  }

  /** Frames of the run above `a`, in 64-bit arithmetic. */
  function Above(r: Run, a: nat): nat
    requires Matches(r, a)
  {
    if r.End() % WRAP == a then WRAP - 1 else r.End() % WRAP - (a + 1)
  }

  /** Replace the first matching run by what lies below `a` and push what lies above it. */
  function Carve(runs: seq<Run>, a: nat): seq<Run> {
    var i := FirstMatch(runs, a, 0);
    if i == |runs| then runs
    else
      var below := Run(runs[i].base, a - runs[i].base);
      var above := Run((a + 1) % WRAP, Above(runs[i], a));
      if below.pages == 0 then runs[i := above]
      else runs[i := below] + if above.pages != 0 then [above] else []
  }

  /** The run that the scan stops at does not end just below `a`. */
  predicate FirstMatchCovers(runs: seq<Run>, a: nat) {
    var i := FirstMatch(runs, a, 0);
    i == |runs| || runs[i].End() != a
  }

  /** Frame counts fit the address space. */
  ghost predicate Counted(runs: seq<Run>) {
    forall i | 0 <= i < |runs| :: runs[i].pages < WRAP
  }

  ghost predicate Bounded(runs: seq<Run>) {
    forall i | 0 <= i < |runs| :: runs[i].End() <= WRAP && runs[i].pages < WRAP
  }

  /** Frames of runs that end with the address space.  Their bound wraps to zero, so the scan passes over them. */
  ghost function Top(runs: seq<Run>): set<nat> {
    set i: nat, p: nat | i < |runs| && runs[i].End() == WRAP && p in Span(runs[i].base, runs[i].pages) :: p
  }

  lemma InTop(runs: seq<Run>, i: nat, p: nat)
    requires i < |runs| && runs[i].End() == WRAP && runs[i].Covers(p)
    ensures p in Top(runs) && p in FreeSet(runs)
  {
    assert p in Span(runs[i].base, runs[i].pages);
    InFreeSet(runs, i, p);
  }

  lemma TopFree(runs: seq<Run>)
    ensures Top(runs) <= FreeSet(runs)
  {
    forall p | p in Top(runs)
      ensures p in FreeSet(runs)
    {
      var i: nat :| i < |runs| && runs[i].End() == WRAP && p in Span(runs[i].base, runs[i].pages);
      InFreeSet(runs, i, p);
    }
  }

  /** A run that matches ends below the end of the address space. */
  lemma MatchEnds(r: Run, a: nat)
    requires Matches(r, a) && r.pages < WRAP
    ensures r.End() < WRAP
  {
    assert r.End() % WRAP <= if r.End() < WRAP then r.End() else r.End() - WRAP;
  }

  /** Run `i` without the frame `a` that it covers. */
  function Without(runs: seq<Run>, i: nat, a: nat): seq<Run>
    requires i < |runs| && runs[i].Covers(a)
  {
    var below := Run(runs[i].base, a - runs[i].base);
    var above := Run(a + 1, runs[i].End() - (a + 1));
    if below.pages == 0 then runs[i := above]
    else runs[i := below] + if above.pages != 0 then [above] else []
  }

  /** Where the scan finds a run that covers the frame, nothing wraps. */
  lemma CarveCovered(runs: seq<Run>, a: nat)
    requires Counted(runs) && FirstMatchCovers(runs, a)
    ensures var i := FirstMatch(runs, a, 0);
            if i < |runs| then runs[i].Covers(a) && runs[i].End() < WRAP && Carve(runs, a) == Without(runs, i, a) else Carve(runs, a) == runs
  {
    var i := FirstMatch(runs, a, 0);
    if i < |runs| {
      MatchEnds(runs[i], a);
    }
  }

  /** Whatever the runs, carving out one frame takes no other. */
  lemma CarveKeeps(runs: seq<Run>, a: nat, p: nat)
    requires Counted(runs) && p in FreeSet(runs) && p != a
    ensures p in FreeSet(Carve(runs, a))
  {
    var j := RunOf(runs, p);
    var i := FirstMatch(runs, a, 0);
    if i < |runs| {
      MatchEnds(runs[i], a);
    }
    if j != i || p < a {
      InFreeSet(Carve(runs, a), j, p);
    } else if a == runs[i].base {
      InFreeSet(Carve(runs, a), i, p);
    } else {
      InFreeSet(Carve(runs, a), |runs|, p);
    }
  }

  lemma CarveKeepsCounted(runs: seq<Run>, a: nat)
    requires Counted(runs)
    ensures Counted(Carve(runs, a))
  {
    var i := FirstMatch(runs, a, 0);
    if i < |runs| {
      MatchEnds(runs[i], a);
    }
  }

  lemma BoundedCounted(runs: seq<Run>)
    requires Bounded(runs)
    ensures Counted(runs)
  {
  }

  /** The frame is gone, unless it is in a run that the scan passes over. */
  lemma CarveRemoves(runs: seq<Run>, a: nat)
    requires Disjoint(runs) && Bounded(runs) && FirstMatchCovers(runs, a)
    ensures FreeSet(Carve(runs, a)) == FreeSet(runs) - ({a} - Top(runs))
  {
    hide Disjoint, Carve, FirstMatchCovers, Top, FreeSet;
    BoundedCounted(runs);
    forall p | p in FreeSet(Carve(runs, a))
      ensures p in FreeSet(runs) - ({a} - Top(runs))
    {
      CarveAddsNone(runs, a, p);
    }
    forall p | p in FreeSet(runs) - ({a} - Top(runs))
      ensures p in FreeSet(Carve(runs, a))
    {
      if p == a {
        TopUnmatched(runs, a);
      } else {
        CarveKeeps(runs, a, p);
      }
    }
  }

  lemma CarveAddsNone(runs: seq<Run>, a: nat, p: nat)
    requires Disjoint(runs) && Bounded(runs) && FirstMatchCovers(runs, a) && p in FreeSet(Carve(runs, a))
    ensures p in FreeSet(runs) && (p == a ==> p in Top(runs))
  {
    hide Disjoint, Carve, FirstMatchCovers, Top;
    BoundedCounted(runs);
    CarveCovered(runs, a);
    var after := Carve(runs, a);
    var i := FirstMatch(runs, a, 0);
    var j := RunOf(after, p);
    var k := if j < |runs| then j else i;
    InFreeSet(runs, k, p);
    if p == a {
      FoundOrTop(runs, k, a);
      if i < |runs| {
        RunUnique(runs, k, i, a);
      }
    }
  }

  /** A run that covers `a` matches unless it ends with the address space. */
  lemma FoundOrTop(runs: seq<Run>, k: nat, a: nat)
    requires Bounded(runs) && k < |runs| && runs[k].Covers(a)
    ensures Matches(runs[k], a) || a in Top(runs)
    ensures a in Top(runs) || FirstMatch(runs, a, 0) < |runs|
  {
    if runs[k].End() == WRAP {
      InTop(runs, k, a);
    }
  }

  lemma TopUnmatched(runs: seq<Run>, a: nat)
    requires Disjoint(runs) && Bounded(runs) && FirstMatchCovers(runs, a) && a in Top(runs)
    ensures Carve(runs, a) == runs
  {
    var k: nat :| k < |runs| && runs[k].End() == WRAP && a in Span(runs[k].base, runs[k].pages);
    var i := FirstMatch(runs, a, 0);
    if i < |runs| {
      MatchEnds(runs[i], a);
      RunUnique(runs, k, i, a);
    }
  }

  lemma CarveKeepsDisjoint(runs: seq<Run>, a: nat)
    requires Disjoint(runs) && Bounded(runs) && FirstMatchCovers(runs, a)
    ensures Disjoint(Carve(runs, a))
  {
    hide Carve, FirstMatchCovers;
    BoundedCounted(runs);
    CarveCovered(runs, a);
    var after := Carve(runs, a);
    var i := FirstMatch(runs, a, 0);
    if i < |runs| {
      forall j, k | 0 <= j < k < |after|
        ensures Apart(after[j], after[k])
      {
        if k < |runs| {
          assert Apart(runs[j], runs[k]);
        } else if j < i {
          assert Apart(runs[j], runs[i]);
        } else if i < j {
          assert Apart(runs[i], runs[j]);
        }
      }
    }
  }

  lemma CarveKeepsBounded(runs: seq<Run>, a: nat)
    requires Bounded(runs) && FirstMatchCovers(runs, a)
    ensures Bounded(Carve(runs, a))
  {
    hide Carve, FirstMatchCovers;
    CarveCovered(runs, a);
  }

  /** Carving leaves the runs that end with the address space as they are. */
  lemma TopStays(runs: seq<Run>, a: nat)
    requires Bounded(runs) && FirstMatchCovers(runs, a)
    ensures Top(Carve(runs, a)) == Top(runs)
  {
    hide Carve, FirstMatchCovers;
    CarveCovered(runs, a);
    var after := Carve(runs, a);
    forall p | p in Top(runs)
      ensures p in Top(after)
    {
      var k: nat :| k < |runs| && runs[k].End() == WRAP && p in Span(runs[k].base, runs[k].pages);
      assert after[k] == runs[k];
    }
    forall p | p in Top(after)
      ensures p in Top(runs)
    {
      var k: nat :| k < |after| && after[k].End() == WRAP && p in Span(after[k].base, after[k].pages);
      assert after[k] == runs[k];
    }
  }

  lemma MatchedAboveZero(runs: seq<Run>, a: nat)
    requires !FirstMatchCovers(runs, a)
    ensures a > 0
  {
    assert Matches(runs[FirstMatch(runs, a, 0)], a);
  }

  lemma BoundedFree(runs: seq<Run>)
    requires Bounded(runs)
    ensures forall p | p in FreeSet(runs) :: p < WRAP
  {
    forall p | p in FreeSet(runs)
      ensures p < WRAP
    {
      var i := RunOf(runs, p);
    }
  }

  /** A run ending just below `a` is answered by a run of nearly the whole address space. */
  lemma CarveOverflows(runs: seq<Run>, a: nat)
    requires Bounded(runs) && !FirstMatchCovers(runs, a) && a + 1 < WRAP
    ensures a + WRAP - 1 in FreeSet(Carve(runs, a)) && a + WRAP - 1 !in FreeSet(runs)
  {
    MatchEnds(runs[FirstMatch(runs, a, 0)], a);
    InFreeSet(Carve(runs, a), |runs|, a + WRAP - 1);
    BoundedFree(runs);
    MatchedAboveZero(runs, a);
  }

  /** At the last frame of the address space that run starts over at frame 0. */
  lemma CarveStartsOver(runs: seq<Run>, a: nat)
    requires Bounded(runs) && !FirstMatchCovers(runs, a) && a + 1 >= WRAP
    ensures 0 in FreeSet(Carve(runs, a))
  {
    MatchEnds(runs[FirstMatch(runs, a, 0)], a);
    InFreeSet(Carve(runs, a), |runs|, 0);
  }

  /**
   One call removes exactly its frame if and only if the scan does not stop at a run that ends there and the
   frame is in no run that ends with the address space.
   */
  lemma CarveExactIff(runs: seq<Run>, a: nat)
    requires Disjoint(runs) && Bounded(runs) && (a + 1 < WRAP || 0 !in FreeSet(runs))
    ensures FreeSet(Carve(runs, a)) == FreeSet(runs) - {a} <==> FirstMatchCovers(runs, a) && a !in Top(runs)
  {
    TopFree(runs);
    if FirstMatchCovers(runs, a) {
      CarveRemoves(runs, a);
    } else if a + 1 < WRAP {
      CarveOverflows(runs, a);
    } else {
      CarveStartsOver(runs, a);
    }
  }

  /** The frame above the end of a run becomes free, and can then not be reserved any more. */
  lemma CarveExample()
    ensures var runs := [Run(300, 2)];
            Disjoint(runs) && Bounded(runs) && 303 !in FreeSet(runs) && 303 in FreeSet(Carve(runs, 302)) && Carve(Carve(runs, 302), 303) == Carve(runs, 302)
  {
    var runs := [Run(300, 2)];
    assert FirstMatch(runs, 302, 0) == 0;
    var after := Carve(runs, 302);
    assert after == [Run(300, 2), Run(303, WRAP - 1)];
    InFreeSet(after, 1, 303);
    assert FirstMatch(after, 303, 0) == 2;
  }

  // ---------------------------------------------------------------- ranges

  /** Carve out `n` frames from `lo` upwards. */
  function CarveRange(runs: seq<Run>, lo: nat, n: nat): seq<Run> {
    if n == 0 then runs else Carve(CarveRange(runs, lo, n - 1), lo + n - 1)
  }

  /** Once the frame below is carved out or passed over, no run ends at the next one. */
  lemma NextCovered(runs: seq<Run>, a: nat)
    requires Disjoint(runs) && Bounded(runs) && a > 0 && (a - 1 in FreeSet(runs) ==> a - 1 in Top(runs))
    ensures FirstMatchCovers(runs, a)
  {
    var i := FirstMatch(runs, a, 0);
    if i < |runs| && runs[i].Covers(a - 1) {
      MatchEnds(runs[i], a);
      InFreeSet(runs, i, a - 1);
      var k: nat :| k < |runs| && runs[k].End() == WRAP && a - 1 in Span(runs[k].base, runs[k].pages);
      RunUnique(runs, k, i, a - 1);
    }
  }

  lemma {:induction false} CarveRangeRemoves(runs: seq<Run>, lo: nat, n: nat)
    requires Disjoint(runs) && Bounded(runs) && (n == 0 || FirstMatchCovers(runs, lo))
    ensures FreeSet(CarveRange(runs, lo, n)) == FreeSet(runs) - (Span(lo, n) - Top(runs))
    ensures Disjoint(CarveRange(runs, lo, n)) && Bounded(CarveRange(runs, lo, n)) && Top(CarveRange(runs, lo, n)) == Top(runs)
  {
    hide Disjoint, Bounded, Top, FreeSet, Carve, FirstMatchCovers;
    if n != 0 {
      CarveRangeRemoves(runs, lo, n - 1);
      var before := CarveRange(runs, lo, n - 1);
      var a := lo + n - 1;
      if n > 1 {
        NextCovered(before, a);
      }
      assert Span(lo, n) == Span(lo, n - 1) + {a};
      CarveRemoves(before, a);
      CarveKeepsDisjoint(before, a);
      CarveKeepsBounded(before, a);
      TopStays(before, a);
    }
  }

  lemma {:induction false} CarveRangeCounted(runs: seq<Run>, lo: nat, n: nat)
    requires Counted(runs)
    ensures Counted(CarveRange(runs, lo, n))
  {
    hide Carve, Counted;
    if n != 0 {
      CarveRangeCounted(runs, lo, n - 1);
      CarveKeepsCounted(CarveRange(runs, lo, n - 1), lo + n - 1);
    }
  }

  lemma {:induction false} CarveRangeKeeps(runs: seq<Run>, lo: nat, n: nat, p: nat)
    requires Counted(runs) && p in FreeSet(runs) && p !in Span(lo, n)
    ensures p in FreeSet(CarveRange(runs, lo, n))
  {
    hide Carve, FreeSet, Counted;
    if n != 0 {
      CarveRangeCounted(runs, lo, n - 1);
      CarveRangeKeeps(runs, lo, n - 1, p);
      CarveKeeps(CarveRange(runs, lo, n - 1), lo + n - 1, p);
    }
  }

  lemma {:induction false} CarveRangeOverflows(runs: seq<Run>, lo: nat, n: nat)
    requires Bounded(runs) && 0 < n < WRAP - lo && !FirstMatchCovers(runs, lo)
    ensures lo + WRAP - 1 in FreeSet(CarveRange(runs, lo, n)) && lo + WRAP - 1 !in FreeSet(runs)
  {
    if n == 1 {
      assert CarveRange(runs, lo, 0) == runs;
      CarveOverflows(runs, lo);
    } else {
      CarveRangeOverflows(runs, lo, n - 1);
      BoundedCounted(runs);
      CarveRangeCounted(runs, lo, n - 1);
      CarveKeeps(CarveRange(runs, lo, n - 1), lo + n - 1, lo + WRAP - 1);
    }
  }

  // ---------------------------------------------------------------- all ranges

  /** An inclusive range of frames that boot must not hand out. */
  datatype Range = Range(lo: nat, hi: nat) {
    function Count(): nat {
      if hi < lo then 0 else hi - lo + 1
    }
  }

  function CarveAll(runs: seq<Run>, ranges: seq<Range>): seq<Run>
    decreases |ranges|
  {
    if ranges == [] then runs
    else CarveAll(CarveRange(runs, ranges[0].lo, ranges[0].Count()), ranges[1..])
  }

  ghost function Reserved(ranges: seq<Range>): set<nat> {
    if ranges == [] then {} else Span(ranges[0].lo, ranges[0].Count()) + Reserved(ranges[1..])
  }

  /** When each loop starts, the scan for its first frame does not stop at a run that ends there. */
  predicate FirstFramesCovered(runs: seq<Run>, ranges: seq<Range>)
    decreases |ranges|
  {
    ranges == [] || (
      && (ranges[0].Count() == 0 || FirstMatchCovers(runs, ranges[0].lo))
      && FirstFramesCovered(CarveRange(runs, ranges[0].lo, ranges[0].Count()), ranges[1..]))
  }

  /** Each range ends below the last frame of the address space, or its loop would not end. */
  predicate RangesBounded(ranges: seq<Range>) {
    forall i | 0 <= i < |ranges| :: ranges[i].hi + 1 < WRAP
  }

  lemma {:induction false} CarveAllRemoves(runs: seq<Run>, ranges: seq<Range>)
    requires Disjoint(runs) && Bounded(runs) && FirstFramesCovered(runs, ranges)
    ensures FreeSet(CarveAll(runs, ranges)) == FreeSet(runs) - (Reserved(ranges) - Top(runs))
    ensures Disjoint(CarveAll(runs, ranges))
    decreases |ranges|
  {
    hide Disjoint, Bounded, Top, FreeSet, CarveRange, FirstMatchCovers;
    if ranges != [] {
      CarveRangeRemoves(runs, ranges[0].lo, ranges[0].Count());
      CarveAllRemoves(CarveRange(runs, ranges[0].lo, ranges[0].Count()), ranges[1..]);
    }
  }

  lemma {:induction false} CarveAllKeeps(runs: seq<Run>, ranges: seq<Range>, p: nat)
    requires Counted(runs) && p in FreeSet(runs) && p >= WRAP && RangesBounded(ranges)
    ensures p in FreeSet(CarveAll(runs, ranges))
    decreases |ranges|
  {
    if ranges != [] {
      CarveRangeCounted(runs, ranges[0].lo, ranges[0].Count());
      CarveRangeKeeps(runs, ranges[0].lo, ranges[0].Count(), p);
      CarveAllKeeps(CarveRange(runs, ranges[0].lo, ranges[0].Count()), ranges[1..], p);
    }
  }

  lemma {:induction false} CarveAllOverflows(runs: seq<Run>, ranges: seq<Range>) returns (p: nat)
    requires Disjoint(runs) && Bounded(runs) && RangesBounded(ranges) && !FirstFramesCovered(runs, ranges)
    ensures p >= WRAP && p in FreeSet(CarveAll(runs, ranges))
    decreases |ranges|
  {
    var n := ranges[0].Count();
    var next := CarveRange(runs, ranges[0].lo, n);
    if n != 0 && !FirstMatchCovers(runs, ranges[0].lo) {
      CarveRangeOverflows(runs, ranges[0].lo, n);
      p := ranges[0].lo + WRAP - 1;
      MatchedAboveZero(runs, ranges[0].lo);
      BoundedCounted(runs);
      CarveRangeCounted(runs, ranges[0].lo, n);
      CarveAllKeeps(next, ranges[1..], p);
    } else {
      CarveRangeRemoves(runs, ranges[0].lo, n);
      p := CarveAllOverflows(next, ranges[1..]);
    }
  }

  /** No loop starts at the end of the run it meets first, and no run with a reserved frame ends with the address space. */
  ghost predicate Reservable(runs: seq<Run>, ranges: seq<Range>) {
    FirstFramesCovered(runs, ranges) && Reserved(ranges) !! Top(runs)
  }

  /** The free list loses exactly the reserved frames if and only if they can be reserved in this sense. */
  lemma CarveAllExactIff(runs: seq<Run>, ranges: seq<Range>)
    requires Disjoint(runs) && Bounded(runs) && RangesBounded(ranges)
    ensures FreeSet(CarveAll(runs, ranges)) == FreeSet(runs) - Reserved(ranges) <==> Reservable(runs, ranges)
  {
    hide Disjoint, Bounded, Top, FreeSet, CarveAll, FirstFramesCovered;
    if FirstFramesCovered(runs, ranges) {
      CarveAllRemoves(runs, ranges);
      TopFree(runs);
      assert forall p | p in Reserved(ranges) && p in Top(runs) :: p in FreeSet(CarveAll(runs, ranges)) && p !in FreeSet(runs) - Reserved(ranges);
    } else {
      var p := CarveAllOverflows(runs, ranges);
      BoundedFree(runs);
    }
  }

  // ---------------------------------------------------------------- the memory map

  /** An entry of the memory map, in frames. */
  datatype Region = Region(available: bool, base: nat, pages: nat)

  /** The first MiB is never used. */
  const LOW_FRAMES: nat := 256

  predicate Skipped(g: Region) {
    !g.available || g.base + g.pages < LOW_FRAMES
  }

  function UsableRun(g: Region): Run
    requires !Skipped(g)
  {
    if g.base < LOW_FRAMES then Run(LOW_FRAMES, g.pages - (LOW_FRAMES - g.base)) else Run(g.base, g.pages)
  }

  function PushAll(mmap: seq<Region>): seq<Run> {
    if mmap == [] then []
    else
      var rest := PushAll(mmap[..|mmap| - 1]);
      var g := mmap[|mmap| - 1];
      if Skipped(g) then rest else rest + [UsableRun(g)]
  }

  /** The frames that the memory map offers: those from the first MiB on. */
  ghost function Usable(mmap: seq<Region>): set<nat> {
    set i: nat, p: nat | i < |mmap| && mmap[i].available && p in Span(mmap[i].base, mmap[i].pages) && p * 0x1000 >= 0x10_0000 :: p
  }

  ghost predicate MapDisjoint(mmap: seq<Region>) {
    forall i, j | 0 <= i < j < |mmap| && mmap[i].available && mmap[j].available ::
      Apart(Run(mmap[i].base, mmap[i].pages), Run(mmap[j].base, mmap[j].pages))
  }

  ghost predicate MapBounded(mmap: seq<Region>) {
    forall i | 0 <= i < |mmap| :: mmap[i].base + mmap[i].pages <= WRAP
  }

  lemma {:induction false} PushAllFrom(mmap: seq<Region>, k: nat) returns (i: nat)
    requires k < |PushAll(mmap)|
    ensures i < |mmap| && !Skipped(mmap[i]) && UsableRun(mmap[i]) == PushAll(mmap)[k]
  {
    var n := |mmap| - 1;
    if k < |PushAll(mmap[..n])| {
      i := PushAllFrom(mmap[..n], k);
    } else {
      i := n;
    }
  }

  lemma {:induction false} PushAllFree(mmap: seq<Region>)
    ensures FreeSet(PushAll(mmap)) == Usable(mmap)
  {
    if mmap != [] {
      var n := |mmap| - 1;
      PushAllFree(mmap[..n]);
      UsableStep(mmap);
      if !Skipped(mmap[n]) {
        PushFree(PushAll(mmap[..n]), UsableRun(mmap[n]));
      }
    }
  }

  lemma UsableStep(mmap: seq<Region>)
    requires mmap != []
    ensures var g := mmap[|mmap| - 1];
            Usable(mmap) == Usable(mmap[..|mmap| - 1]) +
                            if Skipped(g) then {} else Span(UsableRun(g).base, UsableRun(g).pages)
  {
    var n := |mmap| - 1;
    var g := mmap[n];
    forall p | p in Usable(mmap)
      ensures p in Usable(mmap[..n]) || (!Skipped(g) && UsableRun(g).Covers(p))
    {
      var i: nat :| i < |mmap| && mmap[i].available && p in Span(mmap[i].base, mmap[i].pages);
      if i < n {
        assert mmap[..n][i] == mmap[i];
      }
    }
    forall p | p in Usable(mmap[..n])
      ensures p in Usable(mmap)
    {
      var i: nat :| i < n && mmap[..n][i].available && p in Span(mmap[..n][i].base, mmap[..n][i].pages);
      assert mmap[i] == mmap[..n][i];
    }
    if !Skipped(g) {
      forall p | p in Span(UsableRun(g).base, UsableRun(g).pages)
        ensures p in Usable(mmap)
      {
        assert p in Span(mmap[n].base, mmap[n].pages);
      }
    }
  }

  lemma {:induction false} PushAllDisjoint(mmap: seq<Region>)
    requires MapDisjoint(mmap) && MapBounded(mmap)
    ensures Disjoint(PushAll(mmap)) && Bounded(PushAll(mmap))
  {
    if mmap != [] {
      var n := |mmap| - 1;
      PushAllDisjoint(mmap[..n]);
      var rest := PushAll(mmap[..n]);
      if !Skipped(mmap[n]) {
        forall k | 0 <= k < |rest|
          ensures Apart(rest[k], UsableRun(mmap[n]))
        {
          var i := PushAllFrom(mmap[..n], k);
          assert mmap[..n][i] == mmap[i];
          assert Apart(Run(mmap[i].base, mmap[i].pages), Run(mmap[n].base, mmap[n].pages));
        }
        PushFree(rest, UsableRun(mmap[n]));
      }
    }
  }

  // ---------------------------------------------------------------- sorting looks at nothing above the stack

  lemma {:induction false} InsertLocal(cells: seq<Run>, tail: seq<Run>, sp: nat, x: Run)
    requires sp < |cells|
    ensures Insert(cells + tail, sp, x) == Insert(cells, sp, x) + tail
    decreases sp
  {
    if sp != 0 && x.base >= cells[sp].base {
      InsertLocal(cells, tail, sp - 1, x);
    }
  }

  lemma {:induction false} SortLocal(cells: seq<Run>, tail: seq<Run>, sp: nat)
    requires sp <= |cells|
    ensures Sort(cells + tail, sp) == (Sort(cells, sp).0 + tail, Sort(cells, sp).1)
    decreases sp
  {
    if sp != 0 {
      SortLocal(cells, tail, sp - 1);
      var (c, s) := Sort(cells, sp - 1);
      InsertLocal(c, tail, s, cells[sp - 1]);
    }
  }

  lemma SortedLocal(cells: seq<Run>, sp: nat)
    requires sp <= |cells|
    ensures Sorted(cells, sp) == Sorted(cells[..sp], sp)
  {
    assert cells == cells[..sp] + cells[sp..];
    SortLocal(cells[..sp], cells[sp..], sp);
  }

  /** The free list when the first reserve loop starts. */
  function FirstList(mmap: seq<Region>): seq<Run> {
    Sorted(PushAll(mmap), |PushAll(mmap)|)
  }

  lemma FirstListFree(mmap: seq<Region>)
    requires MapDisjoint(mmap) && MapBounded(mmap)
    ensures FreeSet(FirstList(mmap)) == Usable(mmap)
    ensures Disjoint(FirstList(mmap)) && Bounded(FirstList(mmap))
  {
    var pushed := PushAll(mmap);
    assert pushed[..|pushed|] == pushed;
    PushAllFree(mmap);
    PushAllDisjoint(mmap);
    SortKeepsFree(pushed, |pushed|);
    SortKeepsDisjoint(pushed, |pushed|);
    SortPermutes(pushed, |pushed|);
    var first := FirstList(mmap);
    forall i | 0 <= i < |first|
      ensures first[i].End() <= WRAP && first[i].pages < WRAP
    {
      assert first[i] in multiset(first);
      NonEmptyMember(pushed, first[i]);
    }
  }

  // ---------------------------------------------------------------- boot, in place

  method ReserveBlock(a: Allocator, addr: nat) returns (ok: bool)
    requires a.sp + 2 <= a.stack.Length
    modifies a`sp, a.stack
    ensures a.sp + 2 <= a.stack.Length
    ensures !ok <==> |Carve(old(a.Runs()), addr)| + 1 == a.stack.Length
    ensures !ok ==> a.StackFull()
    ensures ok ==> a.Runs() == Carve(old(a.Runs()), addr)
  {
    ghost var before := a.Runs();
    var k := 0;
    while k < a.sp
      invariant k <= a.sp && a.Runs() == before && a.sp == old(a.sp)
      invariant FirstMatch(before, addr, 0) == FirstMatch(before, addr, k)
    {
      var entry := a.stack[k];
      var end := (entry.base + entry.pages) % WRAP;
      if addr >= entry.base && addr <= end && entry.pages != 0 {
        var below := Run(entry.base, addr - entry.base);
        var above := Run((addr + 1) % WRAP, if end == addr then WRAP - 1 else end - (addr + 1));
        if below.pages == 0 {
          a.stack[k] := above;
          assert a.Runs() == before[k := above];
        } else {
          a.stack[k] := below;
          assert a.Runs() == before[k := below];
          if above.pages != 0 {
            ok := a.Push(above);
            assert ok ==> a.Runs() == before[k := below] + [above];
            return ok;
          }
        }
        return true;
      }
      k := k + 1;
    }
    return true;
  }

  method ReserveRange(a: Allocator, r: Range) returns (ok: bool)
    requires a.sp + 2 <= a.stack.Length && r.hi + 1 < WRAP
    modifies a`sp, a.stack
    ensures a.sp + 2 <= a.stack.Length
    ensures ok ==> a.Runs() == CarveRange(old(a.Runs()), r.lo, r.Count())
    ensures !ok ==> a.StackFull()
  {
    hide Carve;
    var addr := r.lo;
    while addr <= r.hi
      invariant r.lo <= addr <= r.lo + r.Count()
      invariant a.sp + 2 <= a.stack.Length
      invariant a.Runs() == CarveRange(old(a.Runs()), r.lo, addr - r.lo)
      decreases r.hi + 1 - addr
    {
      ok := ReserveBlock(a, addr);
      if !ok {
        return;
      }
      addr := addr + 1;
    }
    return true;
  }

  method PushRegions(a: Allocator, mmap: seq<Region>) returns (ok: bool)
    requires a.sp == 0 && a.stack.Length >= 2
    modifies a`sp, a.stack
    ensures a.sp + 2 <= a.stack.Length
    ensures ok ==> a.Runs() == PushAll(mmap)
    ensures !ok ==> a.StackFull()
  {
    var i := 0;
    while i < |mmap|
      invariant i <= |mmap| && a.sp + 2 <= a.stack.Length
      invariant a.Runs() == PushAll(mmap[..i])
    {
      var entry := mmap[i];
      ghost var before := a.Runs();
      assert mmap[..i + 1][..i] == mmap[..i];
      ok := true;
      if !entry.available || entry.base + entry.pages < LOW_FRAMES {
      } else if entry.base < LOW_FRAMES {
        ok := a.Push(Run(LOW_FRAMES, entry.pages - (LOW_FRAMES - entry.base)));
        assert ok ==> a.Runs() == before + [UsableRun(entry)];
      } else {
        ok := a.Push(Run(entry.base, entry.pages));
        assert ok ==> a.Runs() == before + [UsableRun(entry)];
      }
      if !ok {
        return;
      }
      i := i + 1;
    }
    assert mmap[..i] == mmap;
    return true;
  }

  /**
   Building the free list.  Unless the stack overflows, it ends up holding exactly the usable frames
   that are not reserved if and only if no reserve loop starts at the end of the run it meets first, and no
   run with a reserved frame ends with the address space.
   */
  method BuildFreeList(a: Allocator, mmap: seq<Region>, ranges: seq<Range>) returns (ok: bool)
    requires a.sp == 0 && a.stack.Length >= 2
    requires MapDisjoint(mmap) && MapBounded(mmap) && RangesBounded(ranges)
    modifies a`sp, a.stack
    ensures a.sp + 2 <= a.stack.Length
    ensures ok ==> (a.Frames() == Usable(mmap) - Reserved(ranges) <==> Reservable(FirstList(mmap), ranges))
    ensures ok && FirstFramesCovered(FirstList(mmap), ranges) ==> a.Valid() && NoEmptyRun(a.Runs())
    ensures !ok ==> a.StackFull()
  {
    ok := PushRegions(a, mmap);
    if !ok {
      return;
    }
    SortedLocal(a.stack[..], a.sp);
    SortStack(a);
    assert a.Runs() == FirstList(mmap);
    ok := ReserveAll(a, ranges);
    if !ok {
      return;
    }
    FirstListFree(mmap);
    CarveAllExactIff(FirstList(mmap), ranges);
    if FirstFramesCovered(FirstList(mmap), ranges) {
      CarveAllRemoves(FirstList(mmap), ranges);
      SortKeepsDisjoint(a.stack[..], a.sp);
    }
    SortKeepsFree(a.stack[..], a.sp);
    SortDropsEmpty(a.stack[..], a.sp);
    SortStack(a);
  }

  method ReserveAll(a: Allocator, ranges: seq<Range>) returns (ok: bool)
    requires a.sp + 2 <= a.stack.Length && RangesBounded(ranges)
    modifies a`sp, a.stack
    ensures a.sp + 2 <= a.stack.Length
    ensures ok ==> a.Runs() == CarveAll(old(a.Runs()), ranges)
    ensures !ok ==> a.StackFull()
  {
    var i := 0;
    while i < |ranges|
      invariant i <= |ranges| && a.sp + 2 <= a.stack.Length
      invariant CarveAll(a.Runs(), ranges[i..]) == CarveAll(old(a.Runs()), ranges)
    {
      assert ranges[i..][1..] == ranges[i + 1..];
      ok := ReserveRange(a, ranges[i]);
      if !ok {
        return;
      }
      i := i + 1;
    }
    return true;
  }

  /** Boot then drops the ten first frames, whichever they are. */
  method Boot(a: Allocator, mmap: seq<Region>, ranges: seq<Range>) returns (ok: bool, dropped: seq<nat>)
    requires a.sp == 0 && a.stack.Length >= 2
    requires MapDisjoint(mmap) && MapBounded(mmap) && RangesBounded(ranges)
    modifies a`sp, a.stack
    ensures ok ==> a.Roomy() && |dropped| == 10
    ensures ok && FirstFramesCovered(FirstList(mmap), ranges) ==>
              && a.Valid() && forall i, j | 0 <= i < j < 10 :: dropped[i] != dropped[j]
    ensures ok && Reservable(FirstList(mmap), ranges) ==> (set f | f in dropped) <= Usable(mmap) - Reserved(ranges)
    ensures ok ==> (a.Frames() + (set f | f in dropped) == Usable(mmap) - Reserved(ranges) <==> Reservable(FirstList(mmap), ranges))
    ensures ok && FirstFramesCovered(FirstList(mmap), ranges) ==> a.Frames() !! set f | f in dropped
    ensures !ok ==> a.OutOfFrames() || a.StackFull()
  {
    hide FirstFramesCovered, Reservable, FirstList, Usable, Reserved;
    dropped := [];
    ok := BuildFreeList(a, mmap, ranges);
    if !ok {
      return;
    }
    ghost var all := a.Frames();
    ghost var sound := a.Valid();
    for i := 0 to 10
      invariant a.Roomy() && |dropped| == i
      invariant a.Frames() + (set f | f in dropped) == all
      invariant sound ==> a.Valid() && forall j, k | 0 <= j < k < i :: dropped[j] != dropped[k]
      invariant sound ==> forall f | f in dropped :: f !in a.Frames()
    {
      var f := a.AllocBlock();
      if f.None? {
        return false, dropped;
      }
      dropped := dropped + [f.value];
    }
  }
}
