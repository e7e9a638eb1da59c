/** What allocation grants when a free list is used up, and when it grants a frame twice. */
module FrameDrain {
  import opened Wrappers
  import opened FrameRuns

  function Pages(runs: seq<Run>): nat {
    if runs == [] then 0 else Pages(runs[..|runs| - 1]) + runs[|runs| - 1].pages
  }

  /** The frames from `base` on, in order. */
  function Range(base: nat, n: nat): (s: seq<nat>)
    ensures |s| == n && forall i | 0 <= i < n :: s[i] == base + i
    decreases n
  {
    if n == 0 then [] else [base] + Range(base + 1, n - 1)
  }

  lemma {:induction false} AllocShrinks(runs: seq<Run>)
    ensures Alloc(runs).Some? ==> Pages(Alloc(runs).value.1) < Pages(runs)
  {
    if runs != [] {
      var n := |runs| - 1;
      AllocShrinks(runs[..n]);
      if runs[n].pages > 1 {
        assert (runs[..n] + [Run(runs[n].base + 1, runs[n].pages - 1)])[..n] == runs[..n];
      }
    }
  }

  /** The frames that allocation grants, one by one, until it has none left. */
  function Drain(runs: seq<Run>): seq<nat>
    decreases Pages(runs)
  {
    AllocShrinks(runs);
    match Alloc(runs)
    case None => []
    case Some(got) => [got.0] + Drain(got.1)
  }

  predicate NoRepeat(s: seq<nat>) {
    forall i, j | 0 <= i < j < |s| :: s[i] != s[j]
  }

  lemma DrainStep(runs: seq<Run>, f: nat, rest: seq<Run>)
    requires Alloc(runs) == Some((f, rest))
    ensures Drain(runs) == [f] + Drain(rest)
  {
  }

  lemma DrainSame(a: seq<Run>, b: seq<Run>)
    requires Alloc(a) == Alloc(b)
    ensures Drain(a) == Drain(b)
  {
  }

  /** Draining hands out the top run first, then the rest. */
  lemma {:induction false} DrainTop(rest: seq<Run>, r: Run)
    ensures Drain(rest + [r]) == Range(r.base, r.pages) + Drain(rest)
    decreases r.pages
  {
    hide Alloc, Drain;
    AllocTop(rest, r);
    if r.pages == 0 {
      DrainSame(rest + [r], rest);
    } else if r.pages == 1 {
      DrainStep(rest + [r], r.base, rest);
      assert Range(r.base, 1) == [r.base];
    } else {
      var next := Run(r.base + 1, r.pages - 1);
      DrainStep(rest + [r], r.base, rest + [next]);
      DrainTop(rest, next);
      assert Range(r.base, r.pages) == [r.base] + Range(r.base + 1, r.pages - 1);
    }
  }

  lemma {:induction false} DrainMembers(runs: seq<Run>, p: nat)
    ensures p in Drain(runs) <==> p in FreeSet(runs)
  {
    if runs == [] {
      AllocCovers(runs);
    } else {
      var n := |runs| - 1;
      assert runs == runs[..n] + [runs[n]];
      DrainTop(runs[..n], runs[n]);
      DrainMembers(runs[..n], p);
      TopOrRest(runs, p);
    }
  }

  lemma TopOrRest(runs: seq<Run>, p: nat)
    requires runs != []
    ensures p in FreeSet(runs) <==> runs[|runs| - 1].Covers(p) || p in FreeSet(runs[..|runs| - 1])
    ensures p in Range(runs[|runs| - 1].base, runs[|runs| - 1].pages) <==> runs[|runs| - 1].Covers(p)
  {
    hide FreeSet;
    var n := |runs| - 1;
    var range := Range(runs[n].base, runs[n].pages);
    if runs[n].Covers(p) {
      InFreeSet(runs, n, p);
      assert range[p - runs[n].base] == p;
    }
    if p in FreeSet(runs[..n]) {
      var i := RunOf(runs[..n], p);
      InFreeSet(runs, i, p);
    }
    if p in FreeSet(runs) && !runs[n].Covers(p) {
      var i := RunOf(runs, p);
      InFreeSet(runs[..n], i, p);
    }
  }

  /** Draining grants no frame twice exactly when the runs are disjoint. */
  lemma {:induction false} DrainIff(runs: seq<Run>)
    ensures NoRepeat(Drain(runs)) <==> Disjoint(runs)
  {
    if runs == [] {
      assert Drain(runs) == [];
    } else {
      var n := |runs| - 1;
      var rest, r := runs[..n], runs[n];
      assert runs == rest + [r];
      DrainTop(rest, r);
      DrainIff(rest);
      var range := Range(r.base, r.pages);
      NoRepeatConcat(range, Drain(rest));
      forall p
        ensures p in Drain(rest) <==> p in FreeSet(rest)
        ensures p in range <==> r.Covers(p)
      {
        DrainMembers(rest, p);
        TopOrRest(runs, p);
      }
      DisjointPush(rest, r);
    }
  }

  lemma NoRepeatConcat(a: seq<nat>, b: seq<nat>)
    ensures NoRepeat(a + b) <==> NoRepeat(a) && NoRepeat(b) && forall p | p in a :: p !in b
  {
    var s := a + b;
    if NoRepeat(s) {
      forall i, j | 0 <= i < j < |b|
        ensures b[i] != b[j]
      {
        assert s[|a| + i] != s[|a| + j];
      }
      forall i, j | 0 <= i < |a| && 0 <= j < |b|
        ensures a[i] != b[j]
      {
        assert s[i] != s[|a| + j];
      }
      forall i, j | 0 <= i < j < |a|
        ensures a[i] != a[j]
      {
        assert s[i] != s[j];
      }
    }
    if NoRepeat(a) && NoRepeat(b) && forall p | p in a :: p !in b {
      forall i, j | 0 <= i < j < |s|
        ensures s[i] != s[j]
      {
        if i < |a| <= j {
          assert a[i] in a && b[j - |a|] in b;
        }
      }
    }
  }

  lemma CoveredTwice(rest: seq<Run>, r: Run, p: nat)
    requires Disjoint(rest + [r]) && r.Covers(p)
    ensures p !in FreeSet(rest)
  {
    hide FreeSet;
    if p in FreeSet(rest) {
      var i := RunOf(rest, p);
      RunUnique(rest + [r], i, |rest|, p);
    }
  }

  /** The first frame of a run that a stack does not cover decides whether the two are apart. */
  lemma ApartFrom(rest: seq<Run>, r: Run, i: nat)
    requires i < |rest| && forall p: nat | r.Covers(p) :: p !in FreeSet(rest)
    ensures Apart(rest[i], r)
  {
    hide FreeSet;
    var p := if rest[i].base < r.base then r.base else rest[i].base;
    if rest[i].Covers(p) {
      InFreeSet(rest, i, p);
    }
  }

  lemma DisjointPush(rest: seq<Run>, r: Run)
    ensures Disjoint(rest + [r]) <==> Disjoint(rest) && forall p: nat | r.Covers(p) :: p !in FreeSet(rest)
  {
    hide FreeSet;
    var runs := rest + [r];
    if Disjoint(runs) {
      forall i, j | 0 <= i < j < |rest|
        ensures Apart(rest[i], rest[j])
      {
        assert Apart(runs[i], runs[j]);
      }
      forall p: nat | r.Covers(p)
        ensures p !in FreeSet(rest)
      {
        CoveredTwice(rest, r, p);
      }
    }
    if Disjoint(rest) && forall p: nat | r.Covers(p) :: p !in FreeSet(rest) {
      forall i: nat | i < |rest|
        ensures Apart(rest[i], r)
      {
        ApartFrom(rest, r, i);
      }
    }
  }
}
