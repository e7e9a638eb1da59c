/** How the free list is built at boot: push the usable regions, sort, cut out what is in use, sort again. */
module FrameBoot {
  import opened FrameRuns
  import opened FrameAllocator

  // ---------------------------------------------------------------- sorting

  /**
   Insert a run into the stack `cells[..sp]`.  The comparison looks at the cell above the top of the
   stack, which holds whatever was last popped from there.
   */
  function Insert(cells: seq<Run>, sp: nat, x: Run): (after: seq<Run>)
    requires sp < |cells|
    ensures |after| == |cells|
    ensures forall k | sp < k < |cells| :: after[k] == cells[k]
    decreases sp
  {
    if sp == 0 || x.base < cells[sp].base then cells[sp := x]
    else Insert(cells, sp - 1, x)[sp := cells[sp - 1]]
  }

  /** Pop everything, then put back the non-empty runs one by one; the result is the cells and the new height. */
  function Sort(cells: seq<Run>, sp: nat): (r: (seq<Run>, nat))
    requires sp <= |cells|
    ensures |r.0| == |cells| && r.1 <= sp
    ensures forall k | r.1 <= k < |cells| :: r.0[k] == cells[k]
    decreases sp
  {
    if sp == 0 then (cells, 0)
    else
      var (c, s) := Sort(cells, sp - 1);
      var e := cells[sp - 1];
      if e.pages != 0 then (Insert(c, s, e), s + 1) else (c, s)
  }

  /** Where insertion puts a run: right below the topmost cell with a larger base. */
  lemma {:induction false} InsertPlace(cells: seq<Run>, sp: nat, x: Run) returns (k: nat)
    requires sp < |cells|
    ensures k <= sp && Insert(cells, sp, x)[..sp + 1] == cells[..k] + [x] + cells[k..sp]
    ensures k == 0 || x.base < cells[k].base
    ensures forall j | k < j <= sp :: x.base >= cells[j].base
    decreases sp
  {
    if sp == 0 || x.base < cells[sp].base {
      k := sp;
    } else {
      k := InsertPlace(cells, sp - 1, x);
      var inner := Insert(cells, sp - 1, x);
      assert Insert(cells, sp, x)[..sp + 1] == inner[..sp] + [cells[sp - 1]];
      assert cells[k..sp] == cells[k..sp - 1] + [cells[sp - 1]];
    }
  }

  lemma SpliceRun(s: seq<Run>, k: nat, x: Run)
    requires k <= |s|
    ensures FreeSet(s[..k] + [x] + s[k..]) == FreeSet(s) + Span(x.base, x.pages)
    ensures Disjoint(s) && (forall i | 0 <= i < |s| :: Apart(s[i], x)) ==> Disjoint(s[..k] + [x] + s[k..])
  {
    var t := s[..k] + [x] + s[k..];
    forall p
      ensures p in FreeSet(t) <==> p in FreeSet(s) + Span(x.base, x.pages)
    {
      if p in FreeSet(t) {
        var i := RunOf(t, p);
        if i != k {
          InFreeSet(s, if i < k then i else i - 1, p);
        }
      }
      if p in FreeSet(s) {
        var i := RunOf(s, p);
        InFreeSet(t, if i < k then i else i + 1, p);
      }
      if p in Span(x.base, x.pages) {
        InFreeSet(t, k, p);
      }
    }
  }

  function NonEmpty(s: seq<Run>): seq<Run> {
    if s == [] then []
    else NonEmpty(s[..|s| - 1]) + if s[|s| - 1].pages != 0 then [s[|s| - 1]] else []
  }

  lemma {:induction false} NonEmptyMember(s: seq<Run>, r: Run)
    requires r in NonEmpty(s)
    ensures r in s && r.pages != 0
  {
    var n := |s| - 1;
    if r != s[n] || s[n].pages == 0 {
      NonEmptyMember(s[..n], r);
    }
  }

  /** The stack after sorting. */
  function Sorted(cells: seq<Run>, sp: nat): seq<Run>
    requires sp <= |cells|
  {
    Sort(cells, sp).0[..Sort(cells, sp).1]
  }

  /** What the last run put back does to the stack. */
  lemma SortStep(cells: seq<Run>, sp: nat) returns (k: nat)
    requires 0 < sp <= |cells|
    ensures k <= |Sorted(cells, sp - 1)|
    ensures Sorted(cells, sp) ==
              if cells[sp - 1].pages == 0 then Sorted(cells, sp - 1)
              else Sorted(cells, sp - 1)[..k] + [cells[sp - 1]] + Sorted(cells, sp - 1)[k..]
  {
    k := 0;
    var (c, s) := Sort(cells, sp - 1);
    if cells[sp - 1].pages != 0 {
      k := InsertPlace(c, s, cells[sp - 1]);
      assert c[..s][..k] == c[..k] && c[..s][k..] == c[k..s];
    }
  }

  lemma NonEmptyPush(s: seq<Run>, e: Run)
    ensures NonEmpty(s + [e]) == NonEmpty(s) + if e.pages != 0 then [e] else []
  {
    assert (s + [e])[..|s|] == s;
  }

  lemma SpliceMultiset(s: seq<Run>, k: nat, x: Run)
    requires k <= |s|
    ensures multiset(s[..k] + [x] + s[k..]) == multiset(s) + multiset{x}
  {
    assert s == s[..k] + s[k..];
  }

  lemma SortNothing(cells: seq<Run>)
    ensures Sorted(cells, 0) == NonEmpty(cells[..0])
  {
  }

  /** Sorting keeps every non-empty run, exactly as often as it was there, and drops the empty ones. */
  lemma {:induction false} SortPermutes(cells: seq<Run>, sp: nat)
    requires sp <= |cells|
    ensures multiset(Sorted(cells, sp)) == multiset(NonEmpty(cells[..sp]))
    decreases sp
  {
    hide Sorted, Sort, NonEmpty;
    if sp == 0 {
      SortNothing(cells);
    } else {
      SortPermutes(cells, sp - 1);
      var k := SortStep(cells, sp);
      var prev := Sorted(cells, sp - 1);
      assert cells[..sp] == cells[..sp - 1] + [cells[sp - 1]];
      NonEmptyPush(cells[..sp - 1], cells[sp - 1]);
      SpliceMultiset(prev, k, cells[sp - 1]);
    }
  }

  /** So it keeps the set of free frames. */
  lemma {:induction false} SortKeepsFree(cells: seq<Run>, sp: nat)
    requires sp <= |cells|
    ensures FreeSet(Sorted(cells, sp)) == FreeSet(cells[..sp])
    decreases sp
  {
    if sp != 0 {
      SortKeepsFree(cells, sp - 1);
      var e := cells[sp - 1];
      assert cells[..sp] == cells[..sp - 1] + [e];
      PushFree(cells[..sp - 1], e);
      var k := SortStep(cells, sp);
      if e.pages != 0 {
        SpliceRun(Sorted(cells, sp - 1), k, e);
      }
    }
  }

  lemma SortDropsEmpty(cells: seq<Run>, sp: nat)
    requires sp <= |cells|
    ensures NoEmptyRun(Sorted(cells, sp))
  {
    SortPermutes(cells, sp);
    var after := Sorted(cells, sp);
    forall i | 0 <= i < |after|
      ensures after[i].pages > 0
    {
      assert after[i] in multiset(after);
      NonEmptyMember(cells[..sp], after[i]);
    }
  }

  /** And runs that were disjoint stay so. */
  lemma {:induction false} SortKeepsDisjoint(cells: seq<Run>, sp: nat)
    requires sp <= |cells| && Disjoint(cells[..sp])
    ensures Disjoint(Sorted(cells, sp))
    decreases sp
  {
    if sp != 0 {
      assert cells[..sp] == cells[..sp - 1] + [cells[sp - 1]];
      PushFree(cells[..sp - 1], cells[sp - 1]);
      SortKeepsDisjoint(cells, sp - 1);
      var k := SortStep(cells, sp);
      SortedApart(cells, sp);
      SpliceRun(Sorted(cells, sp - 1), k, cells[sp - 1]);
    }
  }

  lemma SortedApart(cells: seq<Run>, sp: nat)
    requires 0 < sp <= |cells| && Disjoint(cells[..sp])
    ensures var prev := Sorted(cells, sp - 1); forall i | 0 <= i < |prev| :: Apart(prev[i], cells[sp - 1])
  {
    hide Sorted;
    var prev := Sorted(cells, sp - 1);
    forall i | 0 <= i < |prev|
      ensures Apart(prev[i], cells[sp - 1])
    {
      SortedMembers(cells, sp - 1, prev[i]);
      var j :| 0 <= j < sp - 1 && cells[..sp - 1][j] == prev[i];
      assert Apart(cells[..sp][j], cells[..sp][sp - 1]);
    }
  }

  lemma PushFree(s: seq<Run>, e: Run)
    ensures FreeSet(s + [e]) == FreeSet(s) + Span(e.base, e.pages)
    ensures Disjoint(s + [e]) ==> Disjoint(s)
    ensures Disjoint(s) && (forall i | 0 <= i < |s| :: Apart(s[i], e)) ==> Disjoint(s + [e])
  {
    assert s[..|s|] + [e] + s[|s|..] == s + [e];
    SpliceRun(s, |s|, e);
    if Disjoint(s + [e]) {
      forall i, j | 0 <= i < j < |s|
        ensures Apart(s[i], s[j])
      {
        assert Apart((s + [e])[i], (s + [e])[j]);
      }
    }
  }

  function Reverse(s: seq<Run>): seq<Run> {
    if s == [] then [] else [s[|s| - 1]] + Reverse(s[..|s| - 1])
  }

  ghost predicate Ascending(s: seq<Run>) {
    forall i, j | 0 <= i <= j < |s| :: s[i].base <= s[j].base
  }

  lemma {:induction false} InsertLargest(cells: seq<Run>, sp: nat, x: Run)
    requires sp < |cells|
    requires forall k | 0 <= k <= sp :: cells[k].base <= x.base
    ensures Insert(cells, sp, x)[..sp + 1] == [x] + cells[..sp]
    decreases sp
  {
    if sp > 0 {
      InsertLargest(cells, sp - 1, x);
      assert Insert(cells, sp, x)[..sp + 1] == Insert(cells, sp - 1, x)[..sp] + [cells[sp - 1]];
    }
  }

  lemma {:induction false} ReverseMember(s: seq<Run>, r: Run)
    requires r in Reverse(s)
    ensures r in s
  {
    if r != s[|s| - 1] {
      ReverseMember(s[..|s| - 1], r);
    }
  }

  /** On ascending bases the odd comparison is harmless: the stack is turned over, lowest base on top. */
  lemma {:induction false} SortAscending(cells: seq<Run>, sp: nat)
    requires sp <= |cells| && Ascending(cells[..sp])
    ensures Sorted(cells, sp) == Reverse(NonEmpty(cells[..sp]))
    decreases sp
  {
    if sp != 0 {
      var e := cells[sp - 1];
      var below := cells[..sp - 1];
      assert cells[..sp] == below + [e];
      NonEmptyPush(below, e);
      forall i, j | 0 <= i <= j < |below|
        ensures below[i].base <= below[j].base
      {
        assert cells[..sp][i].base <= cells[..sp][j].base;
      }
      SortAscending(cells, sp - 1);
      var k := SortStep(cells, sp);
      if e.pages != 0 {
        AscendingBelow(cells, sp);
        assert (NonEmpty(below) + [e])[..|NonEmpty(below)|] == NonEmpty(below);
      } else {
        assert NonEmpty(below) + [] == NonEmpty(below);
      }
    }
  }

  lemma AscendingBelow(cells: seq<Run>, sp: nat)
    requires 0 < sp <= |cells| && Ascending(cells[..sp]) && cells[sp - 1].pages != 0
    requires Sorted(cells, sp - 1) == Reverse(NonEmpty(cells[..sp - 1]))
    ensures Sorted(cells, sp) == [cells[sp - 1]] + Sorted(cells, sp - 1)
  {
    var (c, s) := Sort(cells, sp - 1);
    var below := cells[..sp - 1];
    forall k | 0 <= k <= s
      ensures c[k].base <= cells[sp - 1].base
    {
      if k == s {
        assert cells[..sp][s].base <= cells[..sp][sp - 1].base;
      } else {
        assert c[k] == Sorted(cells, sp - 1)[k];
        ReverseMember(NonEmpty(below), c[k]);
        NonEmptyMember(below, c[k]);
        var j :| 0 <= j < sp - 1 && below[j] == c[k];
        assert cells[..sp][j].base <= cells[..sp][sp - 1].base;
      }
    }
    InsertLargest(c, s, cells[sp - 1]);
  }

  /** Bases fall, or stay, from the bottom of the stack to its top. */
  ghost predicate Descending(s: seq<Run>) {
    forall i, j | 0 <= i <= j < |s| :: s[i].base >= s[j].base
  }

  /** The height of the stack when the run at `i` is put back. */
  function Height(cells: seq<Run>, i: nat): (h: nat)
    requires i <= |cells|
    ensures h <= i
  {
    NonEmptyShorter(cells[..i]);
    |NonEmpty(cells[..i])|
  }

  lemma {:induction false} NonEmptyShorter(s: seq<Run>)
    ensures |NonEmpty(s)| <= |s|
  {
    if s != [] {
      NonEmptyShorter(s[..|s| - 1]);
    }
  }

  lemma {:induction false} SortHeight(cells: seq<Run>, sp: nat)
    requires sp <= |cells|
    ensures Sort(cells, sp).1 == Height(cells, sp)
    decreases sp
  {
    if sp != 0 {
      SortHeight(cells, sp - 1);
      assert cells[..sp][..sp - 1] == cells[..sp - 1];
    }
  }

  /** Every run that is left came from the stack before it. */
  lemma SortedMembers(cells: seq<Run>, sp: nat, x: Run)
    requires sp <= |cells|
    ensures x in Sorted(cells, sp) <==> x.pages != 0 && x in cells[..sp]
  {
    hide Sorted;
    SortPermutes(cells, sp);
    assert x in Sorted(cells, sp) <==> x in multiset(Sorted(cells, sp));
    assert x in NonEmpty(cells[..sp]) <==> x in multiset(NonEmpty(cells[..sp]));
    if x in NonEmpty(cells[..sp]) {
      NonEmptyMember(cells[..sp], x);
    } else if x.pages != 0 {
      MemberNonEmpty(cells[..sp], x);
    }
  }

  lemma {:induction false} MemberNonEmpty(s: seq<Run>, x: Run)
    requires x.pages != 0
    ensures x in s ==> x in NonEmpty(s)
  {
    if s != [] {
      MemberNonEmpty(s[..|s| - 1], x);
    }
  }

  /**
   Putting the run at `i` back keeps the order: it goes on top, and has to have the least base, if its base
   is below that of the cell at the current height; otherwise it has to have the greatest.
   */
  ghost predicate InPlace(cells: seq<Run>, i: nat)
    requires i < |cells|
  {
    var e := cells[i];
    e.pages != 0 ==>
      if e.base < cells[Height(cells, i)].base
      then forall x | x in cells[..i] && x.pages != 0 :: e.base <= x.base
      else forall x | x in cells[..i] && x.pages != 0 :: x.base <= e.base
  }

  /** Where the last run goes in the stack of the others. */
  lemma PutBack(cells: seq<Run>, sp: nat) returns (k: nat)
    requires 0 < sp <= |cells| && cells[sp - 1].pages != 0
    ensures var prev, e, h := Sorted(cells, sp - 1), cells[sp - 1], Height(cells, sp - 1);
            && k <= |prev| && Sorted(cells, sp) == prev[..k] + [e] + prev[k..]
            && (e.base < cells[h].base ==> k == |prev|)
            && (e.base >= cells[h].base && k != 0 ==> k < |prev| && e.base < prev[k].base)
            && (e.base >= cells[h].base ==> forall j | k < j < |prev| :: e.base >= prev[j].base)
  {
    var e := cells[sp - 1];
    var (c, s) := Sort(cells, sp - 1);
    SortHeight(cells, sp - 1);
    k := InsertPlace(c, s, e);
    assert c[..s][..k] == c[..k] && c[..s][k..] == c[k..s];
  }

  lemma SpliceDescending(s: seq<Run>, k: nat, x: Run)
    requires k <= |s| && Descending(s[..k] + [x] + s[k..])
    ensures Descending(s)
    ensures forall i | 0 <= i < k :: s[i].base >= x.base
    ensures forall i | k <= i < |s| :: x.base >= s[i].base
  {
    var t := s[..k] + [x] + s[k..];
    forall i, j | 0 <= i <= j < |s|
      ensures s[i].base >= s[j].base
    {
      assert s[i] == t[if i < k then i else i + 1] && s[j] == t[if j < k then j else j + 1];
    }
    forall i | 0 <= i < k
      ensures s[i].base >= x.base
    {
      assert t[i] == s[i] && t[k] == x;
    }
    forall i | k <= i < |s|
      ensures x.base >= s[i].base
    {
      assert t[i + 1] == s[i] && t[k] == x;
    }
  }

  /** On an ordered stack the run goes to its place exactly when the result is ordered. */
  lemma StepOrders(cells: seq<Run>, sp: nat)
    requires 0 < sp <= |cells| && cells[sp - 1].pages != 0
    ensures Descending(Sorted(cells, sp)) <==> Descending(Sorted(cells, sp - 1)) && InPlace(cells, sp - 1)
  {
    hide Sorted, Height;
    var prev, e := Sorted(cells, sp - 1), cells[sp - 1];
    var k := PutBack(cells, sp);
    forall x
      ensures x in prev <==> x.pages != 0 && x in cells[..sp - 1]
    {
      SortedMembers(cells, sp - 1, x);
    }
    if Descending(Sorted(cells, sp)) {
      SpliceDescending(prev, k, e);
    }
  }

  /**
   The sort orders the stack, lowest base on top, exactly when every run it puts back goes to its place.
   Without empty runs that is when the runs came in ascending order.
   */
  lemma {:induction false} SortOrdersIff(cells: seq<Run>, sp: nat)
    requires sp <= |cells|
    ensures Descending(Sorted(cells, sp)) <==> forall i | 0 <= i < sp :: InPlace(cells, i)
    decreases sp
  {
    hide InPlace, Sort, Height;
    if sp != 0 {
      SortOrdersIff(cells, sp - 1);
      if cells[sp - 1].pages != 0 {
        StepOrders(cells, sp);
      } else {
        EmptyInPlace(cells, sp - 1);
        var k := SortStep(cells, sp);
      }
    }
  }

  lemma EmptyInPlace(cells: seq<Run>, i: nat)
    requires i < |cells| && cells[i].pages == 0
    ensures InPlace(cells, i)
  {
  }

  lemma {:induction false} AllNonEmpty(s: seq<Run>)
    requires NoEmptyRun(s)
    ensures NonEmpty(s) == s
  {
    if s != [] {
      assert s[|s| - 1].pages > 0;
      AllNonEmpty(s[..|s| - 1]);
    }
  }

  ghost predicate TopsAllBefore(cells: seq<Run>, i: nat)
    requires i < |cells|
  {
    forall j | 0 <= j < i :: cells[j].base <= cells[i].base
  }

  /** Without empty runs every comparison is with the run itself, so the runs have to ascend. */
  lemma NonEmptyOrdersIff(cells: seq<Run>, sp: nat)
    requires sp <= |cells| && NoEmptyRun(cells[..sp])
    ensures Descending(Sorted(cells, sp)) <==> Ascending(cells[..sp])
  {
    hide Descending, Sorted, InPlace, TopsAllBefore, Ascending, NoEmptyRun;
    SortOrdersIff(cells, sp);
    forall i | 0 <= i < sp
      ensures InPlace(cells, i) <==> TopsAllBefore(cells, i)
    {
      OwnCell(cells, sp, i);
    }
    AscendingIff(cells, sp);
  }

  lemma AscendingIff(cells: seq<Run>, sp: nat)
    requires sp <= |cells|
    ensures Ascending(cells[..sp]) <==> forall i | 0 <= i < sp :: TopsAllBefore(cells, i)
  {
    var s := cells[..sp];
    if Ascending(s) {
      forall i, j | 0 <= j < i < sp
        ensures cells[j].base <= cells[i].base
      {
        assert s[j].base <= s[i].base;
      }
    }
    if forall i | 0 <= i < sp :: TopsAllBefore(cells, i) {
      forall i, j | 0 <= i <= j < |s|
        ensures s[i].base <= s[j].base
      {
        assert TopsAllBefore(cells, j);
      }
    }
  }

  lemma OwnCell(cells: seq<Run>, sp: nat, i: nat)
    requires i < sp <= |cells| && NoEmptyRun(cells[..sp])
    ensures InPlace(cells, i) <==> TopsAllBefore(cells, i)
  {
    forall j | 0 <= j <= i
      ensures cells[j].pages > 0
    {
      assert cells[..sp][j].pages > 0;
    }
    AllNonEmpty(cells[..i]);
    if InPlace(cells, i) {
      forall j | 0 <= j < i
        ensures cells[j].base <= cells[i].base
      {
        assert cells[..i][j] in cells[..i];
      }
    }
  }

  // ---------------------------------------------------------------- sorting in place

  method SortedInsert(a: Allocator, x: Run)
    requires a.sp + 3 <= a.stack.Length
    modifies a`sp, a.stack
    ensures a.sp == old(a.sp) + 1
    ensures a.stack[..] == Insert(old(a.stack[..]), old(a.sp), x)
    decreases a.sp
  {
    if a.sp == 0 || x.base < a.stack[a.sp].base {
      var ok := a.Push(x);
      return;
    }
    var temp := a.Pop();
    SortedInsert(a, x);
    var ok := a.Push(temp.value);
  }

  method SortStack(a: Allocator)
    requires a.sp + 2 <= a.stack.Length
    modifies a`sp, a.stack
    ensures (a.stack[..], a.sp) == Sort(old(a.stack[..]), old(a.sp))
    ensures a.sp + 2 <= a.stack.Length
    decreases a.sp
  {
    if a.sp != 0 {
      var entry := a.Pop();
      SortStack(a);
      if entry.value.pages != 0 {
        SortedInsert(a, entry.value);
      }
    }
  }
}
