/**
 The word at the end of a path, whether it is marked as present or not.  Second-level tables may hold words
 that can be written through and not read, which `Walk` does not see.
 */
module LastWords {
  import opened Wrappers
  import opened RadixTree
  import opened Links
  import opened Ownership

  /** The word that the path ends in; zero where a table on the way is missing. */
  function Last(mem: Memory, f: Frame, p: seq<nat>): Word
    requires IsPath(p) && |p| >= 1
    decreases |p|
  {
    if |p| == 1 then At(mem, f)[p[0]]
    else if !Has(mem, f, p[0]) then ZERO
    else Last(mem, Kid(mem, f, p[0]), p[1..])
  }

  /** A walk finds the last word exactly when it is present. */
  lemma {:induction false} WalkOfLast(mem: Memory, f: Frame, p: seq<nat>)
    requires IsPath(p) && |p| >= 1
    ensures Walk(mem, f, p) == if Last(mem, f, p).Present() then Some(Last(mem, f, p)) else None
    decreases |p|
  {
    if |p| > 1 && Has(mem, f, p[0]) {
      WalkOfLast(mem, Kid(mem, f, p[0]), p[1..]);
    }
  }

  lemma {:induction false} LastFrame(m1: Memory, m2: Memory, f: Frame, h: nat, lo: nat, hi: nat, q: seq<nat>)
    requires SameOn(m1, m2, Frames(m1, f, h, lo, hi))
    requires IsPath(q) && |q| == h && h >= 1 && lo <= q[0] < hi
    ensures Last(m2, f, q) == Last(m1, f, q)
    decreases h
  {
    assert At(m1, f) == At(m2, f);
    if h > 1 && Has(m1, f, q[0]) {
      assert KidFrames(m1, f, h, q[0]) <= Frames(m1, f, h, lo, hi);
      LastFrame(m1, m2, Kid(m1, f, q[0]), h - 1, 0, ENTRIES, q[1..]);
    }
  }

  lemma KidLast(m1: Memory, m2: Memory, f: Frame, h: nat, q: seq<nat>)
    requires IsPath(q) && |q| == h && h >= 1 && At(m2, f)[q[0]] == At(m1, f)[q[0]]
    requires SameOn(m1, m2, KidFrames(m1, f, h, q[0]))
    ensures Last(m2, f, q) == Last(m1, f, q)
  {
    if h > 1 && Has(m1, f, q[0]) {
      LastFrame(m1, m2, Kid(m1, f, q[0]), h - 1, 0, ENTRIES, q[1..]);
    }
  }

  /** Linking a zeroed table changes no last word: where it leads there were none. */
  lemma {:induction false} LinkLast(mem: Memory, f: Frame, h: nat, lo: nat, hi: nat, p: seq<nat>, i: nat, w: Word, q: seq<nat>)
    requires Tree(mem, f, h, lo, hi) && hi <= ENTRIES
    requires IsPath(p) && |p| + 2 <= h && i < ENTRIES && lo <= (p + [i])[0] < hi
    requires Reaches(mem, f, p) && !Has(mem, NodeAt(mem, f, p), i)
    requires w.Present() && w.frame !in Frames(mem, f, h, lo, hi)
    requires IsPath(q) && |q| == h && lo <= q[0] < hi
    ensures Last(Store(mem[w.frame := ZeroPage()], NodeAt(mem, f, p), i, w), f, q) == Last(mem, f, q)
    decreases h
  {
    hide Tree, Frames;
    var m2 := Store(mem[w.frame := ZeroPage()], NodeAt(mem, f, p), i, w);
    var a := (p + [i])[0];
    RootInFrames(mem, f, h, lo, hi);
    KidInFrames(mem, f, h, lo, hi, q[0]);
    if Has(mem, f, q[0]) {
      TreeKid(mem, f, h, lo, hi, q[0]);
    }
    if p != [] {
      NodeBelow(mem, f, h, lo, hi, p);
      assert At(m2, f) == At(mem, f);
    }
    if q[0] != a {
      KidLast(mem, m2, f, h, q);
    } else if p == [] {
      assert At(m2, w.frame)[q[1]] == ZERO;
    } else {
      assert (p + [i])[1..] == p[1..] + [i];
      LinkLast(mem, Kid(mem, f, a), h - 1, 0, ENTRIES, p[1..], i, w, q[1..]);
    }
  }

  /** Overwriting the last word of one path changes that of no other. */
  lemma {:induction false} SetLast(mem: Memory, f: Frame, h: nat, lo: nat, hi: nat, p: seq<nat>, i: nat, w: Word, q: seq<nat>)
    requires Tree(mem, f, h, lo, hi) && hi <= ENTRIES
    requires IsPath(p) && |p| + 1 == h && i < ENTRIES && lo <= (p + [i])[0] < hi
    requires Reaches(mem, f, p)
    requires IsPath(q) && |q| == h && lo <= q[0] < hi
    ensures Last(Store(mem, NodeAt(mem, f, p), i, w), f, q) == if q != p + [i] then Last(mem, f, q) else w
    decreases h
  {
    hide Tree, Frames;
    var m2 := Store(mem, NodeAt(mem, f, p), i, w);
    if p == [] {
      assert q == [q[0]];
    } else {
      NodeBelow(mem, f, h, lo, hi, p);
      TreeKid(mem, f, h, lo, hi, p[0]);
      if q[0] == p[0] {
        SetLast(mem, Kid(mem, f, p[0]), h - 1, 0, ENTRIES, p[1..], i, w, q[1..]);
        assert q == [p[0]] + q[1..];
        assert p + [i] == [p[0]] + (p[1..] + [i]);
      } else {
        KidLast(mem, m2, f, h, q);
      }
    }
  }

  /** Where all links have a bit, every word of a path has it exactly when the last one does. */
  lemma {:induction false} AllOfLast(mem: Memory, f: Frame, h: nat, lo: nat, hi: nat, law: Law, p: seq<nat>, bit: nat)
    requires Linked(mem, f, h, lo, hi, law) && bit in law.on && hi <= ENTRIES
    requires IsPath(p) && |p| == h && h >= 1 && lo <= p[0] < hi
    ensures AllHave(mem, f, p, bit) <==> bit in Last(mem, f, p).bits
    decreases h
  {
    if h > 1 && Has(mem, f, p[0]) {
      LinkedKid(mem, f, h, lo, hi, law, p[0]);
      AllOfLast(mem, Kid(mem, f, p[0]), h - 1, 0, ENTRIES, law, p[1..], bit);
    }
  }

  /** Where no link has a bit, no path of more than one word has it throughout. */
  lemma LinksWithout(mem: Memory, f: Frame, h: nat, lo: nat, hi: nat, law: Law, p: seq<nat>, bit: nat)
    requires Linked(mem, f, h, lo, hi, law) && bit in law.off && hi <= ENTRIES
    requires IsPath(p) && |p| == h && h >= 2 && lo <= p[0] < hi
    ensures !AllHave(mem, f, p, bit)
  {
    if Has(mem, f, p[0]) {
      LinkedKid(mem, f, h, lo, hi, law, p[0]);
    }
  }

  /** The last word lies in the table that all steps but one lead to. */
  lemma {:induction false} LastFrom(mem: Memory, f: Frame, q: seq<nat>)
    requires IsPath(q) && |q| >= 1 && IsPath(q[..|q| - 1]) && Reaches(mem, f, q[..|q| - 1])
    ensures Last(mem, f, q) == At(mem, NodeAt(mem, f, q[..|q| - 1]))[q[|q| - 1]]
    decreases |q|
  {
    if |q| > 1 {
      assert q[..|q| - 1][1..] == q[1..][..|q| - 2];
      LastFrom(mem, Kid(mem, f, q[0]), q[1..]);
    }
  }

  // ---------------------------------------------------------------- structures

  /** Every path of a structure ends in the same word in both memories. */
  ghost predicate SameWords(m1: Memory, m2: Memory, s: Space) {
    forall q | IsWalk(s, q) :: Last(m2, s.root, q) == Last(m1, s.root, q)
  }

  lemma WordsTwice(m1: Memory, m2: Memory, m3: Memory, s: Space)
    requires SameWords(m1, m2, s) && SameWords(m2, m3, s)
    ensures SameWords(m1, m3, s)
  {
    hide Last;
  }

  /** A structure that owns all of its root depends on its own tables only. */
  lemma OwnWordsDecide(m1: Memory, m2: Memory, s: Space)
    requires Shape(s) && s.span == ENTRIES && SameOn(m1, m2, Tables(m1, s))
    ensures SameWords(m1, m2, s)
  {
    hide Last, Frames;
    forall q | IsWalk(s, q)
      ensures Last(m2, s.root, q) == Last(m1, s.root, q)
    {
      LastFrame(m1, m2, s.root, s.height, 0, s.span, q);
    }
  }

  lemma LinkWords(mem: Memory, s: Space, p: seq<nat>, i: nat, w: Word)
    requires Shape(s) && IsTree(mem, s) && s.span == ENTRIES && Slot(s, p, i) && |p| + 2 <= s.height
    requires Reaches(mem, s.root, p) && !Has(mem, NodeAt(mem, s.root, p), i)
    requires w.Present() && w.frame !in Tables(mem, s)
    ensures SameWords(mem, Store(mem[w.frame := ZeroPage()], NodeAt(mem, s.root, p), i, w), s)
  {
    hide Last, Tree, Frames;
    var m2 := Store(mem[w.frame := ZeroPage()], NodeAt(mem, s.root, p), i, w);
    forall q | IsWalk(s, q)
      ensures Last(m2, s.root, q) == Last(mem, s.root, q)
    {
      LinkLast(mem, s.root, s.height, 0, s.span, p, i, w, q);
    }
  }

  /** The path ends in `w`; every other path ends as before. */
  ghost predicate WordSet(m1: Memory, m2: Memory, s: Space, p: seq<nat>, w: Word) {
    && IsWalk(s, p) && Last(m2, s.root, p) == w
    && forall q | IsWalk(s, q) && q != p :: Last(m2, s.root, q) == Last(m1, s.root, q)
  }

  lemma LeafWords(mem: Memory, s: Space, p: seq<nat>, i: nat, w: Word)
    requires Shape(s) && IsTree(mem, s) && s.span == ENTRIES && Slot(s, p, i) && |p| + 1 == s.height
    requires Reaches(mem, s.root, p)
    ensures WordSet(mem, Store(mem, NodeAt(mem, s.root, p), i, w), s, p + [i], w)
  {
    hide Last, Tree, Frames;
    var m2 := Store(mem, NodeAt(mem, s.root, p), i, w);
    forall q | IsWalk(s, q)
      ensures Last(m2, s.root, q) == if q != p + [i] then Last(mem, s.root, q) else w
    {
      SetLast(mem, s.root, s.height, 0, s.span, p, i, w, q);
    }
  }
}
