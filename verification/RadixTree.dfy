/**
 Trees of 512-entry translation tables laid out in physical memory.

 Both translation structures of the kernel have this shape: the four-level processor tables and
 the three- to five-level second-level tables of the IOMMU.  In both, bit 0 of a table word says
 that the word is in use and bits 12 to 51 hold the number of the frame it points to.
 */
module RadixTree {
  import opened Wrappers

  const ENTRIES: nat := 512

  /** Bit numbers of a table word. */
  const BIT_PRESENT: nat := 0
  const BIT_WRITABLE: nat := 1
  const BIT_USER: nat := 2
  const BIT_WRITE_THROUGH: nat := 3
  const BIT_CACHE_DISABLE: nat := 4
  const BIT_HUGE: nat := 7
  const BIT_GLOBAL: nat := 8
  const BIT_NO_EXECUTE: nat := 63

  /** A frame is named by its number, the physical address divided by the block size. */
  type Frame = nat

  /** A 64-bit table word: bits 12 to 51 as a frame number, the other bits as the set of those that are on. */
  datatype Word = Word(frame: Frame, bits: set<nat>) {
    predicate Present() {
      BIT_PRESENT in bits
    }
  }

  const ZERO := Word(0, {})

  /** The 4096 bytes of a frame, read as 512 words. */
  type Page = s: seq<Word> | |s| == ENTRIES witness seq(ENTRIES, _ => ZERO)

  function ZeroPage(): (p: Page)
    ensures forall i | 0 <= i < ENTRIES :: p[i] == ZERO
  {
    seq(ENTRIES, _ => ZERO)
  }

  type Memory = map<Frame, Page>

  /** The contents of a frame; frames never written read as zeroes. */
  function At(mem: Memory, f: Frame): Page {
    if f in mem then mem[f] else ZeroPage()
  }

  /** Memory after entry `i` of the table in frame `t` is overwritten. */
  function Store(mem: Memory, t: Frame, i: nat, w: Word): Memory
    requires i < ENTRIES
  {
    mem[t := At(mem, t)[i := w]]
  }

  predicate Has(mem: Memory, f: Frame, i: nat) {
    i < ENTRIES && At(mem, f)[i].Present()
  }

  function Kid(mem: Memory, f: Frame, i: nat): Frame
    requires i < ENTRIES
  {
    At(mem, f)[i].frame
  }

  /** A list of table indices, outermost first. */
  predicate IsPath(p: seq<nat>) {
    forall k | 0 <= k < |p| :: p[k] < ENTRIES
  }

  /** The word that the walk along `p` ends in, if every table on the way and the word itself are present. */
  function Walk(mem: Memory, f: Frame, p: seq<nat>): Option<Word>
    requires IsPath(p) && |p| >= 1
    decreases |p|
  {
    if !Has(mem, f, p[0]) then None
    else if |p| == 1 then Some(At(mem, f)[p[0]])
    else Walk(mem, Kid(mem, f, p[0]), p[1..])
  }

  /** The tables of height `h` rooted at `f`, looking only at root entries in `lo..hi`. */
  ghost function Frames(mem: Memory, f: Frame, h: nat, lo: nat, hi: nat): set<Frame>
    decreases h, 1
  {
    {f} + if h <= 1 then {} else
      set i: nat, g: Frame | lo <= i < hi && g in KidFrames(mem, f, h, i) :: g
  }

  /** The tables below entry `i`, if that entry is present. */
  ghost function KidFrames(mem: Memory, f: Frame, h: nat, i: nat): set<Frame>
    requires h >= 1
    decreases h, 0
  {
    if Has(mem, f, i) then Frames(mem, Kid(mem, f, i), h - 1, 0, ENTRIES) else {}
  }

  /** No table is reached twice, and no inner entry carries the huge-page bit. */
  ghost predicate Tree(mem: Memory, f: Frame, h: nat, lo: nat, hi: nat)
    decreases h
  {
    h <= 1 || (
      && (forall i | lo <= i < hi && Has(mem, f, i) ::
            && BIT_HUGE !in At(mem, f)[i].bits
            && Tree(mem, Kid(mem, f, i), h - 1, 0, ENTRIES)
            && f !in KidFrames(mem, f, h, i))
      && (forall i, j | lo <= i < hi && lo <= j < hi && i != j && Has(mem, f, i) && Has(mem, f, j) ::
            KidFrames(mem, f, h, i) !! KidFrames(mem, f, h, j)))
  }

  /** Every table on the way along `p` is present. */
  predicate Reaches(mem: Memory, f: Frame, p: seq<nat>)
    requires IsPath(p)
    decreases |p|
  {
    p == [] || (Has(mem, f, p[0]) && Reaches(mem, Kid(mem, f, p[0]), p[1..]))
  }

  function NodeAt(mem: Memory, f: Frame, p: seq<nat>): Frame
    requires IsPath(p)
    decreases |p|
  {
    if p == [] then f else NodeAt(mem, Kid(mem, f, p[0]), p[1..])
  }

  ghost predicate SameOn(m1: Memory, m2: Memory, fs: set<Frame>) {
    forall g | g in fs :: At(m1, g) == At(m2, g)
  }

  /** A tree is determined by the contents of its own tables. */
  lemma {:induction false} TreeFrame(m1: Memory, m2: Memory, f: Frame, h: nat, lo: nat, hi: nat)
    requires SameOn(m1, m2, Frames(m1, f, h, lo, hi))
    ensures Frames(m2, f, h, lo, hi) == Frames(m1, f, h, lo, hi)
    ensures Tree(m2, f, h, lo, hi) == Tree(m1, f, h, lo, hi)
    decreases h
  {
    if h > 1 {
      assert At(m1, f) == At(m2, f);
      forall i: nat | lo <= i < hi && Has(m1, f, i)
        ensures KidFrames(m2, f, h, i) == KidFrames(m1, f, h, i)
        ensures Tree(m2, Kid(m1, f, i), h - 1, 0, ENTRIES) == Tree(m1, Kid(m1, f, i), h - 1, 0, ENTRIES)
      {
        assert KidFrames(m1, f, h, i) <= Frames(m1, f, h, lo, hi);
        TreeFrame(m1, m2, Kid(m1, f, i), h - 1, 0, ENTRIES);
      }
    }
  }

  /** So is every walk through it. */
  lemma {:induction false} WalkFrame(m1: Memory, m2: Memory, f: Frame, h: nat, lo: nat, hi: nat, q: seq<nat>)
    requires SameOn(m1, m2, Frames(m1, f, h, lo, hi))
    requires IsPath(q) && |q| == h && h >= 1 && lo <= q[0] < hi
    ensures Walk(m2, f, q) == Walk(m1, f, q)
    decreases h
  {
    assert At(m1, f) == At(m2, f);
    if h > 1 && Has(m1, f, q[0]) {
      assert KidFrames(m1, f, h, q[0]) <= Frames(m1, f, h, lo, hi);
      WalkFrame(m1, m2, Kid(m1, f, q[0]), h - 1, 0, ENTRIES, q[1..]);
    }
  }

  lemma RootInFrames(mem: Memory, f: Frame, h: nat, lo: nat, hi: nat)
    ensures f in Frames(mem, f, h, lo, hi)
  {
  }

  lemma EmptyTable(mem: Memory, f: Frame, h: nat, lo: nat, hi: nat)
    requires forall i: nat | lo <= i < hi :: !Has(mem, f, i)
    ensures Frames(mem, f, h, lo, hi) == {f} && Tree(mem, f, h, lo, hi)
  {
    assert forall i: nat | lo <= i < hi && h > 1 :: KidFrames(mem, f, h, i) == {};
  }

  lemma {:induction false} NodeInFrames(mem: Memory, f: Frame, h: nat, lo: nat, hi: nat, p: seq<nat>)
    requires IsPath(p) && |p| < h && Reaches(mem, f, p)
    requires p != [] ==> lo <= p[0] < hi
    ensures NodeAt(mem, f, p) in Frames(mem, f, h, lo, hi)
    decreases h
  {
    if p != [] {
      NodeInFrames(mem, Kid(mem, f, p[0]), h - 1, 0, ENTRIES, p[1..]);
      assert NodeAt(mem, f, p) in KidFrames(mem, f, h, p[0]);
    }
  }

  ghost predicate KidsKept(m1: Memory, m2: Memory, f: Frame, h: nat, lo: nat, hi: nat, a: nat)
    requires h >= 1 && hi <= ENTRIES
  {
    forall j: nat | lo <= j < hi && j != a :: At(m2, f)[j] == At(m1, f)[j] && SameOn(m1, m2, KidFrames(m1, f, h, j))
  }

  lemma KeptKids(m1: Memory, m2: Memory, f: Frame, h: nat, lo: nat, hi: nat, a: nat)
    requires h >= 1 && hi <= ENTRIES && KidsKept(m1, m2, f, h, lo, hi, a)
    ensures forall j: nat | lo <= j < hi && j != a :: KidFrames(m2, f, h, j) == KidFrames(m1, f, h, j)
    ensures forall j: nat | lo <= j < hi && j != a && Has(m1, f, j) ::
              Tree(m2, Kid(m1, f, j), h - 1, 0, ENTRIES) == Tree(m1, Kid(m1, f, j), h - 1, 0, ENTRIES)
  {
    forall j: nat | lo <= j < hi && j != a && Has(m1, f, j)
      ensures KidFrames(m2, f, h, j) == KidFrames(m1, f, h, j)
      ensures Tree(m2, Kid(m1, f, j), h - 1, 0, ENTRIES) == Tree(m1, Kid(m1, f, j), h - 1, 0, ENTRIES)
    {
      TreeFrame(m1, m2, Kid(m1, f, j), h - 1, 0, ENTRIES);
    }
  }

  /** Exchanging the subtree below entry `a` for one that has the tables `extra` more. */
  lemma SpliceFrames(m1: Memory, m2: Memory, f: Frame, h: nat, lo: nat, hi: nat, a: nat, extra: set<Frame>)
    requires h >= 2 && lo <= a < hi <= ENTRIES && KidsKept(m1, m2, f, h, lo, hi, a)
    requires KidFrames(m2, f, h, a) == KidFrames(m1, f, h, a) + extra
    ensures Frames(m2, f, h, lo, hi) == Frames(m1, f, h, lo, hi) + extra
  {
    KeptKids(m1, m2, f, h, lo, hi, a);
    hide KidFrames;
    KidInFrames(m2, f, h, lo, hi, a);
  }

  lemma {:induction false} SpliceKid(m1: Memory, m2: Memory, f: Frame, h: nat, lo: nat, hi: nat, a: nat, extra: set<Frame>)
    requires Tree(m1, f, h, lo, hi) && h >= 2 && lo <= a < hi <= ENTRIES
    requires extra !! Frames(m1, f, h, lo, hi) && KidsKept(m1, m2, f, h, lo, hi, a)
    requires Has(m2, f, a) && BIT_HUGE !in At(m2, f)[a].bits && Tree(m2, Kid(m2, f, a), h - 1, 0, ENTRIES)
    requires KidFrames(m2, f, h, a) == KidFrames(m1, f, h, a) + extra
    ensures Tree(m2, f, h, lo, hi)
    ensures Frames(m2, f, h, lo, hi) == Frames(m1, f, h, lo, hi) + extra
  {
    SpliceFrames(m1, m2, f, h, lo, hi, a, extra);
    RootInFrames(m1, f, h, lo, hi);
    assert !Has(m1, f, a) ==> KidFrames(m1, f, h, a) == {};
    hide KidFrames, Frames;
    KeptKids(m1, m2, f, h, lo, hi, a);
    forall j: nat | lo <= j < hi
      ensures KidFrames(m1, f, h, j) <= Frames(m1, f, h, lo, hi)
    {
      KidInFrames(m1, f, h, lo, hi, j);
    }
    forall i: nat, j: nat | lo <= i < hi && lo <= j < hi && i != j && Has(m2, f, i) && Has(m2, f, j)
      ensures KidFrames(m2, f, h, i) !! KidFrames(m2, f, h, j)
    {
      assert Has(m1, f, i) && Has(m1, f, j) ==> KidFrames(m1, f, h, i) !! KidFrames(m1, f, h, j);
    }
  }

  /** The subtree that a path descends into holds the path's last table; its siblings do not. */
  lemma NodeBelow(mem: Memory, f: Frame, h: nat, lo: nat, hi: nat, p: seq<nat>)
    requires Tree(mem, f, h, lo, hi) && hi <= ENTRIES
    requires IsPath(p) && 0 < |p| < h && Reaches(mem, f, p) && lo <= p[0] < hi
    ensures NodeAt(mem, f, p) in KidFrames(mem, f, h, p[0])
    ensures NodeAt(mem, f, p) != f
    ensures forall j: nat | lo <= j < hi && j != p[0] && Has(mem, f, j) :: NodeAt(mem, f, p) !in KidFrames(mem, f, h, j)
  {
    NodeInFrames(mem, Kid(mem, f, p[0]), h - 1, 0, ENTRIES, p[1..]);
  }

  lemma TreeKid(mem: Memory, f: Frame, h: nat, lo: nat, hi: nat, a: nat)
    requires Tree(mem, f, h, lo, hi) && h >= 2 && lo <= a < hi && Has(mem, f, a)
    ensures BIT_HUGE !in At(mem, f)[a].bits && Tree(mem, Kid(mem, f, a), h - 1, 0, ENTRIES)
    ensures KidFrames(mem, f, h, a) == Frames(mem, Kid(mem, f, a), h - 1, 0, ENTRIES)
    ensures f !in KidFrames(mem, f, h, a)
  {
  }

  lemma KidInFrames(mem: Memory, f: Frame, h: nat, lo: nat, hi: nat, a: nat)
    requires h >= 2 && lo <= a < hi
    ensures KidFrames(mem, f, h, a) <= Frames(mem, f, h, lo, hi)
  {
  }

  /**
   Linking a zeroed table under an absent entry keeps the tree and adds exactly that table to it.
   */
  lemma {:induction false} LinkTable(mem: Memory, f: Frame, h: nat, lo: nat, hi: nat, p: seq<nat>, i: nat, w: Word)
    requires Tree(mem, f, h, lo, hi) && hi <= ENTRIES
    requires IsPath(p) && |p| + 2 <= h && i < ENTRIES && lo <= (p + [i])[0] < hi
    requires Reaches(mem, f, p) && !Has(mem, NodeAt(mem, f, p), i)
    requires w.Present() && BIT_HUGE !in w.bits && w.frame !in Frames(mem, f, h, lo, hi)
    ensures var m2 := Store(mem[w.frame := ZeroPage()], NodeAt(mem, f, p), i, w);
            && Tree(m2, f, h, lo, hi)
            && Frames(m2, f, h, lo, hi) == Frames(mem, f, h, lo, hi) + {w.frame}
            && Reaches(m2, f, p + [i]) && NodeAt(m2, f, p + [i]) == w.frame
    decreases h
  {
    hide Tree, Frames;
    var t := NodeAt(mem, f, p);
    var m2 := Store(mem[w.frame := ZeroPage()], t, i, w);
    var a := (p + [i])[0];
    RootInFrames(mem, f, h, lo, hi);
    assert IsPath(p + [i]);
    if p == [] {
      assert At(m2, w.frame) == ZeroPage();
      EmptyTable(m2, w.frame, h - 1, 0, ENTRIES);
      assert (p + [i])[1..] == [];
    } else {
      NodeBelow(mem, f, h, lo, hi, p);
      KidInFrames(mem, f, h, lo, hi, a);
      TreeKid(mem, f, h, lo, hi, a);
      assert (p + [i])[1..] == p[1..] + [i];
      LinkTable(mem, Kid(mem, f, a), h - 1, 0, ENTRIES, p[1..], i, w);
      assert At(m2, f) == At(mem, f);
    }
    forall j: nat | lo <= j < hi && j != a
      ensures SameOn(mem, m2, KidFrames(mem, f, h, j))
    {
      if Has(mem, f, j) {
        TreeKid(mem, f, h, lo, hi, j);
      }
      KidInFrames(mem, f, h, lo, hi, j);
    }
    SpliceKid(mem, m2, f, h, lo, hi, a, {w.frame});
  }

  /** A walk only depends on the root word it starts from and on the tables below that word. */
  lemma KidWalk(m1: Memory, m2: Memory, f: Frame, h: nat, q: seq<nat>)
    requires IsPath(q) && |q| == h && h >= 1 && At(m2, f)[q[0]] == At(m1, f)[q[0]]
    requires SameOn(m1, m2, KidFrames(m1, f, h, q[0]))
    ensures Walk(m2, f, q) == Walk(m1, f, q)
  {
    if h > 1 && Has(m1, f, q[0]) {
      WalkFrame(m1, m2, Kid(m1, f, q[0]), h - 1, 0, ENTRIES, q[1..]);
    }
  }

  /** Linking a zeroed table changes no translation. */
  lemma {:induction false} LinkWalk(mem: Memory, f: Frame, h: nat, lo: nat, hi: nat, p: seq<nat>, i: nat, w: Word, q: seq<nat>)
    requires Tree(mem, f, h, lo, hi) && hi <= ENTRIES
    requires IsPath(p) && |p| + 2 <= h && i < ENTRIES && lo <= (p + [i])[0] < hi
    requires Reaches(mem, f, p) && !Has(mem, NodeAt(mem, f, p), i)
    requires w.Present() && w.frame !in Frames(mem, f, h, lo, hi)
    requires IsPath(q) && |q| == h && lo <= q[0] < hi
    ensures Walk(Store(mem[w.frame := ZeroPage()], NodeAt(mem, f, p), i, w), f, q) == Walk(mem, f, q)
    decreases h
  {
    hide Tree, Frames;
    var m2 := Store(mem[w.frame := ZeroPage()], NodeAt(mem, f, p), i, w);
    var a := (p + [i])[0];
    RootInFrames(mem, f, h, lo, hi);
    KidInFrames(mem, f, h, lo, hi, q[0]);
    if Has(mem, f, q[0]) {
      TreeKid(mem, f, h, lo, hi, q[0]);
    }
    if p != [] {
      NodeBelow(mem, f, h, lo, hi, p);
      assert At(m2, f) == At(mem, f);
    }
    if q[0] != a {
      KidWalk(mem, m2, f, h, q);
    } else if p == [] {
      assert !Has(m2, w.frame, q[1]);
    } else {
      assert (p + [i])[1..] == p[1..] + [i];
      LinkWalk(mem, Kid(mem, f, a), h - 1, 0, ENTRIES, p[1..], i, w, q[1..]);
    }
  }

  lemma SetLeafTop(mem: Memory, f: Frame, lo: nat, hi: nat, i: nat, w: Word)
    requires i < ENTRIES
    ensures var m2 := Store(mem, f, i, w);
            Tree(m2, f, 1, lo, hi) && Frames(m2, f, 1, lo, hi) == Frames(mem, f, 1, lo, hi)
  {
  }

  lemma SetLeafBelow(mem: Memory, m2: Memory, f: Frame, h: nat, lo: nat, hi: nat, a: nat)
    requires Tree(mem, f, h, lo, hi) && h >= 2 && lo <= a < hi <= ENTRIES && Has(mem, f, a)
    requires At(m2, f) == At(mem, f) && KidsKept(mem, m2, f, h, lo, hi, a)
    requires Tree(m2, Kid(mem, f, a), h - 1, 0, ENTRIES)
    requires Frames(m2, Kid(mem, f, a), h - 1, 0, ENTRIES) == Frames(mem, Kid(mem, f, a), h - 1, 0, ENTRIES)
    ensures Tree(m2, f, h, lo, hi) && Frames(m2, f, h, lo, hi) == Frames(mem, f, h, lo, hi)
  {
    hide Tree, Frames;
    TreeKid(mem, f, h, lo, hi, a);
    var none: set<Frame> := {};
    assert KidFrames(mem, f, h, a) + none == KidFrames(mem, f, h, a);
    SpliceKid(mem, m2, f, h, lo, hi, a, none);
    assert Frames(mem, f, h, lo, hi) + none == Frames(mem, f, h, lo, hi);
  }

  /** Overwriting a word of an innermost table keeps the tree and its tables. */
  lemma {:induction false} SetLeaf(mem: Memory, f: Frame, h: nat, lo: nat, hi: nat, p: seq<nat>, i: nat, w: Word)
    requires Tree(mem, f, h, lo, hi) && hi <= ENTRIES
    requires IsPath(p) && |p| + 1 == h && i < ENTRIES && lo <= (p + [i])[0] < hi
    requires Reaches(mem, f, p)
    ensures var m2 := Store(mem, NodeAt(mem, f, p), i, w);
            && Tree(m2, f, h, lo, hi)
            && Frames(m2, f, h, lo, hi) == Frames(mem, f, h, lo, hi)
            && Reaches(m2, f, p) && NodeAt(m2, f, p) == NodeAt(mem, f, p)
    decreases h
  {
    hide Tree, Frames;
    var t := NodeAt(mem, f, p);
    var m2 := Store(mem, t, i, w);
    if p == [] {
      SetLeafTop(mem, f, lo, hi, i, w);
    } else {
      NodeBelow(mem, f, h, lo, hi, p);
      TreeKid(mem, f, h, lo, hi, p[0]);
      SetLeaf(mem, Kid(mem, f, p[0]), h - 1, 0, ENTRIES, p[1..], i, w);
      SetLeafBelow(mem, m2, f, h, lo, hi, p[0]);
    }
  }

  /** It changes the translation of that one path and of no other. */
  lemma {:induction false} SetLeafWalk(mem: Memory, f: Frame, h: nat, lo: nat, hi: nat, p: seq<nat>, i: nat, w: Word, q: seq<nat>)
    requires Tree(mem, f, h, lo, hi) && hi <= ENTRIES
    requires IsPath(p) && |p| + 1 == h && i < ENTRIES && lo <= (p + [i])[0] < hi
    requires Reaches(mem, f, p)
    requires IsPath(q) && |q| == h && lo <= q[0] < hi
    ensures Walk(Store(mem, NodeAt(mem, f, p), i, w), f, q)
         == if q != p + [i] then Walk(mem, f, q) else if w.Present() then Some(w) else None
    decreases h
  {
    hide Tree, Frames;
    var m2 := Store(mem, NodeAt(mem, f, p), i, w);
    if p == [] {
      assert q == [q[0]];
    } else {
      NodeBelow(mem, f, h, lo, hi, p);
      TreeKid(mem, f, h, lo, hi, p[0]);
      if q[0] == p[0] {
        SetLeafWalk(mem, Kid(mem, f, p[0]), h - 1, 0, ENTRIES, p[1..], i, w, q[1..]);
        assert q == [p[0]] + q[1..];
        assert p + [i] == [p[0]] + (p[1..] + [i]);
      } else {
        KidWalk(mem, m2, f, h, q);
      }
    }
  }

  // ---------------------------------------------------------------- entry by entry

  /** Looking at one more root entry. */
  lemma ExtendFrames(mem: Memory, f: Frame, h: nat, lo: nat, i: nat)
    requires h >= 2 && lo <= i
    ensures Frames(mem, f, h, lo, i + 1) == Frames(mem, f, h, lo, i) + KidFrames(mem, f, h, i)
  {
    hide KidFrames;
  }

  /** The subtree below one more root entry has no table in common with what came before. */
  lemma NextKidApart(mem: Memory, f: Frame, h: nat, lo: nat, hi: nat, i: nat)
    requires Tree(mem, f, h, lo, hi) && h >= 2 && lo <= i < hi <= ENTRIES
    ensures Frames(mem, f, h, lo, i) !! KidFrames(mem, f, h, i)
    ensures Frames(mem, f, h, lo, i) <= Frames(mem, f, h, lo, hi)
    ensures KidFrames(mem, f, h, i) <= Frames(mem, f, h, lo, hi)
  {
    if Has(mem, f, i) {
      forall j: nat | lo <= j < i
        ensures KidFrames(mem, f, h, j) !! KidFrames(mem, f, h, i)
      {
      }
    }
    hide KidFrames;
  }

  lemma NoEntries(mem: Memory, f: Frame, h: nat, lo: nat)
    ensures Frames(mem, f, h, lo, lo) == {f} && Tree(mem, f, h, lo, lo)
  {
  }

  /** An absent entry adds nothing. */
  lemma SkipKid(mem: Memory, f: Frame, h: nat, lo: nat, i: nat)
    requires Tree(mem, f, h, lo, i) && h >= 2 && lo <= i && !Has(mem, f, i)
    ensures Tree(mem, f, h, lo, i + 1) && Frames(mem, f, h, lo, i + 1) == Frames(mem, f, h, lo, i)
  {
    assert KidFrames(mem, f, h, i) == {};
    ExtendFrames(mem, f, h, lo, i);
  }

  /** Linking a finished tree under the next entry. */
  lemma GraftKid(m1: Memory, f: Frame, h: nat, i: nat, w: Word)
    requires Tree(m1, f, h, 0, i) && h >= 2 && i < ENTRIES
    requires w.Present() && BIT_HUGE !in w.bits && Tree(m1, w.frame, h - 1, 0, ENTRIES)
    requires Frames(m1, w.frame, h - 1, 0, ENTRIES) !! Frames(m1, f, h, 0, i)
    ensures var m2 := Store(m1, f, i, w);
            && Tree(m2, f, h, 0, i + 1)
            && Frames(m2, f, h, 0, i + 1) == Frames(m1, f, h, 0, i) + Frames(m1, w.frame, h - 1, 0, ENTRIES)
  {
    hide Frames, KidFrames;
    var m2 := Store(m1, f, i, w);
    RootInFrames(m1, f, h, 0, i);
    GraftKept(m1, f, h, i, w);
    GraftedKid(m1, f, h, i, w);
    KeptKids(m1, m2, f, h, 0, i, ENTRIES);
    GraftFrames(m1, m2, f, h, i);
    ExtendFrames(m2, f, h, 0, i);
    forall j: nat | j < i
      ensures KidFrames(m1, f, h, j) <= Frames(m1, f, h, 0, i)
    {
      KidInFrames(m1, f, h, 0, i, j);
    }
  }

  /** The tree that was linked is still the same tree. */
  lemma GraftedKid(m1: Memory, f: Frame, h: nat, i: nat, w: Word)
    requires h >= 2 && i < ENTRIES && w.Present() && BIT_HUGE !in w.bits && Tree(m1, w.frame, h - 1, 0, ENTRIES)
    requires f !in Frames(m1, w.frame, h - 1, 0, ENTRIES)
    ensures var m2 := Store(m1, f, i, w);
            && Has(m2, f, i) && Kid(m2, f, i) == w.frame && Tree(m2, w.frame, h - 1, 0, ENTRIES)
            && KidFrames(m2, f, h, i) == Frames(m1, w.frame, h - 1, 0, ENTRIES)
            && Frames(m2, w.frame, h - 1, 0, ENTRIES) == Frames(m1, w.frame, h - 1, 0, ENTRIES)
  {
    hide Tree;
    TreeFrame(m1, Store(m1, f, i, w), w.frame, h - 1, 0, ENTRIES);
  }

  lemma GraftKept(m1: Memory, f: Frame, h: nat, i: nat, w: Word)
    requires Tree(m1, f, h, 0, i) && h >= 2 && i < ENTRIES
    ensures KidsKept(m1, Store(m1, f, i, w), f, h, 0, i, ENTRIES)
  {
    var m2 := Store(m1, f, i, w);
    forall j: nat | j < i
      ensures SameOn(m1, m2, KidFrames(m1, f, h, j))
    {
      assert f !in KidFrames(m1, f, h, j);
    }
  }

  lemma GraftFrames(m1: Memory, m2: Memory, f: Frame, h: nat, i: nat)
    requires h >= 2 && i < ENTRIES && forall j: nat | j < i :: KidFrames(m2, f, h, j) == KidFrames(m1, f, h, j)
    ensures Frames(m2, f, h, 0, i) == Frames(m1, f, h, 0, i)
  {
    hide KidFrames;
  }

  // ---------------------------------------------------------------- partway down

  /** A walk that has come to the end of `p` goes on from there. */
  lemma {:induction false} WalkFrom(mem: Memory, f: Frame, p: seq<nat>, q: seq<nat>)
    requires IsPath(p) && IsPath(q) && p <= q && |p| < |q| && Reaches(mem, f, p)
    ensures Walk(mem, f, q) == Walk(mem, NodeAt(mem, f, p), q[|p|..])
    decreases |p|
  {
    if p != [] {
      WalkFrom(mem, Kid(mem, f, p[0]), p[1..], q[1..]);
      assert q[1..][|p| - 1..] == q[|p|..];
    } else {
      assert q[0..] == q;
    }
  }

  lemma {:induction false} ReachesFrame(m1: Memory, m2: Memory, f: Frame, h: nat, lo: nat, hi: nat, p: seq<nat>)
    requires SameOn(m1, m2, Frames(m1, f, h, lo, hi))
    requires IsPath(p) && |p| < h && (p != [] ==> lo <= p[0] < hi) && Reaches(m1, f, p)
    ensures Reaches(m2, f, p) && NodeAt(m2, f, p) == NodeAt(m1, f, p)
    decreases h
  {
    if p != [] {
      RootInFrames(m1, f, h, lo, hi);
      KidInFrames(m1, f, h, lo, hi, p[0]);
      ReachesFrame(m1, m2, Kid(m1, f, p[0]), h - 1, 0, ENTRIES, p[1..]);
    }
  }
}
