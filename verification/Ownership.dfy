/**
 Who owns which frame.  Physical memory holds several translation structures at once; each owns its
 tables, and the tables of live structures and the free frames never overlap.
 */
module Ownership {
  import opened Wrappers
  import opened RadixTree
  import opened Links

  type Id = nat

  /** The kernel's own address space. */
  const KERNEL: Id := 0

  const HALF: nat := 256

  /**
   A live translation structure.  It owns its root and the tables below root entries `0..span`.  The
   kernel's space and the IOMMU structures own all of their root; other address spaces own the lower
   half, and the upper half of their root points to tables of the kernel.
   */
  datatype Space = Space(root: Frame, height: nat, span: nat)

  ghost function Tables(mem: Memory, s: Space): set<Frame> {
    Frames(mem, s.root, s.height, 0, s.span)
  }

  ghost predicate IsTree(mem: Memory, s: Space) {
    Tree(mem, s.root, s.height, 0, s.span)
  }

  predicate Shape(s: Space) {
    2 <= s.height <= 5 && (s.span == ENTRIES || (s.span == HALF && s.height == 4))
  }

  /** Every upper-half word that is present is the kernel's word. */
  predicate SharesUpper(mem: Memory, root: Frame, kernel: Frame) {
    forall i: nat | HALF <= i < ENTRIES && Has(mem, root, i) :: At(mem, root)[i] == At(mem, kernel)[i]
  }

  predicate Shaped(spaces: map<Id, Space>) {
    && KERNEL in spaces && spaces[KERNEL].height == 4 && spaces[KERNEL].span == ENTRIES
    && forall c | c in spaces :: Shape(spaces[c])
  }

  ghost predicate AllTrees(mem: Memory, spaces: map<Id, Space>) {
    forall c | c in spaces :: IsTree(mem, spaces[c])
  }

  ghost predicate AllApart(mem: Memory, spaces: map<Id, Space>) {
    forall c, d | c in spaces && d in spaces && c != d :: Tables(mem, spaces[c]) !! Tables(mem, spaces[d])
  }

  ghost predicate NoneFree(mem: Memory, spaces: map<Id, Space>, free: set<Frame>) {
    forall c | c in spaces :: Tables(mem, spaces[c]) !! free
  }

  ghost predicate AllShare(mem: Memory, spaces: map<Id, Space>)
    requires Shaped(spaces)
  {
    forall c | c in spaces && spaces[c].span == HALF :: SharesUpper(mem, spaces[c].root, spaces[KERNEL].root)
  }

  /** What the links of a structure keep to: processor tables for address spaces, second-level tables for the others. */
  function LawOf(c: Id, s: Space): Law {
    if c == KERNEL || s.span == HALF then PROCESSOR else SECOND_LEVEL
  }

  ghost predicate IsLinked(mem: Memory, c: Id, s: Space) {
    Linked(mem, s.root, s.height, 0, s.span, LawOf(c, s))
  }

  ghost predicate AllLinked(mem: Memory, spaces: map<Id, Space>) {
    forall c | c in spaces :: IsLinked(mem, c, spaces[c])
  }

  /** The ownership invariant, and what the tables on the way to a page permit. */
  ghost predicate World(mem: Memory, spaces: map<Id, Space>, free: set<Frame>) {
    && Shaped(spaces)
    && AllTrees(mem, spaces)
    && AllApart(mem, spaces)
    && NoneFree(mem, spaces, free)
    && AllShare(mem, spaces)
    && AllLinked(mem, spaces)
  }

  ghost function AllTables(mem: Memory, spaces: map<Id, Space>): set<Frame> {
    set c, g | c in spaces && g in Tables(mem, spaces[c]) :: g
  }

  predicate IsWalk(s: Space, q: seq<nat>) {
    IsPath(q) && |q| == s.height && |q| >= 1
  }

  /** Entry `i` of the table at the end of `p` is one that the structure owns. */
  predicate Slot(s: Space, p: seq<nat>, i: nat) {
    && IsPath(p) && i < ENTRIES && |p| < s.height && (p + [i])[0] < s.span
    && IsPath(p + [i])
  }

  /** No other structure sees what `c` maps along `p`. */
  predicate Private(c: Id, p: seq<nat>) {
    c != KERNEL || (p != [] && p[0] < HALF)
  }

  /** Two memories give a structure the same translations. */
  ghost predicate Agree(m1: Memory, m2: Memory, s: Space) {
    forall q | IsWalk(s, q) :: Walk(m2, s.root, q) == Walk(m1, s.root, q)
  }

  /** The same, except along one path. */
  ghost predicate AgreeBut(m1: Memory, m2: Memory, s: Space, p: seq<nat>) {
    forall q | IsWalk(s, q) && q != p :: Walk(m2, s.root, q) == Walk(m1, s.root, q)
  }

  ghost predicate SameOutside(m1: Memory, m2: Memory, fs: set<Frame>) {
    forall g: Frame | g !in fs :: At(m2, g) == At(m1, g)
  }

  // ---------------------------------------------------------------- walking

  lemma RootInTables(mem: Memory, s: Space)
    ensures s.root in Tables(mem, s)
  {
  }

  /** Through a shared root word both spaces see the same translations. */
  lemma SharedWalk(mem: Memory, r: Frame, k: Frame, q: seq<nat>)
    requires IsPath(q) && |q| >= 1 && At(mem, r)[q[0]] == At(mem, k)[q[0]]
    ensures Walk(mem, r, q) == Walk(mem, k, q)
  {
  }

  /** In the upper half a space translates as the kernel does, or not at all. */
  lemma UpperWalk(mem: Memory, spaces: map<Id, Space>, d: Id, q: seq<nat>)
    requires Shaped(spaces) && AllShare(mem, spaces) && d in spaces && spaces[d].span == HALF
    requires IsWalk(spaces[d], q) && q[0] >= HALF
    ensures Walk(mem, spaces[d].root, q)
         == if Has(mem, spaces[d].root, q[0]) then Walk(mem, spaces[KERNEL].root, q) else None
  {
    if Has(mem, spaces[d].root, q[0]) {
      SharedWalk(mem, spaces[d].root, spaces[KERNEL].root, q);
    }
  }

  /** A structure of processor tables: the kernel's or a thread's. */
  predicate AddressSpace(spaces: map<Id, Space>, c: Id) {
    c in spaces && (c == KERNEL || spaces[c].span == HALF)
  }

  /** In every address space the last word of a path says what the whole path permits. */
  ghost predicate LastWordsDecide(mem: Memory, spaces: map<Id, Space>) {
    forall c, q | AddressSpace(spaces, c) && IsWalk(spaces[c], q) ::
      RightsOf(mem, spaces[c].root, q) == LastRights(Walk(mem, spaces[c].root, q))
  }

  lemma PathRights(mem: Memory, spaces: map<Id, Space>, free: set<Frame>, c: Id, q: seq<nat>)
    requires World(mem, spaces, free) && AddressSpace(spaces, c) && IsWalk(spaces[c], q)
    ensures RightsOf(mem, spaces[c].root, q) == LastRights(Walk(mem, spaces[c].root, q))
  {
    hide AllTrees, AllApart, NoneFree, Linked, Walk, AllHave, SomeHas;
    var s := spaces[c];
    assert IsLinked(mem, c, s) && IsLinked(mem, KERNEL, spaces[KERNEL]);
    if q[0] < s.span {
      LastDecides(mem, s.root, s.height, s.span, q);
    } else if Has(mem, s.root, q[0]) {
      SharedRights(mem, s.root, spaces[KERNEL].root, q);
      SharedWalk(mem, s.root, spaces[KERNEL].root, q);
      LastDecides(mem, spaces[KERNEL].root, 4, ENTRIES, q);
    } else {
      UpperWalk(mem, spaces, c, q);
    }
  }

  lemma WorldRights(mem: Memory, spaces: map<Id, Space>, free: set<Frame>)
    requires World(mem, spaces, free)
    ensures LastWordsDecide(mem, spaces)
  {
    hide World, Walk, RightsOf, LastRights;
    forall c, q | AddressSpace(spaces, c) && IsWalk(spaces[c], q)
      ensures RightsOf(mem, spaces[c].root, q) == LastRights(Walk(mem, spaces[c].root, q))
    {
      PathRights(mem, spaces, free, c, q);
    }
  }

  // ---------------------------------------------------------------- changes outside a structure

  lemma SpaceFrame(m1: Memory, m2: Memory, s: Space)
    requires SameOn(m1, m2, Tables(m1, s))
    ensures Tables(m2, s) == Tables(m1, s)
    ensures IsTree(m2, s) == IsTree(m1, s)
  {
    TreeFrame(m1, m2, s.root, s.height, 0, s.span);
  }

  lemma LinksFrame(m1: Memory, m2: Memory, c: Id, s: Space)
    requires SameOn(m1, m2, Tables(m1, s)) && IsLinked(m1, c, s)
    ensures IsLinked(m2, c, s)
  {
    LinkedFrame(m1, m2, s.root, s.height, 0, s.span, LawOf(c, s));
  }

  /** A space whose own tables are untouched keeps its translations if the kernel keeps the upper ones. */
  lemma WalkKept(m1: Memory, m2: Memory, spaces: map<Id, Space>, d: Id, q: seq<nat>)
    requires Shaped(spaces) && AllShare(m1, spaces) && AllShare(m2, spaces) && d in spaces
    requires SameOn(m1, m2, Tables(m1, spaces[d]))
    requires IsWalk(spaces[d], q)
    requires q[0] >= spaces[d].span ==> Walk(m2, spaces[KERNEL].root, q) == Walk(m1, spaces[KERNEL].root, q)
    ensures Walk(m2, spaces[d].root, q) == Walk(m1, spaces[d].root, q)
  {
    var s := spaces[d];
    if q[0] < s.span {
      WalkFrame(m1, m2, s.root, s.height, 0, s.span, q);
    } else {
      RootInTables(m1, s);
      UpperWalk(m1, spaces, d, q);
      UpperWalk(m2, spaces, d, q);
    }
  }

  /** Writing to frames that no structure owns changes nothing. */
  lemma WorldFrame(m1: Memory, m2: Memory, spaces: map<Id, Space>, free: set<Frame>)
    requires World(m1, spaces, free)
    requires SameOn(m1, m2, AllTables(m1, spaces))
    ensures World(m2, spaces, free)
    ensures forall d | d in spaces :: Tables(m2, spaces[d]) == Tables(m1, spaces[d])
    ensures AllTables(m2, spaces) == AllTables(m1, spaces)
    ensures forall d | d in spaces :: Agree(m1, m2, spaces[d])
  {
    forall d | d in spaces
      ensures SameOn(m1, m2, Tables(m1, spaces[d]))
      ensures Tables(m2, spaces[d]) == Tables(m1, spaces[d]) && IsTree(m2, spaces[d]) && IsLinked(m2, d, spaces[d])
    {
      SpaceFrame(m1, m2, spaces[d]);
      LinksFrame(m1, m2, d, spaces[d]);
    }
    SharesFrame(m1, m2, spaces);
    forall d, q | d in spaces && IsWalk(spaces[d], q)
      ensures Walk(m2, spaces[d].root, q) == Walk(m1, spaces[d].root, q)
    {
      if q[0] >= spaces[d].span {
        WalkKept(m1, m2, spaces, KERNEL, q);
      }
      WalkKept(m1, m2, spaces, d, q);
    }
  }

  lemma SharesFrame(m1: Memory, m2: Memory, spaces: map<Id, Space>)
    requires Shaped(spaces) && AllShare(m1, spaces)
    requires forall d | d in spaces :: SameOn(m1, m2, Tables(m1, spaces[d]))
    ensures AllShare(m2, spaces)
  {
    RootInTables(m1, spaces[KERNEL]);
    forall c | c in spaces && spaces[c].span == HALF
      ensures SharesUpper(m2, spaces[c].root, spaces[KERNEL].root)
    {
      RootInTables(m1, spaces[c]);
    }
  }

  // ---------------------------------------------------------------- changes inside a structure

  /** The upper root words that others may share are not overwritten. */
  ghost predicate RootKept(m1: Memory, m2: Memory, s: Space) {
    forall i: nat | HALF <= i < ENTRIES && (s.span == HALF || Has(m1, s.root, i)) :: At(m2, s.root)[i] == At(m1, s.root)[i]
  }

  lemma RootKeptTwice(m1: Memory, m2: Memory, m3: Memory, s: Space)
    requires RootKept(m1, m2, s) && RootKept(m2, m3, s)
    ensures RootKept(m1, m3, s)
  {
  }

  ghost predicate OthersKept(m1: Memory, m2: Memory, spaces: map<Id, Space>, c: Id) {
    forall d | d in spaces && d != c :: SameOn(m1, m2, Tables(m1, spaces[d]))
  }

  /** The roots of other structures are not written. */
  ghost predicate OtherRoots(m1: Memory, m2: Memory, spaces: map<Id, Space>, c: Id) {
    forall d | d in spaces && d != c :: At(m2, spaces[d].root) == At(m1, spaces[d].root)
  }

  lemma RootsOfOthers(m1: Memory, m2: Memory, spaces: map<Id, Space>, c: Id)
    requires OthersKept(m1, m2, spaces, c)
    ensures OtherRoots(m1, m2, spaces, c)
  {
    forall d | d in spaces && d != c
      ensures At(m2, spaces[d].root) == At(m1, spaces[d].root)
    {
      RootInTables(m1, spaces[d]);
    }
  }

  lemma SharesTouched(m1: Memory, m2: Memory, spaces: map<Id, Space>, c: Id)
    requires Shaped(spaces) && AllShare(m1, spaces) && c in spaces
    requires OthersKept(m1, m2, spaces, c) && RootKept(m1, m2, spaces[c])
    ensures AllShare(m2, spaces)
  {
    RootInTables(m1, spaces[KERNEL]);
    forall d | d in spaces && spaces[d].span == HALF
      ensures SharesUpper(m2, spaces[d].root, spaces[KERNEL].root)
    {
      RootInTables(m1, spaces[d]);
    }
  }

  /** One structure may take frames out of the free set and use them as tables. */
  lemma WorldTouched(m1: Memory, m2: Memory, spaces: map<Id, Space>, free: set<Frame>, c: Id, extra: set<Frame>)
    requires World(m1, spaces, free) && c in spaces && extra <= free
    requires OthersKept(m1, m2, spaces, c) && RootKept(m1, m2, spaces[c])
    requires IsTree(m2, spaces[c]) && Tables(m2, spaces[c]) == Tables(m1, spaces[c]) + extra && IsLinked(m2, c, spaces[c])
    ensures World(m2, spaces, free - extra)
    ensures forall d | d in spaces && d != c :: Tables(m2, spaces[d]) == Tables(m1, spaces[d])
    ensures AllTables(m2, spaces) == AllTables(m1, spaces) + extra
  {
    hide Tables, AllTables, IsTree, SharesUpper, RootKept, IsLinked;
    SharesTouched(m1, m2, spaces, c);
    forall d | d in spaces && d != c
      ensures Tables(m2, spaces[d]) == Tables(m1, spaces[d]) && IsTree(m2, spaces[d]) && IsLinked(m2, d, spaces[d])
    {
      SpaceFrame(m1, m2, spaces[d]);
      LinksFrame(m1, m2, d, spaces[d]);
    }
    TablesTouched(m1, m2, spaces, c, extra);
  }

  lemma WorldRewritten(m1: Memory, m2: Memory, spaces: map<Id, Space>, free: set<Frame>, c: Id)
    requires World(m1, spaces, free) && c in spaces
    requires OthersKept(m1, m2, spaces, c) && RootKept(m1, m2, spaces[c])
    requires IsTree(m2, spaces[c]) && Tables(m2, spaces[c]) == Tables(m1, spaces[c]) && IsLinked(m2, c, spaces[c])
    ensures World(m2, spaces, free)
    ensures AllTables(m2, spaces) == AllTables(m1, spaces)
  {
    hide Tables, AllTables, World, IsTree, OthersKept, RootKept, IsLinked;
    var none: set<Frame> := {};
    assert Tables(m1, spaces[c]) + none == Tables(m1, spaces[c]);
    WorldTouched(m1, m2, spaces, free, c, none);
    assert free - none == free;
    assert AllTables(m1, spaces) + none == AllTables(m1, spaces);
  }

  lemma TablesTouched(m1: Memory, m2: Memory, spaces: map<Id, Space>, c: Id, extra: set<Frame>)
    requires c in spaces && Tables(m2, spaces[c]) == Tables(m1, spaces[c]) + extra
    requires forall d | d in spaces && d != c :: Tables(m2, spaces[d]) == Tables(m1, spaces[d])
    ensures AllTables(m2, spaces) == AllTables(m1, spaces) + extra
  {
    forall g | g in AllTables(m2, spaces)
      ensures g in AllTables(m1, spaces) + extra
    {
      var d :| d in spaces && g in Tables(m2, spaces[d]);
      assert d != c ==> g in Tables(m1, spaces[d]);
    }
    forall g | g in AllTables(m1, spaces)
      ensures g in AllTables(m2, spaces)
    {
      var d :| d in spaces && g in Tables(m1, spaces[d]);
      assert g in Tables(m2, spaces[d]);
    }
    forall g | g in extra
      ensures g in AllTables(m2, spaces)
    {
      assert g in Tables(m2, spaces[c]);
    }
  }

  /**
   If a structure changes only its translation along `p`, then every structure does, and only a change
   to the upper half of the kernel's space can be seen by another.
   */
  lemma WalksTouched(m1: Memory, m2: Memory, spaces: map<Id, Space>, c: Id, p: seq<nat>)
    requires Shaped(spaces) && AllShare(m1, spaces) && AllShare(m2, spaces) && c in spaces
    requires OthersKept(m1, m2, spaces, c) && RootKept(m1, m2, spaces[c])
    requires forall q | IsWalk(spaces[c], q) && q[0] < spaces[c].span && q != p ::
               Walk(m2, spaces[c].root, q) == Walk(m1, spaces[c].root, q)
    ensures forall d | d in spaces :: AgreeBut(m1, m2, spaces[d], p)
    ensures Private(c, p) ==> forall d | d in spaces && d != c :: Agree(m1, m2, spaces[d])
  {
    forall q | IsWalk(spaces[KERNEL], q) && (c != KERNEL || q != p)
      ensures Walk(m2, spaces[KERNEL].root, q) == Walk(m1, spaces[KERNEL].root, q)
    {
      if c != KERNEL {
        WalkKept(m1, m2, spaces, KERNEL, q);
      }
    }
    forall d, q | d in spaces && IsWalk(spaces[d], q) && (q != p || (Private(c, p) && d != c))
      ensures Walk(m2, spaces[d].root, q) == Walk(m1, spaces[d].root, q)
    {
      if d != c {
        WalkKept(m1, m2, spaces, d, q);
      } else if q[0] >= spaces[c].span {
        UpperWalk(m1, spaces, c, q);
        UpperWalk(m2, spaces, c, q);
      }
    }
  }

  /** Linking a zeroed free frame as a new table: it changes hands and no translation changes anywhere. */
  lemma WorldLink(mem: Memory, spaces: map<Id, Space>, free: set<Frame>, c: Id, p: seq<nat>, i: nat, w: Word)
    requires World(mem, spaces, free) && c in spaces && w.frame in free
    requires Slot(spaces[c], p, i) && |p| + 2 <= spaces[c].height
    requires Reaches(mem, spaces[c].root, p) && !Has(mem, NodeAt(mem, spaces[c].root, p), i)
    requires w.Present() && BIT_HUGE !in w.bits && LawOf(c, spaces[c]).Permits(w.bits)
    ensures var m2 := Store(mem[w.frame := ZeroPage()], NodeAt(mem, spaces[c].root, p), i, w);
            && World(m2, spaces, free - {w.frame})
            && AllTables(m2, spaces) == AllTables(mem, spaces) + {w.frame}
            && Reaches(m2, spaces[c].root, p + [i]) && NodeAt(m2, spaces[c].root, p + [i]) == w.frame
            && forall d | d in spaces :: Agree(mem, m2, spaces[d])
  {
    var s := spaces[c];
    var t := NodeAt(mem, s.root, p);
    var m2 := Store(mem[w.frame := ZeroPage()], t, i, w);
    LinkTable(mem, s.root, s.height, 0, s.span, p, i, w);
    LinkLawful(mem, s.root, s.height, 0, s.span, p, i, w, LawOf(c, s));
    NodeInFrames(mem, s.root, s.height, 0, s.span, p);
    LinkKeepsOthers(mem, spaces, free, c, p, i, w);
    WorldTouched(mem, m2, spaces, free, c, {w.frame});
    forall q | IsWalk(s, q) && q[0] < s.span
      ensures Walk(m2, s.root, q) == Walk(mem, s.root, q)
    {
      LinkWalk(mem, s.root, s.height, 0, s.span, p, i, w, q);
    }
    WalksTouched(mem, m2, spaces, c, []);
  }

  /** The table at the end of a path is the structure's own. */
  lemma NodeOwned(mem: Memory, s: Space, p: seq<nat>)
    requires IsTree(mem, s) && s.span <= ENTRIES && IsPath(p) && |p| < s.height && Reaches(mem, s.root, p)
    requires p != [] ==> p[0] < s.span
    ensures NodeAt(mem, s.root, p) in Tables(mem, s)
    ensures p != [] ==> NodeAt(mem, s.root, p) != s.root
  {
    NodeInFrames(mem, s.root, s.height, 0, s.span, p);
    if p != [] {
      NodeBelow(mem, s.root, s.height, 0, s.span, p);
    }
  }

  lemma KeepOthers(m1: Memory, m2: Memory, spaces: map<Id, Space>, c: Id, fs: set<Frame>)
    requires SameOutside(m1, m2, fs)
    requires forall d | d in spaces && d != c :: fs !! Tables(m1, spaces[d])
    ensures OthersKept(m1, m2, spaces, c)
  {
  }

  lemma NotOthers(mem: Memory, spaces: map<Id, Space>, c: Id, t: Frame)
    requires AllApart(mem, spaces) && c in spaces && t in Tables(mem, spaces[c])
    ensures forall d | d in spaces && d != c :: t !in Tables(mem, spaces[d])
  {
  }

  lemma LinkKeepsOthers(mem: Memory, spaces: map<Id, Space>, free: set<Frame>, c: Id, p: seq<nat>, i: nat, w: Word)
    requires World(mem, spaces, free) && c in spaces && w.frame in free
    requires Slot(spaces[c], p, i) && |p| + 2 <= spaces[c].height
    requires Reaches(mem, spaces[c].root, p) && !Has(mem, NodeAt(mem, spaces[c].root, p), i)
    ensures var m2 := Store(mem[w.frame := ZeroPage()], NodeAt(mem, spaces[c].root, p), i, w);
            OthersKept(mem, m2, spaces, c) && RootKept(mem, m2, spaces[c])
  {
    var s := spaces[c];
    var t := NodeAt(mem, s.root, p);
    var m2 := Store(mem[w.frame := ZeroPage()], t, i, w);
    NodeOwned(mem, s, p);
    RootInTables(mem, s);
    hide Tables;
    NotOthers(mem, spaces, c, t);
    KeepOthers(mem, m2, spaces, c, {t, w.frame});
  }

  lemma LeafKeepsOthers(mem: Memory, spaces: map<Id, Space>, free: set<Frame>, c: Id, p: seq<nat>, i: nat, w: Word)
    requires World(mem, spaces, free) && c in spaces
    requires Slot(spaces[c], p, i) && |p| + 1 == spaces[c].height && Reaches(mem, spaces[c].root, p)
    ensures var m2 := Store(mem, NodeAt(mem, spaces[c].root, p), i, w);
            OthersKept(mem, m2, spaces, c) && RootKept(mem, m2, spaces[c])
  {
    var s := spaces[c];
    var t := NodeAt(mem, s.root, p);
    NodeOwned(mem, s, p);
    hide Tables;
    NotOthers(mem, spaces, c, t);
    KeepOthers(mem, Store(mem, t, i, w), spaces, c, {t});
  }

  /** Overwriting one innermost word keeps all ownership. */
  lemma WorldLeaf(mem: Memory, spaces: map<Id, Space>, free: set<Frame>, c: Id, p: seq<nat>, i: nat, w: Word)
    requires World(mem, spaces, free) && c in spaces
    requires Slot(spaces[c], p, i) && |p| + 1 == spaces[c].height && Reaches(mem, spaces[c].root, p)
    ensures var m2 := Store(mem, NodeAt(mem, spaces[c].root, p), i, w);
            World(m2, spaces, free) && AllTables(m2, spaces) == AllTables(mem, spaces)
  {
    var s := spaces[c];
    var m2 := Store(mem, NodeAt(mem, s.root, p), i, w);
    LeafKeepsOthers(mem, spaces, free, c, p, i, w);
    SetLeaf(mem, s.root, s.height, 0, s.span, p, i, w);
    LeafLawful(mem, s.root, s.height, 0, s.span, p, i, w, LawOf(c, s));
    WorldRewritten(mem, m2, spaces, free, c);
  }

  /** Only that translation changes, and nowhere else unless it is the kernel's. */
  lemma LeafWalks(mem: Memory, spaces: map<Id, Space>, free: set<Frame>, c: Id, p: seq<nat>, i: nat, w: Word)
    requires World(mem, spaces, free) && c in spaces
    requires Slot(spaces[c], p, i) && |p| + 1 == spaces[c].height && Reaches(mem, spaces[c].root, p)
    ensures var m2 := Store(mem, NodeAt(mem, spaces[c].root, p), i, w);
            && Walk(m2, spaces[c].root, p + [i]) == (if w.Present() then Some(w) else None)
            && (forall d | d in spaces :: AgreeBut(mem, m2, spaces[d], p + [i]))
            && (Private(c, p + [i]) ==> forall d | d in spaces && d != c :: Agree(mem, m2, spaces[d]))
  {
    var s := spaces[c];
    LeafKeepsOthers(mem, spaces, free, c, p, i, w);
    WorldLeaf(mem, spaces, free, c, p, i, w);
    forall q | IsWalk(s, q) && q[0] < s.span && q != p + [i]
      ensures Walk(Store(mem, NodeAt(mem, s.root, p), i, w), s.root, q) == Walk(mem, s.root, q)
    {
      SetLeafWalk(mem, s.root, s.height, 0, s.span, p, i, w, q);
    }
    SetLeafWalk(mem, s.root, s.height, 0, s.span, p, i, w, p + [i]);
    WalksTouched(mem, Store(mem, NodeAt(mem, s.root, p), i, w), spaces, c, p + [i]);
  }

  // ---------------------------------------------------------------- structures come and go

  /** A finished tree of frames that nobody owns becomes a structure. */
  lemma WorldAdd(mem: Memory, spaces: map<Id, Space>, free: set<Frame>, c: Id, s: Space)
    requires World(mem, spaces, free) && c !in spaces && Shape(s) && IsTree(mem, s) && IsLinked(mem, c, s)
    requires Tables(mem, s) !! free && Tables(mem, s) !! AllTables(mem, spaces)
    requires s.span == HALF ==> SharesUpper(mem, s.root, spaces[KERNEL].root)
    ensures World(mem, spaces[c := s], free)
    ensures AllTables(mem, spaces[c := s]) == AllTables(mem, spaces) + Tables(mem, s)
  {
    AddTables(mem, spaces, c, s);
    AddApart(mem, spaces, c, s);
  }

  lemma AddApart(mem: Memory, spaces: map<Id, Space>, c: Id, s: Space)
    requires AllApart(mem, spaces) && c !in spaces && Tables(mem, s) !! AllTables(mem, spaces)
    ensures AllApart(mem, spaces[c := s])
  {
    forall d | d in spaces
      ensures Tables(mem, s) !! Tables(mem, spaces[d])
    {
      assert Tables(mem, spaces[d]) <= AllTables(mem, spaces);
    }
  }

  lemma AddTables(mem: Memory, spaces: map<Id, Space>, c: Id, s: Space)
    requires c !in spaces
    ensures AllTables(mem, spaces[c := s]) == AllTables(mem, spaces) + Tables(mem, s)
  {
    var now := spaces[c := s];
    forall g | g in AllTables(mem, now)
      ensures g in AllTables(mem, spaces) + Tables(mem, s)
    {
      var d :| d in now && g in Tables(mem, now[d]);
      assert d != c ==> d in spaces && g in Tables(mem, spaces[d]);
    }
    forall g | g in AllTables(mem, spaces) + Tables(mem, s)
      ensures g in AllTables(mem, now)
    {
      if g in AllTables(mem, spaces) {
        var d :| d in spaces && g in Tables(mem, spaces[d]);
        assert g in Tables(mem, now[d]);
      } else {
        assert g in Tables(mem, now[c]);
      }
    }
  }

  /** A structure other than the kernel's is given up; its tables are then nobody's. */
  lemma WorldRemove(mem: Memory, spaces: map<Id, Space>, free: set<Frame>, c: Id)
    requires World(mem, spaces, free) && c in spaces && c != KERNEL
    ensures World(mem, spaces - {c}, free)
    ensures AllTables(mem, spaces - {c}) == AllTables(mem, spaces) - Tables(mem, spaces[c])
    ensures Tables(mem, spaces[c]) !! free
  {
    RemoveTables(mem, spaces, c);
  }

  lemma RemoveTables(mem: Memory, spaces: map<Id, Space>, c: Id)
    requires AllApart(mem, spaces) && c in spaces
    ensures AllTables(mem, spaces - {c}) == AllTables(mem, spaces) - Tables(mem, spaces[c])
  {
    var now := spaces - {c};
    forall g | g in AllTables(mem, spaces) - Tables(mem, spaces[c])
      ensures g in AllTables(mem, now)
    {
      var d :| d in spaces && g in Tables(mem, spaces[d]);
      assert d in now && g in Tables(mem, now[d]);
    }
    forall g | g in AllTables(mem, now)
      ensures g in AllTables(mem, spaces) - Tables(mem, spaces[c])
    {
      var d :| d in now && g in Tables(mem, now[d]);
      assert d in spaces && g in Tables(mem, spaces[d]);
    }
  }

  /** The free set may change as long as it stays clear of all tables. */
  lemma WorldFree(mem: Memory, spaces: map<Id, Space>, free: set<Frame>, free2: set<Frame>)
    requires World(mem, spaces, free) && free2 !! AllTables(mem, spaces)
    ensures World(mem, spaces, free2)
  {
    forall c | c in spaces
      ensures Tables(mem, spaces[c]) <= AllTables(mem, spaces)
    {
    }
  }

  lemma FreeIsNotTables(mem: Memory, spaces: map<Id, Space>, free: set<Frame>)
    requires World(mem, spaces, free)
    ensures free !! AllTables(mem, spaces)
  {
  }
}
