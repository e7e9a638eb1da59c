/** Copying an address space: the lower half deeply, the upper half by sharing the kernel's tables. */
module Clone {
  import opened Wrappers
  import opened RadixTree
  import opened Links
  import opened Ownership
  import opened VirtualAddress
  import opened Machine

  /** Below its first `n` entries, `g` in `m2` translates as `f` did in `m1`. */
  ghost predicate Copied(m1: Memory, f: Frame, m2: Memory, g: Frame, h: nat, n: nat) {
    forall q | IsPath(q) && |q| == h && h >= 1 && q[0] < n :: Walk(m2, g, q) == Walk(m1, f, q)
  }

  /**
   A copy under way: `g` is a tree of exactly the frames taken so far, the first `n` entries are
   copied, the others are still zero, and no other frame was written.
   */
  ghost predicate CopyState(m1: Memory, free1: set<Frame>, f: Frame, m2: Memory, free2: set<Frame>, g: Frame, h: nat, n: nat) {
    && n <= ENTRIES && free2 <= free1
    && SameOutside(m1, m2, free1 - free2)
    && Tree(m2, g, h, 0, n) && Frames(m2, g, h, 0, n) == free1 - free2
    && (forall j | n <= j < ENTRIES :: At(m2, g)[j] == ZERO)
    && Copied(m1, f, m2, g, h, n)
    && Linked(m2, g, h, 0, n, PROCESSOR)
  }

  /** Writing only frames taken from the free set disturbs no structure. */
  lemma WorldFresh(m1: Memory, m2: Memory, spaces: map<Id, Space>, free1: set<Frame>, free2: set<Frame>)
    requires World(m1, spaces, free1) && free2 <= free1 && SameOutside(m1, m2, free1 - free2)
    ensures World(m2, spaces, free2)
    ensures AllTables(m2, spaces) == AllTables(m1, spaces)
    ensures forall d | d in spaces :: Agree(m1, m2, spaces[d]) && Tables(m2, spaces[d]) == Tables(m1, spaces[d])
  {
    hide World, Tables, AllTables, Agree;
    FreeIsNotTables(m1, spaces, free1);
    WorldFrame(m1, m2, spaces, free1);
    WorldFree(m2, spaces, free1, free2);
  }

  lemma CopyStart(m1: Memory, free1: set<Frame>, f: Frame, g: Frame, h: nat)
    requires g in free1
    ensures CopyState(m1, free1, f, m1[g := ZeroPage()], free1 - {g}, g, h, 0)
  {
    NoEntries(m1[g := ZeroPage()], g, h, 0);
    assert free1 - (free1 - {g}) == {g};
  }

  /** An entry of an innermost table is copied as it is. */
  lemma CopyWord(m1: Memory, free1: set<Frame>, f: Frame, m2: Memory, free2: set<Frame>, g: Frame, i: nat)
    requires CopyState(m1, free1, f, m2, free2, g, 1, i) && i < ENTRIES && At(m2, f) == At(m1, f)
    ensures CopyState(m1, free1, f, Store(m2, g, i, At(m2, f)[i]), free2, g, 1, i + 1)
  {
    var m3 := Store(m2, g, i, At(m2, f)[i]);
    RootInFrames(m2, g, 1, 0, i);
    assert Frames(m3, g, 1, 0, i + 1) == {g};
    forall q | IsPath(q) && |q| == 1 && q[0] < i + 1
      ensures Walk(m3, g, q) == Walk(m1, f, q)
    {
      if q[0] < i {
        assert Walk(m2, g, q) == Walk(m1, f, q);
      }
    }
  }

  /** An absent inner entry is left zero. */
  lemma CopyAbsent(m1: Memory, free1: set<Frame>, f: Frame, m2: Memory, free2: set<Frame>, g: Frame, h: nat, i: nat)
    requires CopyState(m1, free1, f, m2, free2, g, h, i) && i < ENTRIES && h >= 2 && !Has(m1, f, i)
    ensures CopyState(m1, free1, f, m2, free2, g, h, i + 1)
  {
    SkipKid(m2, g, h, 0, i);
    LinkedNext(m2, g, h, i, PROCESSOR);
  }

  /** A present inner entry is copied by copying the tree below it and linking the copy. */
  lemma CopyKid(m1: Memory, free1: set<Frame>, f: Frame, m2: Memory, free2: set<Frame>, g: Frame, h: nat, i: nat,
                m3: Memory, free3: set<Frame>, w: Word)
    requires CopyState(m1, free1, f, m2, free2, g, h, i) && i < ENTRIES && h >= 2 && Has(m1, f, i)
    requires w.Present() && BIT_HUGE !in w.bits && PROCESSOR.Permits(w.bits)
    requires CopyState(m2, free2, Kid(m1, f, i), m3, free3, w.frame, h - 1, ENTRIES)
    requires Copied(m1, Kid(m1, f, i), m2, Kid(m1, f, i), h - 1, ENTRIES)
    ensures CopyState(m1, free1, f, Store(m3, g, i, w), free3, g, h, i + 1)
  {
    hide Tree, Frames, Linked;
    var m4 := Store(m3, g, i, w);
    RootInFrames(m2, g, h, 0, i);
    assert SameOn(m2, m3, Frames(m2, g, h, 0, i));
    TreeFrame(m2, m3, g, h, 0, i);
    LinkedFrame(m2, m3, g, h, 0, i, PROCESSOR);
    GraftKid(m3, g, h, i, w);
    GraftLawful(m3, g, h, i, w, PROCESSOR);
    assert (free1 - free2) + (free2 - free3) == free1 - free3;
    CopyKidWalks(m1, free1, f, m2, free2, g, h, i, m3, free3, w);
  }

  lemma CopyKidWalks(m1: Memory, free1: set<Frame>, f: Frame, m2: Memory, free2: set<Frame>, g: Frame, h: nat, i: nat,
                     m3: Memory, free3: set<Frame>, w: Word)
    requires CopyState(m1, free1, f, m2, free2, g, h, i) && i < ENTRIES && h >= 2 && Has(m1, f, i)
    requires w.Present() && CopyState(m2, free2, Kid(m1, f, i), m3, free3, w.frame, h - 1, ENTRIES)
    requires Copied(m1, Kid(m1, f, i), m2, Kid(m1, f, i), h - 1, ENTRIES)
    ensures Copied(m1, f, Store(m3, g, i, w), g, h, i + 1)
  {
    hide Tree, Frames;
    var m4 := Store(m3, g, i, w);
    RootInFrames(m2, g, h, 0, i);
    forall q | IsPath(q) && |q| == h && q[0] < i + 1
      ensures Walk(m4, g, q) == Walk(m1, f, q)
    {
      if q[0] < i {
        assert Walk(m2, g, q) == Walk(m1, f, q);
        EarlierKid(m2, m4, g, h, i, q[0], free2);
        KidWalk(m2, m4, g, h, q);
      } else {
        assert Walk(m3, w.frame, q[1..]) == Walk(m2, Kid(m1, f, i), q[1..]) == Walk(m1, Kid(m1, f, i), q[1..]);
        WalkFrame(m3, m4, w.frame, h - 1, 0, ENTRIES, q[1..]);
      }
    }
  }

  lemma EarlierKid(m2: Memory, m4: Memory, g: Frame, h: nat, i: nat, j: nat, free2: set<Frame>)
    requires h >= 2 && j < i <= ENTRIES && Tree(m2, g, h, 0, i) && Frames(m2, g, h, 0, i) !! free2
    requires forall x: Frame | x !in free2 && x != g :: At(m4, x) == At(m2, x)
    ensures SameOn(m2, m4, KidFrames(m2, g, h, j))
  {
    KidInFrames(m2, g, h, 0, i, j);
    if Has(m2, g, j) {
      TreeKid(m2, g, h, 0, i, j);
    }
  }

  /** The table being copied is a live one, so taking frames from the free set does not touch it. */
  ghost predicate Source(mem: Memory, spaces: map<Id, Space>, free: set<Frame>, f: Frame, h: nat, hi: nat) {
    && World(mem, spaces, free)
    && Tree(mem, f, h, 0, hi) && Frames(mem, f, h, 0, hi) <= AllTables(mem, spaces)
    && Linked(mem, f, h, 0, hi, PROCESSOR)
  }

  lemma SourceKid(m1: Memory, m2: Memory, spaces: map<Id, Space>, free1: set<Frame>, free2: set<Frame>, f: Frame, h: nat, hi: nat, i: nat)
    requires Source(m1, spaces, free1, f, h, hi) && h >= 2 && i < hi <= ENTRIES && Has(m1, f, i)
    requires free2 <= free1 && SameOutside(m1, m2, free1 - free2)
    ensures At(m2, f) == At(m1, f) && BIT_HUGE !in At(m1, f)[i].bits && PROCESSOR.Permits(At(m1, f)[i].bits)
    ensures Source(m2, spaces, free2, Kid(m1, f, i), h - 1, ENTRIES)
    ensures Copied(m1, Kid(m1, f, i), m2, Kid(m1, f, i), h - 1, ENTRIES)
  {
    hide World, Tree, Frames, KidFrames, AllTables, Linked;
    WorldFresh(m1, m2, spaces, free1, free2);
    FreeIsNotTables(m1, spaces, free1);
    RootInFrames(m1, f, h, 0, hi);
    TreeKid(m1, f, h, 0, hi, i);
    KidInFrames(m1, f, h, 0, hi, i);
    var kid := Kid(m1, f, i);
    assert SameOn(m1, m2, Frames(m1, kid, h - 1, 0, ENTRIES));
    TreeFrame(m1, m2, kid, h - 1, 0, ENTRIES);
    LinkedKid(m1, f, h, 0, hi, PROCESSOR, i);
    LinkedFrame(m1, m2, kid, h - 1, 0, ENTRIES, PROCESSOR);
    forall q | IsPath(q) && |q| == h - 1 && h - 1 >= 1 && q[0] < ENTRIES
      ensures Walk(m2, kid, q) == Walk(m1, kid, q)
    {
      WalkFrame(m1, m2, kid, h - 1, 0, ENTRIES, q);
    }
  }

  lemma SourceRoot(m1: Memory, m2: Memory, spaces: map<Id, Space>, free1: set<Frame>, free2: set<Frame>, f: Frame, h: nat, hi: nat)
    requires Source(m1, spaces, free1, f, h, hi) && free2 <= free1 && SameOutside(m1, m2, free1 - free2)
    ensures At(m2, f) == At(m1, f)
  {
    hide World, Tree, AllTables;
    FreeIsNotTables(m1, spaces, free1);
    RootInFrames(m1, f, h, 0, hi);
  }

  /** Copy an innermost table word by word. */
  method ClonePt(m: Memories, f: Frame) returns (g: Option<Frame>)
    requires m.pmm.Valid() && InRam(m.pmm.Frames()) && Source(m.mem, m.spaces, m.pmm.Frames(), f, 1, ENTRIES)
    modifies m`mem, m.pmm, m.pmm.stack
    ensures g.Some? ==> m.pmm.Valid() && g.value < RAM_LIMIT
    ensures g.Some? ==> CopyState(old(m.mem), old(m.pmm.Frames()), f, m.mem, m.pmm.Frames(), g.value, 1, ENTRIES)
    ensures g.None? ==> m.pmm.OutOfFrames()
  {
    hide Source, CopyState, InRam, Tree, Frames;
    ghost var m1, free1 := m.mem, m.pmm.Frames();
    g := m.TakeFrame();
    if g.None? {
      return None;
    }
    CopyStart(m1, free1, f, g.value, 1);
    m.mem := m.mem[g.value := ZeroPage()];
    var i := 0;
    while i < ENTRIES
      invariant i <= ENTRIES && m.pmm.Valid() && m.spaces == old(m.spaces)
      invariant CopyState(m1, free1, f, m.mem, m.pmm.Frames(), g.value, 1, i)
    {
      CopyFacts(m1, free1, f, m.mem, m.pmm.Frames(), g.value, 1, i);
      SourceRoot(m1, m.mem, m.spaces, free1, m.pmm.Frames(), f, 1, ENTRIES);
      CopyWord(m1, free1, f, m.mem, m.pmm.Frames(), g.value, i);
      m.mem := Store(m.mem, g.value, i, At(m.mem, f)[i]);
      i := i + 1;
    }
  }

  lemma CopyFacts(m1: Memory, free1: set<Frame>, f: Frame, m2: Memory, free2: set<Frame>, g: Frame, h: nat, n: nat)
    requires CopyState(m1, free1, f, m2, free2, g, h, n)
    ensures free2 <= free1 && SameOutside(m1, m2, free1 - free2)
  {
  }

  /** Copy the tables below the first `hi` entries of `f`. */
  method CloneTable(m: Memories, f: Frame, h: nat, hi: nat) returns (g: Option<Frame>)
    requires h >= 2 && hi <= ENTRIES && m.pmm.Valid() && InRam(m.pmm.Frames())
    requires Source(m.mem, m.spaces, m.pmm.Frames(), f, h, hi)
    modifies m`mem, m.pmm, m.pmm.stack
    ensures g.Some? ==> m.pmm.Valid() && g.value < RAM_LIMIT
    ensures g.Some? ==> CopyState(old(m.mem), old(m.pmm.Frames()), f, m.mem, m.pmm.Frames(), g.value, h, hi)
    ensures g.None? ==> m.pmm.OutOfFrames()
    decreases h
  {
    hide Source, CopyState, Copied, Tree, Frames, Law.Permits;
    ghost var m1, free1 := m.mem, m.pmm.Frames();
    g := m.TakeFrame();
    if g.None? {
      return None;
    }
    CopyStart(m1, free1, f, g.value, h);
    m.mem := m.mem[g.value := ZeroPage()];
    var i := 0;
    while i < hi
      invariant i <= hi && m.pmm.Valid() && m.spaces == old(m.spaces)
      invariant CopyState(m1, free1, f, m.mem, m.pmm.Frames(), g.value, h, i)
    {
      ghost var m2, free2 := m.mem, m.pmm.Frames();
      CopyFacts(m1, free1, f, m2, free2, g.value, h, i);
      SourceRoot(m1, m2, m.spaces, free1, free2, f, h, hi);
      var entry := At(m.mem, f)[i];
      if entry.Present() {
        SourceKid(m1, m2, m.spaces, free1, free2, f, h, hi, i);
        if BIT_HUGE !in entry.bits {
          var kid;
          if h == 2 {
            kid := ClonePt(m, entry.frame);
          } else {
            kid := CloneTable(m, entry.frame, h - 1, ENTRIES);
          }
          if kid.None? {
            return None;
          }
          var w := Word(kid.value % FRAME_NUMBERS, entry.bits);
          FrameFits(kid.value);
          CopyKid(m1, free1, f, m2, free2, g.value, h, i, m.mem, m.pmm.Frames(), w);
          m.mem := Store(m.mem, g.value, i, w);
        }
      } else {
        CopyAbsent(m1, free1, f, m2, free2, g.value, h, i);
      }
      i := i + 1;
    }
  }

  // ---------------------------------------------------------------- the upper half

  /** Writing a root entry beyond the first `n` leaves everything below those alone. */
  lemma StoreBeyond(m1: Memory, g: Frame, h: nat, n: nat, i: nat, w: Word)
    requires Tree(m1, g, h, 0, n) && h >= 2 && n <= i < ENTRIES
    ensures var m2 := Store(m1, g, i, w);
            && Tree(m2, g, h, 0, n) && Frames(m2, g, h, 0, n) == Frames(m1, g, h, 0, n)
            && Copied(m1, g, m2, g, h, n)
            && (Linked(m1, g, h, 0, n, PROCESSOR) ==> Linked(m2, g, h, 0, n, PROCESSOR))
  {
    if Linked(m1, g, h, 0, n, PROCESSOR) {
      BeyondLawful(m1, g, h, n, i, w, PROCESSOR);
    }
    var m2 := Store(m1, g, i, w);
    forall j: nat | j < n
      ensures SameOn(m1, m2, KidFrames(m1, g, h, j))
    {
      assert g !in KidFrames(m1, g, h, j);
    }
    KeptKids(m1, m2, g, h, 0, n, ENTRIES);
    GraftFrames(m1, m2, g, h, n);
    hide Frames, KidFrames;
    forall q | IsPath(q) && |q| == h && q[0] < n
      ensures Walk(m2, g, q) == Walk(m1, g, q)
    {
      KidWalk(m1, m2, g, h, q);
    }
  }

  /** The lower half is copied, and upper root words up to `i` are shared. */
  ghost predicate RootState(m1: Memory, free1: set<Frame>, f: Frame, m2: Memory, free2: set<Frame>, g: Frame, i: nat) {
    && HALF <= i <= ENTRIES && free2 <= free1
    && SameOutside(m1, m2, free1 - free2)
    && Tree(m2, g, 4, 0, HALF) && Frames(m2, g, 4, 0, HALF) == free1 - free2
    && Copied(m1, f, m2, g, 4, HALF)
    && Linked(m2, g, 4, 0, HALF, PROCESSOR)
    && forall j | HALF <= j < i :: At(m2, g)[j] == At(m1, f)[j]
  }

  lemma RootStart(m1: Memory, free1: set<Frame>, f: Frame, m2: Memory, free2: set<Frame>, g: Frame)
    requires CopyState(m1, free1, f, m2, free2, g, 4, HALF)
    ensures RootState(m1, free1, f, m2, free2, g, HALF)
  {
  }

  lemma RootStep(m1: Memory, free1: set<Frame>, f: Frame, m2: Memory, free2: set<Frame>, g: Frame, i: nat)
    requires RootState(m1, free1, f, m2, free2, g, i) && i < ENTRIES && At(m2, f) == At(m1, f)
    ensures RootState(m1, free1, f, Store(m2, g, i, At(m2, f)[i]), free2, g, i + 1)
  {
    hide Tree, Frames, Linked;
    RootInFrames(m2, g, 4, 0, HALF);
    StoreBeyond(m2, g, 4, HALF, i, At(m2, f)[i]);
    var m3 := Store(m2, g, i, At(m2, f)[i]);
    forall q | IsPath(q) && |q| == 4 && q[0] < HALF
      ensures Walk(m3, g, q) == Walk(m1, f, q)
    {
      assert Walk(m2, g, q) == Walk(m1, f, q);
    }
  }

  lemma RootFacts(m1: Memory, free1: set<Frame>, f: Frame, m2: Memory, free2: set<Frame>, g: Frame, i: nat)
    requires RootState(m1, free1, f, m2, free2, g, i)
    ensures free2 <= free1 && SameOutside(m1, m2, free1 - free2)
  {
  }

  /** The finished copy is a structure of its own that translates every address as the original does. */
  lemma RootDone(m1: Memory, free1: set<Frame>, spaces: map<Id, Space>, src: Id, dst: Id, m2: Memory, free2: set<Frame>, g: Frame)
    requires World(m1, spaces, free1) && src in spaces && dst !in spaces && spaces[src].height == 4 && HALF <= spaces[src].span
    requires spaces[src].span == ENTRIES ==> src == KERNEL
    requires RootState(m1, free1, spaces[src].root, m2, free2, g, ENTRIES)
    ensures var s := Space(g, 4, HALF);
            && World(m2, spaces[dst := s], free2)
            && free2 + AllTables(m2, spaces[dst := s]) == free1 + AllTables(m1, spaces)
            && Tables(m2, s) == free1 - free2
            && (forall d | d in spaces :: Agree(m1, m2, spaces[d]))
            && (forall q | IsWalk(s, q) :: Walk(m2, g, q) == Walk(m1, spaces[src].root, q))
            && (forall j | HALF <= j < ENTRIES :: At(m2, g)[j] == At(m1, spaces[src].root)[j])
  {
    hide Tree, Frames, AllTables, Agree, AllTrees, AllApart, NoneFree, AllLinked, Linked;
    var f := spaces[src].root;
    var s := Space(g, 4, HALF);
    WorldFresh(m1, m2, spaces, free1, free2);
    FreeIsNotTables(m1, spaces, free1);
    OwnRoot(m1, spaces, src);
    assert At(m2, f) == At(m1, f);
    WorldAdd(m2, spaces, free2, dst, s);
    assert free2 + (AllTables(m1, spaces) + (free1 - free2)) == free1 + AllTables(m1, spaces);
    RootWalks(m1, free1, spaces, src, m2, free2, g);
  }

  lemma OwnRoot(mem: Memory, spaces: map<Id, Space>, c: Id)
    requires c in spaces
    ensures spaces[c].root in AllTables(mem, spaces)
  {
    RootInTables(mem, spaces[c]);
  }

  lemma RootWalks(m1: Memory, free1: set<Frame>, spaces: map<Id, Space>, src: Id, m2: Memory, free2: set<Frame>, g: Frame)
    requires src in spaces && spaces[src].height == 4 && Agree(m1, m2, spaces[src])
    requires RootState(m1, free1, spaces[src].root, m2, free2, g, ENTRIES)
    requires At(m2, spaces[src].root) == At(m1, spaces[src].root)
    ensures forall q | IsPath(q) && |q| == 4 :: Walk(m2, g, q) == Walk(m1, spaces[src].root, q)
  {
    hide Tree, Frames;
    forall q | IsPath(q) && |q| == 4
      ensures Walk(m2, g, q) == Walk(m1, spaces[src].root, q)
    {
      if q[0] >= HALF {
        SharedWalk(m2, g, spaces[src].root, q);
        assert IsWalk(spaces[src], q);
      }
    }
  }

  /**
   Clone an address space into an unused one.  The clone translates every address as the original
   does, shares no lower-half table with anyone, and no existing translation changes.
   */
  method ClonePagingInfo(m: Memories, src: Id, dst: Id) returns (ok: bool)
    requires m.Valid() && src in m.spaces && dst !in m.spaces
    requires src == KERNEL || (m.spaces[src].height == 4 && m.spaces[src].span == HALF)
    modifies m, m.pmm, m.pmm.stack
    ensures ok ==> m.Valid() && m.Pool() == old(m.Pool()) && m.pmm.Frames() <= old(m.pmm.Frames())
    ensures ok ==> m.spaces.Keys == old(m.spaces).Keys + {dst} && m.spaces == old(m.spaces)[dst := m.spaces[dst]]
    ensures ok ==> m.spaces[dst].height == 4 && m.spaces[dst].span == HALF
    ensures ok ==> Tables(m.mem, m.spaces[dst]) == old(m.pmm.Frames()) - m.pmm.Frames()
    ensures ok ==> SameOutside(old(m.mem), m.mem, old(m.pmm.Frames()) - m.pmm.Frames())
    ensures ok ==> forall d | d in old(m.spaces) :: Agree(old(m.mem), m.mem, m.spaces[d])
    ensures ok ==> forall q | IsWalk(m.spaces[dst], q) ::
                     Walk(m.mem, m.spaces[dst].root, q) == old(Walk(m.mem, m.spaces[src].root, q))
    ensures ok ==> forall q | IsWalk(m.spaces[dst], q) ::
                     RightsOf(m.mem, m.spaces[dst].root, q) == old(RightsOf(m.mem, m.spaces[src].root, q))
    ensures ok ==> forall i | HALF <= i < ENTRIES :: At(m.mem, m.spaces[dst].root)[i] == old(At(m.mem, m.spaces[src].root)[i])
    ensures !ok ==> m.pmm.OutOfFrames()
  {
    hide RootState, CopyState, Source, Tree, Frames, Tables, AllTables, Agree, Walk, World, InRam, RightsOf;
    ghost var m1, free1 := m.mem, m.pmm.Frames();
    var f := m.spaces[src].root;
    CloneSource(m1, m.spaces, free1, src);
    InRamSubset(m.pmm.Frames(), m.Pool());
    var g := CloneTable(m, f, 4, HALF);
    if g.None? {
      return false;
    }
    RootStart(m1, free1, f, m.mem, m.pmm.Frames(), g.value);
    var i := HALF;
    while i < ENTRIES
      invariant HALF <= i <= ENTRIES && m.pmm.Valid() && m.spaces == old(m.spaces)
      invariant RootState(m1, free1, f, m.mem, m.pmm.Frames(), g.value, i)
    {
      RootFacts(m1, free1, f, m.mem, m.pmm.Frames(), g.value, i);
      SourceRoot(m1, m.mem, m.spaces, free1, m.pmm.Frames(), f, 4, HALF);
      RootStep(m1, free1, f, m.mem, m.pmm.Frames(), g.value, i);
      m.mem := Store(m.mem, g.value, i, At(m.mem, f)[i]);
      i := i + 1;
    }
    RootFacts(m1, free1, f, m.mem, m.pmm.Frames(), g.value, ENTRIES);
    RootDone(m1, free1, m.spaces, src, dst, m.mem, m.pmm.Frames(), g.value);
    CloneRights(m1, m.mem, m.spaces, free1, m.pmm.Frames(), src, dst, Space(g.value, 4, HALF));
    m.spaces := m.spaces[dst := Space(g.value, 4, HALF)];
    return true;
  }

  /** The same last words give the same rights. */
  lemma CloneRights(m1: Memory, m2: Memory, spaces: map<Id, Space>, free1: set<Frame>, free2: set<Frame>, src: Id, dst: Id, s: Space)
    requires World(m1, spaces, free1) && World(m2, spaces[dst := s], free2) && s.height == 4 && s.span == HALF
    requires AddressSpace(spaces, src) && spaces[src].height == 4
    requires forall q | IsWalk(s, q) :: Walk(m2, s.root, q) == Walk(m1, spaces[src].root, q)
    ensures forall q | IsWalk(s, q) :: RightsOf(m2, s.root, q) == RightsOf(m1, spaces[src].root, q)
  {
    hide World, Walk, RightsOf, LastRights;
    forall q | IsWalk(s, q)
      ensures RightsOf(m2, s.root, q) == RightsOf(m1, spaces[src].root, q)
    {
      PathRights(m1, spaces, free1, src, q);
      PathRights(m2, spaces[dst := s], free2, dst, q);
    }
  }

  lemma InRamSubset(a: set<Frame>, b: set<Frame>)
    requires a <= b && InRam(b)
    ensures InRam(a)
  {
  }

  /** The lower half of a space is a live tree. */
  lemma CloneSource(mem: Memory, spaces: map<Id, Space>, free: set<Frame>, src: Id)
    requires World(mem, spaces, free) && src in spaces
    requires src == KERNEL || (spaces[src].height == 4 && spaces[src].span == HALF)
    ensures Source(mem, spaces, free, spaces[src].root, 4, HALF)
    ensures spaces[src].height == 4 && (spaces[src].span == HALF || spaces[src].span == ENTRIES)
  {
    var s := spaces[src];
    LowerHalf(mem, s.root, s.span);
    assert IsLinked(mem, src, s);
    LinkedPart(mem, s.root, 4, s.span, HALF, PROCESSOR);
    assert Tables(mem, s) <= AllTables(mem, spaces);
  }

  lemma LowerHalf(mem: Memory, f: Frame, span: nat)
    requires Tree(mem, f, 4, 0, span) && HALF <= span
    ensures Tree(mem, f, 4, 0, HALF) && Frames(mem, f, 4, 0, HALF) <= Frames(mem, f, 4, 0, span)
  {
    hide KidFrames;
  }
}
