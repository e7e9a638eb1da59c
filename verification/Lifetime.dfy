/** Address spaces come and go: creation, and teardown that gives back every table once. */
module Lifetime {
  import opened Wrappers
  import opened RadixTree
  import opened Links
  import opened Ownership
  import opened FrameRuns
  import opened FrameAllocator
  import opened VirtualAddress
  import opened Machine

  /** A new, empty address space. */
  method Init(m: Memories, c: Id) returns (ok: bool)
    requires m.Valid() && c !in m.spaces
    modifies m, m.pmm, m.pmm.stack
    ensures ok ==> m.Valid() && m.Pool() == old(m.Pool()) && m.pmm.Frames() <= old(m.pmm.Frames())
    ensures ok ==> m.spaces.Keys == old(m.spaces).Keys + {c} && m.spaces == old(m.spaces)[c := m.spaces[c]]
    ensures ok ==> m.spaces[c].height == 4 && m.spaces[c].span == HALF && Tables(m.mem, m.spaces[c]) <= old(m.pmm.Frames())
    ensures ok ==> forall q | IsWalk(m.spaces[c], q) :: Walk(m.mem, m.spaces[c].root, q) == None
    ensures ok ==> forall d | d in old(m.spaces) :: Agree(old(m.mem), m.mem, m.spaces[d])
    ensures ok ==> SameOutside(old(m.mem), m.mem, old(m.Pool()))
    ensures !ok ==> m.pmm.OutOfFrames()
  {
    hide World, Tables, AllTables, Agree;
    ghost var free := m.pmm.Frames();
    var g := m.TakeFrame();
    if g.None? {
      return false;
    }
    InitStep(m.mem, m.spaces, free, c, g.value);
    m.mem := m.mem[g.value := ZeroPage()];
    m.spaces := m.spaces[c := Space(g.value, 4, HALF)];
    return true;
  }

  lemma InitStep(mem: Memory, spaces: map<Id, Space>, free: set<Frame>, c: Id, g: Frame)
    requires World(mem, spaces, free) && c !in spaces && g in free
    ensures var m2 := mem[g := ZeroPage()];
            var s := Space(g, 4, HALF);
            && World(m2, spaces[c := s], free - {g})
            && (free - {g}) + AllTables(m2, spaces[c := s]) == free + AllTables(mem, spaces)
            && Tables(m2, s) == {g}
            && SameOutside(mem, m2, free + AllTables(mem, spaces))
            && (forall q | IsWalk(s, q) :: Walk(m2, g, q) == None)
            && forall d | d in spaces :: Agree(mem, m2, spaces[d])
  {
    hide Tables, AllTables, Agree, AllTrees, AllApart, NoneFree, AllShare, AllLinked;
    var m2 := mem[g := ZeroPage()];
    var s := Space(g, 4, HALF);
    FreeIsNotTables(mem, spaces, free);
    assert SameOn(mem, m2, AllTables(mem, spaces));
    WorldFrame(mem, m2, spaces, free);
    EmptySpace(m2, g);
    NothingLinked(m2, g, 4, 0, HALF, PROCESSOR);
    WorldFree(m2, spaces, free, free - {g});
    WorldAdd(m2, spaces, free - {g}, c, s);
    SetMove(free, AllTables(mem, spaces), AllTables(m2, spaces[c := s]), g);
  }

  lemma EmptySpace(mem: Memory, g: Frame)
    requires At(mem, g) == ZeroPage()
    ensures Tables(mem, Space(g, 4, HALF)) == {g} && IsTree(mem, Space(g, 4, HALF))
    ensures forall i: nat :: !Has(mem, g, i)
  {
    assert forall i: nat :: !Has(mem, g, i);
    EmptyTable(mem, g, 4, 0, HALF);
  }

  // ---------------------------------------------------------------- teardown

  /**
   Free every table below the first `hi` entries of `f`, but not `f` itself.  The free list stays sound
   exactly when none of them was free already.
   */
  method CleanBelow(m: Memories, f: Frame, h: nat, hi: nat) returns (ok: bool)
    requires m.pmm.Roomy() && h >= 2 && hi <= ENTRIES && Tree(m.mem, f, h, 0, hi)
    modifies m.pmm, m.pmm.stack
    ensures ok ==> m.pmm.Roomy() && m.pmm.Frames() == old(m.pmm.Frames()) + (Frames(m.mem, f, h, 0, hi) - {f})
    ensures ok ==> (m.pmm.Valid() <==> old(m.pmm.Valid()) && Frames(m.mem, f, h, 0, hi) - {f} !! old(m.pmm.Frames()))
    ensures !ok ==> m.pmm.StackFull()
    decreases h, 0
  {
    hide Tree, Frames, KidFrames, Allocator.Valid, Allocator.Frames;
    RootInFrames(m.mem, f, h, 0, hi);
    NoEntries(m.mem, f, h, 0);
    ghost var free, sound := m.pmm.Frames(), m.pmm.Valid();
    var i := 0;
    while i < hi
      invariant i <= hi && m.pmm.Roomy()
      invariant m.pmm.Frames() == free + (Frames(m.mem, f, h, 0, i) - {f})
      invariant m.pmm.Valid() <==> sound && Frames(m.mem, f, h, 0, i) - {f} !! free
    {
      ExtendFrames(m.mem, f, h, 0, i);
      NextKidApart(m.mem, f, h, 0, hi, i);
      var entry := At(m.mem, f)[i];
      if entry.Present() {
        TreeKid(m.mem, f, h, 0, hi, i);
        if BIT_HUGE !in entry.bits {
          ok := CleanKid(m, entry.frame, h - 1);
          if !ok {
            return false;
          }
        }
      } else {
        NoKid(m.mem, f, h, i);
      }
      i := i + 1;
    }
    return true;
  }

  lemma NoKid(mem: Memory, f: Frame, h: nat, i: nat)
    requires h >= 1 && !Has(mem, f, i)
    ensures KidFrames(mem, f, h, i) == {}
  {
  }

  /** Free the tables below a table, then the table. */
  method CleanKid(m: Memories, f: Frame, h: nat) returns (ok: bool)
    requires m.pmm.Roomy() && h >= 1 && Tree(m.mem, f, h, 0, ENTRIES)
    modifies m.pmm, m.pmm.stack
    ensures ok ==> m.pmm.Roomy() && m.pmm.Frames() == old(m.pmm.Frames()) + Frames(m.mem, f, h, 0, ENTRIES)
    ensures ok ==> (m.pmm.Valid() <==> old(m.pmm.Valid()) && Frames(m.mem, f, h, 0, ENTRIES) !! old(m.pmm.Frames()))
    ensures !ok ==> m.pmm.StackFull()
    decreases h, 1
  {
    hide Tree, Frames, Allocator.Valid, Allocator.Frames;
    RootInFrames(m.mem, f, h, 0, ENTRIES);
    if h >= 2 {
      ok := CleanBelow(m, f, h, ENTRIES);
      if !ok {
        return false;
      }
      ok := m.pmm.FreeBlock(f);
    } else {
      LeafFrames(m.mem, f);
      ok := m.pmm.FreeBlock(f);
    }
  }

  /** A last-level table has no tables below it. */
  lemma LeafFrames(mem: Memory, f: Frame)
    ensures Frames(mem, f, 1, 0, ENTRIES) == {f}
  {
  }

  /**
   Free the tables of a tree, its root last.  The free list stays sound exactly when none of them was
   free already.
   */
  method CleanSpace(m: Memories, root: Frame) returns (ok: bool)
    requires m.pmm.Roomy() && Tree(m.mem, root, 4, 0, HALF)
    modifies m.pmm, m.pmm.stack
    ensures ok ==> m.pmm.Roomy() && m.pmm.Frames() == old(m.pmm.Frames()) + Frames(m.mem, root, 4, 0, HALF)
    ensures ok ==> (m.pmm.Valid() <==> old(m.pmm.Valid()) && Frames(m.mem, root, 4, 0, HALF) !! old(m.pmm.Frames()))
    ensures !ok ==> m.pmm.StackFull()
  {
    hide Tree, Frames, Allocator.Valid, Allocator.Frames;
    RootInFrames(m.mem, root, 4, 0, HALF);
    ok := CleanBelow(m, root, 4, HALF);
    if ok {
      ok := m.pmm.FreeBlock(root);
    }
  }

  /**
   Give up an address space.  Its root and its lower-half tables go back to the allocator, each once,
   and nothing else does; the other spaces keep their translations.
   */
  method Deinit(m: Memories, c: Id) returns (ok: bool)
    requires m.Valid() && c in m.spaces && c != KERNEL && m.spaces[c].height == 4 && m.spaces[c].span == HALF
    modifies m, m.pmm, m.pmm.stack
    ensures ok ==> m.Valid() && m.Pool() == old(m.Pool()) && m.mem == old(m.mem)
    ensures ok ==> m.spaces == old(m.spaces) - {c}
    ensures ok ==> m.pmm.Frames() == old(m.pmm.Frames() + Tables(m.mem, m.spaces[c]))
    ensures !ok ==> m.pmm.StackFull()
  {
    hide World, InRam, Tree, Frames, AllTables;
    ghost var free := m.pmm.Frames();
    ghost var own := Tables(m.mem, m.spaces[c]);
    DeinitStep(m.mem, m.spaces, free, c);
    ok := CleanSpace(m, m.spaces[c].root);
    if !ok {
      return false;
    }
    assert m.pmm.Frames() == free + own;
    m.spaces := m.spaces - {c};
    return true;
  }

  /** Initialise a context that is unused or in use; one in use is torn down first. */
  method InitContext(m: Memories, c: Id) returns (ok: bool)
    requires m.Valid() && (c in m.spaces ==> c != KERNEL && m.spaces[c].height == 4 && m.spaces[c].span == HALF)
    modifies m, m.pmm, m.pmm.stack
    ensures ok ==> m.Valid() && m.Pool() == old(m.Pool())
    ensures ok ==> c in m.spaces && m.spaces == old(m.spaces)[c := m.spaces[c]]
    ensures ok ==> forall q | IsWalk(m.spaces[c], q) :: Walk(m.mem, m.spaces[c].root, q) == None
    ensures ok ==> forall d | d in old(m.spaces) && d != c :: Agree(old(m.mem), m.mem, m.spaces[d])
    ensures !ok ==> m.pmm.OutOfFrames() || m.pmm.StackFull()
  {
    hide World, Tables, AllTables, Agree, InRam;
    if c in m.spaces {
      ok := Deinit(m, c);
      if !ok {
        return false;
      }
    }
    ok := Init(m, c);
  }

  lemma DeinitStep(mem: Memory, spaces: map<Id, Space>, free: set<Frame>, c: Id)
    requires World(mem, spaces, free) && c in spaces && c != KERNEL
    ensures IsTree(mem, spaces[c]) && Tables(mem, spaces[c]) !! free
    ensures World(mem, spaces - {c}, free + Tables(mem, spaces[c]))
    ensures (free + Tables(mem, spaces[c])) + AllTables(mem, spaces - {c}) == free + AllTables(mem, spaces)
  {
    hide Tables, AllTables, AllApart, AllShare;
    FreeIsNotTables(mem, spaces, free);
    OwnInAll(mem, spaces, c);
    WorldRemove(mem, spaces, free, c);
    WorldFree(mem, spaces - {c}, free, free + Tables(mem, spaces[c]));
  }

  lemma OwnInAll(mem: Memory, spaces: map<Id, Space>, c: Id)
    requires c in spaces
    ensures Tables(mem, spaces[c]) <= AllTables(mem, spaces)
  {
  }

  // ---------------------------------------------------------------- pages

  /** A frame for the contents of a page: it is then neither free nor a table. */
  method AllocPage(m: Memories) returns (f: Option<Frame>)
    requires m.Valid()
    modifies m.pmm, m.pmm.stack
    ensures f.Some? ==> m.Valid() && f.value in old(m.pmm.Frames()) && f.value < RAM_LIMIT
    ensures f.Some? ==> m.pmm.Frames() == old(m.pmm.Frames()) - {f.value} && m.Pool() == old(m.Pool()) - {f.value}
    ensures f.None? <==> old(m.pmm.Frames()) == {}
    ensures f.None? ==> m.pmm.OutOfFrames()
  {
    hide World, AllTables;
    ghost var free := m.pmm.Frames();
    FreeIsNotTables(m.mem, m.spaces, free);
    f := m.TakeFrame();
    if f.Some? {
      WorldFree(m.mem, m.spaces, free, free - {f.value});
    }
  }

  /**
   Consecutive frames for the contents of pages.  They are then neither free nor tables, and every other
   frame is as before exactly when one run only is large enough.
   */
  method AllocPages(m: Memories, n: nat) returns (base: Option<Frame>)
    requires m.Valid()
    modifies m.pmm.stack
    ensures base.None? <==> LastFit(old(m.pmm.Runs()), n) == 0
    ensures base.Some? ==> m.Valid() && Span(base.value, n) <= old(m.pmm.Frames()) && Span(base.value, n) !! m.Pool()
    ensures base.Some? ==> m.Pool() + Span(base.value, n) <= old(m.Pool())
    ensures base.Some? && n >= 1 ==> (m.Pool() + Span(base.value, n) == old(m.Pool()) <==> OneFits(old(m.pmm.Runs()), n))
  {
    hide World, AllTables, FreeSet, Span, OneFits, Disjoint, LastFit;
    ghost var free := m.pmm.Frames();
    FreeIsNotTables(m.mem, m.spaces, free);
    base := m.pmm.AllocBlocks(n);
    if base.Some? {
      WorldFree(m.mem, m.spaces, free, m.pmm.Frames());
    }
  }

  /** Give the frame of a page back. */
  method FreePage(m: Memories, f: Frame) returns (ok: bool)
    requires m.Valid() && f !in m.Pool() && f < RAM_LIMIT
    modifies m.pmm, m.pmm.stack
    ensures ok ==> m.Valid() && m.pmm.Frames() == old(m.pmm.Frames()) + {f} && m.Pool() == old(m.Pool()) + {f}
    ensures !ok ==> m.pmm.StackFull()
  {
    hide World, AllTables;
    ghost var free := m.pmm.Frames();
    FreeIsNotTables(m.mem, m.spaces, free);
    ok := m.pmm.FreeBlock(f);
    if ok {
      WorldFree(m.mem, m.spaces, free, free + {f});
    }
  }

  /** Programs write to their pages without disturbing any translation. */
  method WritePage(m: Memories, f: Frame, contents: Page)
    requires m.Valid() && f !in m.Pool()
    modifies m`mem
    ensures m.Valid() && m.Pool() == old(m.Pool()) && m.mem == old(m.mem)[f := contents]
    ensures forall d | d in m.spaces :: Agree(old(m.mem), m.mem, m.spaces[d]) && SameOn(old(m.mem), m.mem, old(Tables(m.mem, m.spaces[d])))
  {
    hide World, AllTables, Tables, Agree;
    ghost var m1 := m.mem;
    forall d | d in m.spaces
      ensures SameOn(m1, m1[f := contents], Tables(m1, m.spaces[d]))
    {
      OwnInAll(m1, m.spaces, d);
    }
    WorldFrame(m1, m1[f := contents], m.spaces, m.pmm.Frames());
    m.mem := m.mem[f := contents];
  }

  /** A store through a mapping goes through, because write protection holds in kernel mode too. */
  predicate Writable(e: Option<Word>) {
    e.Some? && BIT_WRITABLE in e.value.bits
  }

  /** No table is written, and no translation changes. */
  ghost predicate Undisturbed(m1: Memory, m2: Memory, spaces: map<Id, Space>) {
    forall d | d in spaces :: Agree(m1, m2, spaces[d]) && SameOn(m1, m2, Tables(m1, spaces[d]))
  }

  /** Every word on the path to the address permits writing. */
  predicate CanWrite(mem: Memory, root: Frame, virt: nat) {
    var r := RightsOf(mem, root, PathOf(virt));
    r.Some? && r.value.write
  }

  lemma CanWriteIff(mem: Memory, spaces: map<Id, Space>, free: set<Frame>, c: Id, virt: nat)
    requires World(mem, spaces, free) && AddressSpace(spaces, c) && spaces[c].height == 4
    ensures CanWrite(mem, spaces[c].root, virt) <==> Writable(Walk(mem, spaces[c].root, PathOf(virt)))
  {
    hide World, Walk, RightsOf, PathOf;
    PathRights(mem, spaces, free, c, PathOf(virt));
  }

  /**
   Write a page through its address in a space.  The store faults exactly when the address is not mapped or
   a word on its path is not writable, and the fault handler halts; the last word decides.
   */
  method StoreThrough(m: Memories, c: Id, virt: nat, contents: Page) returns (ok: bool)
    requires m.Valid() && AddressSpace(m.spaces, c) && m.spaces[c].height == 4
    requires Walk(m.mem, m.spaces[c].root, PathOf(virt)).Some? ==> Walk(m.mem, m.spaces[c].root, PathOf(virt)).value.frame !in m.Pool()
    modifies m`mem
    ensures ok <==> old(CanWrite(m.mem, m.spaces[c].root, virt))
    ensures ok <==> Writable(old(Walk(m.mem, m.spaces[c].root, PathOf(virt))))
    ensures ok ==> m.Valid() && m.Pool() == old(m.Pool())
    ensures ok ==> m.mem == old(m.mem)[old(Walk(m.mem, m.spaces[c].root, PathOf(virt))).value.frame := contents]
    ensures ok ==> Undisturbed(old(m.mem), m.mem, m.spaces)
    ensures !ok ==> m.mem == old(m.mem)
  {
    hide World, AllTables, Tables, Agree, Walk, PathOf, SameOn, CanWrite;
    CanWriteIff(m.mem, m.spaces, m.pmm.Frames(), c, virt);
    var e := m.GetEntry(c, virt);
    ok := Writable(e);
    if ok {
      WritePage(m, e.value.frame, contents);
    }
  }

  /** Read a page through its address in a space; an address that is not mapped faults. */
  method LoadThrough(m: Memories, c: Id, virt: nat) returns (contents: Option<Page>)
    requires c in m.spaces
    ensures contents.None? <==> Walk(m.mem, m.spaces[c].root, PathOf(virt)).None?
    ensures contents.Some? ==> contents.value == At(m.mem, Walk(m.mem, m.spaces[c].root, PathOf(virt)).value.frame)
  {
    hide Walk, PathOf;
    var e := m.GetEntry(c, virt);
    contents := if e.Some? then Some(At(m.mem, e.value.frame)) else None;
  }
}
