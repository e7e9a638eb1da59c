/**
 Physical memory, the frame allocator and the translation structures that live in memory.
 */
module Machine {
  import opened Wrappers
  import opened RadixTree
  import opened Links
  import opened Ownership
  import opened VirtualAddress
  import opened FrameAllocator

  /** Frames of RAM lie below 2^47, so that the kernel's mapping of physical memory stays in the upper half. */
  const RAM_LIMIT: nat := 0x8_0000_0000

  /** The bits of a word that links a processor table. */
  const TABLE_BITS: set<nat> := {BIT_PRESENT, BIT_WRITABLE, BIT_USER}

  ghost predicate InRam(fs: set<Frame>) {
    forall f | f in fs :: f < RAM_LIMIT
  }

  /** Masking a frame number of RAM does nothing. */
  lemma FrameFits(f: Frame)
    requires f < RAM_LIMIT
    ensures f % FRAME_NUMBERS == f
  {
  }

  /** A `None` or `false` result stands for a kernel panic: nothing is promised about the state then. */
  class Memories {
    const pmm: Allocator
    var mem: Memory
    var spaces: map<Id, Space>

    ghost predicate Valid()
      reads this, pmm, pmm.stack
    {
      && pmm.Valid()
      && World(mem, spaces, pmm.Frames())
      && InRam(Pool())
    }

    /** The kernel's space comes first: an empty root in a frame that was just allocated for it. */
    constructor (pmm: Allocator, root: Frame)
      requires pmm.Valid() && root !in pmm.Frames() && root < RAM_LIMIT && InRam(pmm.Frames())
      ensures Valid() && this.pmm == pmm && spaces == map[KERNEL := Space(root, 4, ENTRIES)]
      ensures forall q | IsWalk(spaces[KERNEL], q) :: Walk(mem, root, q) == None
    {
      this.pmm := pmm;
      mem := map[root := ZeroPage()];
      spaces := map[KERNEL := Space(root, 4, ENTRIES)];
      new;
      EmptyTable(mem, root, 4, 0, ENTRIES);
      assert Tables(mem, spaces[KERNEL]) == {root};
      assert AllTables(mem, spaces) == {root};
      NothingLinked(mem, root, 4, 0, ENTRIES, PROCESSOR);
    }

    /** The frames that are free or hold tables. */
    ghost function Pool(): set<Frame>
      requires pmm.sp <= pmm.stack.Length
      reads this, pmm, pmm.stack
    {
      pmm.Frames() + AllTables(mem, spaces)
    }

    /** Take a frame out of the free set. */
    method TakeFrame() returns (g: Option<Frame>)
      requires pmm.Valid() && InRam(pmm.Frames())
      modifies pmm, pmm.stack
      ensures g.Some? ==> pmm.Valid() && g.value in old(pmm.Frames()) && pmm.Frames() == old(pmm.Frames()) - {g.value}
      ensures g.Some? ==> g.value < RAM_LIMIT
      ensures g.None? <==> old(pmm.Frames()) == {}
      ensures g.None? ==> pmm.OutOfFrames()
    {
      g := pmm.AllocBlock();
    }

    /** A zeroed frame is linked as a table below entry `i` of table `t`.  No translation changes. */
    method Create(c: Id, ghost p: seq<nat>, t: Frame, i: nat, bits: set<nat>) returns (next: Option<Frame>)
      requires Valid() && c in spaces && Slot(spaces[c], p, i) && |p| + 2 <= spaces[c].height
      requires Reaches(mem, spaces[c].root, p) && NodeAt(mem, spaces[c].root, p) == t
      requires BIT_PRESENT in bits && BIT_HUGE !in bits && LawOf(c, spaces[c]).Permits(bits)
      requires !Has(mem, t, i)
      modifies this`mem, pmm, pmm.stack
      ensures next.Some? ==> Valid() && Pool() == old(Pool()) && pmm.Frames() <= old(pmm.Frames())
      ensures next.Some? ==> Reaches(mem, spaces[c].root, p + [i]) && NodeAt(mem, spaces[c].root, p + [i]) == next.value
      ensures next.Some? ==> forall d | d in spaces :: Agree(old(mem), mem, spaces[d])
      ensures next.Some? ==> SameOutside(old(mem), mem, old(Pool())) && OthersKept(old(mem), mem, spaces, c) && RootKept(old(mem), mem, spaces[c])
      ensures next.None? ==> pmm.OutOfFrames()
    {
      hide Tree, Frames, Tables, AllTables, AllTrees, AllApart, NoneFree, AllShare, AllLinked, Walk;
      ghost var free := pmm.Frames();
      var g := TakeFrame();
      if g.None? {
        return None;
      }
      var w := Word(g.value % FRAME_NUMBERS, bits);
      FrameFits(g.value);
      CreateStep(mem, spaces, free, c, p, i, w);
      mem := Store(mem[g.value := ZeroPage()], t, i, w);
      next := g;
    }

    /** The table below entry `i` of table `t`, created if it is missing.  No translation changes. */
    method GetOrCreate(c: Id, ghost p: seq<nat>, t: Frame, i: nat, bits: set<nat>) returns (next: Option<Frame>)
      requires Valid() && c in spaces && Slot(spaces[c], p, i) && |p| + 2 <= spaces[c].height
      requires Reaches(mem, spaces[c].root, p) && NodeAt(mem, spaces[c].root, p) == t
      requires BIT_PRESENT in bits && BIT_HUGE !in bits && LawOf(c, spaces[c]).Permits(bits)
      modifies this`mem, pmm, pmm.stack
      ensures next.Some? ==> Valid() && Pool() == old(Pool()) && pmm.Frames() <= old(pmm.Frames())
      ensures next.Some? ==> Reaches(mem, spaces[c].root, p + [i]) && NodeAt(mem, spaces[c].root, p + [i]) == next.value
      ensures next.Some? ==> forall d | d in spaces :: Agree(old(mem), mem, spaces[d])
      ensures next.Some? ==> SameOutside(old(mem), mem, old(Pool())) && OthersKept(old(mem), mem, spaces, c) && RootKept(old(mem), mem, spaces[c])
      ensures next.None? ==> pmm.OutOfFrames()
    {
      if !At(mem, t)[i].Present() {
        next := Create(c, p, t, i, bits);
      } else {
        ReachesNext(mem, spaces[c].root, p, i);
        next := Some(At(mem, t)[i].frame);
      }
    }

    /** The innermost table on the way along `p`, with the tables above it created where missing. */
    method GetPt(c: Id, p: seq<nat>) returns (pt: Option<Frame>)
      requires Valid() && AddressSpace(spaces, c) && spaces[c].height == 4 && IsWalk(spaces[c], p) && p[0] < spaces[c].span
      modifies this`mem, pmm, pmm.stack
      ensures pt.Some? ==> Valid() && Pool() == old(Pool()) && pmm.Frames() <= old(pmm.Frames())
      ensures pt.Some? ==> PtAt(mem, spaces[c].root, p, pt.value)
      ensures pt.Some? ==> forall d | d in spaces :: Agree(old(mem), mem, spaces[d])
      ensures pt.Some? ==> SameOutside(old(mem), mem, old(Pool())) && OthersKept(old(mem), mem, spaces, c) && RootKept(old(mem), mem, spaces[c])
      ensures pt.None? ==> pmm.OutOfFrames()
    {
      hide World, InRam, SameOutside, Agree, OthersKept, RootKept;
      var m0 := mem;
      SlotPrefixes(spaces[c], p);
      TableBits(c, spaces[c]);
      var pdpt := GetOrCreate(c, p[..0], spaces[c].root, p[0], TABLE_BITS);
      if pdpt.None? {
        return None;
      }
      var m1 := mem;
      var pd := GetOrCreate(c, p[..1], pdpt.value, p[1], TABLE_BITS);
      if pd.None? {
        return None;
      }
      var m2 := mem;
      pt := GetOrCreate(c, p[..2], pd.value, p[2], TABLE_BITS);
      if pt.Some? {
        AgreeThrice(m0, m1, m2, mem, spaces, c, Pool());
        RootKeptTwice(m0, m1, m2, spaces[c]);
        RootKeptTwice(m0, m2, mem, spaces[c]);
      }
    }

    /**
     Map one page.  The address then translates to the new entry, and its whole path permits exactly what was
     asked for; every address that differs in bits 12 to 47 translates as before, in this space and in every
     other, whichever tables had to be created.
     */
    method MapPage(c: Id, phys: nat, virt: nat, flags: MapFlags, cache: CacheType) returns (ok: bool)
      requires Valid() && AddressSpace(spaces, c) && spaces[c].height == 4 && Pml4Index(virt) < spaces[c].span
      modifies this`mem, pmm, pmm.stack
      ensures ok ==> Valid() && Pool() == old(Pool()) && pmm.Frames() <= old(pmm.Frames())
      ensures ok ==> Mapped(old(mem), mem, spaces, c, PathOf(virt), LeafWord(phys, flags, cache))
      ensures ok ==> RightsOf(mem, spaces[c].root, PathOf(virt)) ==
                       if flags.present then Some(Rights(flags.writable, flags.user, flags.noExecute)) else None
      ensures ok ==> SameOutside(old(mem), mem, old(Pool())) && OthersKept(old(mem), mem, spaces, c) && RootKept(old(mem), mem, spaces[c])
      ensures !ok ==> pmm.OutOfFrames()
    {
      hide World, InRam, SameOutside, Agree, FlagBits, CacheBits, OthersKept, Mapped, RootKept, RightsOf;
      var m0 := mem;
      var w := LeafWord(phys, flags, cache);
      var p := PathOf(virt);
      var pt := GetPt(c, p);
      if pt.None? {
        return false;
      }
      SlotPrefixes(spaces[c], p);
      LeafStep(m0, mem, spaces, pmm.Frames(), c, p[..3], p[3], w);
      mem := Store(mem, pt.value, p[3], w);
      MappedRights(m0, mem, spaces, pmm.Frames(), c, p, phys, flags, cache);
      return true;
    }

    /** The entry that translates an address. */
    method GetEntry(c: Id, virt: nat) returns (e: Option<Word>)
      requires c in spaces
      ensures e == Walk(mem, spaces[c].root, PathOf(virt))
    {
      WalkUnrolled(mem, spaces[c].root, PathOf(virt));
      e := None;
      var pml4e := At(mem, spaces[c].root)[Pml4Index(virt)];
      if pml4e.Present() {
        var pdpte := At(mem, pml4e.frame)[PdptIndex(virt)];
        if pdpte.Present() {
          var pde := At(mem, pdpte.frame)[PdIndex(virt)];
          if pde.Present() {
            var pte := At(mem, pde.frame)[PtIndex(virt)];
            if pte.Present() {
              e := Some(pte);
            }
          }
        }
      }
    }

    /** The frame that an address translates to; `None` stands for the all-ones answer. */
    method GetPhys(c: Id, virt: nat) returns (f: Option<Frame>)
      requires c in spaces
      ensures f == PhysOf(Walk(mem, spaces[c].root, PathOf(virt)))
    {
      var e := GetEntry(c, virt);
      f := if e.Some? then Some(e.value.frame) else None;
    }

    /**
     Add protection bits to a mapped page.  Bits are only ever added; the frame and all other
     translations stay.
     */
    method SetPageProtection(c: Id, virt: nat, flags: MapFlags, cache: CacheType) returns (found: bool)
      requires Valid() && AddressSpace(spaces, c) && spaces[c].height == 4 && Pml4Index(virt) < spaces[c].span
      modifies this`mem
      ensures Valid() && AllTables(mem, spaces) == old(AllTables(mem, spaces))
      ensures found == old(Walk(mem, spaces[c].root, PathOf(virt))).Some?
      ensures !found ==> mem == old(mem)
      ensures found ==>
                var e := old(Walk(mem, spaces[c].root, PathOf(virt))).value;
                Mapped(old(mem), mem, spaces, c, PathOf(virt), Word(e.frame, e.bits + FlagBits(flags) + CacheBits(cache)))
      ensures found ==>
                var r := old(RightsOf(mem, spaces[c].root, PathOf(virt))).value;
                RightsOf(mem, spaces[c].root, PathOf(virt)) ==
                  Some(Rights(r.write || flags.writable, r.user || flags.user, r.noExecute || flags.noExecute))
      ensures found ==> SameOutside(old(mem), mem, old(Pool()))
    {
      hide World, InRam, FlagBits, CacheBits, AllTables, AllHave, SomeHas;
      ghost var m0 := mem;
      var p := PathOf(virt);
      WalkUnrolled(mem, spaces[c].root, p);
      var pml4e := At(mem, spaces[c].root)[Pml4Index(virt)];
      if !pml4e.Present() {
        return false;
      }
      var pdpte := At(mem, pml4e.frame)[PdptIndex(virt)];
      if !pdpte.Present() {
        return false;
      }
      var pde := At(mem, pdpte.frame)[PdIndex(virt)];
      if !pde.Present() {
        return false;
      }
      var pte := At(mem, pde.frame)[PtIndex(virt)];
      if !pte.Present() {
        return false;
      }
      var w := Word(pte.frame, pte.bits + FlagBits(flags) + CacheBits(cache));
      SlotPrefixes(spaces[c], p);
      ReachesThree(mem, spaces[c].root, p);
      LeafStep(mem, mem, spaces, pmm.Frames(), c, p[..3], p[3], w);
      mem := Store(mem, pde.frame, PtIndex(virt), w);
      ProtectedRights(m0, mem, spaces, pmm.Frames(), c, p, pte, flags, cache);
      return true;
    }
  }

  /** Links of processor tables permit everything. */
  lemma TableBits(c: Id, s: Space)
    ensures c == KERNEL || s.span == HALF ==> LawOf(c, s).Permits(TABLE_BITS)
  {
    assert PROCESSOR.Permits(TABLE_BITS);
  }

  lemma MappedRights(m1: Memory, m2: Memory, spaces: map<Id, Space>, free: set<Frame>, c: Id, p: seq<nat>,
                     phys: nat, flags: MapFlags, cache: CacheType)
    requires World(m2, spaces, free) && AddressSpace(spaces, c) && Mapped(m1, m2, spaces, c, p, LeafWord(phys, flags, cache))
    ensures RightsOf(m2, spaces[c].root, p) == if flags.present then Some(Rights(flags.writable, flags.user, flags.noExecute)) else None
  {
    hide World, Walk, RightsOf, FlagBits, CacheBits;
    PathRights(m2, spaces, free, c, p);
    LeafBits(phys, flags, cache);
  }

  lemma ProtectedRights(m1: Memory, m2: Memory, spaces: map<Id, Space>, free: set<Frame>, c: Id, p: seq<nat>,
                        e: Word, flags: MapFlags, cache: CacheType)
    requires World(m1, spaces, free) && World(m2, spaces, free) && AddressSpace(spaces, c)
    requires Mapped(m1, m2, spaces, c, p, Word(e.frame, e.bits + FlagBits(flags) + CacheBits(cache)))
    requires Walk(m1, spaces[c].root, p) == Some(e) && e.Present()
    ensures RightsOf(m1, spaces[c].root, p).Some?
    ensures var r := RightsOf(m1, spaces[c].root, p).value;
            RightsOf(m2, spaces[c].root, p) ==
              Some(Rights(r.write || flags.writable, r.user || flags.user, r.noExecute || flags.noExecute))
  {
    hide World, Walk, RightsOf, FlagBits, CacheBits;
    PathRights(m1, spaces, free, c, p);
    PathRights(m2, spaces, free, c, p);
    LeafBits(0, flags, cache);
  }

  /** The innermost table on the way along `p`. */
  predicate PtAt(mem: Memory, root: Frame, p: seq<nat>, t: Frame) {
    && |p| == 4 && IsPath(p[..3])
    && Reaches(mem, root, p[..3]) && NodeAt(mem, root, p[..3]) == t
  }

  function PhysOf(e: Option<Word>): Option<Frame> {
    if e.Some? then Some(e.value.frame) else None
  }

  /** A walk of four levels, written out. */
  lemma WalkUnrolled(mem: Memory, f: Frame, p: seq<nat>)
    requires IsPath(p) && |p| == 4
    ensures Walk(mem, f, p) ==
              var e0 := At(mem, f)[p[0]];
              var e1 := At(mem, e0.frame)[p[1]];
              var e2 := At(mem, e1.frame)[p[2]];
              var e3 := At(mem, e2.frame)[p[3]];
              if e0.Present() && e1.Present() && e2.Present() && e3.Present() then Some(e3) else None
  {
    var e0 := At(mem, f)[p[0]];
    var e1 := At(mem, e0.frame)[p[1]];
    var e2 := At(mem, e1.frame)[p[2]];
    assert p[1..][1..] == p[2..] && p[2..][1..] == p[3..];
    assert Walk(mem, e2.frame, p[3..]) == if At(mem, e2.frame)[p[3]].Present() then Some(At(mem, e2.frame)[p[3]]) else None;
    assert Walk(mem, e1.frame, p[2..]) == if e2.Present() then Walk(mem, e2.frame, p[3..]) else None;
    assert Walk(mem, e0.frame, p[1..]) == if e1.Present() then Walk(mem, e1.frame, p[2..]) else None;
  }

  lemma ReachesThree(mem: Memory, f: Frame, p: seq<nat>)
    requires IsPath(p) && |p| == 4
    requires Has(mem, f, p[0]) && Has(mem, Kid(mem, f, p[0]), p[1]) && Has(mem, Kid(mem, Kid(mem, f, p[0]), p[1]), p[2])
    ensures Reaches(mem, f, p[..3]) && NodeAt(mem, f, p[..3]) == Kid(mem, Kid(mem, Kid(mem, f, p[0]), p[1]), p[2])
  {
    assert p[..1] == [] + [p[0]] && p[..2] == p[..1] + [p[1]] && p[..3] == p[..2] + [p[2]];
    ReachesNext(mem, f, [], p[0]);
    ReachesNext(mem, f, p[..1], p[1]);
    ReachesNext(mem, f, p[..2], p[2]);
  }

  /**
   Mapping refines a flat map from virtual page numbers to entries: the mapped page gets the new
   entry, every page with another number keeps its own.
   */
  lemma MappedIsFlat(m1: Memory, m2: Memory, spaces: map<Id, Space>, c: Id, virt: nat, w: Word, v: nat)
    requires c in spaces && spaces[c].height == 4 && Mapped(m1, m2, spaces, c, PathOf(virt), w)
    ensures Walk(m2, spaces[c].root, PathOf(v)) ==
              if PageNumber(v) != PageNumber(virt) then Walk(m1, spaces[c].root, PathOf(v))
              else if w.Present() then Some(w) else None
  {
    PathsEqualIff(v, virt);
    assert IsWalk(spaces[c], PathOf(v));
  }

  /**
   The flat view of one mapping: along `p` the entry `w`, everywhere else what was there before.
   Other spaces see a change only in the upper half of the kernel, and only through a root word they share.
   */
  ghost predicate Mapped(m1: Memory, m2: Memory, spaces: map<Id, Space>, c: Id, p: seq<nat>, w: Word) {
    && c in spaces && IsWalk(spaces[c], p)
    && Walk(m2, spaces[c].root, p) == (if w.Present() then Some(w) else None)
    && (forall d | d in spaces :: AgreeBut(m1, m2, spaces[d], p))
    && (Private(c, p) ==> forall d | d in spaces && d != c :: Agree(m1, m2, spaces[d]))
    && (!Private(c, p) ==> forall d | d in spaces && spaces[d].span == HALF ::
          Walk(m2, spaces[d].root, p) == if Has(m1, spaces[d].root, p[0]) then Walk(m2, spaces[c].root, p) else None)
  }

  /** The tables that a walk passes are slots of its space. */
  lemma SlotPrefixes(s: Space, p: seq<nat>)
    requires IsWalk(s, p) && s.height == 4 && p[0] < s.span
    ensures Slot(s, p[..0], p[0]) && Slot(s, p[..1], p[1]) && Slot(s, p[..2], p[2]) && Slot(s, p[..3], p[3])
    ensures p[..0] + [p[0]] == p[..1] && p[..1] + [p[1]] == p[..2] && p[..2] + [p[2]] == p[..3] && p[..3] + [p[3]] == p
  {
  }

  lemma KeptTwice(m0: Memory, m1: Memory, m2: Memory, spaces: map<Id, Space>, c: Id)
    requires OthersKept(m0, m1, spaces, c) && OthersKept(m1, m2, spaces, c)
    ensures OthersKept(m0, m2, spaces, c)
  {
    hide Tables;
    forall d | d in spaces && d != c
      ensures SameOn(m0, m2, Tables(m0, spaces[d]))
    {
      SpaceFrame(m0, m1, spaces[d]);
    }
  }

  lemma AgreeThrice(m0: Memory, m1: Memory, m2: Memory, m3: Memory, spaces: map<Id, Space>, c: Id, pool: set<Frame>)
    requires forall d | d in spaces :: Agree(m0, m1, spaces[d]) && Agree(m1, m2, spaces[d]) && Agree(m2, m3, spaces[d])
    requires SameOutside(m0, m1, pool) && SameOutside(m1, m2, pool) && SameOutside(m2, m3, pool)
    requires OthersKept(m0, m1, spaces, c) && OthersKept(m1, m2, spaces, c) && OthersKept(m2, m3, spaces, c)
    ensures forall d | d in spaces :: Agree(m0, m3, spaces[d])
    ensures SameOutside(m0, m3, pool) && OthersKept(m0, m3, spaces, c)
  {
    hide Tables;
    KeptTwice(m0, m1, m2, spaces, c);
    KeptTwice(m0, m2, m3, spaces, c);
    forall d, q | d in spaces && IsWalk(spaces[d], q)
      ensures Walk(m3, spaces[d].root, q) == Walk(m0, spaces[d].root, q)
    {
      assert Walk(m1, spaces[d].root, q) == Walk(m0, spaces[d].root, q);
      assert Walk(m2, spaces[d].root, q) == Walk(m1, spaces[d].root, q);
    }
  }

  /** What other spaces see of an upper-half word of the kernel. */
  lemma LeafShared(m0: Memory, m2: Memory, spaces: map<Id, Space>, free: set<Frame>, c: Id, q: seq<nat>)
    requires World(m2, spaces, free) && c in spaces && IsWalk(spaces[c], q) && !Private(c, q)
    requires OtherRoots(m0, m2, spaces, c)
    ensures forall d | d in spaces && spaces[d].span == HALF ::
              Walk(m2, spaces[d].root, q) == if Has(m0, spaces[d].root, q[0]) then Walk(m2, spaces[c].root, q) else None
  {
    hide AllTrees, AllApart, NoneFree, Walk;
    forall d | d in spaces && spaces[d].span == HALF
      ensures Walk(m2, spaces[d].root, q) == if Has(m0, spaces[d].root, q[0]) then Walk(m2, spaces[c].root, q) else None
    {
      assert IsWalk(spaces[d], q);
      UpperWalk(m2, spaces, d, q);
    }
  }

  /** Writing the innermost word, after tables were created without changing any translation. */
  lemma LeafStep(m0: Memory, mem: Memory, spaces: map<Id, Space>, free: set<Frame>, c: Id, p: seq<nat>, i: nat, w: Word)
    requires World(mem, spaces, free) && c in spaces
    requires Slot(spaces[c], p, i) && |p| + 1 == spaces[c].height && Reaches(mem, spaces[c].root, p)
    requires forall d | d in spaces :: Agree(m0, mem, spaces[d])
    requires SameOutside(m0, mem, free + AllTables(mem, spaces)) && OthersKept(m0, mem, spaces, c) && RootKept(m0, mem, spaces[c])
    ensures var m2 := Store(mem, NodeAt(mem, spaces[c].root, p), i, w);
            && World(m2, spaces, free)
            && AllTables(m2, spaces) == AllTables(mem, spaces)
            && SameOutside(m0, m2, free + AllTables(mem, spaces)) && OthersKept(m0, m2, spaces, c) && RootKept(m0, m2, spaces[c])
            && Mapped(m0, m2, spaces, c, p + [i], w)
  {
    hide World, Walk, AllTables, RootKept;
    NodeInTables(mem, spaces, free, c, p);
    WorldLeaf(mem, spaces, free, c, p, i, w);
    LeafWalks(mem, spaces, free, c, p, i, w);
    var m2 := Store(mem, NodeAt(mem, spaces[c].root, p), i, w);
    LeafKeepsOthers(mem, spaces, free, c, p, i, w);
    KeptTwice(m0, mem, m2, spaces, c);
    RootKeptTwice(m0, mem, m2, spaces[c]);
    RootsOfOthers(m0, m2, spaces, c);
    if !Private(c, p + [i]) {
      LeafShared(m0, m2, spaces, free, c, p + [i]);
    }
    forall d, q | d in spaces && IsWalk(spaces[d], q) && (q != p + [i] || (Private(c, p + [i]) && d != c))
      ensures Walk(m2, spaces[d].root, q) == Walk(m0, spaces[d].root, q)
    {
      assert Walk(mem, spaces[d].root, q) == Walk(m0, spaces[d].root, q);
    }
  }

  lemma NodeInTables(mem: Memory, spaces: map<Id, Space>, free: set<Frame>, c: Id, p: seq<nat>)
    requires World(mem, spaces, free) && c in spaces && IsPath(p) && |p| < spaces[c].height
    requires Reaches(mem, spaces[c].root, p) && (p != [] ==> p[0] < spaces[c].span)
    ensures NodeAt(mem, spaces[c].root, p) in AllTables(mem, spaces)
  {
    NodeOwned(mem, spaces[c], p);
    assert NodeAt(mem, spaces[c].root, p) in Tables(mem, spaces[c]);
  }

  lemma CreateStep(mem: Memory, spaces: map<Id, Space>, free: set<Frame>, c: Id, p: seq<nat>, i: nat, w: Word)
    requires World(mem, spaces, free) && c in spaces && w.frame in free
    requires Slot(spaces[c], p, i) && |p| + 2 <= spaces[c].height
    requires Reaches(mem, spaces[c].root, p) && !Has(mem, NodeAt(mem, spaces[c].root, p), i)
    requires w.Present() && BIT_HUGE !in w.bits && LawOf(c, spaces[c]).Permits(w.bits)
    ensures var m2 := Store(mem[w.frame := ZeroPage()], NodeAt(mem, spaces[c].root, p), i, w);
            && World(m2, spaces, free - {w.frame})
            && (free - {w.frame}) + AllTables(m2, spaces) == free + AllTables(mem, spaces)
            && SameOutside(mem, m2, free + AllTables(mem, spaces))
            && Reaches(m2, spaces[c].root, p + [i]) && NodeAt(m2, spaces[c].root, p + [i]) == w.frame
            && OthersKept(mem, m2, spaces, c) && RootKept(mem, m2, spaces[c])
            && forall d | d in spaces :: Agree(mem, m2, spaces[d])
  {
    LinkKeepsOthers(mem, spaces, free, c, p, i, w);
    NodeInTables(mem, spaces, free, c, p);
    var t := NodeAt(mem, spaces[c].root, p);
    StoreOutside(mem, t, i, w, free + AllTables(mem, spaces));
    WorldLink(mem, spaces, free, c, p, i, w);
    var m2 := Store(mem[w.frame := ZeroPage()], t, i, w);
    SetMove(free, AllTables(mem, spaces), AllTables(m2, spaces), w.frame);
  }

  lemma SetMove(free: set<Frame>, before: set<Frame>, after: set<Frame>, g: Frame)
    requires g in free && after == before + {g}
    ensures (free - {g}) + after == free + before
  {
  }

  lemma StoreOutside(mem: Memory, t: Frame, i: nat, w: Word, fs: set<Frame>)
    requires t in fs && w.frame in fs && i < ENTRIES
    ensures SameOutside(mem, Store(mem[w.frame := ZeroPage()], t, i, w), fs)
  {
  }

  lemma {:induction false} ReachesNext(mem: Memory, f: Frame, p: seq<nat>, i: nat)
    requires IsPath(p) && IsPath(p + [i]) && Reaches(mem, f, p) && Has(mem, NodeAt(mem, f, p), i)
    ensures Reaches(mem, f, p + [i]) && NodeAt(mem, f, p + [i]) == Kid(mem, NodeAt(mem, f, p), i)
    decreases |p|
  {
    if p != [] {
      assert (p + [i])[1..] == p[1..] + [i];
      ReachesNext(mem, Kid(mem, f, p[0]), p[1..], i);
    }
  }
}
