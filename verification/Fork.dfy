/** Duplicating an address space page by page. */
module Fork {
  import opened Wrappers
  import opened FrameAllocator
  import opened FrameDrain
  import opened RadixTree
  import opened Links
  import opened Ownership
  import opened VirtualAddress
  import opened Machine
  import opened Lifetime
  import opened Clone

  /** Where the kernel maps physical memory. */
  const PHYSMAP_BASE: nat := 0xffff_8000_0000_0000

  const KERNEL_PAGE := MapFlags(true, true, false, true, true)

  /** The bits that a forked page takes over. */
  const COPIED_BITS: set<nat> := {BIT_PRESENT, BIT_WRITABLE, BIT_USER, BIT_NO_EXECUTE, BIT_GLOBAL}

  function ForkFlags(e: Word): MapFlags {
    MapFlags(true, BIT_WRITABLE in e.bits, BIT_USER in e.bits, BIT_NO_EXECUTE in e.bits, BIT_GLOBAL in e.bits)
  }

  lemma ForkWord(f: Frame, e: Word)
    requires f < RAM_LIMIT && e.Present()
    ensures LeafWord(f * BLOCK_SIZE, ForkFlags(e), Normal) == Word(f, e.bits * COPIED_BITS)
  {
    assert f * BLOCK_SIZE / BLOCK_SIZE == f;
    FrameFits(f);
    assert FlagBits(ForkFlags(e)) + CacheBits(Normal) == e.bits * COPIED_BITS;
  }

  /** The kernel's window on physical memory lies in the upper half. */
  lemma PhysMapUpper(f: Frame)
    requires f < RAM_LIMIT
    ensures Pml4Index(f * BLOCK_SIZE + PHYSMAP_BASE) >= HALF
  {
    var v := f * BLOCK_SIZE + PHYSMAP_BASE;
    assert v / 0x80_0000_0000 == 0x1FF_FF00 + f / 0x800_0000;
    assert f / 0x800_0000 < 0x100;
  }

  predicate Lower(q: seq<nat>) {
    IsPath(q) && |q| == 4 && q[0] < HALF
  }

  /** Four-level spaces keep their lower-half translations. */
  ghost predicate LowerKept(m1: Memory, m2: Memory, s: Space) {
    s.height == 4 ==> forall q | Lower(q) :: Walk(m2, s.root, q) == Walk(m1, s.root, q)
  }

  /** Where the window shows a frame. */
  function WindowPath(f: Frame): seq<nat> {
    PathOf(f * BLOCK_SIZE + PHYSMAP_BASE)
  }

  ghost predicate InWindow(q: seq<nat>) {
    exists f: Frame :: f < RAM_LIMIT && q == WindowPath(f)
  }

  /** A four-level space changes inside the window at most. */
  ghost predicate WindowOnly(m1: Memory, m2: Memory, s: Space) {
    s.height == 4 ==> forall q | IsWalk(s, q) && !InWindow(q) :: Walk(m2, s.root, q) == Walk(m1, s.root, q)
  }

  lemma WindowLower(m1: Memory, m2: Memory, s: Space)
    requires WindowOnly(m1, m2, s)
    ensures LowerKept(m1, m2, s)
  {
    hide Walk, PathOf;
    if s.height == 4 {
      forall q | Lower(q)
        ensures Walk(m2, s.root, q) == Walk(m1, s.root, q)
      {
        NotInWindow(q);
        assert IsWalk(s, q);
      }
    }
  }

  lemma NotInWindow(q: seq<nat>)
    requires Lower(q)
    ensures !InWindow(q)
  {
    if InWindow(q) {
      var f: Frame :| f < RAM_LIMIT && q == WindowPath(f);
      PhysMapUpper(f);
    }
  }

  lemma WindowTwice(m1: Memory, m2: Memory, m3: Memory, s: Space)
    requires WindowOnly(m1, m2, s) && WindowOnly(m2, m3, s)
    ensures WindowOnly(m1, m3, s)
  {
    hide Walk, InWindow;
  }

  lemma AgreeWindow(m1: Memory, m2: Memory, s: Space)
    requires Agree(m1, m2, s)
    ensures WindowOnly(m1, m2, s)
  {
    hide Walk, InWindow;
  }

  lemma MappedWindow(m1: Memory, m2: Memory, spaces: map<Id, Space>, f: Frame, w: Word)
    requires Mapped(m1, m2, spaces, KERNEL, WindowPath(f), w) && f < RAM_LIMIT
    ensures forall d | d in spaces :: WindowOnly(m1, m2, spaces[d])
  {
    hide Walk, PathOf;
    forall d, q | d in spaces && spaces[d].height == 4 && IsWalk(spaces[d], q) && !InWindow(q)
      ensures Walk(m2, spaces[d].root, q) == Walk(m1, spaces[d].root, q)
    {
      assert q != WindowPath(f);
    }
  }

  /** The window shows frame `f`, and every other frame as before. */
  ghost predicate WindowShows(m1: Memory, m2: Memory, spaces: map<Id, Space>, f: Frame, flags: MapFlags) {
    && KERNEL in spaces
    && Walk(m2, spaces[KERNEL].root, WindowPath(f)) == (if flags.present then Some(LeafWord(f * BLOCK_SIZE, flags, Normal)) else None)
    && forall g: Frame | g < RAM_LIMIT && g != f ::
         Walk(m2, spaces[KERNEL].root, WindowPath(g)) == Walk(m1, spaces[KERNEL].root, WindowPath(g))
  }

  /** Different frames show at different addresses. */
  lemma WindowApart(f: Frame, g: Frame)
    requires f < RAM_LIMIT && g < RAM_LIMIT && WindowPath(f) == WindowPath(g)
    ensures f == g
  {
    hide PathOf;
    PathsEqualIff(f * BLOCK_SIZE + PHYSMAP_BASE, g * BLOCK_SIZE + PHYSMAP_BASE);
    WindowPage(f);
    WindowPage(g);
  }

  lemma WindowPage(f: Frame)
    requires f < RAM_LIMIT
    ensures PageNumber(f * BLOCK_SIZE + PHYSMAP_BASE) == f + RAM_LIMIT
  {
    var v := f * BLOCK_SIZE + PHYSMAP_BASE;
    assert v / BLOCK_SIZE == f + 0xf_fff8_0000_0000;
    assert f + 0xf_fff8_0000_0000 == 0xffff * VIRTUAL_PAGES + (f + RAM_LIMIT);
  }

  lemma MappedShows(m1: Memory, m2: Memory, spaces: map<Id, Space>, f: Frame, flags: MapFlags)
    requires Mapped(m1, m2, spaces, KERNEL, WindowPath(f), LeafWord(f * BLOCK_SIZE, flags, Normal)) && f < RAM_LIMIT
    requires spaces[KERNEL].height == 4
    ensures WindowShows(m1, m2, spaces, f, flags)
  {
    hide Walk, PathOf, FlagBits, CacheBits;
    forall g: Frame | g < RAM_LIMIT && g != f
      ensures Walk(m2, spaces[KERNEL].root, WindowPath(g)) == Walk(m1, spaces[KERNEL].root, WindowPath(g))
    {
      if WindowPath(f) == WindowPath(g) {
        WindowApart(f, g);
      }
      assert IsWalk(spaces[KERNEL], WindowPath(g));
    }
  }

  /** Make a frame visible in the kernel's window. */
  method MapPhysical(m: Memories, f: Frame, flags: MapFlags) returns (ok: bool)
    requires m.Valid() && f < RAM_LIMIT
    modifies m`mem, m.pmm, m.pmm.stack
    ensures ok ==> m.Valid() && m.Pool() == old(m.Pool()) && m.pmm.Frames() <= old(m.pmm.Frames())
    ensures ok ==> forall d | d in m.spaces :: WindowOnly(old(m.mem), m.mem, m.spaces[d]) && LowerKept(old(m.mem), m.mem, m.spaces[d])
    ensures ok ==> WindowShows(old(m.mem), m.mem, m.spaces, f, flags)
    ensures ok ==> SameOutside(old(m.mem), m.mem, old(m.Pool())) && OthersKept(old(m.mem), m.mem, m.spaces, KERNEL)
    ensures !ok ==> m.pmm.OutOfFrames()
  {
    hide Mapped, SameOutside, OthersKept, LowerKept, WindowOnly, InRam, WindowShows, RightsOf, RootKept;
    var virt := f * BLOCK_SIZE + PHYSMAP_BASE;
    PhysMapUpper(f);
    KernelShape(m.mem, m.spaces, m.pmm.Frames());
    hide World;
    var m1 := m.mem;
    ok := m.MapPage(KERNEL, f * BLOCK_SIZE, virt, flags, Normal);
    if ok {
      MappedWindow(m1, m.mem, m.spaces, f, LeafWord(f * BLOCK_SIZE, flags, Normal));
      MappedShows(m1, m.mem, m.spaces, f, flags);
      forall d | d in m.spaces
        ensures LowerKept(m1, m.mem, m.spaces[d])
      {
        WindowLower(m1, m.mem, m.spaces[d]);
      }
    }
  }

  lemma KernelShape(mem: Memory, spaces: map<Id, Space>, free: set<Frame>)
    requires World(mem, spaces, free)
    ensures KERNEL in spaces && spaces[KERNEL].height == 4 && spaces[KERNEL].span == ENTRIES
  {
  }

  lemma MappedUpper(m1: Memory, m2: Memory, spaces: map<Id, Space>, c: Id, p: seq<nat>, w: Word)
    requires Mapped(m1, m2, spaces, c, p, w) && p[0] >= HALF
    ensures forall d | d in spaces :: LowerKept(m1, m2, spaces[d])
  {
    hide Walk;
    forall d, q | d in spaces && spaces[d].height == 4 && Lower(q)
      ensures Walk(m2, spaces[d].root, q) == Walk(m1, spaces[d].root, q)
    {
      assert IsWalk(spaces[d], q) && q != p;
    }
  }

  // ---------------------------------------------------------------- the state of a fork

  /** The path lies below one of the first `n` entries of the table at the end of `p`; a full path stands for itself. */
  predicate Handled(q: seq<nat>, p: seq<nat>, n: nat) {
    Lower(q) && p <= q && (|p| < 4 ==> q[|p|] < n)
  }

  ghost function Elements(fs: seq<Frame>): set<Frame> {
    set f | f in fs
  }

  /** The child's entry `w` for the parent's entry `e`. */
  ghost predicate ForkedEntry(m1: Memory, pool1: set<Frame>, e: Option<Word>, m2: Memory, w: Option<Word>, fs: seq<Frame>) {
    if e.None? then w.None?
    else
      && w.Some? && w.value.frame in fs
      && w.value.bits == e.value.bits * {0, 1, 2, 8, 63}
      && (e.value.frame !in pool1 ==> At(m2, w.value.frame) == At(m1, e.value.frame))
  }

  /** No two pages of the child share a frame. */
  ghost predicate ApartPages(m2: Memory, root: Frame, p: seq<nat>, n: nat) {
    forall q, r | Handled(q, p, n) && Handled(r, p, n) && q != r && Walk(m2, root, q).Some? && Walk(m2, root, r).Some? ::
      Walk(m2, root, q).value.frame != Walk(m2, root, r).value.frame
  }

  ghost predicate ForkedPages(m1: Memory, pool1: set<Frame>, m2: Memory, parent: Frame, child: Frame, fs: seq<Frame>, p: seq<nat>, n: nat) {
    && (forall q | Handled(q, p, n) :: ForkedEntry(m1, pool1, Walk(m1, parent, q), m2, Walk(m2, child, q), fs))
    && (forall q | Lower(q) && !Handled(q, p, n) :: Walk(m2, child, q) == Walk(m1, child, q))
    && ApartPages(m2, child, p, n)
  }

  ghost predicate ForkFrame(m1: Memory, pool1: set<Frame>, m2: Memory, spaces: map<Id, Space>, child: Id) {
    && SameOutside(m1, m2, pool1)
    && (forall d | d in spaces && d != child :: LowerKept(m1, m2, spaces[d]))
    && (forall d | d in spaces && d != child && d != KERNEL :: SameOn(m1, m2, Tables(m1, spaces[d])))
    && (child in spaces ==> RootKept(m1, m2, spaces[child]))
  }

  /** Frames are taken out of the pool for pages, each once. */
  ghost predicate Spent(pool1: set<Frame>, free1: set<Frame>, pool2: set<Frame>, free2: set<Frame>, fs: seq<Frame>) {
    && pool2 == pool1 - Elements(fs) && Elements(fs) <= free1 && free2 <= free1 - Elements(fs) && NoRepeat(fs)
    && free1 <= pool1
  }

  lemma SpentTwice(pool1: set<Frame>, free1: set<Frame>, pool2: set<Frame>, free2: set<Frame>, fs: seq<Frame>,
                   pool3: set<Frame>, free3: set<Frame>, gs: seq<Frame>)
    requires Spent(pool1, free1, pool2, free2, fs) && Spent(pool2, free2, pool3, free3, gs)
    ensures Spent(pool1, free1, pool3, free3, fs + gs)
  {
    assert Elements(fs + gs) == Elements(fs) + Elements(gs);
    forall i, j | 0 <= i < j < |fs + gs|
      ensures (fs + gs)[i] != (fs + gs)[j]
    {
      if i < |fs| <= j {
        assert fs[i] in Elements(fs) && gs[j - |fs|] in Elements(gs);
      }
    }
  }

  lemma HandledNext(q: seq<nat>, p: seq<nat>, i: nat)
    requires |p| < 4 && i < ENTRIES
    ensures Handled(q, p, i + 1) <==> Handled(q, p, i) || Handled(q, p + [i], ENTRIES)
    ensures !(Handled(q, p, i) && Handled(q, p + [i], ENTRIES))
  {
    if Lower(q) && p <= q && q[|p|] == i {
      assert q[..|p| + 1] == p + [i];
    }
    if Handled(q, p + [i], ENTRIES) {
      assert q[|p|] == (p + [i])[|p|];
    }
  }

  /** Earlier pages are not touched by later steps. */
  lemma EntryKept(m1: Memory, pool1: set<Frame>, e: Option<Word>, m2: Memory, pool2: set<Frame>, m3: Memory, w: Option<Word>, fs: seq<Frame>, gs: seq<Frame>)
    requires ForkedEntry(m1, pool1, e, m2, w, fs) && SameOutside(m2, m3, pool2) && Elements(fs) !! pool2
    ensures ForkedEntry(m1, pool1, e, m3, w, fs + gs)
  {
    if e.Some? {
      assert w.value.frame in Elements(fs);
    }
  }

  /** Later pages are copies of what the parent had at the start. */
  lemma EntryLater(m1: Memory, pool1: set<Frame>, e: Option<Word>, m2: Memory, pool2: set<Frame>, m3: Memory, w: Option<Word>, fs: seq<Frame>, gs: seq<Frame>)
    requires ForkedEntry(m2, pool2, e, m3, w, gs) && SameOutside(m1, m2, pool1) && pool2 <= pool1
    ensures ForkedEntry(m1, pool1, e, m3, w, fs + gs)
  {
  }

  lemma ForkedPagesNext(m1: Memory, pool1: set<Frame>, m2: Memory, pool2: set<Frame>, m3: Memory, parent: Frame, child: Frame,
                        fs: seq<Frame>, gs: seq<Frame>, p: seq<nat>, i: nat)
    requires |p| < 4 && i < ENTRIES
    requires ForkedPages(m1, pool1, m2, parent, child, fs, p, i)
    requires ForkedPages(m2, pool2, m3, parent, child, gs, p + [i], ENTRIES)
    requires forall q | Lower(q) :: Walk(m2, parent, q) == Walk(m1, parent, q)
    requires SameOutside(m1, m2, pool1) && SameOutside(m2, m3, pool2) && pool2 <= pool1
    requires Elements(fs) !! pool2 && Elements(fs) !! Elements(gs)
    ensures ForkedPages(m1, pool1, m3, parent, child, fs + gs, p, i + 1)
  {
    hide Walk, ApartPages, ForkedEntry, SameOutside, Elements;
    forall q | Handled(q, p, i + 1)
      ensures ForkedEntry(m1, pool1, Walk(m1, parent, q), m3, Walk(m3, child, q), fs + gs)
    {
      HandledNext(q, p, i);
      if Handled(q, p, i) {
        EntryKept(m1, pool1, Walk(m1, parent, q), m2, pool2, m3, Walk(m2, child, q), fs, gs);
      } else {
        EntryLater(m1, pool1, Walk(m2, parent, q), m2, pool2, m3, Walk(m3, child, q), fs, gs);
      }
    }
    forall q | Lower(q) && !Handled(q, p, i + 1)
      ensures Walk(m3, child, q) == Walk(m1, child, q)
    {
      HandledNext(q, p, i);
    }
    ApartNext(m1, pool1, m2, pool2, m3, parent, child, fs, gs, p, i);
  }

  lemma ApartNext(m1: Memory, pool1: set<Frame>, m2: Memory, pool2: set<Frame>, m3: Memory, parent: Frame, child: Frame,
                  fs: seq<Frame>, gs: seq<Frame>, p: seq<nat>, i: nat)
    requires |p| < 4 && i < ENTRIES
    requires ForkedPages(m1, pool1, m2, parent, child, fs, p, i)
    requires ForkedPages(m2, pool2, m3, parent, child, gs, p + [i], ENTRIES)
    requires Elements(fs) !! Elements(gs)
    ensures ApartPages(m3, child, p, i + 1)
  {
    hide Walk;
    forall q | Handled(q, p, i + 1) && Walk(m3, child, q).Some?
      ensures Handled(q, p, i) ==> Walk(m3, child, q) == Walk(m2, child, q) && Walk(m3, child, q).value.frame in Elements(fs)
      ensures !Handled(q, p, i) ==> Handled(q, p + [i], ENTRIES) && Walk(m3, child, q).value.frame in Elements(gs)
    {
      HandledNext(q, p, i);
    }
  }

  // ---------------------------------------------------------------- one page

  lemma HandledSelf(r: seq<nat>, q: seq<nat>)
    requires Lower(q)
    ensures Handled(r, q, ENTRIES) <==> r == q
  {
  }

  lemma OnePage(m1: Memory, pool1: set<Frame>, m4: Memory, m5: Memory, spaces: map<Id, Space>, parent: Frame, child: Id, q: seq<nat>, e: Word, f: Frame)
    requires child in spaces && spaces[child].height == 4 && Lower(q) && Walk(m1, parent, q) == Some(e) && e.Present()
    requires LowerKept(m1, m4, spaces[child]) && Mapped(m4, m5, spaces, child, q, Word(f, e.bits * COPIED_BITS))
    requires e.frame !in pool1 ==> At(m5, f) == At(m1, e.frame)
    ensures ForkedPages(m1, pool1, m5, parent, spaces[child].root, [f], q, ENTRIES)
  {
    hide Walk;
    forall r | Lower(r)
      ensures Handled(r, q, ENTRIES) <==> r == q
      ensures r != q ==> Walk(m5, spaces[child].root, r) == Walk(m1, spaces[child].root, r)
    {
      HandledSelf(r, q);
      assert IsWalk(spaces[child], r);
    }
  }

  lemma LowerTwice(m1: Memory, m2: Memory, m3: Memory, s: Space)
    requires LowerKept(m1, m2, s) && LowerKept(m2, m3, s)
    ensures LowerKept(m1, m3, s)
  {
  }

  ghost predicate Family(spaces: map<Id, Space>, parent: Id, child: Id) {
    && parent in spaces && child in spaces && parent != child && parent != KERNEL && child != KERNEL
    && spaces[parent].height == 4 && spaces[parent].span == HALF
    && spaces[child].height == 4 && spaces[child].span == HALF
  }

  /** A frame can be read and written through the window, by the kernel only, and not executed. */
  ghost predicate Shown(mem: Memory, root: Frame, f: Frame) {
    var e := Walk(mem, root, PathOf(f * BLOCK_SIZE + PHYSMAP_BASE));
    e.Some? && e.value.frame == f && Writable(e) && LastRights(e) == Some(Rights(true, false, true))
  }

  ghost predicate ShownToKernel(mem: Memory, spaces: map<Id, Space>, f: Frame) {
    KERNEL in spaces && RightsOf(mem, spaces[KERNEL].root, PathOf(f * BLOCK_SIZE + PHYSMAP_BASE)) == Some(Rights(true, false, true))
  }

  lemma StillShown(m1: Memory, m2: Memory, spaces: map<Id, Space>, free: set<Frame>, f: Frame)
    requires World(m2, spaces, free) && KERNEL in spaces && spaces[KERNEL].height == 4
    requires Agree(m1, m2, spaces[KERNEL]) && Shown(m1, spaces[KERNEL].root, f)
    ensures ShownToKernel(m2, spaces, f)
  {
    hide World, Walk, RightsOf, PathOf;
    var p := PathOf(f * BLOCK_SIZE + PHYSMAP_BASE);
    assert IsWalk(spaces[KERNEL], p);
    PathRights(m2, spaces, free, KERNEL, p);
  }

  /** Both frames are visible at once. */
  lemma BothShow(m1: Memory, m2: Memory, m3: Memory, spaces: map<Id, Space>, src: Frame, f: Frame)
    requires src < RAM_LIMIT && f < RAM_LIMIT
    requires WindowShows(m1, m2, spaces, src, KERNEL_PAGE) && WindowShows(m2, m3, spaces, f, KERNEL_PAGE)
    ensures Shown(m3, spaces[KERNEL].root, src) && Shown(m3, spaces[KERNEL].root, f)
  {
    hide Walk, PathOf, FlagBits, CacheBits;
    WindowWord(src, KERNEL_PAGE);
    WindowWord(f, KERNEL_PAGE);
  }

  /** Copy one frame to another, both seen through the window. */
  method CopyThrough(m: Memories, src: Frame, f: Frame) returns (ok: bool)
    requires m.Valid() && src < RAM_LIMIT && f < RAM_LIMIT && f !in m.Pool()
    modifies m`mem, m.pmm, m.pmm.stack
    ensures ok ==> m.Valid() && m.Pool() == old(m.Pool()) && m.pmm.Frames() <= old(m.pmm.Frames())
    ensures ok ==> OthersKept(old(m.mem), m.mem, m.spaces, KERNEL) && SameOutside(old(m.mem), m.mem, old(m.Pool()) + {f})
    ensures ok ==> forall d | d in m.spaces :: LowerKept(old(m.mem), m.mem, m.spaces[d])
    ensures ok && src !in old(m.Pool()) ==> At(m.mem, f) == old(At(m.mem, src))
    ensures ok ==> ShownToKernel(m.mem, m.spaces, src) && ShownToKernel(m.mem, m.spaces, f)
    ensures !ok ==> m.pmm.OutOfFrames()
  {
    hide World, InRam, OthersKept, LowerKept, Tables, AllTables, Agree, WindowOnly, WindowShows, Walk, PathOf, Writable, ShownToKernel, CanWrite;
    KernelShape(m.mem, m.spaces, m.pmm.Frames());
    var m1 := m.mem;
    ok := MapPhysical(m, src, KERNEL_PAGE);
    if !ok {
      return;
    }
    var m2 := m.mem;
    ok := MapPhysical(m, f, KERNEL_PAGE);
    if !ok {
      return;
    }
    var m3 := m.mem;
    BothShow(m1, m2, m3, m.spaces, src, f);
    var contents := LoadThrough(m, KERNEL, src * BLOCK_SIZE + PHYSMAP_BASE);
    ok := StoreThrough(m, KERNEL, f * BLOCK_SIZE + PHYSMAP_BASE, contents.value);
    CopySteps(m1, m2, m3, m.mem, m.spaces);
    StillShown(m3, m.mem, m.spaces, m.pmm.Frames(), src);
    StillShown(m3, m.mem, m.spaces, m.pmm.Frames(), f);
  }

  lemma KernelIn(mem: Memory, spaces: map<Id, Space>, free: set<Frame>)
    requires World(mem, spaces, free)
    ensures KERNEL in spaces
  {
  }

  /** Copy the contents of a frame into a fresh one. */
  method CopyPage(m: Memories, src: Frame) returns (f: Option<Frame>)
    requires m.Valid() && src < RAM_LIMIT
    modifies m`mem, m.pmm, m.pmm.stack
    ensures f.Some? ==> m.Valid() && f.value in old(m.pmm.Frames()) && f.value < RAM_LIMIT
    ensures f.Some? ==> m.Pool() == old(m.Pool()) - {f.value} && m.pmm.Frames() <= old(m.pmm.Frames()) - {f.value}
    ensures f.Some? ==> OthersKept(old(m.mem), m.mem, m.spaces, KERNEL) && SameOutside(old(m.mem), m.mem, old(m.Pool()))
    ensures f.Some? ==> forall d | d in m.spaces :: LowerKept(old(m.mem), m.mem, m.spaces[d])
    ensures f.Some? && src !in old(m.Pool()) ==> At(m.mem, f.value) == old(At(m.mem, src))
    ensures f.Some? ==> ShownToKernel(m.mem, m.spaces, src) && ShownToKernel(m.mem, m.spaces, f.value)
    ensures f.None? ==> m.pmm.OutOfFrames()
  {
    hide World, InRam, OthersKept, LowerKept, Tables, AllTables, ShownToKernel;
    f := AllocPage(m);
    if f.None? {
      return None;
    }
    var ok := CopyThrough(m, src, f.value);
    if !ok {
      return None;
    }
  }

  lemma WindowWord(f: Frame, flags: MapFlags)
    requires f < RAM_LIMIT
    ensures var w := LeafWord(f * BLOCK_SIZE, flags, Normal);
            w.frame == f && (BIT_WRITABLE in w.bits <==> flags.writable) &&
            LastRights(Some(w)) == Some(Rights(flags.writable, flags.user, flags.noExecute))
  {
    assert f * BLOCK_SIZE / BLOCK_SIZE == f;
    FrameFits(f);
    LeafBits(f * BLOCK_SIZE, flags, Normal);
  }

  lemma CopySteps(m1: Memory, m2: Memory, m3: Memory, m4: Memory, spaces: map<Id, Space>)
    requires OthersKept(m1, m2, spaces, KERNEL) && OthersKept(m2, m3, spaces, KERNEL)
    requires Undisturbed(m3, m4, spaces)
    requires forall d | d in spaces :: LowerKept(m1, m2, spaces[d]) && LowerKept(m2, m3, spaces[d])
    ensures OthersKept(m1, m4, spaces, KERNEL)
    ensures forall d | d in spaces :: LowerKept(m1, m4, spaces[d])
  {
    hide Walk, Tables;
    assert OthersKept(m3, m4, spaces, KERNEL);
    KeptTwice(m1, m2, m3, spaces, KERNEL);
    KeptTwice(m1, m3, m4, spaces, KERNEL);
    forall d | d in spaces
      ensures LowerKept(m1, m4, spaces[d])
    {
      AgreeLower(m3, m4, spaces[d]);
      LowerTwice(m1, m2, m3, spaces[d]);
      LowerTwice(m1, m3, m4, spaces[d]);
    }
  }

  lemma AgreeLower(m1: Memory, m2: Memory, s: Space)
    requires Agree(m1, m2, s)
    ensures LowerKept(m1, m2, s)
  {
    if s.height == 4 {
      forall q | Lower(q)
        ensures Walk(m2, s.root, q) == Walk(m1, s.root, q)
      {
        assert IsWalk(s, q);
      }
    }
  }

  /** Copy one page of the parent into a fresh frame and map it at the same address in the child. */
  method ForkPage(m: Memories, parent: Id, child: Id, q: seq<nat>, e: Word) returns (f: Option<Frame>)
    requires m.Valid() && Family(m.spaces, parent, child) && Lower(q)
    requires Walk(m.mem, m.spaces[parent].root, q) == Some(e) && e.Present() && e.frame < RAM_LIMIT
    modifies m`mem, m.pmm, m.pmm.stack
    ensures f.Some? ==> m.Valid() && Spent(old(m.Pool()), old(m.pmm.Frames()), m.Pool(), m.pmm.Frames(), [f.value])
    ensures f.Some? ==> ForkedPages(old(m.mem), old(m.Pool()), m.mem, m.spaces[parent].root, m.spaces[child].root, [f.value], q, ENTRIES)
    ensures f.Some? ==> ForkFrame(old(m.mem), old(m.Pool()), m.mem, m.spaces, child)
    ensures f.None? ==> m.pmm.OutOfFrames()
  {
    hide World, InRam, Mapped, OthersKept, LowerKept, Walk, ForkedPages, ForkFrame, Tables, AllTables, Agree, RootKept, RightsOf;
    var m1 := m.mem;
    ghost var pool1, free1 := m.Pool(), m.pmm.Frames();
    f := CopyPage(m, e.frame);
    if f.None? {
      return None;
    }
    var m4 := m.mem;
    PathOfIndices(q[0], q[1], q[2], q[3]);
    assert [q[0], q[1], q[2], q[3]] == q;
    var ok := m.MapPage(child, f.value * BLOCK_SIZE, IndicesToAddr(q[0], q[1], q[2], q[3]), ForkFlags(e), Normal);
    if !ok {
      return None;
    }
    ForkWord(f.value, e);
    PageFrame(m1, pool1, m4, m.mem, m.spaces, child, q, Word(f.value, e.bits * COPIED_BITS));
    OnePage(m1, pool1, m4, m.mem, m.spaces, m.spaces[parent].root, child, q, e, f.value);
    SpentOne(pool1, free1, m.Pool(), m.pmm.Frames(), f.value);
  }

  lemma SpentOne(pool1: set<Frame>, free1: set<Frame>, pool2: set<Frame>, free2: set<Frame>, f: Frame)
    requires f in free1 && free1 <= pool1 && pool2 == pool1 - {f} && free2 <= free1 - {f}
    ensures Spent(pool1, free1, pool2, free2, [f])
  {
    assert Elements([f]) == {f};
  }

  /** What the steps for one page leave alone. */
  lemma PageFrame(m1: Memory, pool1: set<Frame>, m4: Memory, m5: Memory, spaces: map<Id, Space>, child: Id, q: seq<nat>, w: Word)
    requires Mapped(m4, m5, spaces, child, q, w) && child != KERNEL
    requires SameOutside(m1, m4, pool1) && SameOutside(m4, m5, pool1)
    requires OthersKept(m1, m4, spaces, KERNEL) && OthersKept(m4, m5, spaces, child) && RootKept(m4, m5, spaces[child])
    requires forall d | d in spaces :: LowerKept(m1, m4, spaces[d])
    ensures ForkFrame(m1, pool1, m5, spaces, child)
  {
    hide Walk, Tables, LowerKept, Agree;
    forall d | d in spaces && d != child
      ensures LowerKept(m1, m5, spaces[d])
    {
      AgreeLower(m4, m5, spaces[d]);
      LowerTwice(m1, m4, m5, spaces[d]);
    }
    forall d | d in spaces && d != child && d != KERNEL
      ensures SameOn(m1, m5, Tables(m1, spaces[d]))
    {
      SpaceFrame(m1, m4, spaces[d]);
    }
    RootInTables(m1, spaces[child]);
    assert RootKept(m1, m4, spaces[child]);
    RootKeptTwice(m1, m4, m5, spaces[child]);
  }

  // ---------------------------------------------------------------- all pages

  ghost predicate EmptyBelow(mem: Memory, root: Frame, p: seq<nat>) {
    forall q | Lower(q) && p <= q :: Walk(mem, root, q) == None
  }

  /** The pages of the lower half lie in RAM. */
  ghost predicate LeavesInRam(mem: Memory, root: Frame) {
    forall q | Lower(q) && Walk(mem, root, q).Some? :: Walk(mem, root, q).value.frame < RAM_LIMIT
  }

  lemma ForkFrameTwice(m1: Memory, pool1: set<Frame>, m2: Memory, pool2: set<Frame>, m3: Memory, spaces: map<Id, Space>, child: Id)
    requires ForkFrame(m1, pool1, m2, spaces, child) && ForkFrame(m2, pool2, m3, spaces, child) && pool2 <= pool1
    ensures ForkFrame(m1, pool1, m3, spaces, child)
  {
    hide Walk, Tables, LowerKept;
    forall d | d in spaces && d != child
      ensures LowerKept(m1, m3, spaces[d])
    {
      LowerTwice(m1, m2, m3, spaces[d]);
    }
    forall d | d in spaces && d != child && d != KERNEL
      ensures SameOn(m1, m3, Tables(m1, spaces[d]))
    {
      SpaceFrame(m1, m2, spaces[d]);
    }
    if child in spaces {
      RootKeptTwice(m1, m2, m3, spaces[child]);
    }
  }

  lemma ForkNothing(m1: Memory, pool1: set<Frame>, free1: set<Frame>, spaces: map<Id, Space>, parent: Frame, child: Id, p: seq<nat>)
    requires child in spaces && |p| < 4 && free1 <= pool1
    ensures ForkedPages(m1, pool1, m1, parent, spaces[child].root, [], p, 0)
    ensures ForkFrame(m1, pool1, m1, spaces, child)
    ensures Spent(pool1, free1, pool1, free1, [])
  {
    hide Walk, Tables;
    assert pool1 - Elements([]) == pool1 && free1 - Elements([]) == free1;
  }

  lemma ForkNext(m1: Memory, pool1: set<Frame>, free1: set<Frame>, m2: Memory, pool2: set<Frame>, free2: set<Frame>,
                 m3: Memory, pool3: set<Frame>, free3: set<Frame>, spaces: map<Id, Space>, parent: Id, child: Id,
                 fs: seq<Frame>, gs: seq<Frame>, p: seq<nat>, i: nat)
    requires Family(spaces, parent, child) && |p| < 4 && i < ENTRIES
    requires Spent(pool1, free1, pool2, free2, fs) && Spent(pool2, free2, pool3, free3, gs)
    requires ForkedPages(m1, pool1, m2, spaces[parent].root, spaces[child].root, fs, p, i)
    requires ForkedPages(m2, pool2, m3, spaces[parent].root, spaces[child].root, gs, p + [i], ENTRIES)
    requires ForkFrame(m1, pool1, m2, spaces, child) && ForkFrame(m2, pool2, m3, spaces, child)
    ensures Spent(pool1, free1, pool3, free3, fs + gs)
    ensures ForkedPages(m1, pool1, m3, spaces[parent].root, spaces[child].root, fs + gs, p, i + 1)
    ensures ForkFrame(m1, pool1, m3, spaces, child)
  {
    SpentTwice(pool1, free1, pool2, free2, fs, pool3, free3, gs);
    hide ForkedPages, Walk, Tables;
    ForkFrameTwice(m1, pool1, m2, pool2, m3, spaces, child);
    assert LowerKept(m1, m2, spaces[parent]);
    ForkedPagesNext(m1, pool1, m2, pool2, m3, spaces[parent].root, spaces[child].root, fs, gs, p, i);
  }

  /** An entry that the parent does not have leaves the child without pages there. */
  lemma ForkSkip(m1: Memory, pool1: set<Frame>, m2: Memory, parent: Frame, child: Frame, fs: seq<Frame>, p: seq<nat>, i: nat)
    requires ForkedPages(m1, pool1, m2, parent, child, fs, p, i) && IsPath(p) && |p| < 4 && i < ENTRIES
    requires Reaches(m1, parent, p) && !Has(m1, NodeAt(m1, parent, p), i)
    requires EmptyBelow(m1, child, p)
    ensures ForkedPages(m1, pool1, m2, parent, child, fs, p, i + 1)
  {
    forall q | Lower(q)
      ensures Handled(q, p, i + 1) && !Handled(q, p, i) ==> Walk(m1, parent, q) == None && Walk(m2, child, q) == None
      ensures Handled(q, p, i) ==> Handled(q, p, i + 1)
    {
      if Handled(q, p, i + 1) && !Handled(q, p, i) {
        WalkFrom(m1, parent, p, q);
        assert q[|p|..][0] == i;
      }
    }
    hide Walk;
    forall q, r | Handled(q, p, i + 1) && Handled(r, p, i + 1) && q != r && Walk(m2, child, q).Some? && Walk(m2, child, r).Some?
      ensures Walk(m2, child, q).value.frame != Walk(m2, child, r).value.frame
    {
      assert Handled(q, p, i) && Handled(r, p, i);
    }
  }

  /** The parent's tables are the same at every moment of the fork. */
  lemma ParentTable(m1: Memory, pool1: set<Frame>, free1: set<Frame>, m2: Memory, spaces: map<Id, Space>, parent: Id, child: Id, p: seq<nat>)
    requires World(m1, spaces, free1) && Family(spaces, parent, child) && ForkFrame(m1, pool1, m2, spaces, child)
    requires IsPath(p) && |p| < 4 && (p != [] ==> p[0] < HALF) && Reaches(m1, spaces[parent].root, p)
    ensures Reaches(m2, spaces[parent].root, p) && NodeAt(m2, spaces[parent].root, p) == NodeAt(m1, spaces[parent].root, p)
    ensures At(m2, NodeAt(m1, spaces[parent].root, p)) == At(m1, NodeAt(m1, spaces[parent].root, p))
  {
    hide LowerKept, AllApart, NoneFree, AllShare;
    NodeOwned(m1, spaces[parent], p);
    ReachesFrame(m1, m2, spaces[parent].root, 4, 0, HALF, p);
  }

  /** What a step into entry `i` of a parent table starts from. */
  lemma ForkInto(m1: Memory, pool1: set<Frame>, m2: Memory, spaces: map<Id, Space>, parent: Id, child: Id, fs: seq<Frame>, p: seq<nat>, i: nat)
    requires Family(spaces, parent, child) && IsPath(p) && |p| < 4 && i < ENTRIES
    requires ForkedPages(m1, pool1, m2, spaces[parent].root, spaces[child].root, fs, p, i)
    requires ForkFrame(m1, pool1, m2, spaces, child)
    requires EmptyBelow(m1, spaces[child].root, p) && LeavesInRam(m1, spaces[parent].root)
    ensures EmptyBelow(m2, spaces[child].root, p + [i]) && LeavesInRam(m2, spaces[parent].root)
  {
    hide Walk, ForkedEntry, ApartPages, Tables;
    forall q | Lower(q) && p + [i] <= q
      ensures Walk(m2, spaces[child].root, q) == None
    {
      assert q[|p|] == (p + [i])[|p|] && p <= q;
    }
    assert LowerKept(m1, m2, spaces[parent]);
  }

  /** The walk to a present word of an innermost table ends in that word. */
  lemma WalkToWord(mem: Memory, root: Frame, p: seq<nat>, i: nat)
    requires IsPath(p) && |p| == 3 && i < ENTRIES && Reaches(mem, root, p) && Has(mem, NodeAt(mem, root, p), i)
    ensures IsPath(p + [i]) && Walk(mem, root, p + [i]) == Some(At(mem, NodeAt(mem, root, p))[i])
  {
    WalkFrom(mem, root, p, p + [i]);
    assert (p + [i])[3..] == [i];
  }

  /** `t` is the table of the space that `p` leads to. */
  ghost predicate TableAt(mem: Memory, root: Frame, p: seq<nat>, t: Frame) {
    IsPath(p) && |p| < 4 && Reaches(mem, root, p) && NodeAt(mem, root, p) == t
  }

  /** The parent's table at the end of `p` is `t`, and the child maps nothing below `p` yet. */
  ghost predicate ForkReady(mem: Memory, spaces: map<Id, Space>, parent: Id, child: Id, p: seq<nat>, t: Frame, n: nat) {
    && Family(spaces, parent, child) && TableAt(mem, spaces[parent].root, p, t)
    && n <= ENTRIES && (if p == [] then n <= HALF else p[0] < HALF)
    && EmptyBelow(mem, spaces[child].root, p) && LeavesInRam(mem, spaces[parent].root)
  }

  /** The child has the pages below the first `n` entries at the end of `p`, in frames of its own. */
  ghost predicate Forked(m1: Memory, pool: set<Frame>, m2: Memory, spaces: map<Id, Space>, parent: Id, child: Id,
                         fs: seq<Frame>, p: seq<nat>, n: nat) {
    && Family(spaces, parent, child)
    && ForkedPages(m1, pool, m2, spaces[parent].root, spaces[child].root, fs, p, n)
    && ForkFrame(m1, pool, m2, spaces, child)
  }

  /** Fork every page below the first `n` entries of the parent's table at the end of `p`. */
  method ForkBelow(m: Memories, parent: Id, child: Id, p: seq<nat>, t: Frame, n: nat) returns (r: Option<seq<Frame>>)
    requires m.Valid() && ForkReady(m.mem, m.spaces, parent, child, p, t, n)
    modifies m`mem, m.pmm, m.pmm.stack
    ensures r.Some? ==> m.Valid() && Spent(old(m.Pool()), old(m.pmm.Frames()), m.Pool(), m.pmm.Frames(), r.value)
    ensures r.Some? ==> Forked(old(m.mem), old(m.Pool()), m.mem, m.spaces, parent, child, r.value, p, n)
    ensures r.None? ==> m.pmm.OutOfFrames()
    decreases 4 - |p|
  {
    hide World, InRam, ForkedPages, ForkFrame, Spent, Walk, EmptyBelow, LeavesInRam, AllTables;
    ghost var m1, pool1, free1 := m.mem, m.Pool(), m.pmm.Frames();
    var fs := [];
    ForkNothing(m1, pool1, free1, m.spaces, m.spaces[parent].root, child, p);
    var i := 0;
    while i < n
      invariant i <= n && m.Valid() && m.spaces == old(m.spaces)
      invariant Spent(pool1, free1, m.Pool(), m.pmm.Frames(), fs)
      invariant ForkedPages(m1, pool1, m.mem, m.spaces[parent].root, m.spaces[child].root, fs, p, i)
      invariant ForkFrame(m1, pool1, m.mem, m.spaces, child)
    {
      ghost var m2, pool2, free2 := m.mem, m.Pool(), m.pmm.Frames();
      ParentTable(m1, pool1, free1, m2, m.spaces, parent, child, p);
      var entry := At(m.mem, t)[i];
      if entry.Present() {
        ForkInto(m1, pool1, m2, m.spaces, parent, child, fs, p, i);
        PathNext(p, i);
        ReachesNext(m2, m.spaces[parent].root, p, i);
        var gs := ForkEntry(m, parent, child, p, t, i);
        if gs.None? {
          return None;
        }
        ForkNext(m1, pool1, free1, m2, pool2, free2, m.mem, m.Pool(), m.pmm.Frames(), m.spaces, parent, child, fs, gs.value, p, i);
        fs := fs + gs.value;
      } else {
        ForkSkip(m1, pool1, m2, m.spaces[parent].root, m.spaces[child].root, fs, p, i);
      }
      i := i + 1;
    }
    return Some(fs);
  }

  lemma PathNext(p: seq<nat>, i: nat)
    requires IsPath(p) && i < ENTRIES
    ensures IsPath(p + [i])
  {
  }

  /** Fork what one present entry stands for: a page at the innermost level, a table above it. */
  method ForkEntry(m: Memories, parent: Id, child: Id, p: seq<nat>, t: Frame, i: nat) returns (r: Option<seq<Frame>>)
    requires m.Valid() && Family(m.spaces, parent, child) && IsPath(p) && |p| < 4 && IsPath(p + [i]) && (p + [i])[0] < HALF
    requires Reaches(m.mem, m.spaces[parent].root, p) && NodeAt(m.mem, m.spaces[parent].root, p) == t && Has(m.mem, t, i)
    requires EmptyBelow(m.mem, m.spaces[child].root, p + [i]) && LeavesInRam(m.mem, m.spaces[parent].root)
    modifies m`mem, m.pmm, m.pmm.stack
    ensures r.Some? ==> m.Valid() && Spent(old(m.Pool()), old(m.pmm.Frames()), m.Pool(), m.pmm.Frames(), r.value)
    ensures r.Some? ==> Forked(old(m.mem), old(m.Pool()), m.mem, m.spaces, parent, child, r.value, p + [i], ENTRIES)
    ensures r.None? ==> m.pmm.OutOfFrames()
    decreases 4 - |p|, 0
  {
    hide World, InRam, ForkedPages, ForkFrame, Spent, Walk, EmptyBelow, AllTables;
    var entry := At(m.mem, t)[i];
    if |p| == 3 {
      WalkToWord(m.mem, m.spaces[parent].root, p, i);
      var f := ForkPage(m, parent, child, p + [i], entry);
      r := if f.Some? then Some([f.value]) else None;
    } else {
      ReachesNext(m.mem, m.spaces[parent].root, p, i);
      r := ForkBelow(m, parent, child, p + [i], entry.frame, ENTRIES);
    }
  }

  // ---------------------------------------------------------------- the whole address space

  lemma ForkAfterClone(m0: Memory, pool: set<Frame>, m1: Memory, m2: Memory, parent: Space, child: Frame, fs: seq<Frame>)
    requires parent.height == 4 && Agree(m0, m1, parent) && SameOutside(m0, m1, pool)
    requires ForkedPages(m1, pool, m2, parent.root, child, fs, [], HALF)
    ensures forall q | Lower(q) :: ForkedEntry(m0, pool, Walk(m0, parent.root, q), m2, Walk(m2, child, q), fs)
    ensures ApartPages(m2, child, [], HALF)
  {
    hide Walk, ApartPages;
    forall q | Lower(q)
      ensures ForkedEntry(m0, pool, Walk(m0, parent.root, q), m2, Walk(m2, child, q), fs)
    {
      assert IsWalk(parent, q) && Handled(q, [], HALF);
      EntryLater(m0, pool, Walk(m1, parent.root, q), m1, pool, m2, Walk(m2, child, q), [], fs);
      assert [] + fs == fs;
    }
  }

  /** The kernel maps nothing in its lower half. */
  ghost predicate KernelLowerEmpty(mem: Memory, spaces: map<Id, Space>) {
    KERNEL in spaces && forall q | Lower(q) :: Walk(mem, spaces[KERNEL].root, q) == None
  }

  /**
   Fork an address space into an unused one.  The child maps exactly the parent's present lower-half
   pages, at the same addresses, each to a frame of its own that was free before and holds a copy of
   the parent's page, with the same writable, user, no-execute and global bits and the same rights along
   its path.  In the upper half it translates as the kernel does wherever the kernel had a root word.  All
   lower-half translations that existed stay, and the frames used are recorded, each once.
   */
  method ForkAddressSpace(m: Memories, parent: Id, child: Id) returns (r: Option<seq<Frame>>)
    requires m.Valid() && parent in m.spaces && parent != KERNEL && child !in m.spaces
    requires m.spaces[parent].height == 4 && m.spaces[parent].span == HALF
    requires KernelLowerEmpty(m.mem, m.spaces) && LeavesInRam(m.mem, m.spaces[parent].root)
    modifies m, m.pmm, m.pmm.stack
    ensures r.Some? ==> m.Valid() && m.spaces.Keys == old(m.spaces).Keys + {child} && m.spaces == old(m.spaces)[child := m.spaces[child]]
    ensures r.Some? ==> m.spaces[child].height == 4 && m.spaces[child].span == HALF
    ensures r.Some? ==> forall q | Lower(q) ::
              ForkedEntry(old(m.mem), old(m.Pool()), old(Walk(m.mem, m.spaces[parent].root, q)), m.mem, Walk(m.mem, m.spaces[child].root, q), r.value)
    ensures r.Some? ==> ApartPages(m.mem, m.spaces[child].root, [], HALF)
    ensures r.Some? ==> forall q | Lower(q) ::
              RightsOf(m.mem, m.spaces[child].root, q) == old(RightsOf(m.mem, m.spaces[parent].root, q))
    ensures r.Some? ==> forall q | IsPath(q) && |q| == 4 && q[0] >= HALF ::
              Walk(m.mem, m.spaces[child].root, q) ==
                if old(Has(m.mem, m.spaces[KERNEL].root, q[0])) then Walk(m.mem, m.spaces[KERNEL].root, q) else None
    ensures r.Some? ==> forall d | d in old(m.spaces) :: LowerKept(old(m.mem), m.mem, m.spaces[d])
    ensures r.Some? ==> Spent(old(m.Pool()), old(m.pmm.Frames()), m.Pool(), m.pmm.Frames(), r.value)
    ensures r.Some? ==> SameOutside(old(m.mem), m.mem, old(m.Pool()))
    ensures r.None? ==> m.pmm.OutOfFrames()
  {
    hide World, InRam, ForkedPages, ForkFrame, Walk, AllTables, Tables, LeavesInRam, Agree, LowerKept, Elements, NoRepeat, RightsOf, ForkedEntry;
    ghost var m0, pool, free0, spaces0 := m.mem, m.Pool(), m.pmm.Frames(), m.spaces;
    KernelShape(m.mem, m.spaces, m.pmm.Frames());
    var ok := ClonePagingInfo(m, KERNEL, child);
    if !ok {
      return None;
    }
    ghost var m1, free1 := m.mem, m.pmm.Frames();
    ClonedForFork(m0, m1, spaces0, m.spaces, parent, child, pool, free0, free1);
    r := ForkBelow(m, parent, child, [], m.spaces[parent].root, HALF);
    if r.Some? {
      ForkAfterClone(m0, pool, m1, m.mem, m.spaces[parent], m.spaces[child].root, r.value);
      ForkKeeps(m0, pool, m1, m.mem, spaces0, m.spaces, child);
      SpentAfter(pool, free0, free1, m.Pool(), m.pmm.Frames(), r.value);
      ForkUpper(m0, m1, m.mem, m.spaces, m.pmm.Frames(), child, pool);
      ForkRights(m0, free0, pool, m.mem, spaces0, m.spaces, m.pmm.Frames(), parent, child, r.value);
    }
  }

  /** The root words cloned from the kernel are still there, and they are the kernel's. */
  lemma ForkUpper(m0: Memory, m1: Memory, m2: Memory, spaces: map<Id, Space>, free: set<Frame>, child: Id, pool: set<Frame>)
    requires World(m2, spaces, free) && child in spaces && spaces[child].height == 4 && spaces[child].span == HALF
    requires forall i | HALF <= i < ENTRIES :: At(m1, spaces[child].root)[i] == At(m0, spaces[KERNEL].root)[i]
    requires ForkFrame(m1, pool, m2, spaces, child)
    ensures forall q | IsPath(q) && |q| == 4 && q[0] >= HALF ::
              Walk(m2, spaces[child].root, q) ==
                if Has(m0, spaces[KERNEL].root, q[0]) then Walk(m2, spaces[KERNEL].root, q) else None
  {
    hide Walk, AllTrees, AllApart, NoneFree, AllLinked, LowerKept, Tables, SameOutside;
    forall q | IsPath(q) && |q| == 4 && q[0] >= HALF
      ensures Walk(m2, spaces[child].root, q) ==
                if Has(m0, spaces[KERNEL].root, q[0]) then Walk(m2, spaces[KERNEL].root, q) else None
    {
      assert IsWalk(spaces[child], q);
      UpperWalk(m2, spaces, child, q);
    }
  }

  /** The copied bits carry the rights over. */
  lemma ForkRights(m0: Memory, free0: set<Frame>, pool: set<Frame>, m2: Memory, spaces0: map<Id, Space>, spaces: map<Id, Space>,
                   free2: set<Frame>, parent: Id, child: Id, fs: seq<Frame>)
    requires World(m0, spaces0, free0) && World(m2, spaces, free2) && AddressSpace(spaces0, parent) && AddressSpace(spaces, child)
    requires spaces0[parent].height == 4 && spaces[child].height == 4
    requires forall q | Lower(q) :: ForkedEntry(m0, pool, Walk(m0, spaces0[parent].root, q), m2, Walk(m2, spaces[child].root, q), fs)
    ensures forall q | Lower(q) :: RightsOf(m2, spaces[child].root, q) == RightsOf(m0, spaces0[parent].root, q)
  {
    hide World, Walk, RightsOf;
    forall q | Lower(q)
      ensures RightsOf(m2, spaces[child].root, q) == RightsOf(m0, spaces0[parent].root, q)
    {
      PathRights(m0, spaces0, free0, parent, q);
      PathRights(m2, spaces, free2, child, q);
      assert ForkedEntry(m0, pool, Walk(m0, spaces0[parent].root, q), m2, Walk(m2, spaces[child].root, q), fs);
    }
  }

  lemma ClonedForFork(m0: Memory, m1: Memory, spaces0: map<Id, Space>, spaces: map<Id, Space>, parent: Id, child: Id,
                      pool: set<Frame>, free0: set<Frame>, free1: set<Frame>)
    requires KernelLowerEmpty(m0, spaces0) && child !in spaces0 && child in spaces && spaces == spaces0[child := spaces[child]]
    requires parent in spaces0 && parent != KERNEL && spaces0[parent].height == 4 && spaces0[parent].span == HALF
    requires spaces[child].height == 4 && spaces[child].span == HALF && spaces0[KERNEL].height == 4
    requires forall d | d in spaces0 :: Agree(m0, m1, spaces[d])
    requires forall q | IsWalk(spaces[child], q) :: Walk(m1, spaces[child].root, q) == Walk(m0, spaces0[KERNEL].root, q)
    requires LeavesInRam(m0, spaces0[parent].root)
    requires SameOutside(m0, m1, free0 - free1) && free0 <= pool
    ensures Family(spaces, parent, child) && EmptyBelow(m1, spaces[child].root, []) && LeavesInRam(m1, spaces[parent].root)
    ensures TableAt(m1, spaces[parent].root, [], spaces[parent].root)
    ensures SameOutside(m0, m1, pool)
  {
    hide Walk;
    forall q | Lower(q)
      ensures Walk(m1, spaces[child].root, q) == None
      ensures Walk(m1, spaces[parent].root, q) == Walk(m0, spaces[parent].root, q)
    {
      assert IsWalk(spaces[child], q) && IsWalk(spaces[parent], q);
    }
  }

  lemma ForkKeeps(m0: Memory, pool: set<Frame>, m1: Memory, m2: Memory, spaces0: map<Id, Space>, spaces: map<Id, Space>, child: Id)
    requires child !in spaces0 && child in spaces && spaces == spaces0[child := spaces[child]]
    requires forall d | d in spaces0 :: Agree(m0, m1, spaces[d])
    requires ForkFrame(m1, pool, m2, spaces, child) && SameOutside(m0, m1, pool)
    ensures forall d | d in spaces0 :: LowerKept(m0, m2, spaces[d])
    ensures SameOutside(m0, m2, pool)
  {
    hide LowerKept, Agree, Tables;
    forall d | d in spaces0
      ensures LowerKept(m0, m2, spaces[d])
    {
      AgreeLower(m0, m1, spaces[d]);
      LowerTwice(m0, m1, m2, spaces[d]);
    }
  }

  lemma SpentAfter(pool: set<Frame>, free0: set<Frame>, free1: set<Frame>, pool2: set<Frame>, free2: set<Frame>, fs: seq<Frame>)
    requires Spent(pool, free1, pool2, free2, fs) && free1 <= free0 <= pool
    ensures Spent(pool, free0, pool2, free2, fs)
  {
  }

  // ---------------------------------------------------------------- giving it all back

  /** Free the frames of pages, one by one. */
  method FreePages(m: Memories, frames: seq<Frame>) returns (ok: bool)
    requires m.Valid() && NoRepeat(frames) && Elements(frames) !! m.Pool() && InRam(Elements(frames))
    modifies m.pmm, m.pmm.stack
    ensures ok ==> m.Valid() && m.pmm.Frames() == old(m.pmm.Frames()) + Elements(frames) && m.Pool() == old(m.Pool()) + Elements(frames)
    ensures !ok ==> m.pmm.StackFull()
  {
    hide World, InRam, Tables, AllTables, NoRepeat, Elements, Memories.Pool, Allocator.Frames, Allocator.Runs;
    ghost var pool, free := m.Pool(), m.pmm.Frames();
    EmptyPrefix(frames);
    var i := 0;
    while i < |frames|
      invariant i <= |frames| && m.Valid()
      invariant m.pmm.Frames() == free + Elements(frames[..i])
      invariant m.Pool() == pool + Elements(frames[..i])
    {
      NextFrame(frames, i);
      ok := FreePage(m, frames[i]);
      if !ok {
        return false;
      }
      OneMore(pool, frames, i);
      OneMore(free, frames, i);
      i := i + 1;
    }
    assert frames[..i] == frames;
    return true;
  }

  /** Free the recorded frames, then the tables: every frame of the thread returns to the pool. */
  method Release(m: Memories, c: Id, frames: seq<Frame>) returns (ok: bool)
    requires m.Valid() && c in m.spaces && c != KERNEL && m.spaces[c].height == 4 && m.spaces[c].span == HALF
    requires NoRepeat(frames) && Elements(frames) !! m.Pool() && InRam(Elements(frames))
    modifies m, m.pmm, m.pmm.stack
    ensures ok ==> m.Valid() && m.mem == old(m.mem) && m.spaces == old(m.spaces) - {c}
    ensures ok ==> m.pmm.Frames() == old(m.pmm.Frames()) + Elements(frames) + old(Tables(m.mem, m.spaces[c]))
    ensures ok ==> m.Pool() == old(m.Pool()) + Elements(frames)
    ensures !ok ==> m.pmm.StackFull()
  {
    hide World, InRam, Tables, AllTables, NoRepeat, Elements;
    ok := FreePages(m, frames);
    if ok {
      ok := Deinit(m, c);
    }
  }

  lemma OneMore(s: set<Frame>, fs: seq<Frame>, i: nat)
    requires i < |fs|
    ensures s + Elements(fs[..i + 1]) == s + Elements(fs[..i]) + {fs[i]}
  {
    assert fs[..i + 1] == fs[..i] + [fs[i]];
  }

  lemma EmptyPrefix(fs: seq<Frame>)
    ensures Elements(fs[..0]) == {}
  {
  }

  lemma NextFrame(fs: seq<Frame>, i: nat)
    requires NoRepeat(fs) && i < |fs| && InRam(Elements(fs))
    ensures fs[i] in Elements(fs) && fs[i] !in Elements(fs[..i]) && fs[i] < RAM_LIMIT
    ensures Elements(fs[..i + 1]) == Elements(fs[..i]) + {fs[i]}
  {
    assert fs[..i + 1] == fs[..i] + [fs[i]];
  }

  /**
   A fork whose child is released at once costs nothing but kernel tables: the pool of free and table
   frames is the same again, and so are all lower-half translations.  What the child was is left in memory.
   */
  method ForkThenRelease(m: Memories, parent: Id, child: Id) returns (ok: bool, root: Frame, frames: seq<Frame>)
    requires m.Valid() && parent in m.spaces && parent != KERNEL && child !in m.spaces && child != KERNEL
    requires m.spaces[parent].height == 4 && m.spaces[parent].span == HALF
    requires KernelLowerEmpty(m.mem, m.spaces) && LeavesInRam(m.mem, m.spaces[parent].root)
    modifies m, m.pmm, m.pmm.stack
    ensures ok ==> m.Valid() && m.spaces == old(m.spaces) && m.Pool() == old(m.Pool())
    ensures ok ==> forall d | d in m.spaces :: LowerKept(old(m.mem), m.mem, m.spaces[d])
    ensures ok ==> forall q | Lower(q) ::
              ForkedEntry(old(m.mem), old(m.Pool()), old(Walk(m.mem, m.spaces[parent].root, q)), m.mem, Walk(m.mem, root, q), frames)
    ensures !ok ==> m.pmm.OutOfFrames() || m.pmm.StackFull()
  {
    hide World, Walk, Tables, AllTables, LowerKept, ForkedEntry, ApartPages, NoRepeat, LeavesInRam, KernelLowerEmpty;
    ghost var pool := m.Pool();
    root, frames := 0, [];
    var forked := ForkAddressSpace(m, parent, child);
    if forked.None? {
      return false, root, frames;
    }
    root, frames := m.spaces[child].root, forked.value;
    assert Elements(frames) <= pool;
    ok := Release(m, child, frames);
    assert ok ==> m.Pool() == pool;
  }
}
