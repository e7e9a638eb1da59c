/** Frame ownership over every run of the memory-management calls. */
module Runs {
  import opened Wrappers
  import opened FrameRuns
  import opened FrameDrain
  import opened RadixTree
  import opened Links
  import opened Ownership
  import opened VirtualAddress
  import opened Machine
  import opened Lifetime
  import opened Clone
  import opened Fork
  import opened Anonymous
  import opened LastWords
  import opened SecondLevel

  datatype Call =
    | CallInit(c: Id)
    | CallMap(c: Id, phys: nat, virt: nat, flags: MapFlags, cache: CacheType)
    | CallProtect(c: Id, virt: nat, flags: MapFlags, cache: CacheType)
    | CallClone(src: Id, dst: Id)
    | CallDeinit(c: Id)
    | CallAlloc
    | CallAllocMany(n: nat)
    | CallFree(f: Frame)
    | CallWrite(f: Frame, contents: Page)
    | CallFork(parent: Id, child: Id)
    | CallAnonymous(c: Id, size: nat, prot: Prot)
    | CallNewIo(c: Id, level: nat)
    | CallMapIo(c: Id, pa: nat, iova: nat, access: Access)
    | CallDestroyIo(c: Id)

  predicate UserSpace(spaces: map<Id, Space>, c: Id) {
    c in spaces && c != KERNEL && spaces[c].height == 4 && spaces[c].span == HALF
  }

  /** A user space is mapped in its lower half, the kernel anywhere. */
  predicate Mappable(spaces: map<Id, Space>, c: Id, virt: nat) {
    (UserSpace(spaces, c) && Pml4Index(virt) < HALF) || c == KERNEL
  }

  /** What a caller must see to: live and unused spaces, own addresses, and only frames it holds. */
  predicate Allowed(spaces: map<Id, Space>, held: set<Frame>, forkable: bool, call: Call) {
    match call
    case CallInit(c) => c !in spaces
    case CallMap(c, _, virt, _, _) => Mappable(spaces, c, virt)
    case CallProtect(c, virt, _, _) => Mappable(spaces, c, virt)
    case CallClone(src, dst) => (src == KERNEL || UserSpace(spaces, src)) && dst !in spaces
    case CallDeinit(c) => UserSpace(spaces, c)
    case CallAlloc => true
    case CallAllocMany(n) => n >= 1
    case CallFree(f) => f in held
    case CallWrite(f, _) => f in held
    case CallFork(parent, child) => forkable && UserSpace(spaces, parent) && child !in spaces
    case CallAnonymous(c, _, _) => UserSpace(spaces, c)
    case CallNewIo(c, level) => c !in spaces && 3 <= level <= 5
    case CallMapIo(c, _, _, _) => IoSpace(spaces, c)
    case CallDestroyIo(c) => IoSpace(spaces, c)
  }

  /** Frames handed out for pages are in RAM and neither free nor tables. */
  ghost predicate Held(pool: set<Frame>, held: set<Frame>) {
    held !! pool && InRam(held)
  }

  // ---------------------------------------------------------------- what forking needs

  /** The kernel maps nothing in its lower half, and user spaces map frames of RAM there. */
  ghost predicate Forkable(mem: Memory, spaces: map<Id, Space>) {
    KernelLowerEmpty(mem, spaces) && forall c | UserSpace(spaces, c) :: LeavesInRam(mem, spaces[c].root)
  }

  /** The kernel is mapped in its upper half, user spaces to frames of RAM. */
  predicate KeepsForkable(call: Call) {
    call.CallMap? ==> if call.c == KERNEL then Pml4Index(call.virt) >= HALF else FrameOf(call.phys) < RAM_LIMIT
  }

  lemma LowerForkable(m1: Memory, m2: Memory, spaces: map<Id, Space>)
    requires Forkable(m1, spaces) && Shaped(spaces)
    requires forall d | UserSpace(spaces, d) || d == KERNEL :: LowerKept(m1, m2, spaces[d])
    ensures Forkable(m2, spaces)
  {
    hide Walk;
    forall c | UserSpace(spaces, c)
      ensures LeavesInRam(m2, spaces[c].root)
    {
      assert LeavesInRam(m1, spaces[c].root);
    }
  }

  lemma AgreeForkable(m1: Memory, m2: Memory, spaces: map<Id, Space>)
    requires Forkable(m1, spaces) && Shaped(spaces) && forall d | d in spaces :: Agree(m1, m2, spaces[d])
    ensures Forkable(m2, spaces)
  {
    hide Walk, Agree, Forkable, LowerKept;
    forall d | UserSpace(spaces, d) || d == KERNEL
      ensures LowerKept(m1, m2, spaces[d])
    {
      AgreeLower(m1, m2, spaces[d]);
    }
    LowerForkable(m1, m2, spaces);
  }

  lemma AddForkable(mem: Memory, spaces: map<Id, Space>, c: Id, s: Space)
    requires Forkable(mem, spaces) && c !in spaces && LeavesInRam(mem, s.root)
    ensures Forkable(mem, spaces[c := s])
  {
    hide Walk, LeavesInRam;
    var after := spaces[c := s];
    forall d | UserSpace(after, d)
      ensures LeavesInRam(mem, after[d].root)
    {
      assert d != c ==> UserSpace(spaces, d);
    }
  }

  lemma RemoveForkable(mem: Memory, spaces: map<Id, Space>, c: Id)
    requires Forkable(mem, spaces) && c != KERNEL
    ensures Forkable(mem, spaces - {c})
  {
    hide Walk, LeavesInRam;
    var after := spaces - {c};
    forall d | UserSpace(after, d)
      ensures LeavesInRam(mem, after[d].root)
    {
      assert UserSpace(spaces, d);
    }
  }

  /** One lower-half page of a user space now maps a frame of RAM, or nothing. */
  lemma MappedForkable(m1: Memory, m2: Memory, spaces: map<Id, Space>, c: Id, p: seq<nat>, w: Word)
    requires Forkable(m1, spaces) && Shaped(spaces) && UserSpace(spaces, c) && Mapped(m1, m2, spaces, c, p, w)
    requires Lower(p) && w.frame < RAM_LIMIT
    ensures Forkable(m2, spaces)
  {
    hide Walk;
    forall d | UserSpace(spaces, d)
      ensures LeavesInRam(m2, spaces[d].root)
    {
      assert LeavesInRam(m1, spaces[d].root);
      forall q | Lower(q) && Walk(m2, spaces[d].root, q).Some?
        ensures Walk(m2, spaces[d].root, q).value.frame < RAM_LIMIT
      {
        assert IsWalk(spaces[d], q);
        assert d != c ==> Agree(m1, m2, spaces[d]);
      }
    }
    assert Agree(m1, m2, spaces[KERNEL]);
    forall q | Lower(q)
      ensures Walk(m2, spaces[KERNEL].root, q) == None
    {
      assert IsWalk(spaces[KERNEL], q);
    }
  }

  lemma MappedUpperForkable(m1: Memory, m2: Memory, spaces: map<Id, Space>, c: Id, p: seq<nat>, w: Word)
    requires Forkable(m1, spaces) && Shaped(spaces) && Mapped(m1, m2, spaces, c, p, w) && p[0] >= HALF
    ensures Forkable(m2, spaces)
  {
    hide Walk, Forkable, LowerKept;
    MappedUpper(m1, m2, spaces, c, p, w);
    LowerForkable(m1, m2, spaces);
  }

  /** A new space that translates as an old one did. */
  lemma CloneForkable(m1: Memory, m2: Memory, spaces: map<Id, Space>, src: Id, s: Space)
    requires Forkable(m1, spaces) && (UserSpace(spaces, src) || src == KERNEL) && s.height == 4
    requires forall q | IsWalk(s, q) :: Walk(m2, s.root, q) == Walk(m1, spaces[src].root, q)
    ensures LeavesInRam(m2, s.root)
  {
    hide Walk;
    forall q | Lower(q) && Walk(m2, s.root, q).Some?
      ensures Walk(m2, s.root, q).value.frame < RAM_LIMIT
    {
      assert IsWalk(s, q);
      assert src != KERNEL ==> LeavesInRam(m1, spaces[src].root);
    }
  }

  lemma EmptyForkable(mem: Memory, s: Space)
    requires s.height == 4 && forall q | IsWalk(s, q) :: Walk(mem, s.root, q) == None
    ensures LeavesInRam(mem, s.root)
  {
    hide Walk;
    forall q | Lower(q)
      ensures Walk(mem, s.root, q).None?
    {
      assert IsWalk(s, q);
    }
  }

  /** The frames of a forked child are its own, and of RAM. */
  lemma ChildForkable(m1: Memory, pool: set<Frame>, m2: Memory, parent: Frame, child: Frame, fs: seq<Frame>)
    requires forall q | Lower(q) :: ForkedEntry(m1, pool, Walk(m1, parent, q), m2, Walk(m2, child, q), fs)
    requires InRam(Elements(fs))
    ensures LeavesInRam(m2, child)
  {
    hide Walk;
    forall q | Lower(q) && Walk(m2, child, q).Some?
      ensures Walk(m2, child, q).value.frame < RAM_LIMIT
    {
      assert ForkedEntry(m1, pool, Walk(m1, parent, q), m2, Walk(m2, child, q), fs);
      assert Walk(m2, child, q).value.frame in Elements(fs);
    }
  }

  /** Anonymous pages are backed by frames of RAM. */
  lemma BackedForkable(m1: Memory, m2: Memory, spaces: map<Id, Space>, c: Id, virt: nat, fs: seq<Frame>, prot: Prot)
    requires Forkable(m1, spaces) && Shaped(spaces) && UserSpace(spaces, c) && OthersAgree(m1, m2, spaces, c)
    requires Backed(m1, m2, spaces[c].root, virt, fs, prot) && InRam(Elements(fs)) && (fs != [] ==> PageAt(virt, |fs|) <= LOWER_TOP)
    ensures Forkable(m2, spaces)
  {
    hide Walk, Agree, LeavesInRam, LowerKept, Backed;
    forall d | UserSpace(spaces, d)
      ensures LeavesInRam(m2, spaces[d].root)
    {
      assert LeavesInRam(m1, spaces[d].root);
      if d == c {
        BackedLeaves(m1, m2, spaces[c].root, virt, fs, prot);
      } else {
        AgreeLower(m1, m2, spaces[d]);
        KeptLeaves(m1, m2, spaces[d]);
      }
    }
    AgreeLower(m1, m2, spaces[KERNEL]);
    KeptEmpty(m1, m2, spaces);
  }

  lemma KeptLeaves(m1: Memory, m2: Memory, s: Space)
    requires LeavesInRam(m1, s.root) && s.height == 4 && LowerKept(m1, m2, s)
    ensures LeavesInRam(m2, s.root)
  {
    hide Walk;
  }

  lemma KeptEmpty(m1: Memory, m2: Memory, spaces: map<Id, Space>)
    requires KernelLowerEmpty(m1, spaces) && spaces[KERNEL].height == 4 && LowerKept(m1, m2, spaces[KERNEL])
    ensures KernelLowerEmpty(m2, spaces)
  {
    hide Walk;
  }

  lemma BackedLeaves(m1: Memory, m2: Memory, root: Frame, virt: nat, fs: seq<Frame>, prot: Prot)
    requires LeavesInRam(m1, root) && Backed(m1, m2, root, virt, fs, prot) && InRam(Elements(fs)) && (fs != [] ==> PageAt(virt, |fs|) <= LOWER_TOP)
    ensures LeavesInRam(m2, root)
  {
    hide Walk, PathOf, PageNumber, PageAt, FlagBits;
    forall q | Lower(q) && Walk(m2, root, q).Some?
      ensures Walk(m2, root, q).value.frame < RAM_LIMIT
    {
      var v := IndicesToAddr(q[0], q[1], q[2], q[3]);
      PathOfIndices(q[0], q[1], q[2], q[3]);
      assert q == PathOf(v);
      if virt / BLOCK_SIZE <= PageNumber(v) < virt / BLOCK_SIZE + |fs| {
        var i := PageNumber(v) - virt / BLOCK_SIZE;
        PageInside(virt, |fs|, i);
        LowerPage(virt, i);
        PathsEqualIff(v, PageAt(virt, i));
        assert fs[i] in Elements(fs);
      }
    }
  }

  lemma PageInside(virt: nat, n: nat, i: nat)
    requires i < n && PageAt(virt, n) <= LOWER_TOP
    ensures PageAt(virt, i) < LOWER_TOP
  {
  }

  /** User spaces whose tables are untouched keep their lower halves. */
  lemma UntouchedForkable(m1: Memory, m2: Memory, spaces: map<Id, Space>, c: Id)
    requires Forkable(m1, spaces) && Shaped(spaces) && OthersUntouched(m1, m2, spaces, c) && !UserSpace(spaces, c)
    ensures Forkable(m2, spaces)
  {
    hide Walk, Forkable, LowerKept, Tables, SameOn;
    forall d | UserSpace(spaces, d) || d == KERNEL
      ensures LowerKept(m1, m2, spaces[d])
    {
      if d != KERNEL {
        TablesLower(m1, m2, spaces[d]);
      } else {
        WindowLower(m1, m2, spaces[d]);
      }
    }
    LowerForkable(m1, m2, spaces);
  }

  lemma TablesLower(m1: Memory, m2: Memory, s: Space)
    requires s.height == 4 && s.span == HALF && SameOn(m1, m2, Tables(m1, s))
    ensures LowerKept(m1, m2, s)
  {
    hide Walk, Frames;
    forall q | Lower(q)
      ensures Walk(m2, s.root, q) == Walk(m1, s.root, q)
    {
      WalkFrame(m1, m2, s.root, 4, 0, HALF, q);
    }
  }

  // ---------------------------------------------------------------- steps

  predicate OnPages(call: Call) {
    call.CallMap? || call.CallProtect?
  }

  predicate OnSpaces(call: Call) {
    call.CallInit? || call.CallClone? || call.CallDeinit?
  }

  /** The space that a call adds or removes, if any. */
  function Named(call: Call): Option<Id> {
    match call
    case CallInit(c) => Some(c)
    case CallClone(_, c) => Some(c)
    case CallDeinit(c) => Some(c)
    case CallFork(_, c) => Some(c)
    case CallNewIo(c, _) => Some(c)
    case CallDestroyIo(c) => Some(c)
    case _ => None
  }

  /** Spaces other than the one named stay. */
  ghost predicate SpacesKept(s1: map<Id, Space>, s2: map<Id, Space>, named: Option<Id>) {
    forall c: Id | named != Some(c) :: (c in s2 <==> c in s1) && (c in s1 ==> s2[c] == s1[c])
  }

  /** What has become of the space that a call adds or removes. */
  predicate NamedDone(spaces: map<Id, Space>, call: Call) {
    match call
    case CallInit(c) => UserSpace(spaces, c)
    case CallClone(_, c) => UserSpace(spaces, c)
    case CallDeinit(c) => c !in spaces
    case _ => true
  }

  // ---------------------------------------------------------------- what a call does

  ghost predicate Blank(mem: Memory, s: Space) {
    forall q | IsWalk(s, q) :: Walk(mem, s.root, q) == None
  }

  /** Bits were added to the word of a mapped page; nothing happened to one that is not mapped. */
  ghost predicate Protected(m1: Memory, m2: Memory, spaces: map<Id, Space>, c: Id, virt: nat, flags: MapFlags, cache: CacheType) {
    && c in spaces
    && var e := Walk(m1, spaces[c].root, PathOf(virt));
       if e.None? then m2 == m1
       else Mapped(m1, m2, spaces, c, PathOf(virt), Word(e.value.frame, e.value.bits + FlagBits(flags) + CacheBits(cache)))
  }

  /** One space translates as another did. */
  ghost predicate SameView(m1: Memory, s1: Space, m2: Memory, s2: Space) {
    s1.height == s2.height && forall q | IsWalk(s2, q) :: Walk(m2, s2.root, q) == Walk(m1, s1.root, q)
  }

  /** In the lower half one space has the pages, with their rights, that another had. */
  ghost predicate SameRights(m1: Memory, s1: Space, m2: Memory, s2: Space) {
    forall q | Lower(q) :: RightsOf(m2, s2.root, q) == RightsOf(m1, s1.root, q)
  }

  /** So many user pages, in frames that are held from now on. */
  ghost predicate NewPages(m2: Memory, root: Frame, pages: nat, exec: bool, h1: set<Frame>, h2: set<Frame>) {
    exists addr: nat, fs: seq<Frame> :: |fs| == pages && NoRepeat(fs) && UserPages(m2, root, addr, fs, exec) && Elements(fs) !! h1 && h2 == h1 + Elements(fs)
  }

  ghost predicate NewSpan(n: nat, h1: set<Frame>, h2: set<Frame>) {
    exists base: nat :: Span(base, n) !! h1 && h2 == h1 + Span(base, n)
  }

  ghost predicate BlankIo(mem: Memory, s: Space) {
    forall q | IsWalk(s, q) :: Last(mem, s.root, q) == ZERO
  }

  /** What a call did to memory, spaces and the frames held. */
  ghost predicate Did(m1: Memory, s1: map<Id, Space>, h1: set<Frame>, m2: Memory, s2: map<Id, Space>, h2: set<Frame>, call: Call) {
    match call
    case CallInit(c) => h2 == h1 && UserSpace(s2, c) && Blank(m2, s2[c])
    case CallMap(c, phys, virt, flags, cache) => h2 == h1 && Mapped(m1, m2, s1, c, PathOf(virt), LeafWord(phys, flags, cache))
    case CallProtect(c, virt, flags, cache) => h2 == h1 && Protected(m1, m2, s1, c, virt, flags, cache)
    case CallClone(src, dst) => h2 == h1 && src in s1 && UserSpace(s2, dst) && SameView(m1, s1[src], m2, s2[dst])
    case CallDeinit(c) => h2 == h1 && m2 == m1 && c !in s2
    case CallAlloc => m2 == m1 && NewSpan(1, h1, h2)
    case CallAllocMany(n) => m2 == m1 && NewSpan(n, h1, h2)
    case CallFree(f) => m2 == m1 && h2 == h1 - {f}
    case CallWrite(f, contents) => h2 == h1 && m2 == m1[f := contents]
    case CallFork(parent, child) => h1 <= h2 && parent in s1 && UserSpace(s2, child) && SameRights(m1, s1[parent], m2, s2[child])
    case CallAnonymous(c, size, prot) => c in s1 && NewPages(m2, s1[c].root, DivCeil(size, BLOCK_SIZE), prot.exec, h1, h2)
    case CallNewIo(c, level) => h2 == h1 && c in s2 && s2[c].height == level && BlankIo(m2, s2[c])
    case CallMapIo(c, pa, iova, access) =>
      && h2 == h1 && IoSpace(s1, c)
      && DeviceMay(m2, s1[c].root, IoPath(iova, s1[c].height)) == DeviceRights(access.read, access.write, false)
      && Last(m2, s1[c].root, IoPath(iova, s1[c].height)).frame == FrameOf(pa)
    case CallDestroyIo(c) => h2 == h1 && m2 == m1 && c !in s2
  }

  /** Calls on the pages of address spaces. */
  method StepPages(m: Memories, held: set<Frame>, ghost forkable: bool, call: Call) returns (ok: bool)
    requires m.Valid() && Held(m.Pool(), held) && Allowed(m.spaces, held, forkable, call) && OnPages(call)
    modifies m, m.pmm, m.pmm.stack
    ensures ok ==> m.Valid() && m.Pool() == old(m.Pool()) && m.spaces == old(m.spaces)
    ensures ok ==> Did(old(m.mem), old(m.spaces), held, m.mem, m.spaces, held, call)
    ensures ok && old(Forkable(m.mem, m.spaces)) && KeepsForkable(call) ==> Forkable(m.mem, m.spaces)
    ensures !ok ==> m.pmm.OutOfFrames()
  {
    hide World, AllTables, Tables, Walk, Mapped, SameOutside, OthersKept, Agree, Forkable, LeavesInRam, InRam, PathOf, FlagBits, CacheBits, RightsOf, RootKept, LeafWord;
    KernelShape(m.mem, m.spaces, m.pmm.Frames());
    WorldShaped(m.mem, m.spaces, m.pmm.Frames());
    ghost var m1, spaces := m.mem, m.spaces;
    match call
    case CallMap(c, phys, virt, flags, cache) =>
      ok := m.MapPage(c, phys, virt, flags, cache);
      if ok && Forkable(m1, spaces) && KeepsForkable(call) {
        MapForkable(m1, m.mem, spaces, c, phys, virt, flags, cache);
      }
    case CallProtect(c, virt, flags, cache) =>
      var found := m.SetPageProtection(c, virt, flags, cache);
      ok := true;
      if found && Forkable(m1, spaces) {
        ProtectForkable(m1, m.mem, spaces, c, virt, flags, cache);
      }
  }

  /** Calls that create and give up address spaces. */
  method StepSpaces(m: Memories, held: set<Frame>, ghost forkable: bool, call: Call) returns (ok: bool)
    requires m.Valid() && Held(m.Pool(), held) && Allowed(m.spaces, held, forkable, call) && OnSpaces(call)
    modifies m, m.pmm, m.pmm.stack
    ensures ok ==> m.Valid() && m.Pool() == old(m.Pool()) && SpacesKept(old(m.spaces), m.spaces, Named(call)) && NamedDone(m.spaces, call)
    ensures ok ==> Did(old(m.mem), old(m.spaces), held, m.mem, m.spaces, held, call)
    ensures ok && old(Forkable(m.mem, m.spaces)) ==> Forkable(m.mem, m.spaces)
    ensures !ok ==> m.pmm.OutOfFrames() || m.pmm.StackFull()
  {
    hide World, AllTables, Tables, Walk, SameOutside, Agree, Forkable, LeavesInRam, InRam, RightsOf;
    KernelShape(m.mem, m.spaces, m.pmm.Frames());
    WorldShaped(m.mem, m.spaces, m.pmm.Frames());
    ghost var m1, spaces := m.mem, m.spaces;
    match call
    case CallInit(c) =>
      ok := Init(m, c);
      if ok && Forkable(m1, spaces) {
        AgreeForkable(m1, m.mem, spaces);
        EmptyForkable(m.mem, m.spaces[c]);
        AddForkable(m.mem, spaces, c, m.spaces[c]);
      }
    case CallClone(src, dst) =>
      ok := ClonePagingInfo(m, src, dst);
      if ok && Forkable(m1, spaces) {
        AgreeForkable(m1, m.mem, spaces);
        CloneForkable(m1, m.mem, spaces, src, m.spaces[dst]);
        AddForkable(m.mem, spaces, dst, m.spaces[dst]);
      }
    case CallDeinit(c) =>
      ok := Deinit(m, c);
      if ok && Forkable(m1, spaces) {
        RemoveForkable(m.mem, spaces, c);
      }
  }

  lemma WorldShaped(mem: Memory, spaces: map<Id, Space>, free: set<Frame>)
    requires World(mem, spaces, free)
    ensures Shaped(spaces)
  {
  }

  lemma MapForkable(m1: Memory, m2: Memory, spaces: map<Id, Space>, c: Id, phys: nat, virt: nat, flags: MapFlags, cache: CacheType)
    requires Forkable(m1, spaces) && Shaped(spaces) && Mappable(spaces, c, virt) && KeepsForkable(CallMap(c, phys, virt, flags, cache))
    requires Mapped(m1, m2, spaces, c, PathOf(virt), LeafWord(phys, flags, cache))
    ensures Forkable(m2, spaces)
  {
    hide Walk, Mapped, Forkable, FlagBits, CacheBits;
    if c == KERNEL {
      MappedUpperForkable(m1, m2, spaces, c, PathOf(virt), LeafWord(phys, flags, cache));
    } else {
      MappedForkable(m1, m2, spaces, c, PathOf(virt), LeafWord(phys, flags, cache));
    }
  }

  /** Changing the flags of a page changes no frame. */
  lemma ProtectForkable(m1: Memory, m2: Memory, spaces: map<Id, Space>, c: Id, virt: nat, flags: MapFlags, cache: CacheType)
    requires Forkable(m1, spaces) && Shaped(spaces) && Mappable(spaces, c, virt) && Walk(m1, spaces[c].root, PathOf(virt)).Some?
    requires var e := Walk(m1, spaces[c].root, PathOf(virt)).value;
             Mapped(m1, m2, spaces, c, PathOf(virt), Word(e.frame, e.bits + FlagBits(flags) + CacheBits(cache)))
    ensures Forkable(m2, spaces)
  {
    hide Walk, Mapped, FlagBits, CacheBits;
    var e := Walk(m1, spaces[c].root, PathOf(virt)).value;
    var w := Word(e.frame, e.bits + FlagBits(flags) + CacheBits(cache));
    if c == KERNEL {
      MappedAbove(m1, spaces, virt);
      MappedUpperForkable(m1, m2, spaces, c, PathOf(virt), w);
    } else {
      assert LeavesInRam(m1, spaces[c].root);
      assert Lower(PathOf(virt));
      MappedForkable(m1, m2, spaces, c, PathOf(virt), w);
    }
  }

  lemma MappedAbove(mem: Memory, spaces: map<Id, Space>, virt: nat)
    requires KernelLowerEmpty(mem, spaces) && Walk(mem, spaces[KERNEL].root, PathOf(virt)).Some?
    ensures PathOf(virt)[0] >= HALF
  {
    hide Walk;
  }

  predicate OnFrames(call: Call) {
    call.CallAlloc? || call.CallAllocMany? || call.CallFree? || call.CallWrite?
  }

  /** The call loses no frame: all do but a request for several frames that more than one run could serve. */
  ghost predicate LosesNone(runs: seq<Run>, call: Call) {
    call.CallAllocMany? ==> OneFits(runs, call.n)
  }

  /** Calls on frames. */
  method StepFrames(m: Memories, held: set<Frame>, ghost forkable: bool, call: Call) returns (ok: bool, after: set<Frame>)
    requires m.Valid() && Held(m.Pool(), held) && Allowed(m.spaces, held, forkable, call) && OnFrames(call)
    modifies m, m.pmm, m.pmm.stack
    ensures m.spaces == old(m.spaces)
    ensures ok ==> m.Valid() && Held(m.Pool(), after) && m.Pool() + after <= old(m.Pool()) + held
    ensures ok ==> (m.Pool() + after == old(m.Pool()) + held <==> LosesNone(old(m.pmm.Runs()), call))
    ensures ok ==> Did(old(m.mem), old(m.spaces), held, m.mem, m.spaces, after, call)
    ensures ok && old(Forkable(m.mem, m.spaces)) ==> Forkable(m.mem, m.spaces)
    ensures !ok ==> m.pmm.OutOfFrames() || m.pmm.StackFull() || call.CallAllocMany?
  {
    hide World, AllTables, Tables, Walk, SameOn, Agree, Forkable, OneFits, FreeSet, Disjoint, LastFit, Span;
    WorldShaped(m.mem, m.spaces, m.pmm.Frames());
    ghost var m1 := m.mem;
    after := held;
    match call
    case CallAlloc =>
      var f := AllocPage(m);
      ok := f.Some?;
      if ok {
        after := held + {f.value};
        OneHeld(held, f.value);
      }
    case CallAllocMany(n) =>
      var base := AllocPages(m, n);
      ok := base.Some?;
      if ok {
        after := held + Span(base.value, n);
        SpanHeld(old(m.Pool()), m.Pool(), held, Span(base.value, n));
        assert NewSpan(n, held, after);
      }
    case CallFree(f) =>
      ok := FreePage(m, f);
      after := held - {f};
    case CallWrite(f, contents) =>
      WritePage(m, f, contents);
      ok := true;
      if Forkable(m1, m.spaces) {
        AgreeForkable(m1, m.mem, m.spaces);
      }
  }

  lemma OneHeld(held: set<Frame>, f: Frame)
    requires f !in held
    ensures NewSpan(1, held, held + {f})
  {
    assert Span(f, 1) == {f};
  }

  /** Whether frames went from the pool to those held without loss does not depend on what was held before. */
  lemma SpanHeld(pool1: set<Frame>, pool2: set<Frame>, held: set<Frame>, span: set<Frame>)
    requires held !! pool1 && pool2 + span <= pool1
    ensures pool2 + (held + span) == pool1 + held <==> pool2 + span == pool1
  {
    if pool2 + (held + span) == pool1 + held {
      forall f | f in pool1
        ensures f in pool2 + span
      {
        assert f in pool1 + held;
      }
    }
  }

  predicate OnUser(call: Call) {
    call.CallFork? || call.CallAnonymous?
  }

  /** Calls that fill user spaces with pages. */
  method StepUser(m: Memories, held: set<Frame>, ghost forkable: bool, call: Call) returns (ok: bool, after: set<Frame>)
    requires m.Valid() && Held(m.Pool(), held) && Allowed(m.spaces, held, forkable, call) && OnUser(call)
    requires forkable ==> Forkable(m.mem, m.spaces)
    modifies m, m.pmm, m.pmm.stack
    ensures ok ==> m.Valid() && Held(m.Pool(), after) && m.Pool() + after == old(m.Pool()) + held
    ensures ok ==> SpacesKept(old(m.spaces), m.spaces, Named(call))
    ensures ok ==> Did(old(m.mem), old(m.spaces), held, m.mem, m.spaces, after, call)
    ensures ok && old(Forkable(m.mem, m.spaces)) ==> Forkable(m.mem, m.spaces)
    ensures !ok ==> m.pmm.OutOfFrames() || call.CallAnonymous?
  {
    hide World, AllTables, Walk, SameOutside, LowerKept, ForkedEntry, ApartPages, LeavesInRam, KernelLowerEmpty, Backed, Agree, HasRun, LowestRun, MappedKept, UserPages, RightsOf, NewPages, NoRepeat, DivCeil;
    WorldShaped(m.mem, m.spaces, m.pmm.Frames());
    ghost var m1, spaces, pool := m.mem, m.spaces, m.Pool();
    after := held;
    match call
    case CallFork(parent, child) =>
      assert LeavesInRam(m1, spaces[parent].root);
      var frames := ForkAddressSpace(m, parent, child);
      ok := frames.Some?;
      if ok {
        after := held + set f | f in frames.value;
        SpentHeld(pool, m.Pool(), held, frames.value);
        ForkForkable(m1, pool, m.mem, spaces, parent, child, m.spaces[child], frames.value);
      }
    case CallAnonymous(c, size, prot) =>
      var addr, r := MapAnonymous(m, c, size, prot);
      ok := r.Done?;
      if ok {
        after := held + set f | f in r.value;
        SpentHeld(pool, m.Pool(), held, r.value);
        PagesHeld(pool, m.mem, spaces[c].root, addr, r.value, prot.exec, held);
        if Forkable(m1, spaces) {
          SomePages(size);
          BackedForkable(m1, m.mem, spaces, c, addr, r.value, prot);
        }
      }
  }

  /** Frames spent on pages move from the pool to those held. */
  lemma SpentHeld(pool1: set<Frame>, pool2: set<Frame>, held: set<Frame>, fs: seq<Frame>)
    requires Held(pool1, held) && InRam(pool1) && pool2 == pool1 - Elements(fs) && Elements(fs) <= pool1
    ensures Held(pool2, held + set f | f in fs) && pool2 + (held + set f | f in fs) == pool1 + held && InRam(Elements(fs))
  {
    assert Elements(fs) == set f | f in fs;
  }

  lemma PagesHeld(pool: set<Frame>, mem: Memory, root: Frame, addr: nat, fs: seq<Frame>, exec: bool, held: set<Frame>)
    requires UserPages(mem, root, addr, fs, exec) && NoRepeat(fs) && Elements(fs) <= pool && held !! pool
    ensures NewPages(mem, root, |fs|, exec, held, held + set f | f in fs)
  {
    hide UserPages;
    assert Elements(fs) == set f | f in fs;
  }

  lemma ForkForkable(m1: Memory, pool: set<Frame>, m2: Memory, spaces: map<Id, Space>, parent: Id, child: Id, s: Space, fs: seq<Frame>)
    requires Forkable(m1, spaces) && Shaped(spaces) && parent in spaces && child !in spaces && s.height == 4
    requires forall q | Lower(q) :: ForkedEntry(m1, pool, Walk(m1, spaces[parent].root, q), m2, Walk(m2, s.root, q), fs)
    requires forall d | d in spaces :: LowerKept(m1, m2, spaces[d])
    requires InRam(Elements(fs))
    ensures Forkable(m2, spaces[child := s])
  {
    hide Walk, Forkable, LeavesInRam, ForkedEntry, LowerKept;
    LowerForkable(m1, m2, spaces);
    ChildForkable(m1, pool, m2, spaces[parent].root, s.root, fs);
    AddForkable(m2, spaces, child, s);
  }

  predicate OnIo(call: Call) {
    call.CallNewIo? || call.CallMapIo? || call.CallDestroyIo?
  }

  /** Calls on the IOMMU's structures. */
  method StepIo(m: Memories, held: set<Frame>, ghost forkable: bool, call: Call) returns (ok: bool)
    requires m.Valid() && Held(m.Pool(), held) && Allowed(m.spaces, held, forkable, call) && OnIo(call)
    modifies m, m.pmm, m.pmm.stack
    ensures ok ==> m.Valid() && m.Pool() == old(m.Pool()) && SpacesKept(old(m.spaces), m.spaces, Named(call))
    ensures ok ==> Did(old(m.mem), old(m.spaces), held, m.mem, m.spaces, held, call)
    ensures ok && old(Forkable(m.mem, m.spaces)) ==> Forkable(m.mem, m.spaces)
    ensures !ok ==> m.pmm.OutOfFrames() || m.pmm.StackFull()
  {
    hide World, AllTables, Walk, SameOutside, Forkable, OthersUntouched, WordSet, Tables, InRam, DeviceMay, Last, IoPath;
    WorldShaped(m.mem, m.spaces, m.pmm.Frames());
    ghost var m1, spaces := m.mem, m.spaces;
    match call
    case CallNewIo(c, level) =>
      ok := NewIo(m, c, level);
      if ok && Forkable(m1, spaces) {
        UntouchedForkable(m1, m.mem, spaces, KERNEL);
        AddIoForkable(m.mem, spaces, c, m.spaces[c]);
      }
    case CallMapIo(c, pa, iova, access) =>
      ghost var w;
      ok, w := MapIo(m, c, pa, iova, access);
      if ok {
        SetWord(m1, m.mem, spaces[c], IoPath(iova, spaces[c].height), w);
      }
      if ok && Forkable(m1, spaces) {
        UntouchedForkable(m1, m.mem, spaces, c);
      }
    case CallDestroyIo(c) =>
      ok := DestroyIo(m, c);
      if ok && Forkable(m1, spaces) {
        RemoveForkable(m.mem, spaces, c);
      }
  }

  lemma SetWord(m1: Memory, m2: Memory, s: Space, q: seq<nat>, w: Word)
    requires WordSet(m1, m2, s, q, w)
    ensures IsWalk(s, q) && Last(m2, s.root, q) == w
  {
  }

  lemma AddIoForkable(mem: Memory, spaces: map<Id, Space>, c: Id, s: Space)
    requires Forkable(mem, spaces) && c !in spaces && s.span == ENTRIES
    ensures Forkable(mem, spaces[c := s])
  {
    hide Walk, LeavesInRam;
    var after := spaces[c := s];
    forall d | UserSpace(after, d)
      ensures LeavesInRam(mem, after[d].root)
    {
      assert UserSpace(spaces, d);
    }
  }

  // ---------------------------------------------------------------- runs

  /** One call keeps the ownership invariant and accounts for every frame. */
  method Step(m: Memories, held: set<Frame>, forkable: bool, call: Call) returns (ok: bool, after: set<Frame>, still: bool)
    requires m.Valid() && Held(m.Pool(), held) && Allowed(m.spaces, held, forkable, call)
    requires forkable ==> Forkable(m.mem, m.spaces)
    modifies m, m.pmm, m.pmm.stack
    ensures ok ==> m.Valid() && Held(m.Pool(), after) && m.Pool() + after <= old(m.Pool()) + held
    ensures ok ==> (m.Pool() + after == old(m.Pool()) + held <==> LosesNone(old(m.pmm.Runs()), call))
    ensures ok ==> SpacesKept(old(m.spaces), m.spaces, Named(call)) && NamedDone(m.spaces, call)
    ensures ok ==> Did(old(m.mem), old(m.spaces), held, m.mem, m.spaces, after, call)
    ensures still == (forkable && KeepsForkable(call)) && (ok && still ==> Forkable(m.mem, m.spaces))
    ensures !ok ==> m.pmm.OutOfFrames() || m.pmm.StackFull() || call.CallAllocMany? || call.CallAnonymous?
  {
    hide World, AllTables, Forkable, Held, LosesNone, KeepsForkable, Did;
    NoneLost(m.pmm.Runs(), call);
    after := held;
    still := forkable && KeepsForkable(call);
    if OnPages(call) {
      ok := StepPages(m, held, forkable, call);
    } else if OnSpaces(call) {
      ok := StepSpaces(m, held, forkable, call);
    } else if OnFrames(call) {
      ok, after := StepFrames(m, held, forkable, call);
    } else if OnUser(call) {
      ok, after := StepUser(m, held, forkable, call);
    } else {
      ok := StepIo(m, held, forkable, call);
    }
  }

  lemma NoneLost(runs: seq<Run>, call: Call)
    ensures !call.CallAllocMany? ==> LosesNone(runs, call)
  {
  }

  /** The machine before a call. */
  datatype Moment = Moment(mem: Memory, spaces: map<Id, Space>, pool: set<Frame>, runs: seq<Run>, held: set<Frame>, forkable: bool)

  predicate Performs(a: Moment, call: Call) {
    Allowed(a.spaces, a.held, a.forkable, call)
  }

  /** From one moment to the next: a call that is allowed is performed, any other skipped. */
  ghost predicate Follows(a: Moment, b: Moment, call: Call) {
    if !Performs(a, call) then b == a
    else
      && Did(a.mem, a.spaces, a.held, b.mem, b.spaces, b.held, call)
      && SpacesKept(a.spaces, b.spaces, Named(call))
      && b.pool + b.held <= a.pool + a.held && (b.pool + b.held == a.pool + a.held <==> LosesNone(a.runs, call))
      && b.forkable == (a.forkable && KeepsForkable(call))
  }

  /** The moments of a run, the first before its first call and the last behind its last one. */
  ghost predicate Trace(trace: seq<Moment>, calls: seq<Call>) {
    |trace| == |calls| + 1 && forall i | 0 <= i < |calls| :: Follows(trace[i], trace[i + 1], calls[i])
  }

  /** No call of the run loses a frame where it happens. */
  ghost predicate NoneLose(trace: seq<Moment>, calls: seq<Call>)
    requires |trace| == |calls| + 1
  {
    forall i | 0 <= i < |calls| && Performs(trace[i], calls[i]) :: LosesNone(trace[i].runs, calls[i])
  }

  ghost predicate Lossless(a: Moment, b: Moment) {
    b.pool + b.held == a.pool + a.held
  }

  lemma TraceNext(trace: seq<Moment>, calls: seq<Call>, b: Moment, call: Call)
    requires Trace(trace, calls) && Follows(trace[|calls|], b, call)
    ensures Trace(trace + [b], calls + [call])
  {
    hide Follows;
    var t, c := trace + [b], calls + [call];
    forall i | 0 <= i < |c|
      ensures Follows(t[i], t[i + 1], c[i])
    {
      assert i < |calls| ==> t[i] == trace[i] && t[i + 1] == trace[i + 1] && c[i] == calls[i];
    }
  }

  lemma TracePrefix(trace: seq<Moment>, calls: seq<Call>)
    requires Trace(trace, calls) && calls != []
    ensures Trace(trace[..|calls|], calls[..|calls| - 1])
  {
    hide Follows;
    var t, c := trace[..|calls|], calls[..|calls| - 1];
    forall i | 0 <= i < |c|
      ensures Follows(t[i], t[i + 1], c[i])
    {
      assert t[i] == trace[i] && t[i + 1] == trace[i + 1] && c[i] == calls[i];
    }
  }

  /** Over a whole run frames are lost exactly if one of its calls loses some. */
  lemma {:induction false} TraceConserves(trace: seq<Moment>, calls: seq<Call>)
    requires Trace(trace, calls)
    ensures trace[|calls|].pool + trace[|calls|].held <= trace[0].pool + trace[0].held
    ensures Lossless(trace[0], trace[|calls|]) <==> NoneLose(trace, calls)
    decreases |calls|
  {
    hide Did, SpacesKept, KeepsForkable, LosesNone, Performs;
    if calls != [] {
      var n := |calls| - 1;
      TracePrefix(trace, calls);
      TraceConserves(trace[..n + 1], calls[..n]);
      assert Follows(trace[n], trace[n + 1], calls[n]);
      LosesLast(trace, calls);
    }
  }

  lemma LosesLast(trace: seq<Moment>, calls: seq<Call>)
    requires calls != [] && |trace| == |calls| + 1
    ensures var n := |calls| - 1;
            NoneLose(trace, calls) <==> NoneLose(trace[..n + 1], calls[..n]) && (Performs(trace[n], calls[n]) ==> LosesNone(trace[n].runs, calls[n]))
  {
    hide LosesNone, Performs;
    var n := |calls| - 1;
    if NoneLose(trace, calls) {
      forall i | 0 <= i < n && Performs(trace[..n + 1][i], calls[..n][i])
        ensures LosesNone(trace[..n + 1][i].runs, calls[..n][i])
      {
        assert trace[..n + 1][i] == trace[i] && calls[..n][i] == calls[i];
      }
    }
    if NoneLose(trace[..n + 1], calls[..n]) {
      forall i | 0 <= i < n && Performs(trace[i], calls[i])
        ensures LosesNone(trace[i].runs, calls[i])
      {
        assert trace[..n + 1][i] == trace[i] && calls[..n][i] == calls[i];
      }
    }
  }

  /** Forking stays possible where every call sees to it. */
  lemma {:induction false} TraceForkable(trace: seq<Moment>, calls: seq<Call>)
    requires Trace(trace, calls) && trace[0].forkable && forall c | c in calls :: KeepsForkable(c)
    ensures trace[|calls|].forkable
    decreases |calls|
  {
    hide Did, SpacesKept, KeepsForkable, LosesNone, Performs;
    if calls != [] {
      var n := |calls| - 1;
      TracePrefix(trace, calls);
      TraceForkable(trace[..n + 1], calls[..n]);
      assert Follows(trace[n], trace[n + 1], calls[n]);
    }
  }

  /**
   Any sequence of calls, of which those that are not allowed where they come are skipped.  Unless the kernel
   stops, every other call did what it is for, the tables of all live structures stay pairwise apart and apart
   from free frames and pages, no frame is in two hands, and none is lost exactly when no call loses one where
   it happens.  Forking stays possible as long as the kernel is mapped in its upper half and user spaces map
   RAM.  In every address space the last word of a path says what the whole path permits.
   */
  method Execute(m: Memories, start: set<Frame>, startForkable: bool, calls: seq<Call>)
    returns (ok: bool, held: set<Frame>, forkable: bool, ghost trace: seq<Moment>)
    requires m.Valid() && Held(m.Pool(), start) && (startForkable ==> Forkable(m.mem, m.spaces))
    modifies m, m.pmm, m.pmm.stack
    ensures ok ==> m.Valid() && Held(m.Pool(), held) && LastWordsDecide(m.mem, m.spaces)
    ensures ok ==> Trace(trace, calls)
    ensures ok ==> trace[0] == old(Moment(m.mem, m.spaces, m.Pool(), m.pmm.Runs(), start, startForkable))
    ensures ok ==> trace[|calls|] == Moment(m.mem, m.spaces, m.Pool(), m.pmm.Runs(), held, forkable)
    ensures ok ==> m.Pool() + held <= old(m.Pool()) + start
    ensures ok ==> (m.Pool() + held == old(m.Pool()) + start <==> NoneLose(trace, calls))
    ensures ok && forkable ==> Forkable(m.mem, m.spaces)
    ensures ok && startForkable && (forall c | c in calls :: KeepsForkable(c)) ==> forkable
    ensures !ok ==> m.pmm.OutOfFrames() || m.pmm.StackFull() || exists c | c in calls :: c.CallAllocMany? || c.CallAnonymous?
  {
    hide World, Held, Forkable, LosesNone, KeepsForkable, NoneLose, Memories.Pool, SpacesKept, LastWordsDecide, Did, NamedDone, Trace, Follows, Allowed;
    held, forkable := start, startForkable;
    ok := true;
    trace := [Moment(m.mem, m.spaces, m.Pool(), m.pmm.Runs(), held, forkable)];
    EmptyTrace(trace);
    for i := 0 to |calls|
      invariant ok && m.Valid() && Held(m.Pool(), held) && (forkable ==> Forkable(m.mem, m.spaces))
      invariant Trace(trace, calls[..i]) && |trace| == i + 1
      invariant trace[0] == old(Moment(m.mem, m.spaces, m.Pool(), m.pmm.Runs(), start, startForkable))
      invariant trace[i] == Moment(m.mem, m.spaces, m.Pool(), m.pmm.Runs(), held, forkable)
    {
      ghost var a := trace[i];
      if Allowed(m.spaces, held, forkable, calls[i]) {
        ok, held, forkable := Step(m, held, forkable, calls[i]);
        if !ok {
          return;
        }
      }
      ghost var b := Moment(m.mem, m.spaces, m.Pool(), m.pmm.Runs(), held, forkable);
      Followed(a, b, calls[i]);
      TraceNext(trace, calls[..i], b, calls[i]);
      assert calls[..i] + [calls[i]] == calls[..i + 1];
      trace := trace + [b];
    }
    assert calls[..|calls|] == calls;
    WorldRights(m.mem, m.spaces, m.pmm.Frames());
    TraceConserves(trace, calls);
    if startForkable && forall c | c in calls :: KeepsForkable(c) {
      TraceForkable(trace, calls);
    }
  }

  lemma EmptyTrace(trace: seq<Moment>)
    requires |trace| == 1
    ensures Trace(trace, [])
  {
  }

  lemma Followed(a: Moment, b: Moment, call: Call)
    requires !Allowed(a.spaces, a.held, a.forkable, call) ==> b == a
    requires Allowed(a.spaces, a.held, a.forkable, call) ==>
               && Did(a.mem, a.spaces, a.held, b.mem, b.spaces, b.held, call) && SpacesKept(a.spaces, b.spaces, Named(call))
               && b.pool + b.held <= a.pool + a.held && (b.pool + b.held == a.pool + a.held <==> LosesNone(a.runs, call))
               && b.forkable == (a.forkable && KeepsForkable(call))
    ensures Follows(a, b, call)
  {
    hide Did, SpacesKept, LosesNone, KeepsForkable, Allowed, Named;
  }
}
