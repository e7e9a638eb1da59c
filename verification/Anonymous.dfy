/** Anonymous mappings: finding a free range of addresses and backing it with fresh zeroed frames. */
module Anonymous {
  import opened Wrappers
  import opened FrameDrain
  import FrameAllocator
  import opened RadixTree
  import opened Links
  import opened Ownership
  import opened VirtualAddress
  import opened Machine
  import opened Lifetime
  import opened Fork

  /** The all-ones answer. */
  const NOT_FOUND: nat := 0xffff_ffff_ffff_ffff

  const MMAP_TOP: nat := 0x7fff_ffff_ffff
  const MMAP_BOTTOM: nat := 0x9_0000_0000

  function DivCeil(val: nat, div: nat): nat
    requires div > 0
  {
    (val + div - 1) / div
  }

  lemma SomePages(size: nat)
    ensures DivCeil(size, BLOCK_SIZE) > 0 <==> size > 0
  {
  }

  /** Address of the page `k` pages above `base`. */
  function PageAt(base: nat, k: nat): nat {
    base + k * BLOCK_SIZE
  }

  predicate Unmapped(mem: Memory, root: Frame, virt: nat) {
    Walk(mem, root, PathOf(virt)).None?
  }

  /** The `n` pages from the `k`th page above `base` all lie below `end` and are not mapped. */
  ghost predicate FreeRun(mem: Memory, root: Frame, base: nat, end: nat, k: nat, n: nat) {
    forall j: nat | k <= j < k + n :: PageAt(base, j) < end && Unmapped(mem, root, PageAt(base, j))
  }

  /** Number of pages the scan has before it. */
  function PagesBetween(base: nat, end: nat): nat {
    if end <= base then 0 else DivCeil(end - base, BLOCK_SIZE)
  }

  lemma PagesBelow(base: nat, end: nat, k: nat)
    ensures PageAt(base, k) < end <==> k < PagesBetween(base, end)
  {
  }

  /** After `i` pages, the last `count` of which are unmapped: no run of `needed` pages was passed over. */
  ghost predicate Scanned(mem: Memory, root: Frame, base: nat, end: nat, needed: nat, i: nat, count: nat) {
    && count <= i
    && FreeRun(mem, root, base, end, i - count, count)
    && (count < i ==> !Unmapped(mem, root, PageAt(base, i - count - 1)))
    && (needed > 0 ==> count < needed && forall j: nat | j + needed <= i :: !FreeRun(mem, root, base, end, j, needed))
  }

  lemma ScanStart(mem: Memory, root: Frame, base: nat, end: nat, needed: nat)
    ensures Scanned(mem, root, base, end, needed, 0, 0)
  {
  }

  lemma ScanUnmapped(mem: Memory, root: Frame, base: nat, end: nat, needed: nat, i: nat, count: nat)
    requires Scanned(mem, root, base, end, needed, i, count)
    requires PageAt(base, i) < end && Unmapped(mem, root, PageAt(base, i))
    ensures count + 1 != needed ==> Scanned(mem, root, base, end, needed, i + 1, count + 1)
    ensures count + 1 == needed ==>
              && FreeRun(mem, root, base, end, i - count, needed)
              && forall j: nat | j < i - count :: !FreeRun(mem, root, base, end, j, needed)
  {
    hide FreeRun, Unmapped, PageAt;
    RunGrows(mem, root, base, end, i - count, count);
    if count + 1 != needed {
      NotYet(mem, root, base, end, i, count + 1, needed);
    }
  }

  lemma ScanMapped(mem: Memory, root: Frame, base: nat, end: nat, needed: nat, i: nat, count: nat)
    requires Scanned(mem, root, base, end, needed, i, count) && !Unmapped(mem, root, PageAt(base, i))
    ensures Scanned(mem, root, base, end, needed, i + 1, 0)
  {
    hide FreeRun, Unmapped, PageAt;
    EmptyRun(mem, root, base, end, i + 1);
    Blocked(mem, root, base, end, i, needed);
  }

  lemma ScanEnd(mem: Memory, root: Frame, base: nat, end: nat, needed: nat, i: nat, count: nat)
    requires Scanned(mem, root, base, end, needed, i, count) && PageAt(base, i) >= end
    ensures needed > 0 ==> forall j: nat :: !FreeRun(mem, root, base, end, j, needed)
    ensures count <= i && FreeRun(mem, root, base, end, i - count, count)
  {
    if needed > 0 {
      NoRun(mem, root, base, end, i, needed);
    }
  }

  /** Some run of `n` unmapped pages lies in the range. */
  ghost predicate HasRun(mem: Memory, root: Frame, base: nat, end: nat, n: nat) {
    exists k: nat :: FreeRun(mem, root, base, end, k, n)
  }

  ghost predicate LowestAt(mem: Memory, root: Frame, base: nat, end: nat, n: nat, k: nat) {
    FreeRun(mem, root, base, end, k, n) && forall j: nat | j < k :: !FreeRun(mem, root, base, end, j, n)
  }

  /** The lowest run of `n` unmapped pages in the range starts at `addr`. */
  ghost predicate LowestRun(mem: Memory, root: Frame, base: nat, end: nat, n: nat, addr: nat) {
    exists k: nat :: addr == PageAt(base, k) && LowestAt(mem, root, base, end, n, k)
  }

  ghost predicate TrailsFrom(mem: Memory, root: Frame, base: nat, end: nat, k: nat) {
    k < PagesBetween(base, end) && FreeRun(mem, root, base, end, k, PagesBetween(base, end) - k)
  }

  /** The pages from `addr` to the end of the range are unmapped. */
  ghost predicate TrailingRun(mem: Memory, root: Frame, base: nat, end: nat, addr: nat) {
    exists k: nat :: addr == PageAt(base, k) && TrailsFrom(mem, root, base, end, k)
  }

  /**
   The scan for free addresses.  If some run of that many unmapped pages exists, the lowest is returned.
   If not, the answer is the start of the unmapped pages at the end of the range, or all ones.
   */
  method GetFreeRange(m: Memories, c: Id, base: nat, end: nat, size: nat) returns (addr: nat)
    requires c in m.spaces && end < NOT_FOUND
    ensures size > 0 && HasRun(m.mem, m.spaces[c].root, base, end, DivCeil(size, BLOCK_SIZE)) ==>
              LowestRun(m.mem, m.spaces[c].root, base, end, DivCeil(size, BLOCK_SIZE), addr)
    ensures size == 0 || !HasRun(m.mem, m.spaces[c].root, base, end, DivCeil(size, BLOCK_SIZE)) ==>
              addr == NOT_FOUND || TrailingRun(m.mem, m.spaces[c].root, base, end, addr)
  {
    hide Walk, PathOf, FreeRun, DivCeil, PagesBetween, Scanned;
    var needed := DivCeil(size, BLOCK_SIZE);
    SomePages(size);
    ghost var mem, root := m.mem, m.spaces[c].root;
    addr := NOT_FOUND;
    var count := 0;
    var ptr := base;
    ghost var i := 0;
    ScanStart(mem, root, base, end, needed);
    while ptr < end
      invariant ptr == PageAt(base, i) && count <= i <= PagesBetween(base, end)
      invariant addr == if count == 0 then NOT_FOUND else PageAt(base, i - count)
      invariant Scanned(mem, root, base, end, needed, i, count)
      decreases PagesBetween(base, end) - i
    {
      PagesBelow(base, end, i);
      var phys := m.GetPhys(c, ptr);
      if phys.None? {
        ScanUnmapped(mem, root, base, end, needed, i, count);
        if addr == NOT_FOUND {
          addr := ptr;
        }
        count := count + 1;
        if count == needed {
          assert LowestAt(mem, root, base, end, needed, i + 1 - count);
          return;
        }
      } else {
        ScanMapped(mem, root, base, end, needed, i, count);
        count := 0;
        addr := NOT_FOUND;
      }
      ptr := ptr + BLOCK_SIZE;
      i := i + 1;
    }
    PagesBelow(base, end, i);
    ScanEnd(mem, root, base, end, needed, i, count);
    assert count > 0 ==> TrailsFrom(mem, root, base, end, i - count);
  }

  lemma EmptyRun(mem: Memory, root: Frame, base: nat, end: nat, k: nat)
    ensures FreeRun(mem, root, base, end, k, 0)
  {
  }

  lemma RunGrows(mem: Memory, root: Frame, base: nat, end: nat, k: nat, n: nat)
    requires FreeRun(mem, root, base, end, k, n) && PageAt(base, k + n) < end && Unmapped(mem, root, PageAt(base, k + n))
    ensures FreeRun(mem, root, base, end, k, n + 1)
  {
  }

  /** A run that ends at page `i` would reach over the mapped page below the current ones. */
  lemma NotYet(mem: Memory, root: Frame, base: nat, end: nat, i: nat, count: nat, needed: nat)
    requires count <= i + 1 && (needed > 0 ==> count < needed)
    requires count < i + 1 ==> !Unmapped(mem, root, PageAt(base, i - count))
    requires needed > 0 ==> forall j: nat | j + needed <= i :: !FreeRun(mem, root, base, end, j, needed)
    ensures needed > 0 ==> forall j: nat | j + needed <= i + 1 :: !FreeRun(mem, root, base, end, j, needed)
  {
    forall j: nat | needed > 0 && j + needed == i + 1
      ensures !FreeRun(mem, root, base, end, j, needed)
    {
      assert j <= i - count < j + needed;
    }
  }

  lemma Blocked(mem: Memory, root: Frame, base: nat, end: nat, i: nat, needed: nat)
    requires !Unmapped(mem, root, PageAt(base, i))
    requires needed > 0 ==> forall j: nat | j + needed <= i :: !FreeRun(mem, root, base, end, j, needed)
    ensures needed > 0 ==> forall j: nat | j + needed <= i + 1 :: !FreeRun(mem, root, base, end, j, needed)
  {
    forall j: nat | needed > 0 && j + needed == i + 1
      ensures !FreeRun(mem, root, base, end, j, needed)
    {
      assert j <= i < j + needed;
    }
  }

  lemma NoRun(mem: Memory, root: Frame, base: nat, end: nat, i: nat, needed: nat)
    requires PageAt(base, i) >= end && needed > 0
    requires forall j: nat | j + needed <= i :: !FreeRun(mem, root, base, end, j, needed)
    ensures forall j: nat :: !FreeRun(mem, root, base, end, j, needed)
  {
    forall j: nat
      ensures !FreeRun(mem, root, base, end, j, needed)
    {
      if j + needed > i {
        var last := j + needed - 1;
        assert PageAt(base, last) >= PageAt(base, i);
        assert j <= last < j + needed;
      }
    }
  }

  // ---------------------------------------------------------------- mapping

  /** Addresses of the lower half. */
  const LOWER_TOP: nat := 0x8000_0000_0000

  lemma LowerPage(virt: nat, i: nat)
    requires PageAt(virt, i) < LOWER_TOP
    ensures PageNumber(PageAt(virt, i)) == virt / BLOCK_SIZE + i
    ensures Pml4Index(PageAt(virt, i)) < HALF
  {
    var v := PageAt(virt, i);
    assert v / BLOCK_SIZE == virt / BLOCK_SIZE + i;
    assert v / 0x80_0000_0000 < HALF;
  }

  /**
   How a request ends: without frames, in a fault that halts when a page is cleared that may not be written,
   at a page that lies past the lower half, or done.
   */
  datatype Outcome<T> = NoFrames | Faults | Astray | Done(value: T)

  datatype Prot = Prot(read: bool, write: bool, exec: bool)

  function AnonFlags(prot: Prot): MapFlags {
    MapFlags(prot.read, prot.write, true, !prot.exec, false)
  }

  /** The entry of the page backed by `f`. */
  function AnonEntry(f: Frame, prot: Prot): Option<Word> {
    if prot.read then Some(Word(f, FlagBits(AnonFlags(prot)))) else None
  }

  /** A page can be cleared through its new mapping exactly when it was asked for as readable and writable. */
  lemma ClearedIff(f: Frame, prot: Prot)
    ensures Writable(AnonEntry(f, prot)) <==> prot.read && prot.write
  {
  }

  /** A page that is only to be read cannot be cleared, and neither can one that is not to be accessed. */
  lemma ReadOnlyHalts(f: Frame)
    ensures !Writable(AnonEntry(f, Prot(true, false, false))) && !Writable(AnonEntry(f, Prot(false, false, false)))
  {
    ClearedIff(f, Prot(true, false, false));
    ClearedIff(f, Prot(false, false, false));
  }

  /** The pages from `virt` on are backed by the frames `fs`, which are zeroed; no other page changed. */
  ghost predicate Backed(m1: Memory, m2: Memory, root: Frame, virt: nat, fs: seq<Frame>, prot: Prot) {
    && (forall i | 0 <= i < |fs| :: Walk(m2, root, PathOf(PageAt(virt, i))) == AnonEntry(fs[i], prot) && At(m2, fs[i]) == ZeroPage())
    && (forall v: nat | PageNumber(v) < virt / BLOCK_SIZE || PageNumber(v) >= virt / BLOCK_SIZE + |fs| ::
          Walk(m2, root, PathOf(v)) == Walk(m1, root, PathOf(v)))
  }

  /** One page of a space is backed by a zeroed frame; no other page changed. */
  ghost predicate BackedOne(m1: Memory, m2: Memory, root: Frame, virt: nat, f: Frame, prot: Prot) {
    && At(m2, f) == ZeroPage()
    && forall v: nat :: Walk(m2, root, PathOf(v)) ==
                        if PageNumber(v) != PageNumber(virt) then Walk(m1, root, PathOf(v)) else AnonEntry(f, prot)
  }

  lemma BackedNext(m1: Memory, m2: Memory, m3: Memory, root: Frame, pool: set<Frame>, virt: nat, fs: seq<Frame>, f: Frame, prot: Prot)
    requires Backed(m1, m2, root, virt, fs, prot) && PageAt(virt, |fs|) < LOWER_TOP
    requires BackedOne(m2, m3, root, PageAt(virt, |fs|), f, prot)
    requires SameOutside(m2, m3, pool) && Elements(fs) !! pool
    ensures Backed(m1, m3, root, virt, fs + [f], prot)
  {
    hide Walk, PageNumber, FlagBits, PathOf;
    var n := |fs|;
    LowerPage(virt, n);
    forall i | 0 <= i < n
      ensures Walk(m3, root, PathOf(PageAt(virt, i))) == AnonEntry(fs[i], prot) && At(m3, fs[i]) == ZeroPage()
    {
      assert PageAt(virt, i) <= PageAt(virt, n);
      LowerPage(virt, i);
      assert fs[i] in Elements(fs);
    }
  }

  lemma AnonWord(f: Frame, prot: Prot)
    requires f < RAM_LIMIT
    ensures LeafWord(f * BLOCK_SIZE, AnonFlags(prot), Normal) == Word(f, FlagBits(AnonFlags(prot)))
  {
    assert f * BLOCK_SIZE / BLOCK_SIZE == f;
    FrameFits(f);
    assert FlagBits(AnonFlags(prot)) + CacheBits(Normal) == FlagBits(AnonFlags(prot));
  }

  lemma MappedBacks(m1: Memory, m2: Memory, m3: Memory, spaces: map<Id, Space>, c: Id, virt: nat, f: Frame, prot: Prot)
    requires c in spaces && c != KERNEL && spaces[c].height == 4
    requires Mapped(m1, m2, spaces, c, PathOf(virt), Word(f, FlagBits(AnonFlags(prot))))
    requires forall d | d in spaces :: Agree(m2, m3, spaces[d])
    requires At(m3, f) == ZeroPage()
    ensures BackedOne(m1, m3, spaces[c].root, virt, f, prot)
    ensures forall d | d in spaces && d != c :: Agree(m1, m3, spaces[d])
  {
    hide Walk, PageNumber, PathOf;
    forall v: nat
      ensures Walk(m3, spaces[c].root, PathOf(v)) ==
                if PageNumber(v) != PageNumber(virt) then Walk(m1, spaces[c].root, PathOf(v)) else AnonEntry(f, prot)
    {
      MappedIsFlat(m1, m2, spaces, c, virt, Word(f, FlagBits(AnonFlags(prot))), v);
      assert IsWalk(spaces[c], PathOf(v));
    }
    forall d | d in spaces && d != c
      ensures Agree(m1, m3, spaces[d])
    {
      AgreeTwice(m1, m2, m3, spaces[d]);
    }
  }

  /** Every other space translates as before. */
  ghost predicate OthersAgree(m1: Memory, m2: Memory, spaces: map<Id, Space>, c: Id) {
    forall d | d in spaces && d != c :: Agree(m1, m2, spaces[d])
  }

  lemma AgreeSelf(mem: Memory, spaces: map<Id, Space>)
    ensures forall c :: OthersAgree(mem, mem, spaces, c)
  {
  }

  lemma AgreeTwice(m1: Memory, m2: Memory, m3: Memory, s: Space)
    requires Agree(m1, m2, s) && Agree(m2, m3, s)
    ensures Agree(m1, m3, s)
  {
  }

  /** Map one page to a fresh frame and clear it through the mapping, which goes through only if it is readable and writable. */
  method MapFresh(m: Memories, c: Id, virt: nat, prot: Prot) returns (r: Outcome<Frame>)
    requires m.Valid() && c in m.spaces && c != KERNEL && m.spaces[c].height == 4 && m.spaces[c].span == HALF && Pml4Index(virt) < HALF
    modifies m`mem, m.pmm, m.pmm.stack
    ensures r.NoFrames? ==> m.pmm.OutOfFrames()
    ensures !r.Astray? && (!r.NoFrames? ==> (r.Done? <==> prot.read && prot.write))
    ensures r.Done? ==> m.Valid() && Spent(old(m.Pool()), old(m.pmm.Frames()), m.Pool(), m.pmm.Frames(), [r.value])
    ensures r.Done? ==> BackedOne(old(m.mem), m.mem, m.spaces[c].root, virt, r.value, prot)
    ensures r.Done? ==> OthersAgree(old(m.mem), m.mem, m.spaces, c)
    ensures r.Done? ==> SameOutside(old(m.mem), m.mem, old(m.Pool()))
  {
    hide World, InRam, Walk, AllTables, Tables, BackedOne, Agree, Mapped, Spent, FlagBits, CacheBits, PathOf, OthersKept, LeafWord, Writable, AnonEntry, RightsOf, RootKept, CanWrite;
    var m1 := m.mem;
    ghost var pool1, free1 := m.Pool(), m.pmm.Frames();
    var f := AllocPage(m);
    if f.None? {
      return NoFrames;
    }
    AnonWord(f.value, prot);
    var ok := m.MapPage(c, f.value * BLOCK_SIZE, virt, AnonFlags(prot), Normal);
    if !ok {
      return NoFrames;
    }
    var m2 := m.mem;
    MappedEntry(m1, m2, m.spaces, c, virt, f.value, prot);
    EntryFrame(f.value, prot);
    ClearedIff(f.value, prot);
    ok := StoreThrough(m, c, virt, ZeroPage());
    if !ok {
      return Faults;
    }
    MappedBacks(m1, m2, m.mem, m.spaces, c, virt, f.value, prot);
    SpentOne(pool1, free1, m.Pool(), m.pmm.Frames(), f.value);
    return Done(f.value);
  }

  lemma MappedEntry(m1: Memory, m2: Memory, spaces: map<Id, Space>, c: Id, virt: nat, f: Frame, prot: Prot)
    requires c in spaces && Mapped(m1, m2, spaces, c, PathOf(virt), Word(f, FlagBits(AnonFlags(prot))))
    ensures Walk(m2, spaces[c].root, PathOf(virt)) == AnonEntry(f, prot)
  {
  }

  lemma EntryFrame(f: Frame, prot: Prot)
    ensures AnonEntry(f, prot).Some? ==> AnonEntry(f, prot).value.frame == f
    ensures Writable(AnonEntry(f, prot)) ==> AnonEntry(f, prot).Some?
  {
  }

  lemma BackedStart(m1: Memory, pool1: set<Frame>, free1: set<Frame>, root: Frame, virt: nat, prot: Prot)
    requires free1 <= pool1
    ensures Backed(m1, m1, root, virt, [], prot) && Spent(pool1, free1, pool1, free1, [])
  {
    assert pool1 - Elements([]) == pool1 && free1 - Elements([]) == free1;
  }

  lemma SpentApart(pool1: set<Frame>, free1: set<Frame>, pool2: set<Frame>, free2: set<Frame>, fs: seq<Frame>)
    requires Spent(pool1, free1, pool2, free2, fs)
    ensures Elements(fs) !! pool2
  {
  }

  lemma AgreeOthers(m1: Memory, m2: Memory, m3: Memory, spaces: map<Id, Space>, c: Id)
    requires OthersAgree(m1, m2, spaces, c) && OthersAgree(m2, m3, spaces, c)
    ensures OthersAgree(m1, m3, spaces, c)
  {
    hide Agree;
    forall d | d in spaces && d != c
      ensures Agree(m1, m3, spaces[d])
    {
      AgreeTwice(m1, m2, m3, spaces[d]);
    }
  }

  /** How many tables are missing on the way to the last word of a path. */
  function Missing(mem: Memory, f: Frame, p: seq<nat>): (n: nat)
    requires IsPath(p) && |p| >= 1
    ensures n < |p|
    decreases |p|
  {
    if |p| == 1 then 0
    else if !Has(mem, f, p[0]) then |p| - 1
    else Missing(mem, Kid(mem, f, p[0]), p[1..])
  }

  /**
   A page past the lower half: its frame and the tables that are missing on its path are allocated, and then
   it is cleared, which goes astray unless the protection forbids it.
   */
  method MapStray(m: Memories, c: Id, virt: nat, prot: Prot) returns (r: Outcome<Frame>)
    requires m.Valid() && c in m.spaces && m.spaces[c].height == 4
    modifies m.pmm, m.pmm.stack
    ensures r.NoFrames? ==> m.pmm.OutOfFrames()
    ensures r.NoFrames? <==> |old(m.pmm.Frames())| <= old(Missing(m.mem, m.spaces[c].root, PathOf(virt)))
    ensures !r.Done? && (!r.NoFrames? ==> (r.Astray? <==> prot.read && prot.write))
  {
    hide World, InRam, AllTables, Missing, PathOf, Memories.Pool, FrameAllocator.Allocator.Frames;
    var missing := Missing(m.mem, m.spaces[c].root, PathOf(virt));
    ghost var n := |m.pmm.Frames()|;
    for i := 0 to missing + 1
      invariant m.Valid() && |m.pmm.Frames()| + i == n
    {
      var f := AllocPage(m);
      if f.None? {
        return NoFrames;
      }
    }
    return if prot.read && prot.write then Astray else Faults;
  }

  /** The pages from `virt` on all lie in the lower half. */
  predicate Inside(virt: nat, pages: nat) {
    pages == 0 || PageAt(virt, pages - 1) < LOWER_TOP
  }

  /**
   Back a range of pages with fresh zeroed frames, one each, and record them.  Every page outside the
   range and every other space translates as before.  Unless frames run out, the range is backed exactly
   when its pages can be cleared and lie in the lower half.
   */
  method MapRange(m: Memories, c: Id, virt: nat, pages: nat, prot: Prot) returns (r: Outcome<seq<Frame>>)
    requires m.Valid() && c in m.spaces && c != KERNEL && m.spaces[c].height == 4 && m.spaces[c].span == HALF
    modifies m`mem, m.pmm, m.pmm.stack
    ensures r.NoFrames? ==> pages > 0 && m.pmm.OutOfFrames()
    ensures !r.NoFrames? ==> (r.Done? <==> pages == 0 || (prot.read && prot.write && Inside(virt, pages)))
    ensures !r.NoFrames? ==> (r.Faults? <==> pages > 0 && !(prot.read && prot.write))
    ensures r.Done? ==> m.Valid() && |r.value| == pages && Spent(old(m.Pool()), old(m.pmm.Frames()), m.Pool(), m.pmm.Frames(), r.value)
    ensures r.Done? ==> Backed(old(m.mem), m.mem, m.spaces[c].root, virt, r.value, prot)
    ensures r.Done? ==> OthersAgree(old(m.mem), m.mem, m.spaces, c)
  {
    hide World, InRam, Walk, AllTables, Backed, Agree, OthersAgree, Mapped, Spent, FlagBits, CacheBits, PathOf, OthersKept, SameOutside, SameOn, Elements, Missing;
    AgreeSelf(m.mem, m.spaces);
    ghost var m1, pool1, free1 := m.mem, m.Pool(), m.pmm.Frames();
    var fs := [];
    BackedStart(m1, pool1, free1, m.spaces[c].root, virt, prot);
    while |fs| < pages
      invariant |fs| <= pages && m.Valid() && m.spaces == old(m.spaces)
      invariant Inside(virt, |fs|) && (|fs| > 0 ==> prot.read && prot.write)
      invariant Spent(pool1, free1, m.Pool(), m.pmm.Frames(), fs)
      invariant Backed(m1, m.mem, m.spaces[c].root, virt, fs, prot)
      invariant OthersAgree(m1, m.mem, m.spaces, c)
    {
      ghost var m2, pool2, free2 := m.mem, m.Pool(), m.pmm.Frames();
      var page := PageAt(virt, |fs|);
      var f;
      if page < LOWER_TOP {
        LowerPage(virt, |fs|);
        f := MapFresh(m, c, page, prot);
      } else {
        f := MapStray(m, c, page, prot);
      }
      match f
      case NoFrames => return NoFrames;
      case Faults => return Faults;
      case Astray => return Astray;
      case Done(frame) =>
        SpentApart(pool1, free1, pool2, free2, fs);
        BackedNext(m1, m2, m.mem, m.spaces[c].root, pool2, virt, fs, frame, prot);
        AgreeOthers(m1, m2, m.mem, m.spaces, c);
        SpentTwice(pool1, free1, pool2, free2, fs, m.Pool(), m.pmm.Frames(), [frame]);
        fs := fs + [frame];
    }
    return Done(fs);
  }

  /** The range for anonymous mappings has a run of unmapped pages for `size` bytes. */
  ghost predicate RoomFor(mem: Memory, root: Frame, size: nat) {
    HasRun(mem, root, MMAP_BOTTOM, MMAP_TOP, DivCeil(size, BLOCK_SIZE))
  }

  /** A page for the program that asked for it: bits 0, 1 and 2, and bit 63 if it is not to be executed. */
  predicate UserPage(e: Option<Word>, f: Frame, exec: bool) {
    e == Some(Word(f, {0, 1, 2} + if exec then {} else {63}))
  }

  /** Every page of the range is one, and its whole path lets the program read and write it, and execute it if asked for. */
  ghost predicate UserPages(mem: Memory, root: Frame, addr: nat, fs: seq<Frame>, exec: bool) {
    forall i | 0 <= i < |fs| ::
      && UserPage(Walk(mem, root, PathOf(PageAt(addr, i))), fs[i], exec)
      && RightsOf(mem, root, PathOf(PageAt(addr, i))) == Some(Rights(true, true, !exec))
  }

  lemma BackedForUser(m1: Memory, m2: Memory, spaces: map<Id, Space>, free: set<Frame>, c: Id, addr: nat, fs: seq<Frame>, prot: Prot)
    requires World(m2, spaces, free) && AddressSpace(spaces, c) && spaces[c].height == 4
    requires Backed(m1, m2, spaces[c].root, addr, fs, prot) && (fs != [] ==> prot.read && prot.write)
    ensures UserPages(m2, spaces[c].root, addr, fs, prot.exec)
  {
    hide World, Walk, PathOf, RightsOf, FlagBits;
    forall i | 0 <= i < |fs|
      ensures UserPage(Walk(m2, spaces[c].root, PathOf(PageAt(addr, i))), fs[i], prot.exec)
      ensures RightsOf(m2, spaces[c].root, PathOf(PageAt(addr, i))) == Some(Rights(true, true, !prot.exec))
    {
      AnonBits(prot);
      PathRights(m2, spaces, free, c, PathOf(PageAt(addr, i)));
    }
  }

  lemma AnonBits(prot: Prot)
    ensures prot.read && prot.write ==> FlagBits(AnonFlags(prot)) == {0, 1, 2} + if prot.exec then {} else {63}
  {
  }

  /** What was mapped is mapped as before. */
  ghost predicate MappedKept(m1: Memory, m2: Memory, root: Frame) {
    forall v: nat | !Unmapped(m1, root, v) :: Walk(m2, root, PathOf(v)) == Walk(m1, root, PathOf(v))
  }

  /**
   An anonymous mapping.  It takes the lowest range that is large enough; where none is, it starts at the
   unmapped end of the range for such mappings, or at the all-ones address, and does not notice.  The pages
   are mapped and cleared one by one until something stops it.  Unless frames run out, it is done exactly
   when a range is free and its pages can be cleared: then every page gets a fresh zeroed frame of its own,
   with the rights asked for, and nothing that was mapped changes.
   */
  method MapAnonymous(m: Memories, c: Id, size: nat, prot: Prot) returns (addr: nat, r: Outcome<seq<Frame>>)
    requires m.Valid() && c in m.spaces && c != KERNEL && m.spaces[c].height == 4 && m.spaces[c].span == HALF
    modifies m`mem, m.pmm, m.pmm.stack
    ensures r.NoFrames? ==> size > 0 && m.pmm.OutOfFrames()
    ensures !r.NoFrames? ==> (r.Done? <==> size == 0 || (prot.read && prot.write && old(RoomFor(m.mem, m.spaces[c].root, size))))
    ensures !r.NoFrames? ==> (r.Faults? <==> size > 0 && !(prot.read && prot.write))
    ensures r.Done? && size > 0 ==> LowestRun(old(m.mem), m.spaces[c].root, MMAP_BOTTOM, MMAP_TOP, DivCeil(size, BLOCK_SIZE), addr)
    ensures r.Done? && size > 0 ==> PageAt(addr, DivCeil(size, BLOCK_SIZE)) <= LOWER_TOP
    ensures r.Done? && size > 0 ==> addr % 0x1000 == 0 && 0x9_0000_0000 <= addr && addr + size <= 0x8000_0000_0000
    ensures r.Done? ==> m.Valid() && |r.value| == DivCeil(size, BLOCK_SIZE) <= |old(m.pmm.Frames())|
    ensures r.Done? ==> Spent(old(m.Pool()), old(m.pmm.Frames()), m.Pool(), m.pmm.Frames(), r.value)
    ensures r.Done? ==> Backed(old(m.mem), m.mem, m.spaces[c].root, addr, r.value, prot)
    ensures r.Done? ==> UserPages(m.mem, m.spaces[c].root, addr, r.value, prot.exec)
    ensures r.Done? ==> MappedKept(old(m.mem), m.mem, m.spaces[c].root)
    ensures r.Done? ==> OthersAgree(old(m.mem), m.mem, m.spaces, c)
  {
    hide World, InRam, Walk, HasRun, LowestRun, TrailingRun, Backed, Agree, OthersAgree, Spent, PathOf, DivCeil, AllTables, MappedKept, UserPages;
    var pages := DivCeil(size, BLOCK_SIZE);
    SomePages(size);
    ghost var m1, root, pool1, free1 := m.mem, m.spaces[c].root, m.Pool(), m.pmm.Frames();
    addr := GetFreeRange(m, c, MMAP_BOTTOM, MMAP_TOP, size);
    if pages > 0 {
      InsideIff(m1, root, addr, pages);
    }
    r := MapRange(m, c, addr, pages, prot);
    if r.Done? {
      SpentFits(pool1, free1, m.Pool(), m.pmm.Frames(), r.value);
      BackedForUser(m1, m.mem, m.spaces, m.pmm.Frames(), c, addr, r.value, prot);
      if pages > 0 {
        RunPlace(m1, root, addr, pages);
        PagesHold(size);
        KeepsMapped(m1, m.mem, root, addr, pages, r.value, prot);
      } else {
        NothingBacked(m1, m.mem, root, addr, r.value, prot);
      }
    }
  }

  /** Runs start on a page boundary of the range. */
  lemma RunPlace(mem: Memory, root: Frame, addr: nat, pages: nat)
    requires LowestRun(mem, root, MMAP_BOTTOM, MMAP_TOP, pages, addr)
    ensures addr % 0x1000 == 0 && 0x9_0000_0000 <= addr
  {
    var k: nat :| addr == PageAt(MMAP_BOTTOM, k) && LowestAt(mem, root, MMAP_BOTTOM, MMAP_TOP, pages, k);
    assert MMAP_BOTTOM % 0x1000 == 0;
  }

  lemma PagesHold(size: nat)
    ensures size <= DivCeil(size, BLOCK_SIZE) * 0x1000
  {
  }

  lemma NothingBacked(m1: Memory, m2: Memory, root: Frame, virt: nat, fs: seq<Frame>, prot: Prot)
    requires Backed(m1, m2, root, virt, fs, prot) && fs == []
    ensures MappedKept(m1, m2, root)
  {
  }

  /** As many frames were free as have been spent. */
  lemma SpentFits(pool1: set<Frame>, free1: set<Frame>, pool2: set<Frame>, free2: set<Frame>, fs: seq<Frame>)
    requires Spent(pool1, free1, pool2, free2, fs)
    ensures |fs| <= |free1|
  {
    DistinctFit(fs, free1);
  }

  lemma {:induction false} DistinctFit(fs: seq<Frame>, free: set<Frame>)
    requires NoRepeat(fs) && Elements(fs) <= free
    ensures |fs| <= |free|
  {
    if fs != [] {
      var f := fs[0];
      assert f in Elements(fs);
      DistinctFit(fs[1..], free - {f});
    }
  }

  /** The range for anonymous mappings ends with the lower half. */
  lemma RangeEnd(k: nat)
    ensures PageAt(MMAP_BOTTOM, k) < MMAP_TOP <==> PageAt(MMAP_BOTTOM, k) < LOWER_TOP
    ensures PageAt(MMAP_BOTTOM, PagesBetween(MMAP_BOTTOM, MMAP_TOP)) == LOWER_TOP
  {
    assert MMAP_BOTTOM % BLOCK_SIZE == 0 && LOWER_TOP == MMAP_TOP + 1 && LOWER_TOP % BLOCK_SIZE == 0;
  }

  /** The pages from the scan's answer on lie in the lower half exactly when a large enough run was found. */
  lemma InsideIff(mem: Memory, root: Frame, addr: nat, pages: nat)
    requires pages > 0
    requires HasRun(mem, root, MMAP_BOTTOM, MMAP_TOP, pages) ==> LowestRun(mem, root, MMAP_BOTTOM, MMAP_TOP, pages, addr)
    requires !HasRun(mem, root, MMAP_BOTTOM, MMAP_TOP, pages) ==> addr == NOT_FOUND || TrailingRun(mem, root, MMAP_BOTTOM, MMAP_TOP, addr)
    ensures Inside(addr, pages) <==> HasRun(mem, root, MMAP_BOTTOM, MMAP_TOP, pages)
    ensures Inside(addr, pages) ==> PageAt(addr, pages) <= LOWER_TOP
  {
    hide HasRun, LowestRun, TrailingRun;
    if HasRun(mem, root, MMAP_BOTTOM, MMAP_TOP, pages) {
      RunBelow(mem, root, addr, pages);
    } else {
      PastRange(mem, root, addr, pages);
    }
  }

  lemma RunBelow(mem: Memory, root: Frame, addr: nat, pages: nat)
    requires LowestRun(mem, root, MMAP_BOTTOM, MMAP_TOP, pages, addr) && pages > 0
    ensures PageAt(addr, pages) <= LOWER_TOP
  {
    var k: nat :| addr == PageAt(MMAP_BOTTOM, k) && LowestAt(mem, root, MMAP_BOTTOM, MMAP_TOP, pages, k);
    var last := k + (pages - 1);
    assert PageAt(MMAP_BOTTOM, last) < MMAP_TOP;
    PagesBelow(MMAP_BOTTOM, MMAP_TOP, last);
    RangeEnd(last);
  }

  /** Where no run is free, mapping from the answer on goes past the lower half. */
  lemma PastRange(mem: Memory, root: Frame, addr: nat, pages: nat)
    requires !HasRun(mem, root, MMAP_BOTTOM, MMAP_TOP, pages) && pages > 0
    requires addr == NOT_FOUND || TrailingRun(mem, root, MMAP_BOTTOM, MMAP_TOP, addr)
    ensures !Inside(addr, pages)
  {
    if addr != NOT_FOUND {
      var k: nat :| addr == PageAt(MMAP_BOTTOM, k) && TrailsFrom(mem, root, MMAP_BOTTOM, MMAP_TOP, k);
      var n := PagesBetween(MMAP_BOTTOM, MMAP_TOP);
      RangeEnd(k);
      if pages <= n - k {
        assert FreeRun(mem, root, MMAP_BOTTOM, MMAP_TOP, k, pages);
      }
      assert k + pages > n;
    }
  }

  /** A request for more pages than the whole range has finds no run, whatever is mapped. */
  lemma TooLarge(mem: Memory, root: Frame, pages: nat)
    requires pages > PagesBetween(MMAP_BOTTOM, MMAP_TOP)
    ensures !HasRun(mem, root, MMAP_BOTTOM, MMAP_TOP, pages)
  {
    hide PagesBetween, Unmapped;
    forall k: nat
      ensures !FreeRun(mem, root, MMAP_BOTTOM, MMAP_TOP, k, pages)
    {
      var last := k + (pages - 1);
      PagesBelow(MMAP_BOTTOM, MMAP_TOP, last);
      assert k <= last < k + pages;
    }
  }

  /** Pages that were mapped lie outside the free run. */
  lemma KeepsMapped(m1: Memory, m2: Memory, root: Frame, addr: nat, pages: nat, fs: seq<Frame>, prot: Prot)
    requires LowestRun(m1, root, MMAP_BOTTOM, MMAP_TOP, pages, addr) && |fs| == pages
    requires Backed(m1, m2, root, addr, fs, prot)
    ensures MappedKept(m1, m2, root)
  {
    hide Walk, PathOf, PageNumber, FreeRun;
    var k: nat :| addr == PageAt(MMAP_BOTTOM, k) && LowestAt(m1, root, MMAP_BOTTOM, MMAP_TOP, pages, k);
    assert addr / BLOCK_SIZE == MMAP_BOTTOM / BLOCK_SIZE + k;
    forall v: nat | !Unmapped(m1, root, v)
      ensures Walk(m2, root, PathOf(v)) == Walk(m1, root, PathOf(v))
    {
      RunUnmapped(m1, root, k, pages, v);
    }
  }

  /** The pages of a free run are not mapped. */
  lemma RunUnmapped(mem: Memory, root: Frame, k: nat, pages: nat, v: nat)
    requires FreeRun(mem, root, MMAP_BOTTOM, MMAP_TOP, k, pages)
    ensures var first := MMAP_BOTTOM / BLOCK_SIZE + k;
            first <= PageNumber(v) < first + pages ==> Unmapped(mem, root, v)
  {
    hide Walk, PathOf, PageNumber;
    var first := MMAP_BOTTOM / BLOCK_SIZE + k;
    if first <= PageNumber(v) < first + pages {
      var j := PageNumber(v) - MMAP_BOTTOM / BLOCK_SIZE;
      assert PageAt(MMAP_BOTTOM, j) < MMAP_TOP && Unmapped(mem, root, PageAt(MMAP_BOTTOM, j));
      LowerPage(MMAP_BOTTOM, j);
      PathsEqualIff(v, PageAt(MMAP_BOTTOM, j));
    }
  }
}
