/** The pages behind the kernel heap: consecutive pages of the kernel's space, each with a frame of its own. */
module HeapPages {
  import opened Wrappers
  import opened FrameDrain
  import opened RadixTree
  import opened Links
  import opened Ownership
  import opened VirtualAddress
  import opened Machine
  import opened Lifetime
  import opened Fork

  const HEAP_BASE: nat := 0xffff_ffff_d000_0000
  const WORD: nat := 0x1_0000_0000_0000_0000

  const HEAP_FLAGS := MapFlags(true, true, false, true, true)

  /** Address of the `i`th page of the heap. */
  function HeapPage(i: nat): nat {
    HEAP_BASE + i * BLOCK_SIZE
  }

  /** The word behind a page of the heap: present, writable, global, not for user mode and not for execution. */
  function HeapWord(f: Frame): Word {
    Word(f, {0, 1, 8, 63})
  }

  /** The pages of the heap are mapped to the frames `fs`. */
  ghost predicate PagesMapped(mem: Memory, root: Frame, fs: seq<Frame>) {
    forall i | 0 <= i < |fs| :: Walk(mem, root, PathOf(HeapPage(i))) == Some(HeapWord(fs[i]))
  }

  /** The heap's pages are mapped to different frames, which are neither free nor tables. */
  ghost predicate Behind(mem: Memory, root: Frame, pool: set<Frame>, fs: seq<Frame>) {
    PagesMapped(mem, root, fs) && NoRepeat(fs) && Elements(fs) !! pool
  }

  /** Pages of the heap have different page numbers. */
  lemma HeapPagesDiffer(i: nat, j: nat)
    requires HeapPage(i) < WORD && HeapPage(j) < WORD && i != j
    ensures PageNumber(HeapPage(i)) != PageNumber(HeapPage(j))
  {
    HeapPageNumber(i);
    HeapPageNumber(j);
  }

  lemma HeapPageNumber(i: nat)
    requires HeapPage(i) < WORD
    ensures PageNumber(HeapPage(i)) == 0xf_fffd_0000 + i
  {
    assert HeapPage(i) / BLOCK_SIZE == 0xf_ffff_fffd_0000 + i;
  }

  lemma HeapLeaf(f: Frame)
    requires f < RAM_LIMIT
    ensures LeafWord(f * BLOCK_SIZE, HEAP_FLAGS, Normal) == HeapWord(f) && HeapWord(f).Present() && BIT_WRITABLE in HeapWord(f).bits
  {
    assert f * BLOCK_SIZE / BLOCK_SIZE == f;
    FrameFits(f);
    assert FlagBits(HEAP_FLAGS) + CacheBits(Normal) == {0, 1, 8, 63};
  }

  /** Every page but one translates as before. */
  ghost predicate OtherPagesKept(m1: Memory, m2: Memory, root: Frame, virt: nat) {
    forall v: nat | PageNumber(v) != PageNumber(virt) :: Walk(m2, root, PathOf(v)) == Walk(m1, root, PathOf(v))
  }

  /** Map a page of the kernel to a fresh frame and, if asked to, clear it. */
  method AddPage(m: Memories, virt: nat, clear: bool) returns (f: Option<Frame>)
    requires m.Valid()
    modifies m`mem, m.pmm, m.pmm.stack
    ensures f.None? ==> m.pmm.OutOfFrames()
    ensures f.Some? ==> m.Valid() && f.value in old(m.pmm.Frames()) && m.pmm.Frames() <= old(m.pmm.Frames()) - {f.value}
    ensures f.Some? ==> m.Pool() == old(m.Pool()) - {f.value} && f.value in old(m.Pool())
    ensures f.Some? ==> KERNEL in m.spaces && Walk(m.mem, m.spaces[KERNEL].root, PathOf(virt)) == Some(HeapWord(f.value))
    ensures f.Some? ==> RightsOf(m.mem, m.spaces[KERNEL].root, PathOf(virt)) == Some(Rights(true, false, true))
    ensures f.Some? ==> OtherPagesKept(old(m.mem), m.mem, m.spaces[KERNEL].root, virt)
    ensures f.Some? && clear ==> At(m.mem, f.value) == ZeroPage()
    ensures f.Some? ==> SameOutside(old(m.mem), m.mem, old(m.Pool()))
  {
    hide World, InRam, Walk, AllTables, Tables, Agree, Mapped, FlagBits, CacheBits, PathOf, OthersKept, LeafWord, OtherPagesKept, HeapWord, RightsOf, RootKept, CanWrite, Undisturbed;
    KernelShape(m.mem, m.spaces, m.pmm.Frames());
    var m1 := m.mem;
    f := AllocPage(m);
    if f.None? {
      return;
    }
    HeapLeaf(f.value);
    var ok := m.MapPage(KERNEL, f.value * BLOCK_SIZE, virt, HEAP_FLAGS, Normal);
    if !ok {
      return None;
    }
    var m2 := m.mem;
    KernelMapped(m1, m2, m.spaces, virt, f.value);
    if clear {
      ok := StoreThrough(m, KERNEL, virt, ZeroPage());
      KernelUndisturbed(m2, m.mem, m.spaces);
      KeptByStore(m1, m2, m.mem, m.spaces[KERNEL], virt);
    }
    HeapRights(m.mem, m.spaces, m.pmm.Frames(), virt, f.value);
  }

  lemma HeapRights(mem: Memory, spaces: map<Id, Space>, free: set<Frame>, virt: nat, f: Frame)
    requires World(mem, spaces, free) && KERNEL in spaces && spaces[KERNEL].height == 4
    requires Walk(mem, spaces[KERNEL].root, PathOf(virt)) == Some(HeapWord(f))
    ensures RightsOf(mem, spaces[KERNEL].root, PathOf(virt)) == Some(Rights(true, false, true))
  {
    hide World, Walk, RightsOf, PathOf;
    PathRights(mem, spaces, free, KERNEL, PathOf(virt));
  }

  lemma KernelMapped(m1: Memory, m2: Memory, spaces: map<Id, Space>, virt: nat, f: Frame)
    requires KERNEL in spaces && spaces[KERNEL].height == 4 && Mapped(m1, m2, spaces, KERNEL, PathOf(virt), HeapWord(f)) && HeapWord(f).Present()
    ensures Walk(m2, spaces[KERNEL].root, PathOf(virt)) == Some(HeapWord(f)) && OtherPagesKept(m1, m2, spaces[KERNEL].root, virt)
    ensures HeapWord(f).frame == f
  {
    hide Walk, PathOf, PageNumber, FlagBits;
    forall v: nat | PageNumber(v) != PageNumber(virt)
      ensures Walk(m2, spaces[KERNEL].root, PathOf(v)) == Walk(m1, spaces[KERNEL].root, PathOf(v))
    {
      MappedIsFlat(m1, m2, spaces, KERNEL, virt, HeapWord(f), v);
    }
  }

  lemma KernelUndisturbed(m1: Memory, m2: Memory, spaces: map<Id, Space>)
    requires KERNEL in spaces && Undisturbed(m1, m2, spaces)
    ensures Agree(m1, m2, spaces[KERNEL])
  {
  }

  /** The heap has grown from the frames `fs1` to `fs2`: the new pages are clear, the old ones hold what they held. */
  ghost predicate Cleared(m1: Memory, m2: Memory, fs1: seq<Frame>, fs2: seq<Frame>) {
    && fs1 <= fs2
    && forall i | 0 <= i < |fs2| :: At(m2, fs2[i]) == if i < |fs1| then At(m1, fs1[i]) else ZeroPage()
  }

  lemma ClearedNext(m1: Memory, m2: Memory, pool: set<Frame>, fs: seq<Frame>, f: Frame)
    requires Elements(fs) !! pool && SameOutside(m1, m2, pool) && At(m2, f) == ZeroPage()
    ensures Cleared(m1, m2, fs, fs + [f])
  {
    forall i | 0 <= i < |fs|
      ensures At(m2, fs[i]) == At(m1, fs[i])
    {
      assert fs[i] in Elements(fs);
    }
  }

  lemma ClearedTwice(m1: Memory, m2: Memory, m3: Memory, fs1: seq<Frame>, fs2: seq<Frame>, fs3: seq<Frame>)
    requires Cleared(m1, m2, fs1, fs2) && Cleared(m2, m3, fs2, fs3)
    ensures Cleared(m1, m3, fs1, fs3)
  {
  }

  lemma KeptByStore(m1: Memory, m2: Memory, m3: Memory, s: Space, virt: nat)
    requires s.height == 4 && Agree(m2, m3, s) && OtherPagesKept(m1, m2, s.root, virt)
    ensures OtherPagesKept(m1, m3, s.root, virt) && Walk(m3, s.root, PathOf(virt)) == Walk(m2, s.root, PathOf(virt))
  {
    hide Walk, PathOf, PageNumber;
    forall v: nat
      ensures Walk(m3, s.root, PathOf(v)) == Walk(m2, s.root, PathOf(v))
    {
      assert IsWalk(s, PathOf(v));
    }
  }

  lemma BehindNext(m1: Memory, m2: Memory, root: Frame, pool1: set<Frame>, pool2: set<Frame>, fs: seq<Frame>, f: Frame)
    requires Behind(m1, root, pool1, fs) && HeapPage(|fs|) < WORD && f in pool1 && pool2 == pool1 - {f}
    requires Walk(m2, root, PathOf(HeapPage(|fs|))) == Some(HeapWord(f)) && OtherPagesKept(m1, m2, root, HeapPage(|fs|))
    ensures Behind(m2, root, pool2, fs + [f])
  {
    hide Walk, PathOf, PageNumber, HeapWord, HeapPage;
    forall i | 0 <= i < |fs|
      ensures Walk(m2, root, PathOf(HeapPage(i))) == Some(HeapWord(fs[i]))
    {
      EarlierPage(i, |fs|);
      HeapPagesDiffer(i, |fs|);
    }
    forall i | 0 <= i < |fs|
      ensures fs[i] != f
    {
      assert fs[i] in Elements(fs);
    }
  }

  lemma EarlierPage(i: nat, j: nat)
    requires i < j && HeapPage(j) < WORD
    ensures HeapPage(i) < WORD
  {
  }
}
