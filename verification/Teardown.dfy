/** Contexts whose root pointer outlives their tables, and what a second teardown does to the free list. */
module Teardown {
  import opened Wrappers
  import opened FrameRuns
  import opened FrameDrain
  import opened FrameAllocator
  import opened RadixTree
  import opened Ownership
  import opened Machine
  import opened Lifetime
  import opened Fork

  class Context {
    /** The root table; it is set by `Init` and never cleared. */
    var pagingInfo: Option<Frame>

    constructor ()
      ensures pagingInfo == None
    {
      pagingInfo := None;
    }

    /** The tables that a teardown of the context frees. */
    ghost function Owned(mem: Memory): set<Frame>
      reads this
    {
      if pagingInfo.None? then {} else Frames(mem, pagingInfo.value, 4, 0, HALF)
    }

    ghost predicate Rooted(mem: Memory)
      reads this
    {
      pagingInfo.Some? ==> Tree(mem, pagingInfo.value, 4, 0, HALF)
    }

    /** Free the tables, if there are any.  The root pointer stays, and so does what the tables hold. */
    method Deinit(m: Memories) returns (ok: bool)
      requires m.pmm.Roomy() && Rooted(m.mem)
      modifies m.pmm, m.pmm.stack
      ensures ok ==> m.pmm.Roomy() && m.pmm.Frames() == old(m.pmm.Frames()) + Owned(m.mem)
      ensures ok ==> (m.pmm.Valid() <==> old(m.pmm.Valid()) && Owned(m.mem) !! old(m.pmm.Frames()))
      ensures !ok ==> m.pmm.StackFull()
    {
      hide Tree, Frames, Allocator.Valid, Allocator.Frames;
      if pagingInfo.None? {
        return true;
      }
      ok := CleanSpace(m, pagingInfo.value);
    }

    /**
     A new root; a context that has one already is torn down first.  Counting the new root, the frames
     granted from now on are all different exactly when no table was free before the teardown.
     */
    method Init(m: Memories) returns (ok: bool)
      requires m.pmm.Roomy() && Rooted(m.mem)
      modifies this, m`mem, m.pmm, m.pmm.stack
      ensures ok ==> m.pmm.Roomy() && pagingInfo.Some? && m.mem == old(m.mem)[pagingInfo.value := ZeroPage()]
      ensures ok ==> m.pmm.Frames() + {pagingInfo.value} == old(m.pmm.Frames()) + old(Owned(m.mem))
      ensures ok ==> (NoRepeat([pagingInfo.value] + Drain(m.pmm.Runs())) <==>
                      old(m.pmm.Valid()) && old(Owned(m.mem)) !! old(m.pmm.Frames()))
      ensures !ok ==> m.pmm.OutOfFrames() || m.pmm.StackFull()
    {
      hide Tree, Frames, Drain, NoRepeat, FreeSet, Disjoint;
      if pagingInfo.Some? {
        ok := Deinit(m);
        if !ok {
          return;
        }
      }
      ghost var runs := m.pmm.Runs();
      DrainIff(runs);
      var f := m.pmm.AllocBlock();
      if f.None? {
        return false;
      }
      DrainStep(runs, f.value, m.pmm.Runs());
      pagingInfo := f;
      m.mem := m.mem[f.value := ZeroPage()];
      return true;
    }

    /**
     Tear down, then initialise: what killing a thread and cloning into a context both do.  Starting from
     a sound free list, no frame is granted twice from here on exactly when the context had no root.
     */
    method Reset(m: Memories) returns (ok: bool)
      requires m.pmm.Valid() && Rooted(m.mem)
      modifies this, m`mem, m.pmm, m.pmm.stack
      ensures ok ==> m.pmm.Roomy() && pagingInfo.Some? && (NoRepeat([pagingInfo.value] + Drain(m.pmm.Runs())) <==> old(pagingInfo).None?)
      ensures ok ==> m.pmm.Frames() + {pagingInfo.value} == old(m.pmm.Frames()) + old(Owned(m.mem))
      ensures ok ==> m.mem == old(m.mem)[pagingInfo.value := ZeroPage()]
      ensures !ok ==> m.pmm.OutOfFrames() || m.pmm.StackFull()
    {
      hide Tree, Frames, Drain, NoRepeat, Disjoint, Allocator.Frames;
      if pagingInfo.Some? {
        RootInFrames(m.mem, pagingInfo.value, 4, 0, HALF);
      }
      ok := Deinit(m);
      if ok {
        ok := Init(m);
      }
    }
  }

  /**
   The end of a thread: its recorded frames are freed, then its context is reset.  A thread that has an
   address space leaves behind a free list that grants some frame twice.
   */
  method Kill(m: Memories, x: Context, frames: seq<Frame>) returns (ok: bool)
    requires m.Valid() && x.Rooted(m.mem)
    requires NoRepeat(frames) && Elements(frames) !! m.Pool() && InRam(Elements(frames))
    modifies x, m`mem, m.pmm, m.pmm.stack
    ensures ok ==> m.pmm.Roomy() && x.pagingInfo.Some? && (NoRepeat([x.pagingInfo.value] + Drain(m.pmm.Runs())) <==> old(x.pagingInfo).None?)
    ensures ok ==> m.pmm.Frames() + {x.pagingInfo.value} == old(m.pmm.Frames()) + Elements(frames) + old(x.Owned(m.mem))
    ensures !ok ==> m.pmm.OutOfFrames() || m.pmm.StackFull()
  {
    hide World, InRam, AllTables, Tree, Drain, NoRepeat, Elements;
    ok := FreePages(m, frames);
    if ok {
      ok := x.Reset(m);
    }
  }

  /** A root freed twice is free twice over, and is granted to two owners. */
  lemma FreedTwice(root: Frame)
    ensures Free(Free([], root), root) == [Run(root, 1), Run(root, 1)]
    ensures Drain(Free(Free([], root), root)) == [root, root]
  {
    hide Drain;
    var once := [Run(root, 1)];
    assert Free([], root) == [] + once;
    assert FirstTouching(once, root, 0) == 1;
    assert Free(once, root) == once + [Run(root, 1)];
    DrainsTwice(root);
  }

  lemma DrainsTwice(root: Frame)
    ensures Drain([Run(root, 1), Run(root, 1)]) == [root, root]
  {
    hide Drain, Alloc;
    var once := [Run(root, 1)];
    NothingDrains();
    DrainTop([], Run(root, 1));
    DrainTop(once, Run(root, 1));
    assert [] + once == once && once + [Run(root, 1)] == [Run(root, 1), Run(root, 1)];
    assert Range(root, 1) == [root];
  }

  lemma NothingDrains()
    ensures Drain([]) == []
  {
  }
}
