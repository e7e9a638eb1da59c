/** The allocator itself: the stack of free runs kept in place in an array. */
module FrameAllocator {
  import opened Wrappers
  import opened FrameRuns

  /** The global allocator.  A `None` or `false` result stands for a kernel panic, which never returns. */
  class Allocator {
    const stack: array<Run>
    var sp: nat

    /** The stack leaves room for its two spare cells. */
    predicate Roomy()
      reads this
    {
      sp + 2 <= stack.Length
    }

    ghost predicate Valid()
      reads this, stack
    {
      Roomy() && Disjoint(Runs())
    }

    ghost function Runs(): seq<Run>
      requires sp <= stack.Length
      reads this, stack
    {
      stack[..sp]
    }

    /** The frames that are free. */
    ghost function Frames(): set<nat>
      requires sp <= stack.Length
      reads this, stack
    {
      FreeSet(Runs())
    }

    /** No run is left: the allocator panics for want of frames. */
    ghost predicate OutOfFrames()
      reads this
    {
      sp == 0
    }

    /** No run can be pushed: the allocator panics for want of room. */
    ghost predicate StackFull()
      reads this
    {
      sp + 2 == stack.Length
    }

    /** An empty stack over the memory set aside for it. */
    constructor (room: array<Run>)
      requires room.Length >= 2
      ensures Valid() && stack == room && sp == 0
    {
      stack := room;
      sp := 0;
    }

    method Pop() returns (r: Option<Run>)
      requires sp <= stack.Length
      modifies this`sp
      ensures old(sp) == 0 ==> r == None && sp == 0
      ensures old(sp) > 0 ==> sp == old(sp) - 1 && r == Some(stack[sp])
    {
      if sp == 0 {
        return None;
      }
      sp := sp - 1;
      return Some(stack[sp]);
    }

    method Push(r: Run) returns (ok: bool)
      requires sp + 2 <= stack.Length
      modifies this`sp, stack
      ensures ok == (old(sp) + 2 != stack.Length)
      ensures ok ==> sp == old(sp) + 1 && stack[..] == old(stack[..])[old(sp) := r]
      ensures !ok ==> sp == old(sp) && stack[..] == old(stack[..])
    {
      if sp + 2 == stack.Length {
        return false;
      }
      stack[sp] := r;
      sp := sp + 1;
      return true;
    }

    /** One frame leaves the free set; only an empty free set makes the kernel panic. */
    method AllocBlock() returns (f: Option<nat>)
      requires Roomy()
      modifies this`sp, stack
      ensures f.None? <==> old(Frames()) == {}
      ensures f.Some? ==> Roomy() && Alloc(old(Runs())) == Some((f.value, Runs()))
      ensures f.Some? ==> f.value in old(Frames()) && Frames() + {f.value} == old(Frames())
      ensures f.Some? && old(Valid()) ==> Valid() && Frames() == old(Frames()) - {f.value}
      ensures f.None? ==> OutOfFrames()
    {
      hide Alloc, FreeSet, Disjoint;
      ghost var before := Runs();
      AllocCovers(before);
      AllocNone();
      var ent := Pop();
      assert ent.None? ==> before == [];
      assert ent.Some? ==> before == Runs() + [ent.value];
      while ent.Some? && ent.value.pages == 0
        invariant sp + 2 <= stack.Length && stack[..] == old(stack[..])
        invariant ent.None? ==> Alloc(before) == None && sp == 0
        invariant ent.Some? ==> Alloc(before) == Alloc(Runs() + [ent.value]) && sp + 3 <= stack.Length
        decreases ent.Some?, sp
      {
        ghost var rest := Runs();
        AllocTop(rest, ent.value);
        ent := Pop();
        assert ent.Some? ==> rest == Runs() + [ent.value];
      }
      if ent.None? {
        return None;
      }
      var r := ent.value;
      ghost var rest := Runs();
      AllocTop(rest, r);
      if r.pages != 1 {
        var ok := Push(Run(r.base + 1, r.pages - 1));
        assert Runs() == rest + [Run(r.base + 1, r.pages - 1)];
      }
      if old(Valid()) {
        AllocTakesOne(before);
      }
      return Some(r.base);
    }

    /** Hand out `n` consecutive frames; every run that is large enough loses `n` frames. */
    method AllocBlocks(n: nat) returns (base: Option<nat>)
      requires Valid()
      modifies stack
      ensures base.None? <==> LastFit(old(Runs()), n) == 0
      ensures base.Some? ==> Valid() && base.value == LastFit(old(Runs()), n) && Runs() == ShrinkAll(old(Runs()), n)
      ensures base.Some? ==> Span(base.value, n) <= old(Frames()) - Frames() && Frames() <= old(Frames())
      ensures base.Some? && n >= 1 ==> (Frames() + Span(base.value, n) == old(Frames()) <==> OneFits(old(Runs()), n))
    {
      hide FreeSet, Disjoint, Span, OneFits;
      ghost var before := Runs();
      var b := 0;
      var k := 0;
      while k < sp
        invariant k <= sp && |before| == sp
        invariant forall i | 0 <= i < k :: stack[i] == Shrink(before[i], n)
        invariant forall i | k <= i < sp :: stack[i] == before[i]
        invariant b == LastFit(before[..k], n)
      {
        assert before[..k + 1][..k] == before[..k];
        if stack[k].pages >= n {
          b := stack[k].base;
          stack[k] := Run(stack[k].base + n, stack[k].pages - n);
        }
        k := k + 1;
      }
      assert before[..k] == before;
      AllocManyIsSafe(before, n);
      if b == 0 {
        return None;
      }
      assert Runs() == ShrinkAll(before, n);
      if n >= 1 {
        AllocManyConservesIff(before, n);
      }
      return Some(b);
    }

    /**
     Give one frame back.  The frame joins the free set, and the runs stay disjoint exactly when it was
     not there; the kernel panics exactly when the frame touches no run and the stack is full.
     */
    method FreeBlock(f: nat) returns (ok: bool)
      requires Roomy()
      modifies this`sp, stack
      ensures !ok <==> FirstTouching(old(Runs()), f, 0) == old(sp) && old(sp) + 2 == stack.Length
      ensures ok ==> Roomy() && Runs() == Free(old(Runs()), f) && Frames() == old(Frames()) + {f}
      ensures ok ==> (Valid() <==> old(Valid()) && f !in old(Frames()))
      ensures !ok ==> StackFull()
    {
      hide FreeSet, Disjoint;
      ghost var before := Runs();
      FreeAddsOne(before, f);
      FreeDisjointIff(before, f);
      var k := 0;
      while k < sp
        invariant k <= sp && Runs() == before && sp == old(sp)
        invariant FirstTouching(before, f, 0) == FirstTouching(before, f, k)
      {
        if f + 1 == stack[k].base {
          stack[k] := Run(stack[k].base - 1, stack[k].pages + 1);
          assert Runs() == before[k := Grow(before[k], f)];
          return true;
        } else if stack[k].base + stack[k].pages == f {
          stack[k] := Run(stack[k].base, stack[k].pages + 1);
          assert Runs() == before[k := Grow(before[k], f)];
          return true;
        }
        k := k + 1;
      }
      ok := Push(Run(f, 1));
      assert ok ==> Runs() == before + [Run(f, 1)];
    }
  }
}
