/** The kernel heap: a first-fit list of blocks, each behind a header, that only ever grows upwards. */
module Heap {
  import opened Wrappers
  import opened RadixTree
  import opened Ownership
  import opened VirtualAddress
  import opened Machine
  import opened Fork
  import opened HeapPages

  /** Size of a header; the payload starts behind it. */
  const HEADER: nat := 64

  datatype Header = Header(size: nat, next: Option<nat>, isFree: bool)

  function AlignUp(n: nat, align: nat): (r: nat)
    requires align > 0
    ensures r >= n
  {
    (n + align - 1) / align * align
  }

  // ---------------------------------------------------------------- the list of blocks

  /** The block at `a`, header included, ends below `limit`. */
  predicate EndsBy(headers: map<nat, Header>, a: nat, limit: nat) {
    a in headers && a + HEADER + headers[a].size <= limit
  }

  /** Blocks in list order lie one after the other. */
  ghost predicate Ordered(headers: map<nat, Header>, order: seq<nat>) {
    forall i, j | 0 <= i < j < |order| :: EndsBy(headers, order[i], order[j])
  }

  /** The `next` pointers lead from each block of the list to the following one. */
  ghost predicate Linked(headers: map<nat, Header>, order: seq<nat>) {
    forall i | 0 <= i < |order| ::
      order[i] in headers && headers[order[i]].next == if i + 1 < |order| then Some(order[i + 1]) else None
  }

  ghost predicate Exactly(headers: map<nat, Header>, order: seq<nat>) {
    forall a :: a in headers <==> a in order
  }

  ghost predicate Within(headers: map<nat, Header>, order: seq<nat>, top: nat) {
    forall i | 0 <= i < |order| :: HEAP_BASE <= order[i] && EndsBy(headers, order[i], top)
  }

  ghost predicate List(headers: map<nat, Header>, order: seq<nat>, top: nat) {
    Ordered(headers, order) && Linked(headers, order) && Exactly(headers, order) && Within(headers, order, top)
  }

  /** Two blocks of the heap have no byte in common. */
  predicate BlocksApart(headers: map<nat, Header>, a: nat, b: nat)
    requires a in headers && b in headers
  {
    a + 64 + headers[a].size <= b || b + 64 + headers[b].size <= a
  }

  lemma ListDisjoint(headers: map<nat, Header>, order: seq<nat>, top: nat, a: nat, b: nat)
    requires List(headers, order, top) && a in headers && b in headers && a != b
    ensures BlocksApart(headers, a, b)
    ensures HEAP_BASE <= a && a + HEADER + headers[a].size <= top
  {
    var i :| 0 <= i < |order| && order[i] == a;
    var j :| 0 <= j < |order| && order[j] == b;
    if i < j {
      assert EndsBy(headers, order[i], order[j]);
    } else {
      assert EndsBy(headers, order[j], order[i]);
    }
    assert EndsBy(headers, order[i], top);
  }

  /** Changing only the free mark of a block keeps the list. */
  lemma MarkKeeps(headers: map<nat, Header>, order: seq<nat>, top: nat, a: nat, isFree: bool)
    requires List(headers, order, top) && a in headers
    ensures List(headers[a := headers[a].(isFree := isFree)], order, top)
  {
  }

  function Tail(headers: map<nat, Header>, tail: Option<nat>, a: nat): map<nat, Header> {
    if tail.Some? && tail.value in headers then headers[tail.value := headers[tail.value].(next := Some(a))] else headers
  }

  /** Appending a block above everything keeps the list. */
  lemma AppendKeeps(headers: map<nat, Header>, order: seq<nat>, top: nat, a: nat, size: nat)
    requires List(headers, order, top) && HEAP_BASE <= a && top <= a
    ensures var tail := if order == [] then None else Some(order[|order| - 1]);
            List(Tail(headers[a := Header(size, None, false)], tail, a), order + [a], a + HEADER + size)
  {
    hide Ordered, Linked, Exactly;
    var tail := if order == [] then None else Some(order[|order| - 1]);
    var after := Tail(headers[a := Header(size, None, false)], tail, a);
    DifferentBlocks(headers, order);
    forall i | 0 <= i < |order|
      ensures order[i] in headers && order[i] != a && EndsBy(headers, order[i], top)
      ensures after[order[i]].size == headers[order[i]].size
    {
    }
    assert a in after && after[a] == Header(size, None, false);
    AppendOrdered(headers, after, order, top, a);
    AppendLinked(headers, after, order, a);
    AppendExactly(headers, after, order, a);
    AppendWithin(headers, after, order, top, a, size);
  }

  lemma AppendExactly(headers: map<nat, Header>, after: map<nat, Header>, order: seq<nat>, a: nat)
    requires Exactly(headers, order) && after.Keys == headers.Keys + {a}
    ensures Exactly(after, order + [a])
  {
    forall x
      ensures x in after <==> x in order + [a]
    {
      assert x in after <==> x in after.Keys;
    }
  }

  lemma AppendWithin(headers: map<nat, Header>, after: map<nat, Header>, order: seq<nat>, top: nat, a: nat, size: nat)
    requires Within(headers, order, top) && HEAP_BASE <= a && top <= a && a in after && after[a].size == size
    requires forall i | 0 <= i < |order| :: order[i] in after && order[i] in headers && after[order[i]].size == headers[order[i]].size
    ensures Within(after, order + [a], a + HEADER + size)
  {
    forall i | 0 <= i < |order + [a]|
      ensures HEAP_BASE <= (order + [a])[i] && EndsBy(after, (order + [a])[i], a + HEADER + size)
    {
      assert i < |order| ==> EndsBy(headers, order[i], top);
    }
  }

  /** The last block of the list occurs in it once. */
  lemma DifferentBlocks(headers: map<nat, Header>, order: seq<nat>)
    requires Ordered(headers, order)
    ensures forall i | 0 <= i < |order| - 1 :: order[i] != order[|order| - 1]
  {
    forall i | 0 <= i < |order| - 1
      ensures order[i] != order[|order| - 1]
    {
      assert EndsBy(headers, order[i], order[|order| - 1]);
    }
  }

  lemma AppendOrdered(headers: map<nat, Header>, after: map<nat, Header>, order: seq<nat>, top: nat, a: nat)
    requires Ordered(headers, order) && top <= a
    requires forall i | 0 <= i < |order| :: EndsBy(headers, order[i], top) && order[i] in after && after[order[i]].size == headers[order[i]].size
    ensures Ordered(after, order + [a])
  {
    forall i, j | 0 <= i < j < |order + [a]|
      ensures EndsBy(after, (order + [a])[i], (order + [a])[j])
    {
      if j < |order| {
        assert EndsBy(headers, order[i], order[j]);
      }
    }
  }

  lemma AppendLinked(headers: map<nat, Header>, after: map<nat, Header>, order: seq<nat>, a: nat)
    requires Linked(headers, order) && Ordered(headers, order) && a in after && after[a].next == None
    requires forall i | 0 <= i < |order| :: order[i] != a && order[i] in after
    requires forall i | 0 <= i < |order| - 1 :: after[order[i]] == headers[order[i]]
    requires order != [] ==> after[order[|order| - 1]].next == Some(a)
    ensures Linked(after, order + [a])
  {
  }

  // ---------------------------------------------------------------- growing

  /** Growing by `size` bytes stays inside the 64-bit address space. */
  predicate NoWrap(offset: nat, size: nat, align: nat)
    requires align > 0
  {
    AlignUp(offset, align) + size < WORD
  }

  /** There is a free block that is large enough. */
  predicate Fits(headers: map<nat, Header>, size: nat) {
    exists a | a in headers :: headers[a].isFree && headers[a].size >= size
  }

  /** A request can be met by a free block or by growing. */
  predicate HasRoom(headers: map<nat, Header>, offset: nat, size: nat) {
    Fits(headers, size) || NoWrap(offset, size + HEADER, 64)
  }

  /** Alignments are powers of two, so they divide the size of the address space. */
  predicate Alignment(align: nat) {
    align > 0 && WORD % align == 0
  }

  /** The least multiple of the alignment that is not below the old top. */
  predicate AlignedAbove(a: int, top: nat, align: nat)
    requires align > 0
  {
    a % align == 0 && top <= a < top + align
  }

  lemma AlignUpIs(n: nat, align: nat)
    requires align > 0
    ensures AlignedAbove(AlignUp(n, align), n, align)
  {
    var k := (n + align - 1) / align;
    MultipleOf(k, align);
    assert n + align - 1 == k * align + (n + align - 1) % align;
  }

  lemma {:induction false} MultipleOf(k: nat, align: nat)
    requires align > 0
    ensures k * align % align == 0
  {
    if k > 0 {
      MultipleOf(k - 1, align);
      assert k * align == (k - 1) * align + align;
      ModAdd((k - 1) * align, align);
    }
  }

  lemma ModAdd(x: nat, align: nat)
    requires align > 0
    ensures (x + align) % align == x % align
  {
    var q := x / align;
    assert x + align == (q + 1) * align + x % align;
    QuotientUnique(x + align, align, q + 1, x % align);
  }

  lemma QuotientUnique(n: nat, m: nat, q: nat, r: nat)
    requires m > 0 && n == q * m + r && r < m
    ensures n % m == r
  {
    var p := n / m;
    assert n == p * m + n % m;
    LessFactor(p, q, m);
    LessFactor(q, p, m);
  }

  lemma AlignUpBound(offset: nat, align: nat)
    requires Alignment(align) && offset < WORD
    ensures AlignUp(offset, align) <= WORD
  {
    var k := (offset + align - 1) / align;
    var m := WORD / align;
    assert m * align == WORD;
    assert k * align <= offset + align - 1 < m * align + align;
    LessFactor(k, m, align);
    LessFactor(m, k, align);
  }

  lemma {:induction false} LessFactor(k: nat, m: nat, a: nat)
    ensures k > m ==> k * a >= m * a + a
    decreases k
  {
    if k == m + 1 {
      assert k * a == m * a + a;
    } else if k > m + 1 {
      LessFactor(k - 1, m, a);
      assert k * a == (k - 1) * a + a;
    }
  }

  /** In 64-bit arithmetic a new block lies above all earlier ones and ends below the new top exactly when nothing wraps. */
  lemma GrowsIff(offset: nat, size: nat, align: nat)
    requires Alignment(align) && HEAP_BASE <= offset < WORD && size >= HEADER
    ensures var a := AlignUp(offset, align) % WORD;
            var top := (a + size % WORD) % WORD;
            (HEAP_BASE <= a && a + size <= top) <==> NoWrap(offset, size, align)
    ensures NoWrap(offset, size, align) ==>
              var a := AlignUp(offset, align) % WORD;
              a == AlignUp(offset, align) && (a + size % WORD) % WORD == a + size
  {
    AlignUpBound(offset, align);
    var up := AlignUp(offset, align);
    hide AlignUp, Alignment;
    if up == WORD {
      assert up % WORD == 0;
    } else {
      EndsInside(up, size);
    }
  }

  /** Adding a size to an address stays below the end of the address space, or wraps below the sum. */
  lemma EndsInside(a: nat, size: nat)
    requires a < WORD
    ensures a % WORD == a
    ensures (a + size % WORD) % WORD == a + size <==> a + size < WORD
    ensures (a + size % WORD) % WORD >= a + size <==> a + size < WORD
  {
    var s := size % WORD;
    assert s <= size && (size < WORD ==> s == size);
    assert (a + s) % WORD <= a + s;
  }

  /** A request of nearly the whole address space is answered with a block that ends below where it starts. */
  lemma WrapExample()
    ensures var block := AlignUp(HEAP_BASE, 64) % WORD;
            var top := (block + (WORD - 64) + HEADER) % WORD;
            !NoWrap(HEAP_BASE, (WORD - 64) + HEADER, 64) && top == block
  {
    assert AlignUp(HEAP_BASE, 64) == HEAP_BASE;
  }

  // ---------------------------------------------------------------- the heap

  /** The answer of an allocation; a panic never returns. */
  datatype Answer = Panic | Null | Ptr(p: nat)

  function ByteAt(bytes: map<nat, nat>, x: nat): nat {
    if x in bytes then bytes[x] else 0
  }

  /** The `n` bytes at `q` are now what the `n` bytes at `p` were. */
  ghost predicate SameBytes(b1: map<nat, nat>, p: nat, b2: map<nat, nat>, q: nat, n: nat) {
    forall x | p <= x < p + n :: ByteAt(b2, q + (x - p)) == ByteAt(b1, x)
  }

  /** Nothing outside the `n` bytes at `q` changed. */
  ghost predicate OnlyWrites(b1: map<nat, nat>, b2: map<nat, nat>, q: nat, n: nat) {
    forall x: nat | !(q <= x < q + n) :: ByteAt(b2, x) == ByteAt(b1, x)
  }

  predicate IsBlock(headers: map<nat, Header>, p: nat) {
    p >= HEADER && p - HEADER in headers
  }

  predicate Live(headers: map<nat, Header>, p: nat) {
    IsBlock(headers, p) && !headers[p - HEADER].isFree
  }

  function SizeOf(headers: map<nat, Header>, p: nat): nat
    requires IsBlock(headers, p)
  {
    headers[p - HEADER].size
  }

  /** Every block but the one behind `q` holds what it held. */
  ghost predicate Undisturbed(headers: map<nat, Header>, b1: map<nat, nat>, b2: map<nat, nat>, q: nat) {
    forall x: nat | x != q && IsBlock(headers, x) :: SameBytes(b1, x, b2, x, SizeOf(headers, x))
  }

  /** Between two moments at most the block behind `p` is new or changes hands; no block changes size. */
  ghost predicate OnlyTouches(h1: map<nat, Header>, h2: map<nat, Header>, p: nat) {
    && (forall a | a in h1 :: a in h2 && h2[a].size == h1[a].size && (a + HEADER != p ==> h2[a].isFree == h1[a].isFree))
    && (forall a | a in h2 && a !in h1 :: a + HEADER == p)
  }

  /** The end of the mapped range is a page boundary of the address space. */
  predicate OnBoundary(pageOffset: nat) {
    pageOffset % BLOCK_SIZE == 0 && pageOffset < WORD
  }

  datatype Call = CallAlloc(size: nat) | CallAligned(size: nat, align: nat) | CallRealloc(p: nat, size: nat) | CallFree(p: nat)

  /** Nothing is to be allocated, because the block is large enough, free already or to be freed, or there is room for it. */
  predicate CanResize(headers: map<nat, Header>, offset: nat, p: nat, size: nat)
    requires p != 0 ==> IsBlock(headers, p)
  {
    size == 0 || (p != 0 && (!Live(headers, p) || SizeOf(headers, p) >= size)) || HasRoom(headers, offset, size)
  }

  /** The call names a block of the heap, and there is room for what it asks for. */
  predicate Sane(headers: map<nat, Header>, offset: nat, call: Call) {
    match call
    case CallAlloc(size) => HasRoom(headers, offset, size)
    case CallAligned(size, align) => Alignment(align) && NoWrap(offset, size + HEADER, align)
    case CallRealloc(p, size) => (p != 0 ==> IsBlock(headers, p)) && CanResize(headers, offset, p, size)
    case CallFree(p) => p != 0 ==> IsBlock(headers, p)
  }

  /** A pointer to a block that was not in use and is at least as large as asked for; no other block changed hands. */
  ghost predicate NewBlock(h1: map<nat, Header>, h2: map<nat, Header>, r: Answer, size: nat) {
    r.Ptr? && Live(h2, r.p) && SizeOf(h2, r.p) >= size && !Live(h1, r.p) && OnlyTouches(h1, h2, r.p)
  }

  /** The block's contents are at the answer, which is large enough; every other block in use keeps its own. */
  ghost predicate Resized(h1: map<nat, Header>, b1: map<nat, nat>, h2: map<nat, Header>, b2: map<nat, nat>, p: nat, size: nat, r: Answer) {
    && r.Ptr? && Live(h2, r.p) && SizeOf(h2, r.p) >= size && OthersLive(h1, h2, b1, b2, p)
    && (p != 0 ==> IsBlock(h1, p) && SameBytes(b1, p, b2, r.p, SizeOf(h1, p)) && (r.p != p ==> !Live(h1, r.p) && !Live(h2, p)))
  }

  /** What a call did to the blocks and their contents, and what it answered. */
  ghost predicate Served(h1: map<nat, Header>, b1: map<nat, nat>, h2: map<nat, Header>, b2: map<nat, nat>, call: Call, r: Answer) {
    match call
    case CallAlloc(size) => b2 == b1 && if size == 0 then r.Null? && h2 == h1 else NewBlock(h1, h2, r, size)
    case CallAligned(size, align) => b2 == b1 && NewBlock(h1, h2, r, size) && align > 0 && (r.p - 64) % align == 0
    case CallRealloc(p, size) =>
      if size == 0 || (p != 0 && !Live(h1, p)) then r.Null? && OnlyTouches(h1, h2, p) && b2 == b1 && (p != 0 ==> !Live(h2, p))
      else Resized(h1, b1, h2, b2, p, size, r)
    case CallFree(p) => b2 == b1 && OnlyTouches(h1, h2, p) && (p != 0 ==> !Live(h2, p))
  }

  /** The blocks and their contents before a call. */
  datatype HeapMoment = HeapMoment(headers: map<nat, Header>, bytes: map<nat, nat>)

  ghost predicate ServedFrom(a: HeapMoment, b: HeapMoment, call: Call, r: Answer) {
    Served(a.headers, a.bytes, b.headers, b.bytes, call, r)
  }

  /** The moments of a run, with the answers of its calls. */
  ghost predicate HeapTrace(trace: seq<HeapMoment>, calls: seq<Call>, answers: seq<Answer>) {
    && |trace| == |calls| + 1 && |answers| == |calls|
    && forall i | 0 <= i < |calls| :: ServedFrom(trace[i], trace[i + 1], calls[i], answers[i])
  }

  lemma HeapTraceNext(trace: seq<HeapMoment>, calls: seq<Call>, answers: seq<Answer>, b: HeapMoment, call: Call, r: Answer)
    requires HeapTrace(trace, calls, answers) && ServedFrom(trace[|calls|], b, call, r)
    ensures HeapTrace(trace + [b], calls + [call], answers + [r])
  {
    hide ServedFrom;
    var t, c, x := trace + [b], calls + [call], answers + [r];
    forall i | 0 <= i < |c|
      ensures ServedFrom(t[i], t[i + 1], c[i], x[i])
    {
      assert i < |calls| ==> t[i] == trace[i] && t[i + 1] == trace[i + 1] && c[i] == calls[i] && x[i] == answers[i];
    }
  }

  class KernelHeap {
    const m: Memories
    var head: Option<nat>
    var tail: Option<nat>
    var headers: map<nat, Header>
    var offset: nat
    var pageOffset: nat
    /** What was written to the heap; a byte that was not counts as zero. */
    var bytes: map<nat, nat>
    ghost var order: seq<nat>
    /** The frames behind the pages of the heap, in order. */
    ghost var backing: seq<Frame>

    /** The pages up to `pageOffset` are mapped, each to a frame of its own. */
    ghost predicate Backed()
      reads this`pageOffset, this`backing, m, m.pmm, m.pmm.stack
    {
      && m.Valid() && KERNEL in m.spaces && OnBoundary(pageOffset) && pageOffset == HeapPage(|backing|)
      && Behind(m.mem, m.spaces[KERNEL].root, m.Pool(), backing)
    }

    ghost predicate Blocks()
      reads this
    {
      && List(headers, order, offset)
      && head == (if order == [] then None else Some(order[0]))
      && tail == (if order == [] then None else Some(order[|order| - 1]))
      && HEAP_BASE <= offset < pageOffset
      && forall x | x in bytes :: x < pageOffset
    }

    ghost predicate Valid()
      reads this, m, m.pmm, m.pmm.stack
    {
      Backed() && Blocks()
    }

    lemma BackedBelow()
      requires Backed()
      ensures pageOffset < WORD
    {
    }

    constructor (m: Memories)
      requires m.Valid()
      ensures this.m == m && Backed() && headers == map[] && bytes == map[] && order == []
      ensures head == None && tail == None && offset == HEAP_BASE && backing == []
    {
      this.m := m;
      head, tail, headers, order := None, None, map[], [];
      offset, pageOffset := HEAP_BASE, HEAP_BASE;
      bytes, backing := map[], [];
      new;
      StartBehind(m);
    }

    /** The heap starts with four pages, which are not cleared. */
    method Init() returns (ok: bool)
      requires Backed() && headers == map[] && bytes == map[] && order == [] && head == None && tail == None
      requires offset == HEAP_BASE && backing == []
      modifies this`pageOffset, this`backing, m`mem, m.pmm, m.pmm.stack
      ensures ok ==> Valid() && |backing| == 4
      ensures !ok ==> m.pmm.OutOfFrames()
    {
      hide Behind, World, List, HeapWord, OtherPagesKept, Walk, PathOf;
      for i := 0 to 4
        invariant Backed() && |backing| == i && pageOffset == HeapPage(i)
      {
        ok := AddHeapPage(false);
        if !ok {
          return;
        }
      }
      EmptyList(headers, offset);
      return true;
    }

    /** Map the page at the boundary and move the boundary on, in 64 bits. */
    method AddHeapPage(clear: bool) returns (ok: bool)
      requires m.Valid() && OnBoundary(pageOffset)
      modifies this`pageOffset, this`backing, m`mem, m.pmm, m.pmm.stack
      ensures ok ==> m.Valid() && OnBoundary(pageOffset) && pageOffset == (old(pageOffset) + BLOCK_SIZE) % WORD
      ensures ok ==> m.pmm.Frames() < old(m.pmm.Frames())
      ensures ok && clear && old(Backed()) && old(pageOffset) < WORD - BLOCK_SIZE ==> Cleared(old(m.mem), m.mem, old(backing), backing)
      ensures ok && old(Backed()) && old(pageOffset) < WORD - BLOCK_SIZE ==>
                Backed() && |backing| == |old(backing)| + 1 && backing[..|old(backing)|] == old(backing)
      ensures !ok ==> m.pmm.OutOfFrames()
    {
      hide Behind, World, HeapWord, OtherPagesKept, Walk, PathOf, InRam, AllTables, OnBoundary, HeapPage, Cleared, SameOutside, Elements;
      ghost var m1, pool := m.mem, m.Pool();
      NextPage(pageOffset);
      var f := AddPage(m, pageOffset, clear);
      if f.None? {
        return false;
      }
      if old(Backed()) && pageOffset < WORD - BLOCK_SIZE {
        BehindNext(m1, m.mem, m.spaces[KERNEL].root, pool, m.Pool(), backing, f.value);
        if clear {
          BehindApart(m1, m.spaces[KERNEL].root, pool, backing);
          ClearedNext(m1, m.mem, pool, backing, f.value);
        }
        NextHeapPage(|backing|);
      }
      backing := backing + [f.value];
      pageOffset := (pageOffset + BLOCK_SIZE) % WORD;
      return true;
    }

    /** First fit: the first free block of the list that is large enough. */
    method GetFreeBlock(size: nat) returns (r: Option<nat>)
      requires Valid()
      ensures r.Some? ==> r.value in headers && headers[r.value].isFree && headers[r.value].size >= size
      ensures r.None? ==> forall a | a in headers :: !(headers[a].isFree && headers[a].size >= size)
      ensures r.Some? ==> forall a | a in headers && a < r.value :: !(headers[a].isFree && headers[a].size >= size)
    {
      hide Backed;
      var curr := head;
      ghost var i := 0;
      while curr.Some?
        invariant i <= |order| && curr == (if i < |order| then Some(order[i]) else None)
        invariant forall j | 0 <= j < i :: !(headers[order[j]].isFree && headers[order[j]].size >= size)
        decreases |order| - i
      {
        if headers[curr.value].isFree && headers[curr.value].size >= size {
          FirstOfList(headers, order, offset, i, size);
          return curr;
        }
        curr := headers[curr.value].next;
        i := i + 1;
      }
      return None;
    }

    /**
     Extend the mapped range until it covers the new top of the heap; addresses are 64 bits wide.  A top in the
     last page of the address space is never covered, because the boundary wraps to zero.
     */
    method Morecore(size: nat, align: nat) returns (block: Option<nat>)
      requires Backed() && align > 0
      modifies this`offset, this`pageOffset, this`backing, m`mem, m.pmm, m.pmm.stack
      ensures block.None? ==> m.pmm.OutOfFrames()
      ensures block.Some? ==> block.value == AlignUp(old(offset), align) % WORD && offset == (block.value + size) % WORD
      ensures block.Some? ==> Backed() && offset < pageOffset && pageOffset >= old(pageOffset)
      ensures block.Some? ==> |old(backing)| <= |backing| && backing[..|old(backing)|] == old(backing)
      ensures block.Some? ==> Cleared(old(m.mem), m.mem, old(backing), backing)
    {
      hide OnBoundary, AlignUp, Behind, World, HeapPage, InRam, AllTables, Cleared;
      NothingCleared(m.mem, backing);
      offset := AlignUp(offset, align) % WORD;
      var ret := offset;
      offset := (offset + size) % WORD;
      ghost var wrapped := false;
      while pageOffset <= offset
        invariant m.Valid() && OnBoundary(pageOffset) && offset == (ret + size) % WORD
        invariant !wrapped ==> Backed() && pageOffset >= old(pageOffset)
        invariant !wrapped ==> |old(backing)| <= |backing| && backing[..|old(backing)|] == old(backing)
        invariant !wrapped ==> Cleared(old(m.mem), m.mem, old(backing), backing)
        invariant wrapped ==> offset >= WORD - BLOCK_SIZE
        decreases m.pmm.Frames()
      {
        NextPage(pageOffset);
        wrapped := wrapped || pageOffset >= WORD - BLOCK_SIZE;
        ghost var m2, fs2 := m.mem, backing;
        var ok := AddHeapPage(true);
        if !ok {
          return None;
        }
        if !wrapped {
          ClearedTwice(old(m.mem), m2, m.mem, old(backing), fs2, backing);
        }
      }
      LastPage(pageOffset);
      return Some(ret);
    }

    /** Write a header and hang it behind the tail of the list. */
    method Link(a: nat, size: nat)
      requires tail.Some? ==> tail.value in headers
      modifies this`headers, this`head, this`tail, this`order
      ensures headers == Tail(old(headers)[a := Header(size, None, false)], old(tail), a)
      ensures head == (if old(head) == None then Some(a) else old(head)) && tail == Some(a) && order == old(order) + [a]
    {
      headers := headers[a := Header(size, None, false)];
      if head == None {
        head := Some(a);
      }
      if tail.Some? {
        headers := headers[tail.value := headers[tail.value].(next := Some(a))];
      }
      tail := Some(a);
      order := order + [a];
    }

    /**
     Put a new block at the top of the heap.  The heap stays sound exactly when the new top does not run
     past the end of the address space.
     */
    method Append(size: nat, align: nat) returns (r: Answer)
      requires Valid() && Alignment(align)
      modifies this, m`mem, m.pmm, m.pmm.stack
      ensures bytes == old(bytes) && old(headers).Keys <= headers.Keys && (r.Panic? ==> m.pmm.OutOfFrames())
      ensures r.Ptr? ==> (Valid() <==> NoWrap(old(offset), size + HEADER, align))
      ensures r.Ptr? ==> Live(headers, r.p) && SizeOf(headers, r.p) == size
      ensures NoWrap(old(offset), size + HEADER, align) ==> !r.Null?
      ensures r.Ptr? && NoWrap(old(offset), size + HEADER, align) ==>
                OnlyTouches(old(headers), headers, r.p) && !IsBlock(old(headers), r.p) &&
                r.p - HEADER == AlignUp(old(offset), align)
    {
      hide List, OnlyTouches, AlignUp, OnBoundary, Backed, Tail;
      BackedBelow();
      var block := Morecore((size + HEADER) % WORD, align);
      if block.None? {
        return Panic;
      }
      var a := block.value;
      GrowsIff(old(offset), size + HEADER, align);
      if a == 0 {
        return Null;
      }
      LastInList(headers, order, old(offset));
      if NoWrap(old(offset), size + HEADER, align) {
        AppendKeeps(headers, order, old(offset), a, size);
        BelowTop(headers, order, old(offset));
        TailTouches(headers, tail, a, size);
      }
      TailHolds(headers, tail, a, size);
      Link(a, size);
      TopOfList(headers, order, offset);
      return Ptr(a + HEADER);
    }

    /**
     Allocate.  The block is as large as asked for, it was not in use, and every block in use stays in
     use with its size and contents, exactly when the request has room.
     */
    method Alloc(size: nat) returns (r: Answer)
      requires Valid()
      modifies this, m`mem, m.pmm, m.pmm.stack
      ensures bytes == old(bytes) && old(headers).Keys <= headers.Keys && (r.Panic? ==> m.pmm.OutOfFrames())
      ensures size == 0 ==> r.Null? && Valid() && headers == old(headers)
      ensures HasRoom(old(headers), old(offset), size) ==> (r.Null? <==> size == 0)
      ensures r.Ptr? ==> (Valid() <==> HasRoom(old(headers), old(offset), size))
      ensures r.Ptr? && HasRoom(old(headers), old(offset), size) ==> OnlyTouches(old(headers), headers, r.p) && !old(Live(headers, r.p))
      ensures r.Ptr? ==> Live(headers, r.p) && SizeOf(headers, r.p) >= size
    {
      hide List, AlignUp, Backed;
      if size == 0 {
        return Null;
      }
      var header := GetFreeBlock(size);
      if header.Some? {
        MarkKeeps(headers, order, offset, header.value, false);
        headers := headers[header.value := headers[header.value].(isFree := false)];
        return Ptr(header.value + HEADER);
      }
      r := Append(size, 64);
    }

    /** Allocate at an aligned header, always at the top of the heap. */
    method AllocAligned(size: nat, align: nat) returns (r: Answer)
      requires Valid() && Alignment(align)
      modifies this, m`mem, m.pmm, m.pmm.stack
      ensures bytes == old(bytes) && (r.Panic? ==> m.pmm.OutOfFrames())
      ensures NoWrap(old(offset), size + HEADER, align) ==> !r.Null?
      ensures r.Ptr? ==> (Valid() <==> NoWrap(old(offset), size + HEADER, align))
      ensures r.Ptr? ==> Live(headers, r.p) && SizeOf(headers, r.p) == size
      ensures r.Ptr? && NoWrap(old(offset), size + HEADER, align) ==>
                OnlyTouches(old(headers), headers, r.p) && !IsBlock(old(headers), r.p) &&
                AlignedAbove(r.p - HEADER, old(offset), align)
    {
      hide AlignUp, AlignedAbove, List, Backed, OnlyTouches;
      r := Append(size, align);
      AlignUpIs(old(offset), align);
    }

    /** Free a block.  The null pointer and a block that is free already are ignored. */
    method Free(p: nat)
      requires p != 0 ==> IsBlock(headers, p)
      modifies this`headers
      ensures old(Valid()) ==> Valid()
      ensures OnlyTouches(old(headers), headers, p)
      ensures p != 0 ==> !Live(headers, p)
    {
      hide List, Backed;
      if p == 0 {
        return;
      }
      if headers[p - HEADER].isFree {
        return;
      }
      if Valid() {
        MarkKeeps(headers, order, offset, p - HEADER, true);
      }
      headers := headers[p - HEADER := headers[p - HEADER].(isFree := true)];
    }

    /** Copy bytes between ranges that do not overlap. */
    method CopyBytes(dst: nat, src: nat, n: nat)
      modifies this`bytes
      ensures old(Valid()) && dst + n <= offset ==> Valid()
      ensures dst + n <= src || src + n <= dst ==> SameBytes(old(bytes), src, bytes, dst, n) && OnlyWrites(old(bytes), bytes, dst, n)
    {
      hide List, Backed;
      for i := 0 to n
        invariant old(Valid()) && dst + n <= offset ==> Valid()
        invariant dst + n <= src || src + n <= dst ==> SameBytes(old(bytes), src, bytes, dst, i) && OnlyWrites(old(bytes), bytes, dst, i)
      {
        bytes := bytes[dst + i := ByteAt(bytes, src + i)];
      }
    }

    /**
     Resize.  A block that is large enough stays as it is.  When the request has room, what was in the block is
     still there, at the same address or at the new one, and every other block in use keeps its contents.
     */
    method Realloc(p: nat, size: nat) returns (r: Answer)
      requires Valid() && (p != 0 ==> IsBlock(headers, p))
      modifies this, m`mem, m.pmm, m.pmm.stack
      ensures r.Panic? ==> m.pmm.OutOfFrames()
      ensures size == 0 ==> r.Null? && Valid() && (p != 0 ==> !Live(headers, p))
      ensures p != 0 && !old(Live(headers, p)) ==> r.Null? && Valid() && !Live(headers, p)
      ensures size == 0 || (p != 0 && !old(Live(headers, p))) ==> OnlyTouches(old(headers), headers, p) && bytes == old(bytes)
      ensures p != 0 && old(Live(headers, p)) && 0 < size <= old(SizeOf(headers, p)) ==>
                r == Ptr(p) && headers == old(headers) && bytes == old(bytes) && offset == old(offset) && Valid()
      ensures CanResize(old(headers), old(offset), p, size) && size > 0 && (p == 0 || old(Live(headers, p))) ==> !r.Null?
      ensures r.Ptr? && CanResize(old(headers), old(offset), p, size) ==> Valid() && Live(headers, r.p) && SizeOf(headers, r.p) >= size
      ensures r.Ptr? && CanResize(old(headers), old(offset), p, size) && p != 0 ==>
                SameBytes(old(bytes), p, bytes, r.p, old(SizeOf(headers, p))) &&
                (r.p != p ==> !old(Live(headers, r.p)) && !Live(headers, p))
      ensures r.Ptr? && CanResize(old(headers), old(offset), p, size) ==> OthersLive(old(headers), headers, old(bytes), bytes, p)
    {
      hide List, HasRoom, Backed;
      if p == 0 && size == 0 {
        return Null;
      }
      if size == 0 {
        Free(p);
        return Null;
      }
      if p == 0 {
        r := Alloc(size);
        return;
      }
      if headers[p - HEADER].isFree {
        return Null;
      }
      if headers[p - HEADER].size >= size {
        return Ptr(p);
      }
      r := Alloc(size);
      if r.Ptr? {
        ghost var between := headers;
        Move(p, r.p);
        if HasRoom(old(headers), old(offset), size) {
          MoveKeeps(old(headers), between, headers, old(bytes), bytes, p, r.p);
        }
      }
    }

    /** Copy a block's bytes to another one and free it. */
    method Move(p: nat, q: nat)
      requires p != 0 && IsBlock(headers, p)
      modifies this`headers, this`bytes
      ensures OnlyTouches(old(headers), headers, p) && !Live(headers, p)
      ensures old(Valid()) && p != q && old(IsBlock(headers, q)) && old(SizeOf(headers, p)) <= old(SizeOf(headers, q)) ==>
                Valid() && SameBytes(old(bytes), p, bytes, q, old(SizeOf(headers, p))) &&
                Undisturbed(old(headers), old(bytes), bytes, q)
    {
      hide List, SameBytes, OnlyWrites, Undisturbed, OnlyTouches, Backed;
      ghost var sound := Valid() && p != q && IsBlock(headers, q) && SizeOf(headers, p) <= SizeOf(headers, q);
      if sound {
        ListDisjoint(headers, order, offset, p - HEADER, q - HEADER);
        BlockBelow(headers, order, offset, q - HEADER);
      }
      CopyBytes(q, p, headers[p - HEADER].size);
      if sound {
        OtherBlocksKept(headers, order, offset, q, headers[p - HEADER].size, old(bytes), bytes);
      }
      Free(p);
    }

    /**
     Any run of calls on pointers the heap gave out: unless it panics or asks for more than the address
     space has left, each call did what it is for, and at the end no two blocks overlap and all of them lie in
     mapped pages.
     */
    method Execute(calls: seq<Call>) returns (ok: bool, answers: seq<Answer>, ghost trace: seq<HeapMoment>)
      requires Valid()
      modifies this, m`mem, m.pmm, m.pmm.stack
      ensures ok ==> Valid() && HeapTrace(trace, calls, answers)
      ensures ok ==> trace[0] == HeapMoment(old(headers), old(bytes)) && trace[|calls|] == HeapMoment(headers, bytes)
      ensures ok ==> forall a, b | a in headers && b in headers && a != b :: BlocksApart(headers, a, b)
      ensures ok ==> forall a | a in headers :: 0xffff_ffff_d000_0000 <= a && a + 64 + headers[a].size < pageOffset
    {
      hide List, Backed, ServedFrom;
      answers, trace := [], [HeapMoment(headers, bytes)];
      for i := 0 to |calls|
        invariant Valid() && HeapTrace(trace, calls[..i], answers) && |trace| == i + 1
        invariant trace[0] == HeapMoment(old(headers), old(bytes)) && trace[i] == HeapMoment(headers, bytes)
      {
        var r;
        ok, r := Perform(calls[i]);
        if !ok {
          return;
        }
        HeapTraceNext(trace, calls[..i], answers, HeapMoment(headers, bytes), calls[i], r);
        assert calls[..i] + [calls[i]] == calls[..i + 1];
        answers, trace := answers + [r], trace + [HeapMoment(headers, bytes)];
      }
      assert calls[..|calls|] == calls;
      AllApart();
      return true, answers, trace;
    }

    /** The blocks of a sound heap share no byte and lie in mapped pages. */
    lemma AllApart()
      requires Valid()
      ensures forall a, b | a in headers && b in headers && a != b :: BlocksApart(headers, a, b)
      ensures forall a | a in headers :: HEAP_BASE <= a && a + HEADER + headers[a].size < pageOffset
    {
      hide List, Backed;
      forall a, b | a in headers && b in headers && a != b
        ensures BlocksApart(headers, a, b)
      {
        ListDisjoint(headers, order, offset, a, b);
      }
      forall a | a in headers
        ensures HEAP_BASE <= a && a + HEADER + headers[a].size < pageOffset
      {
        BlockBelow(headers, order, offset, a);
      }
    }

    /** One call; a call that names no block of the heap, or has no room, is not made. */
    method Perform(call: Call) returns (ok: bool, r: Answer)
      requires Valid()
      modifies this, m`mem, m.pmm, m.pmm.stack
      ensures ok ==> Valid() && ServedFrom(HeapMoment(old(headers), old(bytes)), HeapMoment(headers, bytes), call, r)
      ensures !ok ==> !Sane(old(headers), old(offset), call) || m.pmm.OutOfFrames()
    {
      hide List, AlignUp, Backed, OnlyTouches, OthersLive, SameBytes, HasRoom;
      r := Null;
      if !Sane(headers, offset, call) {
        return false, r;
      }
      match call {
        case CallAlloc(size) => r := Alloc(size);
        case CallAligned(size, align) => r := AllocAligned(size, align);
        case CallRealloc(p, size) => r := Realloc(p, size);
        case CallFree(p) => Free(p);
      }
      return !r.Panic?, r;
    }
  }

  lemma FirstOfList(headers: map<nat, Header>, order: seq<nat>, top: nat, i: nat, size: nat)
    requires List(headers, order, top) && i < |order|
    requires forall j | 0 <= j < i :: !(headers[order[j]].isFree && headers[order[j]].size >= size)
    ensures forall a | a in headers && a < order[i] :: !(headers[a].isFree && headers[a].size >= size)
  {
    forall a | a in headers && a < order[i]
      ensures !(headers[a].isFree && headers[a].size >= size)
    {
      var j :| 0 <= j < |order| && order[j] == a;
      if i < j {
        assert EndsBy(headers, order[i], order[j]);
      }
    }
  }

  lemma LastInList(headers: map<nat, Header>, order: seq<nat>, top: nat)
    requires List(headers, order, top)
    ensures order != [] ==> order[|order| - 1] in headers
  {
  }

  lemma BelowTop(headers: map<nat, Header>, order: seq<nat>, top: nat)
    requires List(headers, order, top)
    ensures forall a | a in headers :: a < top
  {
    forall a | a in headers
      ensures a < top
    {
      var i :| 0 <= i < |order| && order[i] == a;
      assert EndsBy(headers, order[i], top);
    }
  }

  lemma TailTouches(headers: map<nat, Header>, tail: Option<nat>, a: nat, size: nat)
    requires a !in headers && (tail.Some? ==> tail.value in headers)
    ensures var after := Tail(headers[a := Header(size, None, false)], tail, a);
            OnlyTouches(headers, after, a + HEADER) && a in after && after[a] == Header(size, None, false)
  {
  }

  lemma BlockBelow(headers: map<nat, Header>, order: seq<nat>, top: nat, a: nat)
    requires List(headers, order, top) && a in headers
    ensures HEAP_BASE <= a && a + HEADER + headers[a].size <= top
  {
    var i :| 0 <= i < |order| && order[i] == a;
    assert EndsBy(headers, order[i], top);
  }

  /** A write inside one block leaves the bytes of all others. */
  lemma OtherBlocksKept(headers: map<nat, Header>, order: seq<nat>, top: nat, q: nat, n: nat, b1: map<nat, nat>, b2: map<nat, nat>)
    requires List(headers, order, top) && IsBlock(headers, q)
    requires n <= SizeOf(headers, q) && OnlyWrites(b1, b2, q, n)
    ensures Undisturbed(headers, b1, b2, q)
  {
    forall x: nat | x != q && IsBlock(headers, x)
      ensures SameBytes(b1, x, b2, x, SizeOf(headers, x))
    {
      ListDisjoint(headers, order, top, x - HEADER, q - HEADER);
    }
  }

  /** Every block in use but the one behind `p` is still in use, with its size and contents. */
  ghost predicate OthersLive(h1: map<nat, Header>, h2: map<nat, Header>, b1: map<nat, nat>, b2: map<nat, nat>, p: nat) {
    forall x: nat | x != p && Live(h1, x) ::
      Live(h2, x) && SizeOf(h2, x) == SizeOf(h1, x) && SameBytes(b1, x, b2, x, SizeOf(h1, x))
  }

  lemma MoveKeeps(h0: map<nat, Header>, h1: map<nat, Header>, h2: map<nat, Header>, b1: map<nat, nat>, b2: map<nat, nat>, p: nat, q: nat)
    requires OnlyTouches(h0, h1, q) && OnlyTouches(h1, h2, p) && !Live(h0, q) && Undisturbed(h1, b1, b2, q)
    ensures OthersLive(h0, h2, b1, b2, p)
  {
    hide SameBytes;
    forall x: nat | x != p && Live(h0, x)
      ensures Live(h2, x) && SizeOf(h2, x) == SizeOf(h0, x) && SameBytes(b1, x, b2, x, SizeOf(h0, x))
    {
      var a := x - HEADER;
      assert a in h0 && a in h1 && IsBlock(h1, x);
    }
  }

  /** The newest block of a sound heap ends below the top. */
  lemma TopOfList(headers: map<nat, Header>, order: seq<nat>, top: nat)
    requires order != []
    ensures List(headers, order, top) ==>
              var a := order[|order| - 1];
              a in headers && HEAP_BASE <= a && a + HEADER + headers[a].size <= top
  {
    if List(headers, order, top) {
      assert EndsBy(headers, order[|order| - 1], top);
    }
  }

  /** The new header is there, whatever the tail was. */
  lemma TailHolds(headers: map<nat, Header>, tail: Option<nat>, a: nat, size: nat)
    ensures var after := Tail(headers[a := Header(size, None, false)], tail, a);
            a in after && after[a].size == size && !after[a].isFree && headers.Keys <= after.Keys
  {
  }

  lemma BehindApart(mem: Memory, root: Frame, pool: set<Frame>, fs: seq<Frame>)
    requires Behind(mem, root, pool, fs)
    ensures Elements(fs) !! pool
  {
  }

  lemma NothingCleared(mem: Memory, fs: seq<Frame>)
    ensures Cleared(mem, mem, fs, fs)
  {
  }

  lemma StartBehind(m: Memories)
    requires m.Valid()
    ensures KERNEL in m.spaces && Behind(m.mem, m.spaces[KERNEL].root, m.Pool(), []) && OnBoundary(HEAP_BASE) && HeapPage(0) == HEAP_BASE
  {
    hide World, InRam, AllTables, Walk;
    KernelShape(m.mem, m.spaces, m.pmm.Frames());
  }

  lemma NextHeapPage(i: nat)
    ensures HeapPage(i + 1) == HeapPage(i) + BLOCK_SIZE
  {
  }

  lemma EmptyList(headers: map<nat, Header>, top: nat)
    requires headers == map[]
    ensures List(headers, [], top)
  {
  }

  /** The next page boundary; the one past the last page is address zero. */
  lemma NextPage(pageOffset: nat)
    requires OnBoundary(pageOffset)
    ensures OnBoundary((pageOffset + BLOCK_SIZE) % WORD)
    ensures pageOffset < WORD - BLOCK_SIZE ==> (pageOffset + BLOCK_SIZE) % WORD == pageOffset + BLOCK_SIZE
  {
  }

  lemma LastPage(pageOffset: nat)
    requires OnBoundary(pageOffset)
    ensures pageOffset <= WORD - BLOCK_SIZE
  {
  }
}
