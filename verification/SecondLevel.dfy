/** The second-level tables of the IOMMU: three to five levels, keyed on I/O virtual addresses. */
module SecondLevel {
  import opened Wrappers
  import opened RadixTree
  import opened Links
  import opened Ownership
  import opened VirtualAddress
  import opened Machine
  import opened Lifetime
  import opened Fork
  import opened LastWords

  // ---------------------------------------------------------------- addresses

  function Pow512(n: nat): (r: nat)
    ensures r > 0
  {
    if n == 0 then 1 else 512 * Pow512(n - 1)
  }

  /** The lowest `n` base-512 digits of a page number, highest first. */
  function Digits(page: nat, n: nat): (p: seq<nat>)
    ensures |p| == n && IsPath(p)
  {
    if n == 0 then [] else Digits(page / 512, n - 1) + [page % 512]
  }

  /** The table indices of an I/O virtual address in a structure of that many levels. */
  function IoPath(iova: nat, level: nat): (p: seq<nat>)
    ensures |p| == level && IsPath(p)
  {
    Digits(iova / BLOCK_SIZE, level)
  }

  /** Written out, these are the nine-bit fields of the address from bit 48 down to bit 12. */
  lemma IoPathFields(iova: nat)
    ensures IoPath(iova, 5) == [iova / 0x1_0000_0000_0000 % 512, iova / 0x80_0000_0000 % 512, iova / 0x4000_0000 % 512,
                                iova / 0x20_0000 % 512, iova / 0x1000 % 512]
    ensures IoPath(iova, 4) == IoPath(iova, 5)[1..] && IoPath(iova, 3) == IoPath(iova, 5)[2..]
  {
    var n := iova / 0x1000;
    var n1, n2, n3, n4 := n / 512, n / 512 / 512, n / 512 / 512 / 512, n / 512 / 512 / 512 / 512;
    assert n1 == iova / 0x20_0000 && n2 == iova / 0x4000_0000 && n3 == iova / 0x80_0000_0000 && n4 == iova / 0x1_0000_0000_0000;
    assert Digits(n4, 1) == [n4 % 512];
    assert Digits(n3, 2) == [n4 % 512, n3 % 512];
    assert Digits(n2, 3) == [n4 % 512, n3 % 512, n2 % 512];
    assert Digits(n1, 4) == [n4 % 512, n3 % 512, n2 % 512, n1 % 512];
    assert Digits(n, 5) == [n4 % 512, n3 % 512, n2 % 512, n1 % 512, n % 512];
    assert Digits(n3, 1) == [n3 % 512];
    assert Digits(n2, 2) == [n3 % 512, n2 % 512];
    assert Digits(n1, 3) == [n3 % 512, n2 % 512, n1 % 512];
    assert Digits(n, 4) == [n3 % 512, n2 % 512, n1 % 512, n % 512];
    assert Digits(n2, 1) == [n2 % 512];
    assert Digits(n1, 2) == [n2 % 512, n1 % 512];
    assert Digits(n, 3) == [n2 % 512, n1 % 512, n % 512];
  }

  lemma ModUnique(n: nat, m: nat, q: nat, r: nat)
    requires m > 0 && n == m * q + r && r < m
    ensures n % m == r
  {
    MulGap(m, n / m, q);
    MulGap(m, q, n / m);
  }

  lemma MulGap(m: nat, a: nat, b: nat)
    ensures a < b ==> m * a + m <= m * b
  {
    if a < b {
      assert m * b == m * (a + 1) + m * (b - a - 1);
    }
  }

  lemma ModStep(n: nat, k: nat)
    ensures n % Pow512(k + 1) == n / 512 % Pow512(k) * 512 + n % 512
  {
    var m := Pow512(k);
    var a := n / 512;
    assert a == m * (a / m) + a % m;
    assert 512 * m * (a / m) == 512 * (m * (a / m));
    ModUnique(n, 512 * m, a / m, a % m * 512 + n % 512);
  }

  /** Two addresses have the same path exactly when they agree in the bits that the levels use. */
  lemma {:induction false} DigitsEqualIff(a: nat, b: nat, n: nat)
    ensures Digits(a, n) == Digits(b, n) <==> a % Pow512(n) == b % Pow512(n)
    decreases n
  {
    if n != 0 {
      DigitsEqualIff(a / 512, b / 512, n - 1);
      ModStep(a, n - 1);
      ModStep(b, n - 1);
      var p, q := Digits(a / 512, n - 1), Digits(b / 512, n - 1);
      assert Digits(a, n) == p + [a % 512] && Digits(b, n) == q + [b % 512];
      assert (p + [a % 512])[..n - 1] == p && (q + [b % 512])[..n - 1] == q;
      assert (p + [a % 512])[n - 1] == a % 512 && (q + [b % 512])[n - 1] == b % 512;
    }
  }

  // ---------------------------------------------------------------- structures

  /** The bits of a word that links a second-level table: readable and writable. */
  const LINK_BITS: set<nat> := {BIT_PRESENT, BIT_WRITABLE}

  datatype Access = Access(read: bool, write: bool, execute: bool)

  function AccessBits(a: Access): set<nat> {
    (if a.read then {BIT_PRESENT} else {}) + (if a.write then {BIT_WRITABLE} else {}) + (if a.execute then {BIT_USER} else {})
  }

  /** Overwrite the access bits and the frame of a word, keeping its other bits. */
  function IoWord(before: Word, pa: nat, a: Access): Word {
    Word(FrameOf(pa), (before.bits - {BIT_PRESENT, BIT_WRITABLE, BIT_USER}) + AccessBits(a))
  }

  /** What a device's access along a path meets: the last word, if it permits reading, writing or executing. */
  function Translation(mem: Memory, root: Frame, q: seq<nat>): Option<Word>
    requires IsPath(q) && |q| >= 1
  {
    var w := Last(mem, root, q);
    if w.bits * {BIT_PRESENT, BIT_WRITABLE, BIT_USER} == {} then None else Some(w)
  }

  predicate IoSpace(spaces: map<Id, Space>, c: Id) {
    c in spaces && c != KERNEL && 3 <= spaces[c].height <= 5 && spaces[c].span == ENTRIES
  }

  /** What work on one second-level structure leaves alone: other structures' tables, and the kernel's translations but for its window. */
  ghost predicate OthersUntouched(m1: Memory, m2: Memory, spaces: map<Id, Space>, c: Id) {
    && KERNEL in spaces
    && (forall d | d in spaces && d != c && d != KERNEL :: SameOn(m1, m2, Tables(m1, spaces[d])))
    && WindowOnly(m1, m2, spaces[KERNEL])
  }

  lemma UntouchedTwice(m1: Memory, m2: Memory, m3: Memory, spaces: map<Id, Space>, c: Id)
    requires OthersUntouched(m1, m2, spaces, c) && OthersUntouched(m2, m3, spaces, c)
    ensures OthersUntouched(m1, m3, spaces, c)
  {
    hide Tables, WindowOnly;
    WindowTwice(m1, m2, m3, spaces[KERNEL]);
    forall d | d in spaces && d != c && d != KERNEL
      ensures SameOn(m1, m3, Tables(m1, spaces[d]))
    {
      SpaceFrame(m1, m2, spaces[d]);
    }
  }

  const WINDOW_PAGE := MapFlags(true, true, false, true, false)

  /** Clear a frame that is seen through the window. */
  method ClearThrough(m: Memories, f: Frame) returns (ok: bool)
    requires m.Valid() && f < RAM_LIMIT && f !in m.Pool()
    modifies m`mem, m.pmm, m.pmm.stack
    ensures ok ==> m.Valid() && m.Pool() == old(m.Pool()) && m.pmm.Frames() <= old(m.pmm.Frames())
    ensures ok ==> At(m.mem, f) == ZeroPage() && OthersUntouched(old(m.mem), m.mem, m.spaces, KERNEL)
    ensures ok ==> SameOutside(old(m.mem), m.mem, old(m.Pool()) + {f}) && ShownToKernel(m.mem, m.spaces, f)
    ensures !ok ==> m.pmm.OutOfFrames()
  {
    hide World, OthersKept, WindowOnly, WindowShows, InRam, AllTables, Tables, Agree, OthersUntouched, Walk, PathOf, Writable, ShownToKernel, CanWrite, LowerKept, Undisturbed;
    KernelShape(m.mem, m.spaces, m.pmm.Frames());
    var m1 := m.mem;
    ok := MapPhysical(m, f, WINDOW_PAGE);
    if !ok {
      return;
    }
    var m2 := m.mem;
    ShownNow(m1, m2, m.spaces, f, WINDOW_PAGE);
    ok := StoreThrough(m, KERNEL, f * BLOCK_SIZE + PHYSMAP_BASE, ZeroPage());
    WindowSteps(m1, m2, m.mem, m.spaces);
    ClearedShown(m2, m.mem, m.spaces, m.pmm.Frames(), f);
  }

  lemma ClearedShown(m1: Memory, m2: Memory, spaces: map<Id, Space>, free: set<Frame>, f: Frame)
    requires World(m2, spaces, free) && KERNEL in spaces && spaces[KERNEL].height == 4
    requires Undisturbed(m1, m2, spaces) && Shown(m1, spaces[KERNEL].root, f)
    ensures ShownToKernel(m2, spaces, f)
  {
    hide World, Agree, Tables, Shown, ShownToKernel;
    StillShown(m1, m2, spaces, free, f);
  }

  /** A frame for a table: taken out of the pool, mapped in the kernel's window, and cleared. */
  method CreateTable(m: Memories) returns (g: Option<Frame>)
    requires m.Valid()
    modifies m`mem, m.pmm, m.pmm.stack
    ensures g.Some? ==> m.Valid() && g.value in old(m.pmm.Frames()) && g.value < RAM_LIMIT
    ensures g.Some? ==> m.Pool() == old(m.Pool()) - {g.value} && m.pmm.Frames() <= old(m.pmm.Frames()) - {g.value}
    ensures g.Some? ==> At(m.mem, g.value) == ZeroPage() && OthersUntouched(old(m.mem), m.mem, m.spaces, KERNEL)
    ensures g.Some? ==> SameOutside(old(m.mem), m.mem, old(m.Pool())) && ShownToKernel(m.mem, m.spaces, g.value)
    ensures g.None? ==> m.pmm.OutOfFrames()
  {
    hide World, InRam, AllTables, Tables, OthersUntouched, ShownToKernel;
    g := AllocPage(m);
    if g.None? {
      return None;
    }
    var ok := ClearThrough(m, g.value);
    if !ok {
      return None;
    }
  }

  lemma ShownNow(m1: Memory, m2: Memory, spaces: map<Id, Space>, f: Frame, flags: MapFlags)
    requires WindowShows(m1, m2, spaces, f, flags) && f < RAM_LIMIT && flags.present && flags.writable && !flags.user && flags.noExecute
    ensures Shown(m2, spaces[KERNEL].root, f)
  {
    hide Walk, PathOf, FlagBits, CacheBits;
    WindowWord(f, flags);
  }

  lemma WindowSteps(m1: Memory, m2: Memory, m3: Memory, spaces: map<Id, Space>)
    requires KERNEL in spaces && OthersKept(m1, m2, spaces, KERNEL)
    requires forall d | d in spaces :: WindowOnly(m1, m2, spaces[d])
    requires Undisturbed(m2, m3, spaces)
    ensures OthersUntouched(m1, m3, spaces, KERNEL)
  {
    hide Tables, WindowOnly, Agree;
    AgreeWindow(m2, m3, spaces[KERNEL]);
    WindowTwice(m1, m2, m3, spaces[KERNEL]);
    forall d | d in spaces && d != KERNEL
      ensures SameOn(m1, m3, Tables(m1, spaces[d]))
    {
      SpaceFrame(m1, m2, spaces[d]);
    }
  }

  // ---------------------------------------------------------------- mapping

  /** Linking a table that is in nobody's hands. */
  lemma LinkLoose(mem: Memory, spaces: map<Id, Space>, free: set<Frame>, c: Id, p: seq<nat>, i: nat, w: Word)
    requires World(mem, spaces, free) && IoSpace(spaces, c) && w.frame !in free && w.frame !in AllTables(mem, spaces)
    requires Slot(spaces[c], p, i) && |p| + 2 <= spaces[c].height
    requires Reaches(mem, spaces[c].root, p) && !Has(mem, NodeAt(mem, spaces[c].root, p), i)
    requires w.Present() && BIT_HUGE !in w.bits && SECOND_LEVEL.Permits(w.bits)
    ensures var m2 := Store(mem[w.frame := ZeroPage()], NodeAt(mem, spaces[c].root, p), i, w);
            && World(m2, spaces, free)
            && free + AllTables(m2, spaces) == free + AllTables(mem, spaces) + {w.frame}
            && Reaches(m2, spaces[c].root, p + [i]) && NodeAt(m2, spaces[c].root, p + [i]) == w.frame
            && SameWords(mem, m2, spaces[c]) && OthersUntouched(mem, m2, spaces, c)
            && SameOutside(mem, m2, free + AllTables(mem, spaces) + {w.frame})
  {
    hide World, AllTables, Tables, Agree, OthersKept, WindowOnly, SameWords, IsTree;
    IoTree(mem, spaces, free, c);
    LinkWords(mem, spaces[c], p, i, w);
    var more := free + {w.frame};
    var m2 := Store(mem[w.frame := ZeroPage()], NodeAt(mem, spaces[c].root, p), i, w);
    FreeIsNotTables(mem, spaces, free);
    WorldFree(mem, spaces, free, more);
    CreateStep(mem, spaces, more, c, p, i, w);
    assert more - {w.frame} == free;
    assert more + AllTables(mem, spaces) == free + AllTables(mem, spaces) + {w.frame};
    LinkUntouched(mem, m2, spaces, free, c);
  }

  lemma IoTree(mem: Memory, spaces: map<Id, Space>, free: set<Frame>, c: Id)
    requires World(mem, spaces, free) && c in spaces
    ensures Shape(spaces[c]) && IsTree(mem, spaces[c]) && Tables(mem, spaces[c]) <= AllTables(mem, spaces)
  {
    hide AllApart, NoneFree, AllShare, IsTree, Tables;
  }

  lemma LinkUntouched(m1: Memory, m2: Memory, spaces: map<Id, Space>, free: set<Frame>, c: Id)
    requires World(m1, spaces, free) && c != KERNEL && OthersKept(m1, m2, spaces, c)
    requires forall d | d in spaces :: Agree(m1, m2, spaces[d])
    ensures OthersUntouched(m1, m2, spaces, c)
  {
    hide AllTrees, AllApart, NoneFree, AllShare, Tables, Agree;
    AgreeWindow(m1, m2, spaces[KERNEL]);
  }

  /** Create a table and link it below entry `i` of table `t`. */
  method CreateLevel(m: Memories, c: Id, ghost p: seq<nat>, t: Frame, i: nat) returns (next: Option<Frame>)
    requires m.Valid() && IoSpace(m.spaces, c) && Slot(m.spaces[c], p, i) && |p| + 2 <= m.spaces[c].height
    requires Reaches(m.mem, m.spaces[c].root, p) && NodeAt(m.mem, m.spaces[c].root, p) == t
    requires !Has(m.mem, t, i)
    modifies m`mem, m.pmm, m.pmm.stack
    ensures next.Some? ==> m.Valid() && m.Pool() == old(m.Pool()) && m.pmm.Frames() <= old(m.pmm.Frames())
    ensures next.Some? ==> Reaches(m.mem, m.spaces[c].root, p + [i]) && NodeAt(m.mem, m.spaces[c].root, p + [i]) == next.value
    ensures next.Some? ==> SameWords(old(m.mem), m.mem, m.spaces[c]) && OthersUntouched(old(m.mem), m.mem, m.spaces, c)
    ensures next.Some? ==> SameOutside(old(m.mem), m.mem, old(m.Pool()))
    ensures next.None? ==> m.pmm.OutOfFrames()
  {
    hide World, AllTables, Tables, OthersUntouched, SameWords, InRam;
    ghost var m1, pool, free1 := m.mem, m.Pool(), m.pmm.Frames();
    next := CreateTable(m);
    if next.None? {
      return None;
    }
    ghost var m2, free2 := m.mem, m.pmm.Frames();
    OwnKept(m1, m2, m.spaces, free1, c, p);
    var w := Word(next.value % FRAME_NUMBERS, LINK_BITS);
    FrameFits(next.value);
    LinkLoose(m2, m.spaces, free2, c, p, i, w);
    m.mem := Store(m.mem[next.value := ZeroPage()], t, i, w);
    CreatedSteps(m1, m2, m.mem, m.spaces, c);
    assert m.Pool() == pool;
  }

  /** The table below entry `i` of table `t`, created if that entry is not readable. */
  method GetLevelOrCreate(m: Memories, c: Id, ghost p: seq<nat>, t: Frame, i: nat) returns (next: Option<Frame>)
    requires m.Valid() && IoSpace(m.spaces, c) && Slot(m.spaces[c], p, i) && |p| + 2 <= m.spaces[c].height
    requires Reaches(m.mem, m.spaces[c].root, p) && NodeAt(m.mem, m.spaces[c].root, p) == t
    modifies m`mem, m.pmm, m.pmm.stack
    ensures next.Some? ==> m.Valid() && m.Pool() == old(m.Pool()) && m.pmm.Frames() <= old(m.pmm.Frames())
    ensures next.Some? ==> Reaches(m.mem, m.spaces[c].root, p + [i]) && NodeAt(m.mem, m.spaces[c].root, p + [i]) == next.value
    ensures next.Some? ==> SameWords(old(m.mem), m.mem, m.spaces[c]) && OthersUntouched(old(m.mem), m.mem, m.spaces, c)
    ensures next.Some? ==> SameOutside(old(m.mem), m.mem, old(m.Pool()))
    ensures next.None? ==> m.pmm.OutOfFrames()
  {
    if !At(m.mem, t)[i].Present() {
      next := CreateLevel(m, c, p, t, i);
    } else {
      KernelIn(m.mem, m.spaces, m.pmm.Frames());
      hide World, Tables, OthersUntouched, Last;
      ReachesNext(m.mem, m.spaces[c].root, p, i);
      UntouchedSelf(m.mem, m.spaces, c);
      next := Some(At(m.mem, t)[i].frame);
    }
  }

  lemma UntouchedSelf(mem: Memory, spaces: map<Id, Space>, c: Id)
    requires KERNEL in spaces
    ensures OthersUntouched(mem, mem, spaces, c)
  {
    hide Tables;
  }

  /** The structure itself is not touched while a frame is prepared for it. */
  lemma OwnKept(m1: Memory, m2: Memory, spaces: map<Id, Space>, free1: set<Frame>, c: Id, p: seq<nat>)
    requires World(m1, spaces, free1) && IoSpace(spaces, c) && OthersUntouched(m1, m2, spaces, KERNEL)
    requires IsPath(p) && |p| < spaces[c].height && Reaches(m1, spaces[c].root, p)
    ensures SameWords(m1, m2, spaces[c])
    ensures Reaches(m2, spaces[c].root, p) && NodeAt(m2, spaces[c].root, p) == NodeAt(m1, spaces[c].root, p)
    ensures At(m2, NodeAt(m1, spaces[c].root, p)) == At(m1, NodeAt(m1, spaces[c].root, p))
  {
    hide AllApart, NoneFree, AllShare, WindowOnly, SameWords;
    var s := spaces[c];
    NodeOwned(m1, s, p);
    ReachesFrame(m1, m2, s.root, s.height, 0, s.span, p);
    OwnWordsDecide(m1, m2, s);
  }

  lemma CreatedSteps(m1: Memory, m2: Memory, m3: Memory, spaces: map<Id, Space>, c: Id)
    requires c in spaces && OthersUntouched(m1, m2, spaces, KERNEL) && OthersUntouched(m2, m3, spaces, c)
    requires SameWords(m1, m2, spaces[c]) && SameWords(m2, m3, spaces[c])
    ensures SameWords(m1, m3, spaces[c]) && OthersUntouched(m1, m3, spaces, c)
  {
    hide SameWords, Tables, WindowOnly;
    WordsTwice(m1, m2, m3, spaces[c]);
    assert OthersUntouched(m1, m2, spaces, c);
    UntouchedTwice(m1, m2, m3, spaces, c);
  }

  lemma IoSlot(s: Space, q: seq<nat>, k: nat)
    requires IsWalk(s, q) && s.span == ENTRIES && k < |q|
    ensures Slot(s, q[..k], q[k]) && q[..k] + [q[k]] == q[..k + 1] && IsPath(q[..k + 1])
  {
    assert IsPath(q[..k]);
    assert (q[..k] + [q[k]])[0] == q[0];
  }

  /** `t` is the table that the first `k` steps of the walk along `q` lead to. */
  ghost predicate IoTableAt(mem: Memory, root: Frame, q: seq<nat>, k: nat, t: Frame) {
    && k <= |q| && IsPath(q[..k])
    && Reaches(mem, root, q[..k]) && NodeAt(mem, root, q[..k]) == t
  }

  lemma IoLeaf(m1: Memory, mem: Memory, spaces: map<Id, Space>, free: set<Frame>, c: Id, q: seq<nat>, t: Frame, w: Word)
    requires World(mem, spaces, free) && IoSpace(spaces, c) && IsWalk(spaces[c], q)
    requires IoTableAt(mem, spaces[c].root, q, |q| - 1, t)
    requires SameWords(m1, mem, spaces[c]) && OthersUntouched(m1, mem, spaces, c)
    ensures var m2 := Store(mem, t, q[|q| - 1], w);
            && World(m2, spaces, free) && AllTables(m2, spaces) == AllTables(mem, spaces)
            && WordSet(m1, m2, spaces[c], q, w) && OthersUntouched(m1, m2, spaces, c)
            && t in AllTables(mem, spaces)
  {
    hide World, AllTables, Tables, WindowOnly, OthersKept, IsTree, Last;
    var k := |q| - 1;
    IoSlot(spaces[c], q, k);
    assert q[..k + 1] == q;
    IoTree(mem, spaces, free, c);
    LeafWords(mem, spaces[c], q[..k], q[k], w);
    NodeInTables(mem, spaces, free, c, q[..k]);
    WorldLeaf(mem, spaces, free, c, q[..k], q[k], w);
    LeafWalks(mem, spaces, free, c, q[..k], q[k], w);
    LeafKeepsOthers(mem, spaces, free, c, q[..k], q[k], w);
    var m2 := Store(mem, t, q[k], w);
    LinkLeafUntouched(mem, m2, spaces, free, c);
    UntouchedTwice(m1, mem, m2, spaces, c);
    SetAfter(m1, mem, m2, spaces[c], q, w);
  }

  lemma SetAfter(m1: Memory, m2: Memory, m3: Memory, s: Space, q: seq<nat>, w: Word)
    requires SameWords(m1, m2, s) && WordSet(m2, m3, s, q, w)
    ensures WordSet(m1, m3, s, q, w)
  {
    hide Last;
  }

  lemma LinkLeafUntouched(m1: Memory, m2: Memory, spaces: map<Id, Space>, free: set<Frame>, c: Id)
    requires World(m1, spaces, free) && c in spaces && c != KERNEL && OthersKept(m1, m2, spaces, c)
    requires forall d | d in spaces && d != c :: Agree(m1, m2, spaces[d])
    ensures OthersUntouched(m1, m2, spaces, c)
  {
    hide AllTrees, AllApart, NoneFree, AllShare, Tables, Agree;
    AgreeWindow(m1, m2, spaces[KERNEL]);
  }

  lemma MapIoStart(mem: Memory, spaces: map<Id, Space>, free: set<Frame>, c: Id, q: seq<nat>, pool: set<Frame>)
    requires World(mem, spaces, free) && c in spaces
    ensures SameWords(mem, mem, spaces[c]) && OthersUntouched(mem, mem, spaces, c) && SameOutside(mem, mem, pool)
    ensures IoTableAt(mem, spaces[c].root, q, 0, spaces[c].root)
  {
    KernelIn(mem, spaces, free);
    hide World, Tables;
    UntouchedSelf(mem, spaces, c);
  }

  lemma OutsideTwice(m1: Memory, m2: Memory, m3: Memory, fs: set<Frame>)
    requires SameOutside(m1, m2, fs) && SameOutside(m2, m3, fs)
    ensures SameOutside(m1, m3, fs)
  {
  }

  lemma OutsideStore(m1: Memory, m2: Memory, t: Frame, i: nat, w: Word, fs: set<Frame>)
    requires SameOutside(m1, m2, fs) && t in fs && i < ENTRIES
    ensures SameOutside(m1, Store(m2, t, i, w), fs)
  {
  }

  /** One level further down along `q`. */
  method Descend(m: Memories, c: Id, q: seq<nat>, k: nat, t: Frame) returns (next: Option<Frame>)
    requires m.Valid() && IoSpace(m.spaces, c) && IsWalk(m.spaces[c], q) && k + 1 < |q|
    requires IoTableAt(m.mem, m.spaces[c].root, q, k, t)
    modifies m`mem, m.pmm, m.pmm.stack
    ensures next.Some? ==> m.Valid() && m.Pool() == old(m.Pool()) && m.pmm.Frames() <= old(m.pmm.Frames())
    ensures next.Some? ==> IoTableAt(m.mem, m.spaces[c].root, q, k + 1, next.value)
    ensures next.Some? ==> SameWords(old(m.mem), m.mem, m.spaces[c]) && OthersUntouched(old(m.mem), m.mem, m.spaces, c)
    ensures next.Some? ==> SameOutside(old(m.mem), m.mem, old(m.Pool()))
    ensures next.None? ==> m.pmm.OutOfFrames()
  {
    hide World, AllTables, Tables, InRam, SameWords, OthersUntouched, SameOutside;
    IoSlot(m.spaces[c], q, k);
    next := GetLevelOrCreate(m, c, q[..k], t, q[k]);
  }

  /**
   Map one page for a device.  The path of the address then ends in the new word, readable or not, every
   path that differs ends as before, and no other structure changes.  A device may then read and write the
   page exactly as asked for; it may execute nothing, because the tables above do not permit it.
   */
  method MapIo(m: Memories, c: Id, pa: nat, iova: nat, access: Access) returns (ok: bool, ghost w: Word)
    requires m.Valid() && IoSpace(m.spaces, c)
    modifies m`mem, m.pmm, m.pmm.stack
    ensures ok ==> m.Valid() && m.Pool() == old(m.Pool()) && m.pmm.Frames() <= old(m.pmm.Frames())
    ensures ok ==> w.frame == FrameOf(pa) && (0 in w.bits <==> access.read) && (1 in w.bits <==> access.write) && (2 in w.bits <==> access.execute)
    ensures ok ==> w.bits - {0, 1, 2} == old(Last(m.mem, m.spaces[c].root, IoPath(iova, m.spaces[c].height))).bits - {0, 1, 2}
    ensures ok ==> WordSet(old(m.mem), m.mem, m.spaces[c], IoPath(iova, m.spaces[c].height), w)
    ensures ok ==> forall q | IsWalk(m.spaces[c], q) ::
                     DeviceMay(m.mem, m.spaces[c].root, q) ==
                       if q == IoPath(iova, m.spaces[c].height) then DeviceRights(access.read, access.write, false)
                       else old(DeviceMay(m.mem, m.spaces[c].root, q))
    ensures ok ==> OthersUntouched(old(m.mem), m.mem, m.spaces, c)
    ensures ok ==> SameOutside(old(m.mem), m.mem, old(m.Pool()))
    ensures !ok ==> m.pmm.OutOfFrames()
  {
    hide World, AllTables, Tables, InRam, SameWords, OthersUntouched, WordSet, IoPath, AccessBits, IoTableAt, SameOutside, DeviceMay, Last, IoWord;
    w := ZERO;
    var level := m.spaces[c].height;
    var q := IoPath(iova, level);
    var current := m.spaces[c].root;
    ghost var m1, pool := m.mem, m.Pool();
    MapIoStart(m.mem, m.spaces, m.pmm.Frames(), c, q, pool);
    var k := 0;
    while k < level - 1
      invariant k <= level - 1 && m.Valid() && m.spaces == old(m.spaces)
      invariant m.Pool() == pool && m.pmm.Frames() <= old(m.pmm.Frames())
      invariant IoTableAt(m.mem, m.spaces[c].root, q, k, current)
      invariant SameWords(m1, m.mem, m.spaces[c]) && OthersUntouched(m1, m.mem, m.spaces, c)
      invariant SameOutside(m1, m.mem, pool)
    {
      ghost var m2 := m.mem;
      var next := Descend(m, c, q, k, current);
      if next.None? {
        return false, w;
      }
      WordsTwice(m1, m2, m.mem, m.spaces[c]);
      UntouchedTwice(m1, m2, m.mem, m.spaces, c);
      OutsideTwice(m1, m2, m.mem, pool);
      current := next.value;
      k := k + 1;
    }
    w := IoWord(At(m.mem, current)[q[k]], pa, access);
    IoWordBits(At(m.mem, current)[q[k]], pa, access);
    LastThere(m1, m.mem, m.spaces[c], q, current);
    IoLeaf(m1, m.mem, m.spaces, m.pmm.Frames(), c, q, current, w);
    OutsideStore(m1, m.mem, current, q[k], w, pool);
    m.mem := Store(m.mem, current, q[k], IoWord(At(m.mem, current)[q[k]], pa, access));
    DeviceMapped(m1, old(m.pmm.Frames()), m.mem, m.spaces, m.pmm.Frames(), c, q, w, access);
    ok := true;
  }

  lemma IoWordBits(before: Word, pa: nat, a: Access)
    ensures var w := IoWord(before, pa, a);
            && w.frame == FrameOf(pa) && (0 in w.bits <==> a.read) && (1 in w.bits <==> a.write) && (2 in w.bits <==> a.execute)
            && w.bits - {0, 1, 2} == before.bits - {0, 1, 2}
  {
  }

  /** The word about to be overwritten is the last word of the path. */
  lemma LastThere(m1: Memory, m2: Memory, s: Space, q: seq<nat>, t: Frame)
    requires SameWords(m1, m2, s) && IsWalk(s, q) && IoTableAt(m2, s.root, q, |q| - 1, t)
    ensures Last(m1, s.root, q) == At(m2, t)[q[|q| - 1]]
  {
    hide Last;
    LastFrom(m2, s.root, q);
  }

  /** What a device may do at the end of a path: each right needs its bit in every word. */
  datatype DeviceRights = DeviceRights(read: bool, write: bool, execute: bool)

  function DeviceMay(mem: Memory, root: Frame, q: seq<nat>): DeviceRights
    requires IsPath(q) && |q| >= 1
  {
    DeviceRights(AllHave(mem, root, q, 0), AllHave(mem, root, q, 1), AllHave(mem, root, q, 2))
  }

  /** In a live structure the last word decides on reading and writing, and nothing may be executed. */
  lemma DevicePath(mem: Memory, spaces: map<Id, Space>, free: set<Frame>, c: Id, q: seq<nat>)
    requires World(mem, spaces, free) && IoSpace(spaces, c) && IsWalk(spaces[c], q)
    ensures var last := Last(mem, spaces[c].root, q); DeviceMay(mem, spaces[c].root, q) == DeviceRights(0 in last.bits, 1 in last.bits, false)
  {
    hide AllTrees, AllApart, NoneFree, AllShare, Linked, Last, AllHave;
    var s := spaces[c];
    assert IsLinked(mem, c, s);
    AllOfLast(mem, s.root, s.height, 0, s.span, SECOND_LEVEL, q, 0);
    AllOfLast(mem, s.root, s.height, 0, s.span, SECOND_LEVEL, q, 1);
    LinksWithout(mem, s.root, s.height, 0, s.span, SECOND_LEVEL, q, 2);
  }

  lemma DeviceMapped(m1: Memory, free1: set<Frame>, m2: Memory, spaces: map<Id, Space>, free2: set<Frame>, c: Id, q: seq<nat>, w: Word, access: Access)
    requires World(m1, spaces, free1) && World(m2, spaces, free2) && IoSpace(spaces, c) && WordSet(m1, m2, spaces[c], q, w)
    requires (0 in w.bits <==> access.read) && (1 in w.bits <==> access.write)
    ensures forall p | IsWalk(spaces[c], p) ::
              DeviceMay(m2, spaces[c].root, p) ==
                if p == q then DeviceRights(access.read, access.write, false) else DeviceMay(m1, spaces[c].root, p)
  {
    hide World, Last, DeviceMay;
    forall p | IsWalk(spaces[c], p)
      ensures DeviceMay(m2, spaces[c].root, p) ==
                if p == q then DeviceRights(access.read, access.write, false) else DeviceMay(m1, spaces[c].root, p)
    {
      DevicePath(m1, spaces, free1, c, p);
      DevicePath(m2, spaces, free2, c, p);
    }
  }

  /**
   Mapping refines a flat map keyed on the page-number bits that the levels use.  A page that permits
   anything at all is then there for the device, one that can only be written included.
   */
  lemma IoMappedIsFlat(m1: Memory, m2: Memory, s: Space, iova: nat, w: Word, v: nat)
    requires 3 <= s.height <= 5 && WordSet(m1, m2, s, IoPath(iova, s.height), w)
    ensures Translation(m2, s.root, IoPath(v, s.height)) ==
              if v / BLOCK_SIZE % Pow512(s.height) != iova / BLOCK_SIZE % Pow512(s.height) then Translation(m1, s.root, IoPath(v, s.height))
              else if w.bits * {BIT_PRESENT, BIT_WRITABLE, BIT_USER} == {} then None else Some(w)
  {
    hide Last;
    DigitsEqualIff(v / BLOCK_SIZE, iova / BLOCK_SIZE, s.height);
    assert IsWalk(s, IoPath(v, s.height));
  }

  // ---------------------------------------------------------------- creation and destruction

  /** A new, empty structure. */
  method NewIo(m: Memories, c: Id, level: nat) returns (ok: bool)
    requires m.Valid() && c !in m.spaces && 3 <= level <= 5
    modifies m, m.pmm, m.pmm.stack
    ensures ok ==> m.Valid() && m.Pool() == old(m.Pool())
    ensures ok ==> m.spaces.Keys == old(m.spaces).Keys + {c} && m.spaces == old(m.spaces)[c := m.spaces[c]]
    ensures ok ==> m.spaces[c].height == level && m.spaces[c].span == ENTRIES && Tables(m.mem, m.spaces[c]) <= old(m.pmm.Frames())
    ensures ok ==> forall q | IsWalk(m.spaces[c], q) :: Last(m.mem, m.spaces[c].root, q) == ZERO
    ensures ok ==> OthersUntouched(old(m.mem), m.mem, old(m.spaces), KERNEL)
    ensures !ok ==> m.pmm.OutOfFrames()
  {
    hide World, AllTables, Tables, OthersUntouched, Last, SameOutside;
    ghost var pool := m.Pool();
    var g := CreateTable(m);
    if g.None? {
      return false;
    }
    AddEmpty(m.mem, m.spaces, m.pmm.Frames(), c, Space(g.value, level, ENTRIES));
    assert pool == m.Pool() + {g.value};
    m.spaces := m.spaces[c := Space(g.value, level, ENTRIES)];
    return true;
  }

  lemma AddEmpty(mem: Memory, spaces: map<Id, Space>, free: set<Frame>, c: Id, s: Space)
    requires World(mem, spaces, free) && c !in spaces && Shape(s) && s.span == ENTRIES && At(mem, s.root) == ZeroPage()
    requires s.root !in free && s.root !in AllTables(mem, spaces)
    ensures World(mem, spaces[c := s], free) && Tables(mem, s) == {s.root}
    ensures AllTables(mem, spaces[c := s]) == AllTables(mem, spaces) + {s.root}
    ensures forall q | IsWalk(s, q) :: Last(mem, s.root, q) == ZERO
  {
    assert forall i: nat :: !Has(mem, s.root, i);
    EmptyTable(mem, s.root, s.height, 0, ENTRIES);
    assert Tables(mem, s) == {s.root} && IsTree(mem, s);
    NothingLinked(mem, s.root, s.height, 0, ENTRIES, SECOND_LEVEL);
    hide AllTrees, AllApart, NoneFree, AllShare, AllLinked, Tables, AllTables, IsTree;
    WorldAdd(mem, spaces, free, c, s);
  }

  /** Free all tables of a subtree, the table itself last. */
  method CleanTables(m: Memories, f: Frame, level: nat) returns (ok: bool)
    requires m.pmm.Valid() && level >= 2 && Tree(m.mem, f, level, 0, ENTRIES)
    requires Frames(m.mem, f, level, 0, ENTRIES) !! m.pmm.Frames()
    modifies m.pmm, m.pmm.stack
    ensures ok ==> m.pmm.Valid() && m.pmm.Frames() == old(m.pmm.Frames()) + Frames(m.mem, f, level, 0, ENTRIES)
    ensures !ok ==> m.pmm.StackFull()
    decreases level, 0
  {
    hide Tree, Frames, KidFrames;
    RootInFrames(m.mem, f, level, 0, ENTRIES);
    NoEntries(m.mem, f, level, 0);
    ghost var free := m.pmm.Frames();
    var i := 0;
    while i < ENTRIES
      invariant i <= ENTRIES && m.pmm.Valid()
      invariant m.pmm.Frames() == free + (Frames(m.mem, f, level, 0, i) - {f})
    {
      ExtendFrames(m.mem, f, level, 0, i);
      NextKidApart(m.mem, f, level, 0, ENTRIES, i);
      var entry := At(m.mem, f)[i];
      if entry.Present() {
        TreeKid(m.mem, f, level, 0, ENTRIES, i);
        ok := CleanEntry(m, entry.frame, level);
        if !ok {
          return false;
        }
      } else {
        NoKid(m.mem, f, level, i);
      }
      i := i + 1;
    }
    ok := m.pmm.FreeBlock(f);
  }

  /** What one present entry of a table at that level leads to: further levels, or a last table. */
  method CleanEntry(m: Memories, f: Frame, level: nat) returns (ok: bool)
    requires m.pmm.Valid() && level >= 2 && Tree(m.mem, f, level - 1, 0, ENTRIES)
    requires Frames(m.mem, f, level - 1, 0, ENTRIES) !! m.pmm.Frames()
    modifies m.pmm, m.pmm.stack
    ensures ok ==> m.pmm.Valid() && m.pmm.Frames() == old(m.pmm.Frames()) + Frames(m.mem, f, level - 1, 0, ENTRIES)
    ensures !ok ==> m.pmm.StackFull()
    decreases level - 1, 1
  {
    hide Tree, Frames;
    if level >= 3 {
      ok := CleanTables(m, f, level - 1);
    } else {
      LeafFrames(m.mem, f);
      ok := m.pmm.FreeBlock(f);
    }
  }

  /** Destroying a structure returns exactly its tables, each once, and no mapped frame. */
  method DestroyIo(m: Memories, c: Id) returns (ok: bool)
    requires m.Valid() && IoSpace(m.spaces, c)
    modifies m, m.pmm, m.pmm.stack
    ensures ok ==> m.Valid() && m.Pool() == old(m.Pool()) && m.mem == old(m.mem)
    ensures ok ==> m.spaces == old(m.spaces) - {c}
    ensures ok ==> m.pmm.Frames() == old(m.pmm.Frames() + Tables(m.mem, m.spaces[c]))
    ensures !ok ==> m.pmm.StackFull()
  {
    hide World, InRam, Tree, Frames, AllTables;
    ghost var free := m.pmm.Frames();
    DeinitStep(m.mem, m.spaces, free, c);
    ok := CleanTables(m, m.spaces[c].root, m.spaces[c].height);
    if !ok {
      return false;
    }
    m.spaces := m.spaces - {c};
  }
}
