/** Virtual addresses and the words that map them. */
module VirtualAddress {
  import opened RadixTree

  const BLOCK_SIZE: nat := 0x1000

  /** Bits 12 to 51 of a word hold a frame number. */
  const FRAME_NUMBERS: nat := 0x100_0000_0000

  /** Bits 12 to 47 of an address. */
  const VIRTUAL_PAGES: nat := 0x10_0000_0000

  function Pml4Index(virt: nat): nat {
    virt / 0x80_0000_0000 % ENTRIES
  }

  function PdptIndex(virt: nat): nat {
    virt / 0x4000_0000 % ENTRIES
  }

  function PdIndex(virt: nat): nat {
    virt / 0x20_0000 % ENTRIES
  }

  function PtIndex(virt: nat): nat {
    virt / 0x1000 % ENTRIES
  }

  function PathOf(virt: nat): (p: seq<nat>)
    ensures IsPath(p) && |p| == 4
  {
    [Pml4Index(virt), PdptIndex(virt), PdIndex(virt), PtIndex(virt)]
  }

  /** The virtual page number: what a translation may depend on. */
  function PageNumber(virt: nat): nat {
    virt / BLOCK_SIZE % VIRTUAL_PAGES
  }

  function IndicesToAddr(i: nat, j: nat, k: nat, l: nat): nat {
    i * 0x80_0000_0000 + j * 0x4000_0000 + k * 0x20_0000 + l * 0x1000
  }

  /** Splitting and joining an address are inverse. */
  lemma PathOfIndices(i: nat, j: nat, k: nat, l: nat)
    requires i < ENTRIES && j < ENTRIES && k < ENTRIES && l < ENTRIES
    ensures PathOf(IndicesToAddr(i, j, k, l)) == [i, j, k, l]
  {
    var v := IndicesToAddr(i, j, k, l);
    ByPage(v, ((i * 0x200 + j) * 0x200 + k) * 0x200 + l, 0);
    ByTable(v, (i * 0x200 + j) * 0x200 + k, l * 0x1000);
    ByDirectory(v, i * 0x200 + j, k * 0x20_0000 + l * 0x1000);
    ByPointer(v, i, j * 0x4000_0000 + k * 0x20_0000 + l * 0x1000);
    Digit((i * 0x200 + j) * 0x200 + k, l);
    Digit(i * 0x200 + j, k);
    Digit(i, j);
  }

  lemma ByPage(v: nat, q: nat, r: nat)
    requires v == q * 0x1000 + r && r < 0x1000
    ensures v / 0x1000 == q
  {
  }

  lemma ByTable(v: nat, q: nat, r: nat)
    requires v == q * 0x20_0000 + r && r < 0x20_0000
    ensures v / 0x20_0000 == q
  {
  }

  lemma ByDirectory(v: nat, q: nat, r: nat)
    requires v == q * 0x4000_0000 + r && r < 0x4000_0000
    ensures v / 0x4000_0000 == q
  {
  }

  lemma ByPointer(v: nat, q: nat, r: nat)
    requires v == q * 0x80_0000_0000 + r && r < 0x80_0000_0000
    ensures v / 0x80_0000_0000 == q
  {
  }

  lemma Digit(q: nat, d: nat)
    requires d < 0x200
    ensures (q * 0x200 + d) % 0x200 == d
  {
  }

  lemma PageNumberOfPath(virt: nat)
    ensures IndicesToAddr(Pml4Index(virt), PdptIndex(virt), PdIndex(virt), PtIndex(virt)) == PageNumber(virt) * BLOCK_SIZE
  {
    var v := virt / 0x1000;
    assert virt / 0x20_0000 == v / 0x200;
    assert virt / 0x4000_0000 == v / 0x4_0000;
    assert virt / 0x80_0000_0000 == v / 0x800_0000;
    DigitSplit(v);
  }

  lemma DigitSplit(v: nat)
    ensures v % 0x10_0000_0000
         == v / 0x800_0000 % 0x200 * 0x800_0000 + v / 0x4_0000 % 0x200 * 0x4_0000 + v / 0x200 % 0x200 * 0x200 + v % 0x200
  {
    var a := v / 0x200;
    var b := a / 0x200;
    var c := b / 0x200;
    assert v / 0x4_0000 == b && v / 0x800_0000 == c;
    assert v == c * 0x800_0000 + b % 0x200 * 0x4_0000 + a % 0x200 * 0x200 + v % 0x200;
    LowDigit(v, c, b % 0x200 * 0x4_0000 + a % 0x200 * 0x200 + v % 0x200);
  }

  lemma LowDigit(v: nat, c: nat, r: nat)
    requires v == c * 0x800_0000 + r && r < 0x800_0000
    ensures v % 0x10_0000_0000 == c % 0x200 * 0x800_0000 + r
  {
    assert v == c / 0x200 * 0x10_0000_0000 + (c % 0x200 * 0x800_0000 + r);
  }

  /** The indices are the nine-bit digits of the page number, bits 39 to 47 of the address first. */
  lemma PathDigits(virt: nat)
    ensures var p := PathOf(virt);
            ((p[0] * 512 + p[1]) * 512 + p[2]) * 512 + p[3] == virt / 4096 % 0x10_0000_0000
  {
    PageNumberOfPath(virt);
  }

  /** Two addresses are translated alike by construction exactly when they agree in bits 12 to 47. */
  lemma PathsEqualIff(a: nat, b: nat)
    ensures PathOf(a) == PathOf(b) <==> PageNumber(a) == PageNumber(b)
  {
    var p, q := PathOf(a), PathOf(b);
    if p == q {
      assert p[0] == q[0] && p[1] == q[1] && p[2] == q[2] && p[3] == q[3];
    }
    PageNumberOfPath(a);
    PageNumberOfPath(b);
    PathOfIndices(Pml4Index(a), PdptIndex(a), PdIndex(a), PtIndex(a));
    PathOfIndices(Pml4Index(b), PdptIndex(b), PdIndex(b), PtIndex(b));
  }

  datatype MapFlags = MapFlags(present: bool, writable: bool, user: bool, noExecute: bool, global: bool)

  datatype CacheType = Normal | Uncacheable | WriteThrough | WriteBack | WriteCombining

  function FlagBits(flags: MapFlags): set<nat> {
    (if flags.present then {BIT_PRESENT} else {}) +
    (if flags.user then {BIT_USER} else {}) +
    (if flags.noExecute then {BIT_NO_EXECUTE} else {}) +
    (if flags.global then {BIT_GLOBAL} else {}) +
    (if flags.writable then {BIT_WRITABLE} else {})
  }

  function CacheBits(cache: CacheType): set<nat> {
    match cache
    case Normal => {}
    case WriteBack => {}
    case WriteCombining => {BIT_WRITE_THROUGH}
    case WriteThrough => {BIT_CACHE_DISABLE}
    case Uncacheable => {BIT_WRITE_THROUGH, BIT_HUGE}
  }

  /** The masked frame of a physical address. */
  function FrameOf(phys: nat): Frame {
    phys / BLOCK_SIZE % FRAME_NUMBERS
  }

  function LeafWord(phys: nat, flags: MapFlags, cache: CacheType): (w: Word)
    ensures w.Present() <==> flags.present
    ensures w.frame < FRAME_NUMBERS
  {
    Word(FrameOf(phys), FlagBits(flags) + CacheBits(cache))
  }

  /** The word bit by bit: bits 12 to 51 of the physical address, the flags asked for, and besides them only bits that select a cache type. */
  lemma LeafBits(phys: nat, flags: MapFlags, cache: CacheType)
    ensures LeafWord(phys, flags, cache).frame == phys / 0x1000 % 0x100_0000_0000
    ensures var bits := LeafWord(phys, flags, cache).bits;
            && (0 in bits <==> flags.present) && (1 in bits <==> flags.writable) && (2 in bits <==> flags.user)
            && (8 in bits <==> flags.global) && (63 in bits <==> flags.noExecute)
            && bits <= {0, 1, 2, 3, 4, 7, 8, 63} && (cache.Normal? || cache.WriteBack? ==> bits !! {3, 4, 7})
  {
  }

  // ---------------------------------------------------------------- cache types

  /** What the kernel writes to the page attribute table: one memory type per byte. */
  const PAT: nat := 0x0004_0106

  function PatEntry(i: nat): nat {
    match i
    case 0 => PAT % 0x100
    case 1 => PAT / 0x100 % 0x100
    case 2 => PAT / 0x1_0000 % 0x100
    case 3 => PAT / 0x100_0000 % 0x100
    case _ => PAT / 0x1_0000_0000 % 0x100
  }

  /** The memory type that the processor uses for a page: bits 3, 4 and 7 of its word number an entry of the table. */
  function MemoryType(bits: set<nat>): nat {
    PatEntry((if 3 in bits then 1 else 0) + (if 4 in bits then 2 else 0) + (if 7 in bits then 4 else 0))
  }

  /** The number of a memory type, as section 11.12.2 of the Intel SDM Vol. 3A gives it. */
  function TypeNumber(cache: CacheType): nat {
    match cache
    case Normal => 6
    case WriteBack => 6
    case WriteCombining => 1
    case WriteThrough => 4
    case Uncacheable => 0
  }

  /** A page is cached as it was asked to be. */
  lemma CacheSelects(phys: nat, flags: MapFlags, cache: CacheType)
    ensures MemoryType(LeafWord(phys, flags, cache).bits) == TypeNumber(cache)
  {
    hide TypeNumber, PatEntry;
    CacheOnly(flags, cache);
    CacheEntries(cache);
  }

  lemma CacheOnly(flags: MapFlags, cache: CacheType)
    ensures MemoryType(FlagBits(flags) + CacheBits(cache)) == MemoryType(CacheBits(cache))
  {
    hide PatEntry, CacheBits;
    assert FlagBits(flags) !! {3, 4, 7};
  }

  lemma CacheEntries(cache: CacheType)
    ensures MemoryType(CacheBits(cache)) == TypeNumber(cache)
  {
  }

  /** Adding the bits of another type to a page's gives that type exactly if the page was cached by default or alike, or is to be uncacheable. */
  lemma CacheAddsIff(was: CacheType, cache: CacheType)
    ensures MemoryType(CacheBits(was) + CacheBits(cache)) == TypeNumber(cache) <==>
            TypeNumber(was) == 6 || was == cache || cache.Uncacheable?
  {
    var bits := CacheBits(was) + CacheBits(cache);
    assert 3 in bits <==> 3 in CacheBits(was) || 3 in CacheBits(cache);
    assert 4 in bits <==> 4 in CacheBits(was) || 4 in CacheBits(cache);
    assert 7 in bits <==> 7 in CacheBits(was) || 7 in CacheBits(cache);
  }
}
