/** The initial ram disk: a ustar archive in memory, walked once and then read by file name. */
module Initrd {
  import opened Wrappers

  const WORD: nat := 0x1_0000_0000_0000_0000
  const BLOCK: nat := 512
  const NAME_FIELD: nat := 100
  const SIZE_OFFSET: nat := 124
  const ZERO: int := 48

  type Bytes = seq<nat>

  function At(m: Bytes, i: nat): nat {
    if i < |m| then m[i] else 0
  }

  /** A byte read as a signed character. */
  function Char(b: nat): int {
    if b < 128 then b else b - 256
  }

  // ---------------------------------------------------------------- octal numbers

  function Pow8(k: nat): (r: nat)
    ensures r > 0
  {
    if k == 0 then 1 else 8 * Pow8(k - 1)
  }

  /** The number a field of digits denotes. */
  function Octal(s: Bytes): int {
    if s == [] then 0 else (Char(s[0]) - ZERO) * Pow8(|s| - 1) + Octal(s[1..])
  }

  function ToOctal(n: nat, k: nat): (s: Bytes)
    ensures |s| == k && forall i | 0 <= i < k :: ZERO <= s[i] < ZERO + 8
  {
    if k == 0 then [] else ToOctal(n / 8, k - 1) + [ZERO + n % 8]
  }

  lemma {:induction false} OctalAppend(s: Bytes, d: nat)
    ensures Octal(s + [d]) == 8 * Octal(s) + (Char(d) - ZERO)
  {
    if s == [] {
      assert Pow8(0) == 1 && Octal(([] + [d])[1..]) == 0;
    } else {
      OctalAppend(s[1..], d);
      assert (s + [d])[1..] == s[1..] + [d];
      Distribute(Char(s[0]) - ZERO, Pow8(|s| - 1));
    }
  }

  lemma Distribute(a: int, p: nat)
    ensures a * (8 * p) == 8 * (a * p)
  {
  }

  lemma {:induction false} OctalRoundTrip(n: nat, k: nat)
    requires n < Pow8(k)
    ensures Octal(ToOctal(n, k)) == n
  {
    if k > 0 {
      OctalRoundTrip(n / 8, k - 1);
      OctalAppend(ToOctal(n / 8, k - 1), ZERO + n % 8);
    }
  }

  /** The size field of the header at `a`: eleven digits, added up from the last one in 64-bit arithmetic. */
  method GetHeaderNumber(m: Bytes, a: nat) returns (size: nat)
    ensures size == HeaderNumber(m, a)
  {
    size := 0;
    var count := 1;
    ghost var field := Field(m, a);
    var j := 11;
    while j > 0
      invariant 0 <= j <= 11 && count == Pow8(11 - j)
      invariant size == Octal(field[j..]) % WORD
    {
      ghost var sum := Octal(field[j..]);
      size := (size + (Char(At(m, a + SIZE_OFFSET + j - 1)) - ZERO) * count) % WORD;
      assert field[j - 1..][1..] == field[j..];
      AddMod(sum, (Char(field[j - 1]) - ZERO) * count);
      count := count * 8;
      j := j - 1;
    }
    assert field[0..] == field;
  }

  function Field(m: Bytes, a: nat): (s: Bytes)
    ensures |s| == 11 && forall i | 0 <= i < 11 :: s[i] == At(m, a + SIZE_OFFSET + i)
  {
    seq<nat>(11, (i: nat) => At(m, a + SIZE_OFFSET + i))
  }

  function HeaderNumber(m: Bytes, a: nat): nat {
    Octal(Field(m, a)) % WORD
  }

  lemma AddMod(x: int, y: int)
    ensures (x % WORD + y) % WORD == (x + y) % WORD
  {
  }

  // ---------------------------------------------------------------- archives

  /** A file and the parts of its header that are not looked at: the fields before and behind its size. */
  datatype File = File(name: Bytes, mode: Bytes, rest: Bytes, data: Bytes)

  predicate NoZero(s: Bytes) {
    forall i | 0 <= i < |s| :: s[i] != 0
  }

  /** What fits a ustar header; a name of all 100 bytes has no terminator. */
  predicate Storable(f: File) {
    0 < |f.name| <= NAME_FIELD && NoZero(f.name) && |f.mode| == 24 && |f.rest| == 376 && |f.data| < Pow8(11)
  }

  function Zeros(n: nat): (s: Bytes)
    ensures |s| == n && forall i | 0 <= i < n :: s[i] == 0
  {
    seq<nat>(n, (i: nat) => 0)
  }

  function HeaderOf(f: File): (s: Bytes)
    requires Storable(f)
    ensures |s| == BLOCK
  {
    f.name + Zeros(NAME_FIELD - |f.name|) + f.mode + ToOctal(|f.data|, 11) + [0] + f.rest
  }

  function Padding(n: nat): nat {
    if n % BLOCK == 0 then 0 else BLOCK - n % BLOCK
  }

  function Entry(f: File): (s: Bytes)
    requires Storable(f)
    ensures |s| == EntrySize(|f.data|)
  {
    HeaderOf(f) + f.data + Zeros(Padding(|f.data|))
  }

  /** Bytes an entry takes up, as the walker computes it. */
  function EntrySize(n: nat): nat {
    (n / BLOCK + 1) * BLOCK + if n % BLOCK != 0 then BLOCK else 0
  }

  predicate AllStorable(files: seq<File>) {
    forall i | 0 <= i < |files| :: Storable(files[i])
  }

  /** The archive of a list of files, with the two zero blocks that end it. */
  function Layout(files: seq<File>): Bytes
    requires AllStorable(files)
  {
    if files == [] then Zeros(2 * BLOCK) else Entry(files[0]) + Layout(files[1..])
  }

  /** Bytes `s` lie in memory at `a`. */
  predicate Contains(m: Bytes, a: nat, s: Bytes) {
    a + |s| <= |m| && m[a..a + |s|] == s
  }

  /** The addresses of the files' headers. */
  function Positions(files: seq<File>, a: nat): (r: seq<nat>)
    ensures |r| == |files|
  {
    if files == [] then [] else [a] + Positions(files[1..], a + EntrySize(|files[0].data|))
  }

  lemma ContainsParts(m: Bytes, a: nat, s: Bytes, t: Bytes)
    requires Contains(m, a, s + t)
    ensures Contains(m, a, s) && Contains(m, a + |s|, t)
  {
    var whole := m[a..a + |s + t|];
    assert whole[..|s|] == s && whole[|s|..] == t;
    assert m[a..a + |s|] == whole[..|s|];
    assert m[a + |s|..a + |s| + |t|] == whole[|s|..];
  }

  lemma ContainsAt(m: Bytes, a: nat, s: Bytes, i: nat)
    requires Contains(m, a, s) && i < |s|
    ensures At(m, a + i) == s[i]
  {
    assert m[a..a + |s|][i] == m[a + i];
  }

  lemma HeaderAt(m: Bytes, a: nat, f: File)
    requires Storable(f) && Contains(m, a, Entry(f))
    ensures Contains(m, a, HeaderOf(f))
  {
    hide Contains, HeaderOf, Storable;
    var behind := f.data + Zeros(Padding(|f.data|));
    assert Entry(f) == HeaderOf(f) + behind;
    ContainsParts(m, a, HeaderOf(f), behind);
  }

  /** A header in memory, at the offsets of the ustar format: the name at its start, the size in octal at 124, 512 bytes in all. */
  lemma UstarLayout(f: File)
    requires Storable(f)
    ensures var h := HeaderOf(f);
            && |h| == 512 && h[..|f.name|] == f.name && (forall i | |f.name| <= i < 100 :: h[i] == 0)
            && h[100..124] == f.mode && h[124..135] == ToOctal(|f.data|, 11)
  {
    var h := HeaderOf(f);
    var name := f.name + Zeros(NAME_FIELD - |f.name|);
    assert h == name + f.mode + ToOctal(|f.data|, 11) + [0] + f.rest;
    assert name[..|f.name|] == f.name;
  }

  lemma SizeDigit(f: File, i: nat)
    requires Storable(f) && i < 11
    ensures HeaderOf(f)[SIZE_OFFSET + i] == ToOctal(|f.data|, 11)[i]
  {
  }

  /** An entry's size field reads back as the size of its data. */
  lemma SizeReadsBack(m: Bytes, a: nat, f: File)
    requires Storable(f) && Contains(m, a, Entry(f))
    ensures HeaderNumber(m, a) == |f.data|
  {
    hide Contains, HeaderOf, Entry, ToOctal, Octal, Pow8, At;
    HeaderAt(m, a, f);
    forall i | 0 <= i < 11
      ensures Field(m, a)[i] == ToOctal(|f.data|, 11)[i]
    {
      ContainsAt(m, a, HeaderOf(f), SIZE_OFFSET + i);
      SizeDigit(f, i);
    }
    assert Field(m, a) == ToOctal(|f.data|, 11);
    OctalRoundTrip(|f.data|, 11);
    Eight();
  }

  lemma Eight()
    ensures Pow8(11) < WORD
  {
    assert Pow8(3) == 512;
    assert Pow8(6) == 512 * 512;
    assert Pow8(9) == 512 * 512 * 512;
    assert Pow8(11) == 64 * Pow8(9);
  }

  // ---------------------------------------------------------------- the walk

  function NextHeader(m: Bytes, a: nat): nat {
    (a + EntrySize(HeaderNumber(m, a))) % WORD
  }

  /** The headers met from `a` on in at most `n` steps; an empty name ends the walk. */
  function Walk(m: Bytes, a: nat, n: nat): seq<nat>
    decreases n
  {
    if n == 0 || At(m, a) == 0 then [] else [a] + Walk(m, NextHeader(m, a), n - 1)
  }

  /** On the archive of any list of files the walk meets exactly their headers, in order. */
  lemma {:induction false} WalkFinds(m: Bytes, a: nat, files: seq<File>, n: nat)
    requires AllStorable(files) && Contains(m, a, Layout(files)) && |files| <= n && |m| <= WORD
    ensures Walk(m, a, n) == Positions(files, a)
    decreases |files|
  {
    hide Contains, Entry, HeaderOf, EntrySize, Storable, At, NextHeader, Zeros;
    if files == [] {
      EndsHere(m, a);
    } else {
      var f := files[0];
      ContainsParts(m, a, Entry(f), Layout(files[1..]));
      LayoutLength(files[1..]);
      StepsTo(m, a, f, Layout(files[1..]));
      WalkFinds(m, a + EntrySize(|f.data|), files[1..], n - 1);
    }
  }

  lemma EndsHere(m: Bytes, a: nat)
    requires Contains(m, a, Zeros(2 * BLOCK))
    ensures At(m, a) == 0
  {
    ContainsAt(m, a, Zeros(2 * BLOCK), 0);
  }

  /** From the header of an entry the walk goes on right behind the entry. */
  lemma StepsTo(m: Bytes, a: nat, f: File, rest: Bytes)
    requires Storable(f) && Contains(m, a, Entry(f)) && |m| <= WORD
    requires Contains(m, a + EntrySize(|f.data|), rest) && |rest| > 0
    ensures At(m, a) != 0 && NextHeader(m, a) == a + EntrySize(|f.data|)
  {
    hide Contains, Entry, HeaderOf, EntrySize, HeaderNumber, Storable, At;
    NameStarts(m, a, f);
    SizeReadsBack(m, a, f);
    ContainsBelow(m, a + EntrySize(|f.data|), rest);
  }

  lemma ContainsBelow(m: Bytes, a: nat, s: Bytes)
    requires Contains(m, a, s) && |m| <= WORD
    ensures a + |s| <= WORD
  {
  }

  lemma LayoutLength(files: seq<File>)
    requires AllStorable(files)
    ensures |Layout(files)| > 0
  {
  }

  lemma NameByte(m: Bytes, a: nat, f: File, i: nat)
    requires Storable(f) && Contains(m, a, Entry(f)) && i <= NAME_FIELD
    ensures At(m, a + i) == if i < |f.name| then f.name[i] else if i < NAME_FIELD then 0 else f.mode[0]
  {
    ContainsAt(m, a, Entry(f), i);
  }

  lemma NameStarts(m: Bytes, a: nat, f: File)
    requires Storable(f) && Contains(m, a, Entry(f))
    ensures At(m, a) != 0
  {
    NameByte(m, a, f, 0);
  }

  /** The terminated string at `a` is `name`. */
  predicate Named(m: Bytes, a: nat, name: Bytes) {
    (forall i: nat | i < |name| :: At(m, a + i) == name[i]) && At(m, a + |name|) == 0
  }

  /** A file answers to its name exactly when the name leaves room for its terminator. */
  lemma OwnNameIff(m: Bytes, a: nat, f: File)
    requires Storable(f) && Contains(m, a, Entry(f))
    ensures Named(m, a, f.name) <==> |f.name| < NAME_FIELD || f.mode[0] == 0
  {
    NameByte(m, a, f, |f.name|);
    forall i: nat | i < |f.name|
      ensures At(m, a + i) == f.name[i]
    {
      NameByte(m, a, f, i);
    }
  }

  lemma Spelled(m: Bytes, a: nat, name: Bytes, i: nat)
    requires Named(m, a, name)
    ensures i < |name| ==> At(m, a + i) == name[i]
  {
  }

  lemma NotShorter(m: Bytes, a: nat, x: Bytes, y: Bytes)
    requires Named(m, a, x) && Named(m, a, y) && NoZero(y)
    ensures |x| >= |y|
  {
    Spelled(m, a, y, |x|);
  }

  /** There is one terminated string at an address. */
  lemma NameUnique(m: Bytes, a: nat, x: Bytes, y: Bytes)
    requires Named(m, a, x) && Named(m, a, y) && NoZero(x) && NoZero(y)
    ensures x == y
  {
    NotShorter(m, a, x, y);
    NotShorter(m, a, y, x);
    forall i | 0 <= i < |x|
      ensures x[i] == y[i]
    {
      Spelled(m, a, x, i);
      Spelled(m, a, y, i);
    }
  }

  /** The bytes before the first zero. */
  function Prefix(s: Bytes): (r: Bytes)
    ensures NoZero(r) && r <= s && (|r| < |s| ==> s[|r|] == 0)
  {
    if s == [] || s[0] == 0 then [] else [s[0]] + Prefix(s[1..])
  }

  lemma {:induction false} PrefixStops(s: Bytes, k: nat)
    requires k < |s| && s[k] == 0
    ensures |Prefix(s)| <= k
  {
    if s[0] != 0 {
      PrefixStops(s[1..], k - 1);
    }
  }

  /** The string that a file's header starts with: a name that fills its field runs on into the fields behind it. */
  function Answer(f: File): Bytes
    requires Storable(f)
  {
    if |f.name| < NAME_FIELD then f.name else f.name + Prefix(HeaderOf(f)[NAME_FIELD..])
  }

  /** It ends inside the header, at the latest behind the digits of the size. */
  lemma AnswerEnds(f: File)
    requires Storable(f)
    ensures NoZero(Answer(f)) && |Answer(f)| < BLOCK && Answer(f) <= HeaderOf(f) && HeaderOf(f)[|Answer(f)|] == 0
  {
    var h := HeaderOf(f);
    assert h[..|f.name|] == f.name;
    if |f.name| == NAME_FIELD {
      var tail := h[NAME_FIELD..];
      assert h == f.name + tail;
      assert tail[35] == 0;
      PrefixStops(tail, 35);
    }
  }

  /** A file answers to the string its header starts with, and to no other. */
  lemma NamedIff(m: Bytes, a: nat, f: File, name: Bytes)
    requires Storable(f) && Contains(m, a, Entry(f)) && NoZero(name)
    ensures Named(m, a, name) <==> name == Answer(f)
  {
    hide Contains, HeaderOf, Storable, Answer, Entry;
    AnswerEnds(f);
    HeaderAt(m, a, f);
    forall i: nat | i <= |Answer(f)|
      ensures At(m, a + i) == HeaderOf(f)[i]
    {
      ContainsAt(m, a, HeaderOf(f), i);
    }
    assert Named(m, a, Answer(f));
    if Named(m, a, name) {
      NameUnique(m, a, name, Answer(f));
    }
  }

  /** That is its own name exactly when the name leaves room for its terminator. */
  lemma OwnAnswerIff(f: File)
    requires Storable(f)
    ensures Answer(f) == f.name <==> |f.name| < NAME_FIELD || f.mode[0] == 0
  {
    assert HeaderOf(f)[NAME_FIELD] == f.mode[0];
  }

  // ---------------------------------------------------------------- reading by name

  /** The first header with a name. */
  function Lookup(m: Bytes, headers: seq<nat>, name: Bytes): Option<nat> {
    if headers == [] then None
    else if Named(m, headers[0], name) then Some(headers[0])
    else Lookup(m, headers[1..], name)
  }

  /** The first file that answers to a name. */
  function FirstNamed(files: seq<File>, name: Bytes): (r: Option<nat>)
    requires AllStorable(files)
    ensures r.Some? ==> r.value < |files| && Answer(files[r.value]) == name
    ensures r.Some? ==> forall i | 0 <= i < r.value :: Answer(files[i]) != name
    ensures r.None? ==> forall i | 0 <= i < |files| :: Answer(files[i]) != name
  {
    if files == [] then None
    else if Answer(files[0]) == name then Some(0)
    else match FirstNamed(files[1..], name) case None => None case Some(i) => Some(i + 1)
  }

  /** The lookup finds the first file that answers to a name, whose entry lies at the header found. */
  ghost predicate Found(m: Bytes, a: nat, files: seq<File>, name: Bytes)
    requires AllStorable(files)
  {
    match FirstNamed(files, name)
    case None => Lookup(m, Positions(files, a), name) == None
    case Some(i) =>
      && Lookup(m, Positions(files, a), name) == Some(Positions(files, a)[i])
      && Contains(m, Positions(files, a)[i], Entry(files[i]))
  }

  lemma FoundNext(m: Bytes, a: nat, files: seq<File>, name: Bytes)
    requires AllStorable(files) && files != [] && Contains(m, a, Entry(files[0]))
    requires Named(m, a, name) <==> name == Answer(files[0])
    requires Found(m, a + EntrySize(|files[0].data|), files[1..], name)
    ensures Found(m, a, files, name)
  {
    hide Contains, Entry, HeaderOf, EntrySize, Storable, Named, Answer;
    var next := a + EntrySize(|files[0].data|);
    assert Positions(files, a)[1..] == Positions(files[1..], next);
  }

  lemma {:induction false} LookupFinds(m: Bytes, a: nat, files: seq<File>, name: Bytes)
    requires AllStorable(files) && NoZero(name) && Contains(m, a, Layout(files))
    ensures Found(m, a, files, name)
    decreases |files|
  {
    hide Contains, Entry, HeaderOf, EntrySize, Storable, Named, Answer;
    if files != [] {
      hide Found;
      var f := files[0];
      ContainsParts(m, a, Entry(f), Layout(files[1..]));
      NamedIff(m, a, f, name);
      LookupFinds(m, a + EntrySize(|f.data|), files[1..], name);
      FoundNext(m, a, files, name);
    }
  }

  function SizeOf(m: Bytes, headers: seq<nat>, name: Bytes): nat {
    match Lookup(m, headers, name)
    case None => 0
    case Some(h) => HeaderNumber(m, h)
  }

  /** The check on a range of a file, in 64-bit arithmetic. */
  predicate Allowed(fileSize: nat, offset: nat, size: nat) {
    (size + offset) % WORD <= (fileSize + 1) % WORD
  }

  /** The check lets through exactly the ranges inside the file, except for one byte past its end and for ranges whose end wraps. */
  lemma AllowedIff(fileSize: nat, offset: nat, size: nat)
    requires fileSize < Pow8(11) && offset < WORD && size < WORD
    ensures (Allowed(fileSize, offset, size) <==> size + offset <= fileSize) <==>
            size + offset != fileSize + 1 && !(0x1_0000_0000_0000_0000 <= size + offset <= 0x1_0000_0000_0000_0001 + fileSize)
  {
    Eight();
  }

  /** Of an empty file one byte can be read, and so can a range that starts at the last address. */
  lemma AllowedExamples()
    ensures Allowed(0, 0, 1) && Allowed(0, WORD - 1, 2)
  {
    assert (2 + (WORD - 1)) % WORD == 1;
  }

  function BytesAt(m: Bytes, a: nat, n: nat): (r: Bytes)
    ensures |r| == n && forall i | 0 <= i < n :: r[i] == At(m, (a + i) % WORD)
  {
    seq<nat>(n, (i: nat) => At(m, (a + i) % WORD))
  }

  function Read(m: Bytes, headers: seq<nat>, name: Bytes, offset: nat, size: nat): Option<Bytes> {
    if !Allowed(SizeOf(m, headers, name), offset, size) then None
    else
      match Lookup(m, headers, name)
      case None => None
      case Some(h) => Some(BytesAt(m, h + BLOCK + offset, size))
  }

  /**
   The round trip: after walking the archive of any files, the size of a name is the size of the first file
   that answers to it, and a range inside that file reads as that part of its data.
   */
  lemma RoundTrip(m: Bytes, a: nat, files: seq<File>, n: nat, name: Bytes, offset: nat, size: nat)
    requires AllStorable(files) && NoZero(name) && Contains(m, a, Layout(files)) && |files| <= n && |m| <= WORD
    ensures var headers := Walk(m, a, n);
            match FirstNamed(files, name)
            case None => SizeOf(m, headers, name) == 0 && Read(m, headers, name, offset, size) == None
            case Some(i) =>
              && SizeOf(m, headers, name) == |files[i].data|
              && (offset + size <= |files[i].data| ==>
                    Read(m, headers, name, offset, size) == Some(files[i].data[offset..offset + size]))
  {
    hide Walk, Positions, Lookup, Layout, Contains, Entry, HeaderOf, HeaderNumber, FirstNamed, Storable, Pow8, Named;
    WalkFinds(m, a, files, n);
    LookupFinds(m, a, files, name);
    var found := FirstNamed(files, name);
    if found.Some? {
      var f := files[found.value];
      var h := Positions(files, a)[found.value];
      SizeReadsBack(m, h, f);
      if offset + size <= |f.data| {
        DataSmall(f);
        DataAt(m, h, f);
        PartReadsBack(m, h + BLOCK, f.data, offset, size);
      }
    }
  }

  lemma DataSmall(f: File)
    requires Storable(f)
    ensures |f.data| + 1 < WORD
  {
    Eight();
  }

  lemma DataAt(m: Bytes, h: nat, f: File)
    requires Storable(f) && Contains(m, h, Entry(f))
    ensures Contains(m, h + BLOCK, f.data)
  {
    hide Contains;
    var padding := Zeros(Padding(|f.data|));
    assert Entry(f) == HeaderOf(f) + (f.data + padding);
    ContainsParts(m, h, HeaderOf(f), f.data + padding);
    ContainsParts(m, h + BLOCK, f.data, padding);
  }

  lemma PartReadsBack(m: Bytes, a: nat, s: Bytes, offset: nat, size: nat)
    requires Contains(m, a, s) && offset + size <= |s| && |m| <= WORD
    ensures BytesAt(m, a + offset, size) == s[offset..offset + size]
  {
    var r := BytesAt(m, a + offset, size);
    forall i | 0 <= i < size
      ensures r[i] == s[offset..offset + size][i]
    {
      ContainsAt(m, a, s, offset + i);
    }
  }

  class RamDisk {
    const memory: Bytes
    var headers: seq<nat>

    constructor (memory: Bytes)
      ensures this.memory == memory && headers == []
    {
      this.memory := memory;
      headers := [];
    }

    method Init(address: nat, size: nat)
      modifies this
      ensures headers == Walk(memory, address, size)
    {
      hide HeaderNumber, At, Walk, NextHeader;
      headers := [];
      var a: nat := address;
      var i: nat := 0;
      while i < size
        invariant i <= size && Walk(memory, address, size) == headers + Walk(memory, a, size - i)
      {
        if At(memory, a) == 0 {
          WalkEnds(memory, a, size - i);
          break;
        }
        var entrySize := GetHeaderNumber(memory, a);
        WalkOn(memory, a, size - i);
        assert headers + ([a] + Walk(memory, NextHeader(memory, a), size - i - 1)) == headers + [a] + Walk(memory, NextHeader(memory, a), size - i - 1);
        headers := headers + [a];
        ghost var here := a;
        a := (a + (entrySize / BLOCK + 1) * BLOCK) % WORD;
        if entrySize % BLOCK != 0 {
          a := (a + BLOCK) % WORD;
        }
        NextIs(memory, here, entrySize);
        i := i + 1;
      }
      WalkEnds(memory, a, size - i);
    }

    method GetSize(name: Bytes) returns (size: nat)
      ensures size == SizeOf(memory, headers, name)
    {
      for i := 0 to |headers|
        invariant Lookup(memory, headers, name) == Lookup(memory, headers[i..], name)
      {
        if Named(memory, headers[i], name) {
          size := GetHeaderNumber(memory, headers[i]);
          return;
        }
      }
      return 0;
    }

    method ReadFile(name: Bytes, offset: nat, size: nat) returns (r: Option<Bytes>)
      ensures r == Read(memory, headers, name, offset, size)
    {
      var fileSize := GetSize(name);
      if (size + offset) % WORD > (fileSize + 1) % WORD {
        return None;
      }
      for i := 0 to |headers|
        invariant Lookup(memory, headers, name) == Lookup(memory, headers[i..], name)
      {
        if Named(memory, headers[i], name) {
          return Some(BytesAt(memory, headers[i] + BLOCK + offset, size));
        }
      }
      return None;
    }
  }

  lemma WalkOn(m: Bytes, a: nat, n: nat)
    requires n > 0 && At(m, a) != 0
    ensures Walk(m, a, n) == [a] + Walk(m, NextHeader(m, a), n - 1)
  {
  }

  lemma WalkEnds(m: Bytes, a: nat, n: nat)
    requires n == 0 || At(m, a) == 0
    ensures Walk(m, a, n) == []
  {
  }

  /** The two steps of the address, of which the second is for what is left of a block. */
  lemma NextIs(m: Bytes, a: nat, size: nat)
    requires size == HeaderNumber(m, a)
    ensures var half := (a + (size / BLOCK + 1) * BLOCK) % WORD;
            NextHeader(m, a) == if size % BLOCK != 0 then (half + BLOCK) % WORD else half
  {
    hide HeaderNumber;
    TwoSteps(a, (size / BLOCK + 1) * BLOCK);
  }

  lemma TwoSteps(a: nat, n: nat)
    ensures ((a + n) % WORD + BLOCK) % WORD == (a + n + BLOCK) % WORD
  {
  }
}
