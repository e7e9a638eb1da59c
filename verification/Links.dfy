/**
 What the words that link one table to the next permit.  The processor grants an access only if every word
 on the path permits it, so a link that denies something denies it for all pages below.
 */
module Links {
  import opened Wrappers
  import opened RadixTree

  /** Bits that every link of a structure must have, and bits that none may have. */
  datatype Law = Law(on: set<nat>, off: set<nat>) {
    predicate Permits(bits: set<nat>) {
      on <= bits && off !! bits
    }
  }

  /** Processor tables: links are writable and for user mode, and do not forbid execution. */
  const PROCESSOR := Law({1, 2}, {63})

  /** Second-level tables: links are readable and writable, and do not permit execution. */
  const SECOND_LEVEL := Law({0, 1}, {2})

  /** Every link below the root entries `lo..hi` of `f` keeps to the law; words of last-level tables are free. */
  ghost predicate Linked(mem: Memory, f: Frame, h: nat, lo: nat, hi: nat, law: Law)
    decreases h
  {
    h <= 1 || forall i | lo <= i < hi && Has(mem, f, i) ::
      law.Permits(At(mem, f)[i].bits) && Linked(mem, Kid(mem, f, i), h - 1, 0, ENTRIES, law)
  }

  lemma LinkedKid(mem: Memory, f: Frame, h: nat, lo: nat, hi: nat, law: Law, i: nat)
    requires Linked(mem, f, h, lo, hi, law) && h >= 2 && lo <= i < hi && Has(mem, f, i)
    ensures law.Permits(At(mem, f)[i].bits) && Linked(mem, Kid(mem, f, i), h - 1, 0, ENTRIES, law)
  {
  }

  lemma LinkedPart(mem: Memory, f: Frame, h: nat, hi: nat, part: nat, law: Law)
    requires Linked(mem, f, h, 0, hi, law) && part <= hi
    ensures Linked(mem, f, h, 0, part, law)
  {
  }

  lemma NothingLinked(mem: Memory, f: Frame, h: nat, lo: nat, hi: nat, law: Law)
    requires forall i: nat | lo <= i < hi :: !Has(mem, f, i)
    ensures Linked(mem, f, h, lo, hi, law)
  {
  }

  /** The law is about the structure's own tables. */
  lemma {:induction false} LinkedFrame(m1: Memory, m2: Memory, f: Frame, h: nat, lo: nat, hi: nat, law: Law)
    requires SameOn(m1, m2, Frames(m1, f, h, lo, hi)) && Linked(m1, f, h, lo, hi, law)
    ensures Linked(m2, f, h, lo, hi, law)
    decreases h
  {
    if h > 1 {
      assert At(m1, f) == At(m2, f);
      forall i: nat | lo <= i < hi && Has(m2, f, i)
        ensures Linked(m2, Kid(m2, f, i), h - 1, 0, ENTRIES, law)
      {
        assert KidFrames(m1, f, h, i) <= Frames(m1, f, h, lo, hi);
        LinkedFrame(m1, m2, Kid(m1, f, i), h - 1, 0, ENTRIES, law);
      }
    }
  }

  /** Exchanging what lies below entry `a`. */
  lemma LinkedSplice(m1: Memory, m2: Memory, f: Frame, h: nat, lo: nat, hi: nat, a: nat, law: Law)
    requires h >= 2 && hi <= ENTRIES && Linked(m1, f, h, lo, hi, law) && KidsKept(m1, m2, f, h, lo, hi, a)
    requires lo <= a < hi && Has(m2, f, a) ==> law.Permits(At(m2, f)[a].bits) && Linked(m2, Kid(m2, f, a), h - 1, 0, ENTRIES, law)
    ensures Linked(m2, f, h, lo, hi, law)
  {
    forall j: nat | lo <= j < hi && j != a && Has(m2, f, j)
      ensures law.Permits(At(m2, f)[j].bits) && Linked(m2, Kid(m2, f, j), h - 1, 0, ENTRIES, law)
    {
      LinkedKid(m1, f, h, lo, hi, law, j);
      LinkedFrame(m1, m2, Kid(m1, f, j), h - 1, 0, ENTRIES, law);
    }
  }

  /** Entries that a write to table `t`, and to nothing else of the tree, leaves alone. */
  lemma KeptBeside(mem: Memory, m2: Memory, f: Frame, h: nat, lo: nat, hi: nat, a: nat, fs: set<Frame>)
    requires Tree(mem, f, h, lo, hi) && h >= 2 && hi <= ENTRIES
    requires forall g: Frame | g !in fs :: At(m2, g) == At(mem, g)
    requires forall j: nat | lo <= j < hi && j != a :: At(m2, f)[j] == At(mem, f)[j] && fs !! KidFrames(mem, f, h, j)
    ensures KidsKept(mem, m2, f, h, lo, hi, a)
  {
  }

  /** A new, empty table keeps the law if its link does. */
  lemma {:induction false} LinkLawful(mem: Memory, f: Frame, h: nat, lo: nat, hi: nat, p: seq<nat>, i: nat, w: Word, law: Law)
    requires Tree(mem, f, h, lo, hi) && hi <= ENTRIES && Linked(mem, f, h, lo, hi, law)
    requires IsPath(p) && |p| + 2 <= h && i < ENTRIES && lo <= (p + [i])[0] < hi
    requires Reaches(mem, f, p) && !Has(mem, NodeAt(mem, f, p), i)
    requires w.Present() && law.Permits(w.bits) && w.frame !in Frames(mem, f, h, lo, hi)
    ensures Linked(Store(mem[w.frame := ZeroPage()], NodeAt(mem, f, p), i, w), f, h, lo, hi, law)
    decreases h
  {
    hide Tree, Frames, Linked;
    var t := NodeAt(mem, f, p);
    var m2 := Store(mem[w.frame := ZeroPage()], t, i, w);
    var a := (p + [i])[0];
    RootInFrames(mem, f, h, lo, hi);
    forall j: nat | lo <= j < hi
      ensures w.frame !in KidFrames(mem, f, h, j)
    {
      KidInFrames(mem, f, h, lo, hi, j);
    }
    if p == [] {
      BesideRoot(mem, f, h, lo, hi, i);
      NothingLinked(m2, w.frame, h - 1, 0, ENTRIES, law);
    } else {
      NodeBelow(mem, f, h, lo, hi, p);
      BesideNode(mem, f, h, lo, hi, p);
      TreeKid(mem, f, h, lo, hi, a);
      LinkedKid(mem, f, h, lo, hi, law, a);
      assert (p + [i])[1..] == p[1..] + [i];
      LinkLawful(mem, Kid(mem, f, a), h - 1, 0, ENTRIES, p[1..], i, w, law);
    }
    KeptBeside(mem, m2, f, h, lo, hi, a, {t, w.frame});
    LinkedSplice(mem, m2, f, h, lo, hi, a, law);
  }

  /** The root is in no subtree below it. */
  lemma BesideRoot(mem: Memory, f: Frame, h: nat, lo: nat, hi: nat, a: nat)
    requires Tree(mem, f, h, lo, hi) && h >= 2 && hi <= ENTRIES
    ensures forall j: nat | lo <= j < hi && j != a :: f !in KidFrames(mem, f, h, j)
  {
  }

  lemma BesideNode(mem: Memory, f: Frame, h: nat, lo: nat, hi: nat, p: seq<nat>)
    requires Tree(mem, f, h, lo, hi) && hi <= ENTRIES
    requires IsPath(p) && 0 < |p| < h && Reaches(mem, f, p) && lo <= p[0] < hi
    ensures forall j: nat | lo <= j < hi && j != p[0] :: NodeAt(mem, f, p) !in KidFrames(mem, f, h, j)
  {
    hide Tree, Frames;
    NodeBelow(mem, f, h, lo, hi, p);
  }

  /** Words of last-level tables do not matter. */
  lemma {:induction false} LeafLawful(mem: Memory, f: Frame, h: nat, lo: nat, hi: nat, p: seq<nat>, i: nat, w: Word, law: Law)
    requires Tree(mem, f, h, lo, hi) && hi <= ENTRIES && Linked(mem, f, h, lo, hi, law)
    requires IsPath(p) && |p| + 1 == h && i < ENTRIES && lo <= (p + [i])[0] < hi && Reaches(mem, f, p)
    ensures Linked(Store(mem, NodeAt(mem, f, p), i, w), f, h, lo, hi, law)
    decreases h
  {
    hide Tree, Frames, Linked;
    var t := NodeAt(mem, f, p);
    var m2 := Store(mem, t, i, w);
    if p == [] {
      LastLevel(m2, f, lo, hi, law);
    } else {
      NodeBelow(mem, f, h, lo, hi, p);
      BesideNode(mem, f, h, lo, hi, p);
      TreeKid(mem, f, h, lo, hi, p[0]);
      LinkedKid(mem, f, h, lo, hi, law, p[0]);
      LeafLawful(mem, Kid(mem, f, p[0]), h - 1, 0, ENTRIES, p[1..], i, w, law);
      KeptBeside(mem, m2, f, h, lo, hi, p[0], {t});
      LinkedSplice(mem, m2, f, h, lo, hi, p[0], law);
    }
  }

  lemma LastLevel(mem: Memory, f: Frame, lo: nat, hi: nat, law: Law)
    ensures Linked(mem, f, 1, lo, hi, law)
  {
  }

  /** A lawful tree is linked under the next entry by a lawful word. */
  lemma GraftLawful(m1: Memory, f: Frame, h: nat, i: nat, w: Word, law: Law)
    requires Tree(m1, f, h, 0, i) && h >= 2 && i < ENTRIES && Linked(m1, f, h, 0, i, law)
    requires law.Permits(w.bits) && Linked(m1, w.frame, h - 1, 0, ENTRIES, law)
    requires f !in Frames(m1, w.frame, h - 1, 0, ENTRIES)
    ensures Linked(Store(m1, f, i, w), f, h, 0, i + 1, law)
  {
    hide Tree, Frames, Linked;
    var m2 := Store(m1, f, i, w);
    GraftKept(m1, f, h, i, w);
    LinkedSplice(m1, m2, f, h, 0, i, ENTRIES, law);
    LinkedFrame(m1, m2, w.frame, h - 1, 0, ENTRIES, law);
    LinkedNext(m2, f, h, i, law);
  }

  lemma LinkedNext(mem: Memory, f: Frame, h: nat, i: nat, law: Law)
    requires h >= 2 && i < ENTRIES && Linked(mem, f, h, 0, i, law)
    requires Has(mem, f, i) ==> law.Permits(At(mem, f)[i].bits) && Linked(mem, Kid(mem, f, i), h - 1, 0, ENTRIES, law)
    ensures Linked(mem, f, h, 0, i + 1, law)
  {
  }

  /** A root word beyond the entries looked at is written. */
  lemma BeyondLawful(m1: Memory, g: Frame, h: nat, n: nat, i: nat, w: Word, law: Law)
    requires Tree(m1, g, h, 0, n) && h >= 2 && n <= i < ENTRIES && Linked(m1, g, h, 0, n, law)
    ensures Linked(Store(m1, g, i, w), g, h, 0, n, law)
  {
    hide Tree, Frames, Linked;
    var m2 := Store(m1, g, i, w);
    BesideRoot(m1, g, h, 0, n, ENTRIES);
    KeptBeside(m1, m2, g, h, 0, n, ENTRIES, {g});
    LinkedSplice(m1, m2, g, h, 0, n, ENTRIES, law);
  }

  // ---------------------------------------------------------------- rights of a path

  /** A path leads to a last word, and every word on it has the bit. */
  predicate AllHave(mem: Memory, f: Frame, p: seq<nat>, bit: nat)
    requires IsPath(p) && |p| >= 1
    decreases |p|
  {
    && bit in At(mem, f)[p[0]].bits
    && (|p| > 1 ==> Has(mem, f, p[0]) && AllHave(mem, Kid(mem, f, p[0]), p[1..], bit))
  }

  /** Some word on the path has the bit. */
  predicate SomeHas(mem: Memory, f: Frame, p: seq<nat>, bit: nat)
    requires IsPath(p) && |p| >= 1
    decreases |p|
  {
    || bit in At(mem, f)[p[0]].bits
    || (|p| > 1 && Has(mem, f, p[0]) && SomeHas(mem, Kid(mem, f, p[0]), p[1..], bit))
  }

  /** What the processor lets a program do at the end of a path. */
  datatype Rights = Rights(write: bool, user: bool, noExecute: bool)

  /** Writing and user access need their bit in every word of the path; one word is enough to forbid execution. */
  function RightsOf(mem: Memory, root: Frame, p: seq<nat>): Option<Rights>
    requires IsPath(p) && |p| >= 1
  {
    if Walk(mem, root, p).None? then None
    else Some(Rights(AllHave(mem, root, p, 1), AllHave(mem, root, p, 2), SomeHas(mem, root, p, 63)))
  }

  /** What the last word says. */
  function LastRights(e: Option<Word>): Option<Rights> {
    if e.None? then None else Some(Rights(1 in e.value.bits, 2 in e.value.bits, 63 in e.value.bits))
  }

  /** Where all links have a bit, the last word decides whether all words of a path have it. */
  lemma {:induction false} LastDecidesAll(mem: Memory, f: Frame, h: nat, lo: nat, hi: nat, law: Law, p: seq<nat>, bit: nat)
    requires Linked(mem, f, h, lo, hi, law) && bit in law.on && hi <= ENTRIES
    requires IsPath(p) && |p| == h && h >= 1 && lo <= p[0] < hi && Walk(mem, f, p).Some?
    ensures AllHave(mem, f, p, bit) <==> bit in Walk(mem, f, p).value.bits
    decreases h
  {
    if h > 1 {
      LinkedKid(mem, f, h, lo, hi, law, p[0]);
      LastDecidesAll(mem, Kid(mem, f, p[0]), h - 1, 0, ENTRIES, law, p[1..], bit);
    }
  }

  /** Where no link has a bit, the last word decides whether some word of a path has it. */
  lemma {:induction false} LastDecidesSome(mem: Memory, f: Frame, h: nat, lo: nat, hi: nat, law: Law, p: seq<nat>, bit: nat)
    requires Linked(mem, f, h, lo, hi, law) && bit in law.off && hi <= ENTRIES
    requires IsPath(p) && |p| == h && h >= 1 && lo <= p[0] < hi && Walk(mem, f, p).Some?
    ensures SomeHas(mem, f, p, bit) <==> bit in Walk(mem, f, p).value.bits
    decreases h
  {
    if h > 1 {
      LinkedKid(mem, f, h, lo, hi, law, p[0]);
      LastDecidesSome(mem, Kid(mem, f, p[0]), h - 1, 0, ENTRIES, law, p[1..], bit);
    }
  }

  /** In processor tables that keep to the law, the last word of a path decides its rights. */
  lemma LastDecides(mem: Memory, f: Frame, h: nat, hi: nat, p: seq<nat>)
    requires Linked(mem, f, h, 0, hi, PROCESSOR) && hi <= ENTRIES && IsPath(p) && |p| == h && h >= 1 && p[0] < hi
    ensures RightsOf(mem, f, p) == LastRights(Walk(mem, f, p))
  {
    hide Walk, AllHave, SomeHas, Linked;
    if Walk(mem, f, p).Some? {
      LastDecidesAll(mem, f, h, 0, hi, PROCESSOR, p, 1);
      LastDecidesAll(mem, f, h, 0, hi, PROCESSOR, p, 2);
      LastDecidesSome(mem, f, h, 0, hi, PROCESSOR, p, 63);
    }
  }

  /** Through the same root word two roots give the same rights. */
  lemma SharedRights(mem: Memory, r: Frame, k: Frame, p: seq<nat>)
    requires IsPath(p) && |p| >= 1 && At(mem, r)[p[0]] == At(mem, k)[p[0]]
    ensures RightsOf(mem, r, p) == RightsOf(mem, k, p)
  {
  }
}
