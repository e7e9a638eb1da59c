/** Threads that start, are cloned and die, among all other memory-management calls: when a frame is granted twice. */
module ContextRuns {
  import opened Wrappers
  import opened FrameRuns
  import opened FrameDrain
  import opened RadixTree
  import opened Ownership
  import opened Machine
  import opened Fork
  import opened Teardown
  import opened Runs

  datatype ThreadCall =
    | Other(call: Call)
    | StartCall(c: Id)
    | KillCall(c: Id, frames: seq<Frame>)
    | CloneCall(src: Id, c: Id)

  // ---------------------------------------------------------------- what can be told from the calls alone

  /** The call kills or clones into a context that has a root. */
  predicate Hits(rooted: set<Id>, call: ThreadCall) {
    (call.KillCall? || call.CloneCall?) && call.c in rooted
  }

  function RootedAfter(rooted: set<Id>, call: ThreadCall): set<Id> {
    if call.Other? then rooted else rooted + {call.c}
  }

  /** Some call of the sequence does, where it happens. */
  predicate HitsRooted(rooted: set<Id>, calls: seq<ThreadCall>)
    decreases |calls|
  {
    calls != [] && (Hits(rooted, calls[0]) || HitsRooted(RootedAfter(rooted, calls[0]), calls[1..]))
  }

  // ---------------------------------------------------------------- contexts and spaces

  ghost predicate Distinct(xs: map<Id, Context>) {
    forall c, d | c in xs && d in xs && c != d :: xs[c] != xs[d]
  }

  /** The contexts that have a root. */
  function Rooted(xs: map<Id, Context>): set<Id>
    reads xs.Values
  {
    set c | c in xs && xs[c].pagingInfo.Some?
  }

  /** A context has a root exactly when it is a live user space, and then it is that space's root. */
  ghost predicate TiedOne(spaces: map<Id, Space>, c: Id, x: Context)
    reads x
  {
    && c != KERNEL && (c in spaces ==> UserSpace(spaces, c))
    && x.pagingInfo == if c in spaces then Some(spaces[c].root) else None
  }

  ghost predicate TiedBut(spaces: map<Id, Space>, xs: map<Id, Context>, but: set<Id>)
    reads xs.Values
  {
    forall c | c in xs && c !in but :: TiedOne(spaces, c, xs[c])
  }

  ghost predicate Tied(spaces: map<Id, Space>, xs: map<Id, Context>)
    reads xs.Values
  {
    TiedBut(spaces, xs, {})
  }

  /** The frames granted from here on are all different, and none is the root of a context. */
  ghost predicate GrantsOnce(xs: map<Id, Context>, runs: seq<Run>)
    reads xs.Values
  {
    && NoRepeat(Drain(runs))
    && forall c | c in xs && xs[c].pagingInfo.Some? :: xs[c].pagingInfo.value !in Drain(runs)
  }

  /** In a sound state they are. */
  lemma SoundGrantsOnce(m: Memories, xs: map<Id, Context>)
    requires m.Valid() && Tied(m.spaces, xs)
    ensures GrantsOnce(xs, m.pmm.Runs())
  {
    hide Drain, NoRepeat, FreeSet, Disjoint, World, InRam, AllTables;
    var runs := m.pmm.Runs();
    DrainIff(runs);
    forall c | c in xs && xs[c].pagingInfo.Some?
      ensures xs[c].pagingInfo.value !in Drain(runs)
    {
      assert TiedOne(m.spaces, c, xs[c]);
      LiveTree(m.mem, m.spaces, m.pmm.Frames(), c);
      DrainMembers(runs, m.spaces[c].root);
    }
  }

  lemma LiveTree(mem: Memory, spaces: map<Id, Space>, free: set<Frame>, c: Id)
    requires World(mem, spaces, free) && UserSpace(spaces, c)
    ensures Tree(mem, spaces[c].root, 4, 0, HALF) && spaces[c].root !in free
  {
    hide AllApart, AllShare, Tree, Frames;
    assert IsTree(mem, spaces[c]);
    RootInFrames(mem, spaces[c].root, 4, 0, HALF);
    assert spaces[c].root in Tables(mem, spaces[c]);
  }

  /** A root that is among the frames still to be granted, or a repeat among those. */
  lemma RepeatShows(xs: map<Id, Context>, c: Id, runs: seq<Run>)
    requires c in xs && xs[c].pagingInfo.Some? && !NoRepeat([xs[c].pagingInfo.value] + Drain(runs))
    ensures !GrantsOnce(xs, runs)
  {
    hide Drain;
    NoRepeatConcat([xs[c].pagingInfo.value], Drain(runs));
  }

  // ---------------------------------------------------------------- steps

  /** A thread's recorded frames are among those held; other calls leave the threads' spaces to them. */
  predicate Possible(spaces: map<Id, Space>, ids: set<Id>, held: set<Frame>, forkable: bool, call: ThreadCall) {
    match call
    case Other(call) => Allowed(spaces, held, forkable, call) && (Named(call).Some? ==> Named(call).value !in ids)
    case StartCall(c) => c in ids
    case KillCall(c, frames) => c in ids && NoRepeat(frames) && forall f | f in frames :: f in held
    case CloneCall(src, c) => c in ids && (src == KERNEL || UserSpace(spaces, src))
  }

  /** Kill, or clone into, a context that has a root: from then on some frame is granted twice. */
  method Hit(m: Memories, xs: map<Id, Context>, held: set<Frame>, ghost forkable: bool, call: ThreadCall) returns (ok: bool)
    requires m.Valid() && Held(m.Pool(), held) && Tied(m.spaces, xs)
    requires Possible(m.spaces, xs.Keys, held, forkable, call) && Hits(Rooted(xs), call)
    modifies m, m.pmm, m.pmm.stack, xs.Values
    ensures ok ==> m.pmm.Roomy() && !GrantsOnce(xs, m.pmm.Runs())
    ensures !ok ==> m.pmm.OutOfFrames() || m.pmm.StackFull()
  {
    hide World, AllTables, Drain, NoRepeat, Tree, GrantsOnce;
    assert TiedOne(m.spaces, call.c, xs[call.c]);
    var x := xs[call.c];
    LiveTree(m.mem, m.spaces, m.pmm.Frames(), call.c);
    if call.KillCall? {
      HeldApart(m.Pool(), held, call.frames);
      ok := Kill(m, x, call.frames);
    } else {
      ok := x.Reset(m);
    }
    if ok {
      RepeatShows(xs, call.c, m.pmm.Runs());
    }
  }

  lemma HeldApart(pool: set<Frame>, held: set<Frame>, frames: seq<Frame>)
    requires Held(pool, held) && forall f | f in frames :: f in held
    ensures Elements(frames) !! pool && InRam(Elements(frames)) && Elements(frames) == set f | f in frames
  {
  }

  /** Give up the frames that a thread had recorded. */
  method FreeRecorded(m: Memories, held: set<Frame>, frames: seq<Frame>) returns (ok: bool, after: set<Frame>)
    requires m.Valid() && Held(m.Pool(), held) && NoRepeat(frames) && forall f | f in frames :: f in held
    modifies m.pmm, m.pmm.stack
    ensures ok ==> m.Valid() && Held(m.Pool(), after) && m.Pool() + after == old(m.Pool()) + held && after == held - set f | f in frames
    ensures !ok ==> m.pmm.StackFull()
  {
    hide World, AllTables, NoRepeat, Memories.Pool;
    HeldApart(m.Pool(), held, frames);
    ghost var pool := m.Pool();
    ok := FreePages(m, frames);
    after := held - set f | f in frames;
    if ok {
      FreedHeld(pool, m.Pool(), held, frames);
    }
  }

  lemma FreedHeld(pool1: set<Frame>, pool2: set<Frame>, held: set<Frame>, frames: seq<Frame>)
    requires Held(pool1, held) && (forall f | f in frames :: f in held) && pool2 == pool1 + Elements(frames)
    ensures Held(pool2, held - set f | f in frames) && pool2 + (held - set f | f in frames) == pool1 + held
  {
  }

  /** A context without a space gets one, and takes its root. */
  method Renew(m: Memories, xs: map<Id, Context>, held: set<Frame>, forkable: bool, call: Call) returns (ok: bool, after: set<Frame>, still: bool)
    requires m.Valid() && Held(m.Pool(), held) && Allowed(m.spaces, held, forkable, call) && (call.CallInit? || call.CallClone?)
    requires forkable ==> Forkable(m.mem, m.spaces)
    requires Distinct(xs) && Named(call).value in xs && Named(call).value != KERNEL && TiedBut(m.spaces, xs, {Named(call).value})
    modifies m, m.pmm, m.pmm.stack, xs.Values
    ensures ok ==> m.Valid() && Held(m.Pool(), after) && Tied(m.spaces, xs) && (still ==> Forkable(m.mem, m.spaces)) && still == forkable
    ensures ok ==> Rooted(xs) == old(Rooted(xs)) + {Named(call).value}
    ensures ok ==> Did(old(m.mem), old(m.spaces), held, m.mem, m.spaces, after, call) && SpacesKept(old(m.spaces), m.spaces, Named(call))
    ensures !ok ==> m.pmm.OutOfFrames() || m.pmm.StackFull()
  {
    hide World, AllTables, Held, Forkable, LosesNone, Memories.Pool, UserSpace, Allowed, Did;
    var c := Named(call).value;
    ok, after, still := Step(m, held, forkable, call);
    if ok {
      HasRoot(m.spaces, c);
      xs[c].pagingInfo := Some(m.spaces[c].root);
      assert TiedOne(m.spaces, c, xs[c]);
      forall d | d in xs && d != c
        ensures TiedOne(m.spaces, d, xs[d])
      {
        assert old(TiedOne(m.spaces, d, xs[d]));
        SameSpace(old(m.spaces), m.spaces, d);
      }
    }
  }

  lemma HasRoot(spaces: map<Id, Space>, c: Id)
    requires UserSpace(spaces, c)
    ensures c in spaces
  {
  }

  lemma SameSpace(s1: map<Id, Space>, s2: map<Id, Space>, c: Id)
    requires (c in s2 <==> c in s1) && (c in s1 ==> s2[c] == s1[c])
    ensures UserSpace(s1, c) <==> UserSpace(s2, c)
  {
  }

  /** Contexts whose spaces a call leaves alone stay tied to them. */
  lemma StaysTied(s1: map<Id, Space>, s2: map<Id, Space>, xs: map<Id, Context>, named: Option<Id>, but: set<Id>)
    requires Tied(s1, xs) && SpacesKept(s1, s2, named) && (named.Some? && named.value in xs ==> named.value in but)
    ensures TiedBut(s2, xs, but)
  {
    forall d | d in xs && d !in but
      ensures TiedOne(s2, d, xs[d])
    {
      assert TiedOne(s1, d, xs[d]);
    }
  }

  /** A context is initialised: one that has a root is torn down first, once. */
  method Start(m: Memories, xs: map<Id, Context>, held: set<Frame>, forkable: bool, c: Id) returns (ok: bool, after: set<Frame>, still: bool)
    requires m.Valid() && Held(m.Pool(), held) && (forkable ==> Forkable(m.mem, m.spaces))
    requires Distinct(xs) && Tied(m.spaces, xs) && c in xs
    modifies m, m.pmm, m.pmm.stack, xs.Values
    ensures ok ==> m.Valid() && Held(m.Pool(), after) && Tied(m.spaces, xs) && (still ==> Forkable(m.mem, m.spaces))
    ensures ok ==> Rooted(xs) == old(Rooted(xs)) + {c}
    ensures ok ==> after == held && Started(m.mem, m.spaces, c) && SpacesKept(old(m.spaces), m.spaces, Some(c))
    ensures !ok ==> m.pmm.OutOfFrames() || m.pmm.StackFull()
  {
    hide World, AllTables, Held, Forkable, LosesNone, Memories.Pool, Rooted, Blank;
    after, still := held, forkable;
    assert TiedOne(m.spaces, c, xs[c]);
    if c in m.spaces {
      ok, after, still := Step(m, after, still, CallDeinit(c));
      if !ok {
        return;
      }
      StaysTied(old(m.spaces), m.spaces, xs, Some(c), {c});
    }
    ok, after, still := Renew(m, xs, after, still, CallInit(c));
  }

  /** The context is a user space that maps nothing. */
  ghost predicate Started(mem: Memory, spaces: map<Id, Space>, c: Id) {
    UserSpace(spaces, c) && Blank(mem, spaces[c])
  }

  /** What a call that hits no root did, from one moment to the next. */
  ghost predicate Went(m1: Memory, s1: map<Id, Space>, h1: set<Frame>, m2: Memory, s2: map<Id, Space>, h2: set<Frame>, call: ThreadCall) {
    match call
    case Other(other) => Did(m1, s1, h1, m2, s2, h2, other) && SpacesKept(s1, s2, Named(other))
    case StartCall(c) => h2 == h1 && Started(m2, s2, c) && SpacesKept(s1, s2, Some(c))
    case KillCall(c, frames) => h2 == h1 - (set f | f in frames) && Started(m2, s2, c) && SpacesKept(s1, s2, Some(c))
    case CloneCall(src, c) => h2 == h1 && src in s1 && UserSpace(s2, c) && SameView(m1, s1[src], m2, s2[c]) && SpacesKept(s1, s2, Some(c))
  }

  /** Requests that can fail while frames are left. */
  predicate MayFail(call: ThreadCall) {
    call.Other? && (call.call.CallAllocMany? || call.call.CallAnonymous?)
  }

  /** Any call that hits no root keeps everything sound. */
  method Quiet(m: Memories, xs: map<Id, Context>, held: set<Frame>, forkable: bool, call: ThreadCall) returns (ok: bool, after: set<Frame>, still: bool)
    requires m.Valid() && Held(m.Pool(), held) && Possible(m.spaces, xs.Keys, held, forkable, call)
    requires forkable ==> Forkable(m.mem, m.spaces)
    requires Distinct(xs) && Tied(m.spaces, xs) && !Hits(Rooted(xs), call)
    modifies m, m.pmm, m.pmm.stack, xs.Values
    ensures ok ==> m.Valid() && Held(m.Pool(), after) && Tied(m.spaces, xs) && (still ==> Forkable(m.mem, m.spaces))
    ensures ok ==> Rooted(xs) == RootedAfter(old(Rooted(xs)), call)
    ensures ok ==> Went(old(m.mem), old(m.spaces), held, m.mem, m.spaces, after, call)
    ensures !ok ==> m.pmm.OutOfFrames() || m.pmm.StackFull() || MayFail(call)
  {
    hide World, AllTables, Held, Forkable, LosesNone, KeepsForkable, Memories.Pool, SpacesKept, Blank, SameView;
    after, still := held, forkable;
    assert call.Other? || TiedOne(m.spaces, call.c, xs[call.c]);
    match call
    case Other(other) =>
      ok, after, still := Step(m, held, forkable, other);
      if ok {
        StaysTied(old(m.spaces), m.spaces, xs, Named(other), {});
      }
    case StartCall(c) =>
      ok, after, still := Start(m, xs, after, still, c);
    case KillCall(c, frames) =>
      ok, after := FreeRecorded(m, after, frames);
      if ok {
        ok, after, still := Renew(m, xs, after, still, CallInit(c));
      }
    case CloneCall(src, c) =>
      ok, after, still := Renew(m, xs, after, still, CallClone(src, c));
  }

  /** The machine before a call; `rooted` are the contexts that have a root. */
  datatype ContextMoment = ContextMoment(mem: Memory, spaces: map<Id, Space>, held: set<Frame>, forkable: bool, rooted: set<Id>)

  predicate CanHappen(ids: set<Id>, a: ContextMoment, call: ThreadCall) {
    Possible(a.spaces, ids, a.held, a.forkable, call)
  }

  /** From one moment to the next: a call that is possible happens and hits no root, any other is skipped. */
  ghost predicate Goes(ids: set<Id>, a: ContextMoment, b: ContextMoment, call: ThreadCall) {
    if !CanHappen(ids, a, call) then b == a
    else
      && !Hits(a.rooted, call) && b.rooted == RootedAfter(a.rooted, call)
      && Went(a.mem, a.spaces, a.held, b.mem, b.spaces, b.held, call)
  }

  /** The moments of a run up to its end or to the first call that hits a root. */
  ghost predicate ContextTrace(ids: set<Id>, trace: seq<ContextMoment>, calls: seq<ThreadCall>) {
    && 1 <= |trace| <= |calls| + 1
    && (forall i | 0 <= i < |trace| - 1 :: Goes(ids, trace[i], trace[i + 1], calls[i]))
    && (|trace| <= |calls| ==> CanHappen(ids, trace[|trace| - 1], calls[|trace| - 1]) && Hits(trace[|trace| - 1].rooted, calls[|trace| - 1]))
  }

  /** The calls of the run that happen, the one that hits a root included. */
  function Happening(ids: set<Id>, trace: seq<ContextMoment>, calls: seq<ThreadCall>): seq<ThreadCall>
    decreases |calls|
  {
    if calls == [] || trace == [] then []
    else (if CanHappen(ids, trace[0], calls[0]) then [calls[0]] else []) + Happening(ids, trace[1..], calls[1..])
  }

  /** A run is cut short exactly if one of the calls that happen hits a root where it does. */
  lemma {:induction false} CutShortIff(ids: set<Id>, trace: seq<ContextMoment>, calls: seq<ThreadCall>)
    requires ContextTrace(ids, trace, calls)
    ensures |trace| <= |calls| <==> HitsRooted(trace[0].rooted, Happening(ids, trace, calls))
    decreases |calls|
  {
    hide CanHappen, Went, Hits, RootedAfter;
    if calls != [] {
      if |trace| == 1 {
        assert Happening(ids, trace[1..], calls[1..]) == [];
        assert Happening(ids, trace, calls) == [calls[0]];
      } else {
        assert Goes(ids, trace[0], trace[1], calls[0]);
        RestGoes(ids, trace, calls);
        CutShortIff(ids, trace[1..], calls[1..]);
        var rest := Happening(ids, trace[1..], calls[1..]);
        if CanHappen(ids, trace[0], calls[0]) {
          assert ([calls[0]] + rest)[1..] == rest;
          assert Happening(ids, trace, calls) == [calls[0]] + rest;
        } else {
          assert Happening(ids, trace, calls) == rest;
        }
      }
    }
  }

  lemma RestGoes(ids: set<Id>, trace: seq<ContextMoment>, calls: seq<ThreadCall>)
    requires ContextTrace(ids, trace, calls) && |trace| > 1
    ensures ContextTrace(ids, trace[1..], calls[1..])
  {
    hide Goes, CanHappen, Hits;
    var t, c := trace[1..], calls[1..];
    forall i | 0 <= i < |t| - 1
      ensures Goes(ids, t[i], t[i + 1], c[i])
    {
      assert t[i] == trace[i + 1] && t[i + 1] == trace[i + 1 + 1] && c[i] == calls[i + 1];
    }
    assert t[|t| - 1] == trace[|trace| - 1] && (|t| <= |c| ==> c[|t| - 1] == calls[|trace| - 1]);
  }

  /** The moments so far, none of whose calls has hit a root. */
  ghost predicate SoFar(ids: set<Id>, trace: seq<ContextMoment>, calls: seq<ThreadCall>) {
    1 <= |trace| <= |calls| + 1 && forall i | 0 <= i < |trace| - 1 :: Goes(ids, trace[i], trace[i + 1], calls[i])
  }

  lemma FirstMoment(ids: set<Id>, trace: seq<ContextMoment>, calls: seq<ThreadCall>)
    requires |trace| == 1
    ensures SoFar(ids, trace, calls)
  {
  }

  lemma NextMoment(ids: set<Id>, trace: seq<ContextMoment>, calls: seq<ThreadCall>, b: ContextMoment)
    requires SoFar(ids, trace, calls) && |trace| <= |calls| && Goes(ids, trace[|trace| - 1], b, calls[|trace| - 1])
    ensures SoFar(ids, trace + [b], calls)
  {
    hide Goes;
    var t := trace + [b];
    forall i | 0 <= i < |t| - 1
      ensures Goes(ids, t[i], t[i + 1], calls[i])
    {
      assert i < |trace| - 1 ==> t[i] == trace[i] && t[i + 1] == trace[i + 1];
    }
  }

  /**
   Any sequence of calls, of which those that are not possible where they come are skipped, followed up to the
   first that hits a root.  Unless the kernel stops, every call up to there did what it is for, and no frame is
   granted twice from there on exactly when no call killed, or cloned into, a context that had a root.
   */
  method ExecuteThreads(m: Memories, xs: map<Id, Context>, start: set<Frame>, startForkable: bool, calls: seq<ThreadCall>)
    returns (ok: bool, held: set<Frame>, ghost trace: seq<ContextMoment>)
    requires m.Valid() && Held(m.Pool(), start) && (startForkable ==> Forkable(m.mem, m.spaces))
    requires Distinct(xs) && Tied(m.spaces, xs)
    modifies m, m.pmm, m.pmm.stack, xs.Values
    ensures ok ==> ContextTrace(xs.Keys, trace, calls)
    ensures ok ==> trace[0] == ContextMoment(old(m.mem), old(m.spaces), start, startForkable, old(Rooted(xs)))
    ensures ok ==> m.pmm.Roomy() && (GrantsOnce(xs, m.pmm.Runs()) <==> !HitsRooted(old(Rooted(xs)), Happening(xs.Keys, trace, calls)))
    ensures ok && !HitsRooted(old(Rooted(xs)), Happening(xs.Keys, trace, calls)) ==>
              && m.Valid() && Held(m.Pool(), held) && Tied(m.spaces, xs) && |trace| == |calls| + 1
              && trace[|calls|].mem == m.mem && trace[|calls|].spaces == m.spaces && trace[|calls|].held == held && trace[|calls|].rooted == Rooted(xs)
    ensures !ok ==> m.pmm.OutOfFrames() || m.pmm.StackFull() || exists x | x in calls :: MayFail(x)
  {
    hide World, AllTables, Held, Forkable, GrantsOnce, HitsRooted, Tied, Distinct, Rooted, Hits, RootedAfter, Memories.Pool, Possible, Went, Goes, SoFar, Happening, ContextTrace;
    held, ok := start, true;
    var forkable := startForkable;
    ghost var ids := xs.Keys;
    trace := [ContextMoment(m.mem, m.spaces, held, forkable, Rooted(xs))];
    FirstMoment(ids, trace, calls);
    for i := 0 to |calls|
      invariant m.Valid() && Held(m.Pool(), held) && (forkable ==> Forkable(m.mem, m.spaces)) && Tied(m.spaces, xs)
      invariant ok && |trace| == i + 1 && SoFar(ids, trace, calls)
      invariant trace[0] == ContextMoment(old(m.mem), old(m.spaces), start, startForkable, old(Rooted(xs)))
      invariant trace[i] == ContextMoment(m.mem, m.spaces, held, forkable, Rooted(xs))
    {
      ghost var a := trace[i];
      if Possible(m.spaces, xs.Keys, held, forkable, calls[i]) {
        if Hits(Rooted(xs), calls[i]) {
          Ends(ids, trace, calls);
          CutShortIff(ids, trace, calls);
          ok := Hit(m, xs, held, forkable, calls[i]);
          return;
        }
        ok, held, forkable := Quiet(m, xs, held, forkable, calls[i]);
        if !ok {
          return;
        }
      }
      ghost var b := ContextMoment(m.mem, m.spaces, held, forkable, Rooted(xs));
      Gone(ids, a, b, calls[i]);
      NextMoment(ids, trace, calls, b);
      trace := trace + [b];
    }
    Ends(ids, trace, calls);
    CutShortIff(ids, trace, calls);
    SoundGrantsOnce(m, xs);
  }

  lemma Ends(ids: set<Id>, trace: seq<ContextMoment>, calls: seq<ThreadCall>)
    requires SoFar(ids, trace, calls)
    requires |trace| <= |calls| ==> CanHappen(ids, trace[|trace| - 1], calls[|trace| - 1]) && Hits(trace[|trace| - 1].rooted, calls[|trace| - 1])
    ensures ContextTrace(ids, trace, calls)
  {
    hide Goes, CanHappen, Hits;
  }

  lemma Gone(ids: set<Id>, a: ContextMoment, b: ContextMoment, call: ThreadCall)
    requires !CanHappen(ids, a, call) ==> b == a
    requires CanHappen(ids, a, call) ==>
               !Hits(a.rooted, call) && b.rooted == RootedAfter(a.rooted, call) && Went(a.mem, a.spaces, a.held, b.mem, b.spaces, b.held, call)
    ensures Goes(ids, a, b, call)
  {
    hide CanHappen, Hits, RootedAfter, Went;
  }
}
