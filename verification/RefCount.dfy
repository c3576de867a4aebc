/** Reference counts of pages under every interleaving of threads that get and put them. */
module RefCount {
  import opened Atomics
  import opened Buddy
  import opened BuddyFree
  import opened BuddyRuns
  import opened Addresses
  import opened PagePools

  /** What a thread is doing with one page: nothing, or a put that has counted down and not yet
      tested the value that the atomic step returned. */
  datatype Local = Idle | Testing(before: int)

  /** The 32-bit count that get_head_page leads to, the threads, how often a reference was counted and put back,
      and how often the page was given to FreePages. */
  datatype State = State(count: int, threads: seq<Local>, gets: nat, puts: nat, frees: nat) {
    /** References counted and not put back; negative after more puts than gets. */
    function Outstanding(): int { gets - puts }
  }

  datatype Step = Get(t: nat) | PutDown(t: nat) | PutTest(t: nat)

  predicate Enabled(s: State, step: Step) {
    step.t < |s.threads| && (if step.PutTest? then s.threads[step.t].Testing? else s.threads[step.t].Idle?)
  }

  /** get_page and the two halves of put_page: only the atomic parts are indivisible.
      FreePages retags the block, which sets the count of its head back to -1. */
  function Next(s: State, step: Step): State
    requires Enabled(s, step)
  {
    match step
    case Get(t) => s.(count := Wrap(s.count + 1), gets := s.gets + 1)
    case PutDown(t) => s.(count := Wrap(s.count - 1), puts := s.puts + 1, threads := s.threads[t := Testing(s.count)])
    case PutTest(t) => Tested(s, t, s.threads[t].before < 0)
  }

  function Tested(s: State, t: nat, free: bool): State
    requires t < |s.threads|
  {
    s.(frees := if free then s.frees + 1 else s.frees, count := if free then -1 else s.count, threads := s.threads[t := Idle])
  }

  /** A page as __reinit_page leaves it, and no thread inside put_page. */
  predicate Initial(s: State) {
    s.count == -1 && s.gets == 0 && s.puts == 0 && s.frees == 0 && forall t :: 0 <= t < |s.threads| ==> s.threads[t].Idle?
  }

  predicate CanRun(s: State, steps: seq<Step>)
    decreases |steps|
  {
    steps == [] || (Enabled(s, steps[0]) && CanRun(Next(s, steps[0]), steps[1..]))
  }

  function Run(s: State, steps: seq<Step>): State
    requires CanRun(s, steps)
    decreases |steps|
  {
    if steps == [] then s else Run(Next(s, steps[0]), steps[1..])
  }

  // -------------------------------------------------- what the count says

  function Gets(steps: seq<Step>): nat { if steps == [] then 0 else (if steps[0].Get? then 1 else 0) + Gets(steps[1..]) }

  function Puts(steps: seq<Step>): nat { if steps == [] then 0 else (if steps[0].PutDown? then 1 else 0) + Puts(steps[1..]) }

  lemma {:induction false} FreesGrow(s: State, steps: seq<Step>)
    requires CanRun(s, steps)
    ensures s.frees <= Run(s, steps).frees
    decreases |steps|
  {
    if steps != [] { FreesGrow(Next(s, steps[0]), steps[1..]); }
  }

  /** Over a stretch without a free the count moves by the gets and puts of all threads, whatever their order. */
  lemma {:induction false} CountFollows(s: State, steps: seq<Step>)
    requires CanRun(s, steps) && Run(s, steps).frees == s.frees && Wrap(s.count) == s.count
    ensures Run(s, steps).count == Wrap(s.count + Gets(steps) - Puts(steps))
    decreases |steps|
  {
    hide Wrap, Next;
    if steps != [] {
      var n := Next(s, steps[0]);
      FreesGrow(n, steps[1..]);
      StepFrees(s, steps[0]);
      StepCounts(s, steps[0]);
      CountFollows(n, steps[1..]);
      WrapAdd(s.count + 1, Gets(steps[1..]) - Puts(steps[1..]));
      WrapAdd(s.count - 1, Gets(steps[1..]) - Puts(steps[1..]));
    }
  }

  lemma StepFrees(s: State, step: Step)
    requires Enabled(s, step)
    ensures Next(s, step).frees >= s.frees
  {
  }

  /** A step that frees nothing counts up, down or not at all. */
  lemma StepCounts(s: State, step: Step)
    requires Enabled(s, step) && Wrap(s.count) == s.count
    ensures var n := Next(s, step);
            n.frees == s.frees ==>
              && n.count == (if step.Get? then Wrap(s.count + 1) else if step.PutDown? then Wrap(s.count - 1) else s.count)
              && Wrap(n.count) == n.count
  {
    WrapAdd(s.count + 1, 0);
    WrapAdd(s.count - 1, 0);
  }

  /** From the start, as long as nothing was freed, the count is the number of references less one. */
  lemma CountAccurate(s: State, steps: seq<Step>)
    requires Initial(s) && CanRun(s, steps) && Run(s, steps).frees == 0
    ensures Run(s, steps).count == Wrap(Gets(steps) - Puts(steps) - 1)
    ensures Run(s, steps).Outstanding() == Gets(steps) - Puts(steps)
  {
    CountFollows(s, steps);
    LedgerFollows(s, steps);
  }

  lemma {:induction false} LedgerFollows(s: State, steps: seq<Step>)
    requires CanRun(s, steps)
    ensures Run(s, steps).Outstanding() == s.Outstanding() + Gets(steps) - Puts(steps)
    decreases |steps|
  {
    if steps != [] { LedgerFollows(Next(s, steps[0]), steps[1..]); }
  }

  /** A free starts the count anew: gets and puts before it are forgotten, also those of
      references that are still held. */
  lemma CountAfterFree(s: State, t: nat, steps: seq<Step>)
    requires Enabled(s, PutTest(t)) && s.threads[t].before < 0
    requires CanRun(Next(s, PutTest(t)), steps) && Run(Next(s, PutTest(t)), steps).frees == s.frees + 1
    ensures Run(Next(s, PutTest(t)), steps).count == Wrap(Gets(steps) - Puts(steps) - 1)
  {
    CountFollows(Next(s, PutTest(t)), steps);
  }

  /** A put from start to end with no other thread between. */
  lemma PutAlone(s: State, t: nat)
    requires Enabled(s, PutDown(t))
    ensures CanRun(s, [PutDown(t), PutTest(t)])
    ensures var r := Run(s, [PutDown(t), PutTest(t)]);
            && r.frees == (if s.count < 0 then s.frees + 1 else s.frees)
            && r.count == (if s.count < 0 then -1 else Wrap(s.count - 1))
  {
    var n := Next(s, PutDown(t));
    assert [PutDown(t), PutTest(t)][1..] == [PutTest(t)] && [PutTest(t)][1..] == [];
    assert CanRun(n, [PutTest(t)]);
    assert Run(n, [PutTest(t)]) == Next(n, PutTest(t));
  }

  /** One put too many: the page is freed and the count is -1 again. */
  lemma PutTooMany(s: State)
    requires Initial(s) && |s.threads| > 0
    ensures CanRun(s, [PutDown(0), PutTest(0)])
    ensures var r := Run(s, [PutDown(0), PutTest(0)]); r.frees == 1 && r.count == -1
  {
    PutAlone(s, 0);
  }

  // ----------------------------------------------- the count of the pages

  /** After a free the count is found on the head of the merged block, where it is -1. If that is a page
      below, the freed head's own cell keeps the old value, and nothing reads it. */
  lemma CountAfterMerge(d: seq<Page>, m: set<nat>, lists: FreeLists, p: nat, k: nat)
    requires Freeable(d, m, lists, p, k) && |d| <= DIRECT_PAGES
    ensures var (q, _) := MergeTop(d, p, k, true);
            var e := FreeTags(d, p, k, true);
            && 0 <= q <= p < |e| && e[p].order < MAX_PAGE_ORDER && GetHeadPage(e, p) == q
            && e[q].refCount == -1 && (q < p ==> e[p].refCount == d[p].refCount)
  {
    hide MergeTop, Mergeable, Coalesced, Listed, IsBlock;
    var (q, t) := MergeTop(d, p, k, true);
    var e := FreeTags(d, p, k, true);
    MergeEnds(d, m, Buddy.Run(p, k), p, k);
    assert InRun(p, k, p) && p in Buddy.Run(p, k) && p in Buddy.Run(q, t);
    FreeKeeps(d, m, lists, p, k);
    FreePartition(d, m, Buddy.Run(p, k), q, t);
    HeadPageFound(e, m + Buddy.Run(p, k), q, t, true, p);
  }

  /** put_page on a pool, called alone, does what the two steps of a put do: it frees exactly when they
      free, and the count that get_head_page leads to afterwards is theirs. */
  lemma PutPageIsPut(d: seq<Page>, m: set<nat>, lists: FreeLists, h: nat, k: nat, s: State, t: nat)
    requires PoolInv(d, m, lists) && IsBlock(d, m, h, k, false) && h < |d| <= DIRECT_PAGES
    requires s.count == d[h].refCount && Enabled(s, PutDown(t))
    ensures CanRun(s, [PutDown(t), PutTest(t)])
    ensures var r := Run(s, [PutDown(t), PutTest(t)]); var e := FreeTags(Counted(d, h), h, k, true);
            && (d[h].refCount < 0 <==> r.frees > s.frees)
            && (d[h].refCount >= 0 ==> Counted(d, h)[h].refCount == r.count)
            && (d[h].refCount < 0 ==> h < |e| && e[h].order < MAX_PAGE_ORDER && 0 <= GetHeadPage(e, h) < |e| && e[GetHeadPage(e, h)].refCount == r.count)
  {
    hide PoolInv, IsBlock, Freeable, FreeTags, MergeTop, GetHeadPage, Buddy.Run;
    PutAlone(s, t);
    var c := Counted(d, h);
    ShapeKeeps(d, c, m, lists);
    BlockShape(d, c, m, h, k, false);
    UsedFreeable(c, m, lists, h, k);
    CountAfterMerge(c, m - Buddy.Run(h, k), lists, h, k);
  }

  // ------------------------------------------------------ when it is freed

  const MOST: int := 0x8000_0000

  /** A put with this many references outstanding leaves the page alone. */
  predicate Backed(outstanding: int) { Wrap(outstanding - 1) >= 0 }

  /** That is so while there are references, up to 2^31 of them: then the 32-bit count is not negative. */
  lemma BackedExact(n: int)
    requires -MOST < n <= 2 * MOST
    ensures Backed(n) <==> 0 < n <= MOST
  {
  }

  /** Every put of the run is backed. */
  predicate AlwaysBacked(s: State, steps: seq<Step>)
    requires CanRun(s, steps)
    decreases |steps|
  {
    steps != [] ==> (steps[0].PutDown? ==> Backed(s.Outstanding())) && AlwaysBacked(Next(s, steps[0]), steps[1..])
  }

  /** A run in which a put takes back a reference that was counted before: at no step more puts than gets. */
  predicate Covered(s: State, steps: seq<Step>)
    requires CanRun(s, steps)
    decreases |steps|
  {
    steps != [] ==>
      (steps[0].PutDown? ==> s.Outstanding() > 0) && Covered(Next(s, steps[0]), steps[1..])
  }

  /** Never more references than the count can show. */
  predicate Few(s: State, steps: seq<Step>)
    requires CanRun(s, steps)
    decreases |steps|
  {
    s.Outstanding() <= MOST && (steps != [] ==> Few(Next(s, steps[0]), steps[1..]))
  }

  /** Some thread is about to free, or some free was done. */
  ghost predicate Doomed(s: State) {
    s.frees > 0 || exists t :: 0 <= t < |s.threads| && s.threads[t].Testing? && s.threads[t].before < 0
  }

  predicate Accurate(s: State) { s.frees == 0 ==> s.count == Wrap(s.Outstanding() - 1) }

  lemma StepAccurate(s: State, step: Step)
    requires Accurate(s) && Enabled(s, step)
    ensures Accurate(Next(s, step))
  {
    WrapAdd(s.Outstanding() - 1, 1);
    WrapAdd(s.Outstanding() - 1, -1);
  }

  lemma StepStaysDoomed(s: State, step: Step)
    requires Enabled(s, step) && Doomed(s)
    ensures Doomed(Next(s, step))
  {
    var n := Next(s, step);
    if s.frees == 0 {
      var t :| 0 <= t < |s.threads| && s.threads[t].Testing? && s.threads[t].before < 0;
      assert n.threads[t] == s.threads[t] || n.frees > 0;
    }
  }

  /** One step dooms the page exactly if it is a put that is not backed. */
  lemma StepDooms(s: State, step: Step)
    requires Accurate(s) && Enabled(s, step) && !Doomed(s)
    ensures Doomed(Next(s, step)) <==> step.PutDown? && !Backed(s.Outstanding())
  {
    var n := Next(s, step);
    if step.PutDown? {
      assert n.threads[step.t] == Testing(s.count);
    }
    assert forall t :: 0 <= t < |s.threads| && t != step.t ==> n.threads[t] == s.threads[t];
  }

  lemma {:induction false} StaysDoomed(s: State, steps: seq<Step>)
    requires CanRun(s, steps) && Doomed(s)
    ensures Doomed(Run(s, steps))
    decreases |steps|
  {
    if steps != [] {
      StepStaysDoomed(s, steps[0]);
      StaysDoomed(Next(s, steps[0]), steps[1..]);
    }
  }

  /** Exactly when a page is ever freed through its count: some put comes when no counted reference
      is left, or when there are more than the count can show. */
  lemma {:induction false} FreedExactly(s: State, steps: seq<Step>)
    requires Accurate(s) && CanRun(s, steps) && !Doomed(s)
    ensures Doomed(Run(s, steps)) <==> !AlwaysBacked(s, steps)
    decreases |steps|
  {
    if steps != [] {
      StepDooms(s, steps[0]);
      StepAccurate(s, steps[0]);
      var n := Next(s, steps[0]);
      if Doomed(n) {
        StaysDoomed(n, steps[1..]);
      } else {
        FreedExactly(n, steps[1..]);
      }
    }
  }

  lemma {:induction false} CoveredBacked(s: State, steps: seq<Step>)
    requires CanRun(s, steps) && Covered(s, steps) && Few(s, steps) && s.Outstanding() >= 0
    ensures AlwaysBacked(s, steps) && 0 <= Run(s, steps).Outstanding() <= MOST
    decreases |steps|
  {
    if steps != [] {
      BackedExact(s.Outstanding());
      CoveredBacked(Next(s, steps[0]), steps[1..]);
    }
  }

  /** When each reference is put at most once, and there are never more than the count can show, the page
      is not freed while one is outstanding; as the code tests the old value it is not freed after the last put either. */
  lemma NeverFreedEarly(s: State, steps: seq<Step>)
    requires Initial(s) && CanRun(s, steps) && Covered(s, steps) && Few(s, steps)
    ensures var r := Run(s, steps); r.frees == 0 && !Doomed(r) && r.Outstanding() >= 0 && r.count == r.Outstanding() - 1
  {
    CoveredBacked(s, steps);
    FreedExactly(s, steps);
    CountAccurate(s, steps);
  }

  /** The bound is needed: with one reference more the next put frees the page, 2^31 references outstanding. */
  lemma TooManyReferences(s: State, t: nat)
    requires Accurate(s) && s.frees == 0 && s.Outstanding() == MOST + 1 && Enabled(s, PutDown(t))
    ensures Doomed(Next(s, PutDown(t))) && Next(s, PutDown(t)).Outstanding() == MOST
  {
    assert Next(s, PutDown(t)).threads[t] == Testing(s.count);
  }

  /** A run that ends with every reference put back leaves the count where it started, and the page allocated. */
  lemma BalancedLeaks(s: State, steps: seq<Step>)
    requires Initial(s) && CanRun(s, steps) && Covered(s, steps) && Few(s, steps) && Run(s, steps).Outstanding() == 0
    ensures Run(s, steps).count == s.count && Run(s, steps).frees == 0
  {
    NeverFreedEarly(s, steps);
  }

  /** The state before a step of a run. */
  function At(s: State, steps: seq<Step>, i: nat): State
    requires CanRun(s, steps) && i <= |steps|
    decreases |steps|
  {
    if i == 0 then s else At(Next(s, steps[0]), steps[1..], i - 1)
  }

  /** Covered, step by step. */
  lemma {:induction false} CoveredMeans(s: State, steps: seq<Step>)
    requires CanRun(s, steps)
    ensures Covered(s, steps) <==> forall i: nat :: i < |steps| && steps[i].PutDown? ==> At(s, steps, i).Outstanding() > 0
    decreases |steps|
  {
    if steps != [] {
      var n := Next(s, steps[0]);
      CoveredMeans(n, steps[1..]);
      assert At(s, steps, 0) == s;
      forall i: nat | 0 < i < |steps|
        ensures At(s, steps, i) == At(n, steps[1..], i - 1) && steps[i] == steps[1..][i - 1]
      {
      }
      if !Covered(n, steps[1..]) {
        var j: nat :| j < |steps[1..]| && steps[1..][j].PutDown? && At(n, steps[1..], j).Outstanding() <= 0;
        assert At(s, steps, j + 1).Outstanding() <= 0 && steps[j + 1].PutDown?;
      }
    }
  }

  // ---------------------------------------------- the test on the new value

  /** put_page if it tested the value after the step. */
  function NextRepaired(s: State, step: Step): State
    requires Enabled(s, step)
  {
    if step.PutTest? then Tested(s, step.t, Wrap(s.threads[step.t].before - 1) < 0) else Next(s, step)
  }

  /** A get by someone who holds a reference, or the first one, and never too many; a put of a counted reference. */
  predicate Owned(s: State, step: Step) {
    && (step.Get? ==> (s.Outstanding() > 0 || s.gets == 0) && s.Outstanding() < MOST)
    && (step.PutDown? ==> s.Outstanding() > 0)
  }

  /** Thread t is about to find that it put back the last reference. */
  predicate Last(s: State, t: nat)
    requires t < |s.threads|
  {
    s.threads[t].Testing? && s.threads[t].before == 0
  }

  ghost predicate SomeLast(s: State) { exists t: nat :: t < |s.threads| && Last(s, t) }

  /** Once the last reference is gone, one thread is about to free the page or has freed it; before that, none. */
  ghost predicate RepairedGood(s: State) {
    && s.count == s.Outstanding() - 1 && 0 <= s.Outstanding() <= MOST
    && (forall t: nat :: t < |s.threads| && s.threads[t].Testing? ==> 0 <= s.threads[t].before < MOST)
    && (forall t: nat, u: nat :: t < |s.threads| && u < |s.threads| && Last(s, t) && Last(s, u) ==> t == u)
    && (SomeLast(s) ==> s.frees == 0)
    && s.frees == (if s.Outstanding() == 0 && s.gets > 0 && !SomeLast(s) then 1 else 0)
    && (SomeLast(s) ==> s.Outstanding() == 0 && s.gets > 0)
  }

  lemma RepairedStep(s: State, step: Step)
    requires RepairedGood(s) && Enabled(s, step) && Owned(s, step)
    ensures RepairedGood(NextRepaired(s, step))
  {
    var n := NextRepaired(s, step);
    assert forall t: nat :: t < |s.threads| && t != step.t ==> (Last(n, t) <==> Last(s, t));
    match step
    case Get(t) =>
      assert Last(n, t) <==> Last(s, t);
      assert SomeLast(n) <==> SomeLast(s);
    case PutDown(t) =>
      assert !SomeLast(s) && s.frees == 0;
      assert Last(n, t) <==> s.Outstanding() == 1;
      assert SomeLast(n) <==> s.Outstanding() == 1;
    case PutTest(t) =>
      assert !Last(n, t);
      if Last(s, t) {
        assert !SomeLast(n);
      } else {
        assert SomeLast(n) <==> SomeLast(s);
      }
  }

  predicate CanRunRepaired(s: State, steps: seq<Step>)
    decreases |steps|
  {
    steps == [] || (Enabled(s, steps[0]) && Owned(s, steps[0]) && CanRunRepaired(NextRepaired(s, steps[0]), steps[1..]))
  }

  function RunRepaired(s: State, steps: seq<Step>): State
    requires CanRunRepaired(s, steps)
    decreases |steps|
  {
    if steps == [] then s else RunRepaired(NextRepaired(s, steps[0]), steps[1..])
  }

  lemma {:induction false} RepairedRun(s: State, steps: seq<Step>)
    requires RepairedGood(s) && CanRunRepaired(s, steps)
    ensures RepairedGood(RunRepaired(s, steps))
    decreases |steps|
  {
    if steps != [] {
      RepairedStep(s, steps[0]);
      RepairedRun(NextRepaired(s, steps[0]), steps[1..]);
    }
  }

  /** With the test on the new value the page is freed once, and exactly when the last reference is back
      and the thread that put it has done its test. */
  lemma RepairedFreesOnce(s: State, steps: seq<Step>)
    requires Initial(s) && CanRunRepaired(s, steps)
    ensures var r := RunRepaired(s, steps);
            && r.frees <= 1
            && ((forall t :: 0 <= t < |r.threads| ==> r.threads[t].Idle?) ==>
                (r.frees == 1 <==> r.Outstanding() == 0 && r.gets > 0))
            && (r.frees == 1 ==> r.Outstanding() == 0)
  {
    RepairedRun(s, steps);
  }
}
