/** pages_pool_init: the loop that hands the free pages of the page database to
    the buddy pool, with the order test and without. */
module HandOff {
  import opened Bits
  import opened Buddy
  import opened BuddyFree
  import opened BuddyAlloc
  import opened BuddyEdge
  import opened BuddyLiteral
  import opened PagePools

  // ------------------------------------------------------- handing over

  /** The pages that pages_pool_init adds. */
  predicate Wanted(pg: Page) { pg.typ == NormalMem && pg.refCount < 0 }

  /** Descriptors after the first n turns of the loop of pages_pool_init. */
  function HandOver(d: seq<Page>, n: nat, checked: bool): (r: seq<Page>)
    requires n <= |d|
    ensures |r| == |d|
  {
    if n == 0 then d else
    var e := HandOver(d, n - 1, checked);
    if Wanted(e[n - 1]) then FreeTags(Claimed(e, n - 1), n - 1, 0, checked) else e
  }

  function HandOverLists(d: seq<Page>, n: nat, checked: bool): (r: FreeLists)
    requires n <= |d|
    ensures |r| == MAX_PAGE_ORDER
  {
    if n == 0 then [[], [], [], [], [], [], [], [], [], [], []] else
    var e, l := HandOver(d, n - 1, checked), HandOverLists(d, n - 1, checked);
    if Wanted(e[n - 1]) then FreeListsAfter(Claimed(e, n - 1), l, n - 1, 0, checked) else l
  }

  ghost function WantedBelow(d: seq<Page>, n: nat): set<nat>
    requires n <= |d|
  {
    set i: nat | i < n && Wanted(d[i])
  }

  /** A page database with nothing free yet. */
  ghost predicate FreshDatabase(d: seq<Page>) { forall i :: 0 <= i < |d| ==> !d[i].isFree }

  /** After n turns the pool is in order and its free pages are the wanted ones below n. */
  ghost predicate HandedOver(d: seq<Page>, e: seq<Page>, lists: FreeLists, n: nat)
    requires n <= |d|
    ensures HandedOver(d, e, lists, n) ==> |e| == |d|
  {
    && |e| == |d| && PoolInv(e, WantedBelow(d, n), lists)
    && (forall i :: 0 <= i < |d| ==> (e[i].isFree <==> i < n && Wanted(d[i])))
    && (forall i :: n <= i < |d| ==> e[i] == d[i])
  }

  lemma StartHandOver(d: seq<Page>)
    requires FreshDatabase(d)
    ensures HandedOver(d, d, [[], [], [], [], [], [], [], [], [], [], []], 0)
  {
  }

  /** Page n as a run that may be freed into the pool. */
  lemma NextFreeable(d: seq<Page>, e: seq<Page>, lists: FreeLists, n: nat)
    requires n < |d| && HandedOver(d, e, lists, n) && Wanted(d[n])
    ensures Freeable(Claimed(e, n), WantedBelow(d, n), lists, n, 0)
    ensures WantedBelow(d, n + 1) == WantedBelow(d, n) + Run(n, 0)
    ensures forall i :: InRun(n, 0, i) <==> i == n
  {
    ClaimedInv(e, WantedBelow(d, n), lists, n);
    assert forall i: nat :: i in Run(n, 0) <==> i == n by {
      assert forall i: nat :: i in Run(n, 0) <==> InRun(n, 0, i);
    }
  }

  /** Marking an unmanaged page's pool does not concern the invariant. */
  lemma ClaimedInv(d: seq<Page>, m: set<nat>, lists: FreeLists, x: nat)
    requires PoolInv(d, m, lists) && x < |d| && x !in m
    ensures PoolInv(Claimed(d, x), m, lists)
  {
    ShapeKeeps(d, Claimed(d, x), m, lists);
  }

  /** One turn. */
  lemma StepHandOver(d: seq<Page>, e: seq<Page>, lists: FreeLists, n: nat)
    requires n < |d| && HandedOver(d, e, lists, n)
    ensures e[n] == d[n]
    ensures !Wanted(d[n]) ==> HandedOver(d, e, lists, n + 1)
    ensures Wanted(d[n]) ==>
            HandedOver(d, FreeTags(Claimed(e, n), n, 0, true), FreeListsAfter(Claimed(e, n), lists, n, 0, true), n + 1)
  {
    if Wanted(d[n]) {
      NextFreeable(d, e, lists, n);
      FreeKeeps(Claimed(e, n), WantedBelow(d, n), lists, n, 0);
    } else {
      assert WantedBelow(d, n + 1) == WantedBelow(d, n);
    }
  }

  /** With the order test the hand-over is exact. */
  lemma {:induction false} CheckedHandOver(d: seq<Page>, n: nat)
    requires FreshDatabase(d) && n <= |d|
    ensures HandedOver(d, HandOver(d, n, true), HandOverLists(d, n, true), n)
  {
    hide HandedOver, FreeTags, FreeListsAfter, Wanted, FreshDatabase;
    if n == 0 {
      StartHandOver(d);
    } else {
      CheckedHandOver(d, n - 1);
      StepHandOver(d, HandOver(d, n - 1, true), HandOverLists(d, n - 1, true), n - 1);
    }
  }

  // ----------------------------------------------- staying in the array

  /** Turn i touches descriptors of the array only. */
  ghost predicate TurnFits(d: seq<Page>, i: nat, checked: bool)
    requires i < |d|
  {
    var e := HandOver(d, i, checked);
    Wanted(e[i]) ==> StaysInside(Claimed(e, i), i, 0, checked)
  }

  ghost predicate AllTurnsFit(d: seq<Page>, n: nat, checked: bool)
    requires n <= |d|
  {
    forall i: nat :: i < n ==> TurnFits(d, i, checked)
  }

  /** The last page of a wanted aligned run completes it. */
  lemma RunCompleted(d: seq<Page>, e: seq<Page>, lists: FreeLists, n: nat, i: nat, p: nat, t: nat)
    requires i < n <= |d| && HandedOver(d, e, lists, i)
    requires t < MAX_PAGE_ORDER - 1 && Aligned(p, t) && RunIn(WantedBelow(d, n), p, t) && i == p + Pow2(t) - 1
    ensures Wanted(d[i]) && e[i] == d[i] && HeadOf(i, t) == p
    ensures Complete(Claimed(e, i), WantedBelow(d, i), i, 0, t)
  {
    assert InRun(p, t, i);
    HeadUnique(i, t, p);
    forall j: nat | InRun(p, t, j)
      ensures InRun(i, 0, j) || (j in WantedBelow(d, i) && j < |d| && Claimed(e, i)[j].isFree)
    {
      assert j in WantedBelow(d, n);
    }
  }

  /** With the order test every turn stays inside the array, exactly if every aligned run
      of wanted pages below the top order has a buddy with a descriptor. */
  lemma TurnsFitExact(d: seq<Page>, n: nat)
    requires FreshDatabase(d) && n <= |d|
    ensures AllTurnsFit(d, n, true) <==> Walled(|d|, WantedBelow(d, n))
  {
    hide HandedOver, FreshDatabase, Wanted, StaysInside, Complete, Claimed, WantedBelow, Freeable;
    if Walled(|d|, WantedBelow(d, n)) {
      forall i: nat | i < n
        ensures TurnFits(d, i, true)
      {
        WalledTurn(d, n, i);
      }
    }
    if AllTurnsFit(d, n, true) {
      forall p: nat, t: nat | t < MAX_PAGE_ORDER - 1 && Aligned(p, t) && RunIn(WantedBelow(d, n), p, t)
        ensures BuddyPfn(p, t) < |d|
      {
        var i := p + Pow2(t) - 1;
        LastWanted(d, n, p, t);
        CheckedHandOver(d, i);
        var e, l := HandOver(d, i, true), HandOverLists(d, i, true);
        RunCompleted(d, e, l, n, i, p, t);
        NextFreeable(d, e, l, i);
        FreeInsideExact(Claimed(e, i), WantedBelow(d, i), l, i, 0);
        assert TurnFits(d, i, true) && HasBuddy(Claimed(e, i), i, t);
      }
    }
  }

  lemma LastWanted(d: seq<Page>, n: nat, p: nat, t: nat)
    requires n <= |d| && RunIn(WantedBelow(d, n), p, t)
    ensures p + Pow2(t) - 1 < n
  {
    assert InRun(p, t, p + Pow2(t) - 1);
  }

  lemma WalledTurn(d: seq<Page>, n: nat, i: nat)
    requires FreshDatabase(d) && i < n <= |d| && Walled(|d|, WantedBelow(d, n))
    ensures TurnFits(d, i, true)
  {
    hide HandedOver, FreshDatabase, StaysInside, Claimed, Freeable, Walled;
    CheckedHandOver(d, i);
    var e, l := HandOver(d, i, true), HandOverLists(d, i, true);
    StepHandOver(d, e, l, i);
    if Wanted(d[i]) {
      NextFreeable(d, e, l, i);
      assert WantedBelow(d, i) + Run(i, 0) <= WantedBelow(d, n);
      WalledInside(Claimed(e, i), WantedBelow(d, i), WantedBelow(d, n), l, i, 0);
    }
  }

  /** A page database of 16448 descriptors, as 64 MB and a quarter of memory give, with its last 64 frames
      wanted: freeing the last page looks for descriptor 16448. */
  lemma ShortDatabase(d: seq<Page>)
    requires FreshDatabase(d) && |d| == 16448 && forall i :: 16384 <= i < 16448 ==> Wanted(d[i])
    ensures BuddyPfn(16384, 6) == |d| && !AllTurnsFit(d, |d|, true)
  {
    Pow2Values();
    assert Pow2(14) == 16384 by { Pow2Add(2, 12); }
    AlignedPow2(7, 14);
    AlignedBit(16384, 6);
    XorPow2(16384, 6);
    assert RunIn(WantedBelow(d, |d|), 16384, 6);
    TurnsFitExact(d, |d|);
  }

  // ------------------------------------------- the literal loop, exactly

  /** No wanted page heads a run with a hole whose upper buddy run is wholly wanted. */
  ghost predicate SafeHoles(d: seq<Page>, n: nat)
    requires n <= |d|
  {
    forall b: nat, t: nat :: SafeAt(d, n, b, t)
  }

  ghost predicate AllWanted(d: seq<Page>, n: nat, p: nat, k: nat)
    requires n <= |d|
  {
    forall i: nat :: InRun(p, k, i) ==> i < n && Wanted(d[i])
  }

  ghost predicate SafeAt(d: seq<Page>, n: nat, b: nat, t: nat)
    requires n <= |d|
  {
    (t < MAX_PAGE_ORDER - 1 && Aligned(b, t + 1) && b < n && Wanted(d[b]) && AllWanted(d, n, b + Pow2(t), t)) ==> AllWanted(d, n, b, t)
  }

  /** Where the guard fails there is a free page b whose run has a hole, next to
      an upper run of free pages and the page being freed. */
  lemma GuardFailure(f: seq<Page>, m: set<nat>, lists: FreeLists, n: nat) returns (b: nat, t: nat, x: nat)
    requires Freeable(f, m, lists, n, 0) && !OrderGuard(f, n, 0) && forall j :: j in m ==> j < n
    ensures t < MAX_PAGE_ORDER - 1 && Aligned(b, t + 1) && b in m && f[b].isFree
    ensures forall i: nat :: InRun(b + Pow2(t), t, i) ==> i == n || (i in m && f[i].isFree)
    ensures InRun(b, t, x) && x < n && !f[x].isFree
  {
    hide Partition, Coalesced, Listed, MergeTop;
    var (q, u) := MergeTop(f, n, 0, true);
    t := u;
    MergeEnds(f, m, Run(n, 0), n, 0);
    b := BuddyPfn(q, t);
    BuddyFacts(q, t);
    OnlyOne(n);
    assert n in Run(q, t) && b in m;
    x := OddBuddyHasHole(f, m, Run(n, 0), q, t);
    assert n in Run(q, t) && b in m;
  }

  lemma OnlyOne(n: nat)
    ensures forall i: nat :: i in Run(n, 0) <==> i == n
  {
    assert forall i: nat :: i in Run(n, 0) <==> InRun(n, 0, i);
  }

  lemma UnsafeAt(d: seq<Page>, n: nat, end: nat, b: nat, t: nat, x: nat)
    requires n < end <= |d| && Wanted(d[n]) && b < n && Wanted(d[b]) && x < n && !Wanted(d[x])
    requires t < MAX_PAGE_ORDER - 1 && Aligned(b, t + 1) && InRun(b, t, x)
    requires forall i: nat :: InRun(b + Pow2(t), t, i) ==> i == n || (i < n && Wanted(d[i]))
    ensures !SafeAt(d, end, b, t)
  {
  }

  /** What the tags say about the wanted pages, page n being marked for the pool. */
  lemma HandedTags(d: seq<Page>, e: seq<Page>, lists: FreeLists, n: nat)
    requires n < |d| && HandedOver(d, e, lists, n) && Wanted(d[n])
    ensures e[n] == d[n] && |e| == |d|
    ensures Freeable(Claimed(e, n), WantedBelow(d, n), lists, n, 0) && Partition(Claimed(e, n), WantedBelow(d, n))
    ensures forall i: nat :: i in WantedBelow(d, n) <==> i < n && Wanted(d[i])
    ensures forall i: nat :: i < |d| ==> (Claimed(e, n)[i].isFree <==> i < n && Wanted(d[i]))
  {
    NextFreeable(d, e, lists, n);
  }

  /** Where the holes are safe the guard of the literal merge holds. */
  lemma SafeGuard(d: seq<Page>, e: seq<Page>, lists: FreeLists, n: nat, end: nat)
    requires n < end <= |d| && HandedOver(d, e, lists, n) && Wanted(d[n]) && SafeHoles(d, end)
    ensures OrderGuard(Claimed(e, n), n, 0)
  {
    hide HandedOver, Partition, Freeable, OrderGuard, Claimed, WantedBelow, SafeAt, Wanted;
    HandedTags(d, e, lists, n);
    if !OrderGuard(Claimed(e, n), n, 0) {
      var b, t, x := GuardFailure(Claimed(e, n), WantedBelow(d, n), lists, n);
      UnsafeAt(d, n, end, b, t, x);
    }
  }

  /** A page that was not to be handed over is marked free. */
  ghost predicate Spoiled(d: seq<Page>, e: seq<Page>, x: nat) {
    x < |d| == |e| && !Wanted(d[x]) && e[x].isFree
  }

  ghost predicate AnySpoiled(d: seq<Page>, e: seq<Page>) { exists x: nat :: Spoiled(d, e, x) }

  /** Freeing marks pages free, never in use. */
  lemma FreeTagsKeepFree(d: seq<Page>, p: nat, k: nat, checked: bool, x: nat)
    requires x < |d| && d[x].isFree
    ensures FreeTags(d, p, k, checked)[x].isFree
  {
    hide MergeTop;
  }

  /** Spoiled pages stay spoiled. */
  lemma {:induction false} StaysSpoiled(d: seq<Page>, i: nat, n: nat, x: nat)
    requires i <= n <= |d| && Spoiled(d, HandOver(d, i, false), x)
    ensures Spoiled(d, HandOver(d, n, false), x)
    decreases n - i
  {
    hide FreeTags;
    if i < n {
      StaysSpoiled(d, i, n - 1, x);
      var e := HandOver(d, n - 1, false);
      if Wanted(e[n - 1]) {
        FreeTagsKeepFree(Claimed(e, n - 1), n - 1, 0, false, x);
      }
    }
  }

  /** One literal turn from where both loops agree. */
  lemma LiteralTurn(d: seq<Page>, n: nat)
    requires FreshDatabase(d) && n < |d| && HandOver(d, n, false) == HandOver(d, n, true)
    ensures var e := HandOver(d, n, true);
            e[n] == d[n] && HandedOver(d, e, HandOverLists(d, n, true), n)
    ensures var e := HandOver(d, n, true);
            !Wanted(d[n]) || OrderGuard(Claimed(e, n), n, 0) ==> HandOver(d, n + 1, false) == HandOver(d, n + 1, true)
    ensures var e := HandOver(d, n, true);
            Wanted(d[n]) && !OrderGuard(Claimed(e, n), n, 0) && TurnFits(d, n, false) ==> AnySpoiled(d, HandOver(d, n + 1, false))
    ensures !Wanted(d[n]) || OrderGuard(Claimed(HandOver(d, n, true), n), n, 0) ==> (TurnFits(d, n, false) <==> TurnFits(d, n, true))
  {
    hide HandedOver, FreeTags, FreeListsAfter, FreshDatabase, Freeable, Partition, OrderGuard, Spoiled, Claimed, WantedBelow, Wanted;
    var e, l := HandOver(d, n, true), HandOverLists(d, n, true);
    CheckedHandOver(d, n);
    StepHandOver(d, e, l, n);
    if Wanted(d[n]) {
      HandedTags(d, e, l, n);
      LiteralFreeExact(Claimed(e, n), WantedBelow(d, n), l, n, 0);
      if !OrderGuard(Claimed(e, n), n, 0) && TurnFits(d, n, false) {
        var x := UnguardedSpoils(d, e, l, n);
        assert HandOver(d, n + 1, false) == FreeTags(Claimed(e, n), n, 0, false);
      }
    }
  }

  /** The literal loop, staying inside, goes along with the checked one until it spoils a page. */
  lemma {:induction false} Lockstep(d: seq<Page>, n: nat)
    requires FreshDatabase(d) && n <= |d| && AllTurnsFit(d, n, false)
    ensures HandOver(d, n, false) == HandOver(d, n, true) || AnySpoiled(d, HandOver(d, n, false))
    decreases n
  {
    hide FreshDatabase, Spoiled, HandedOver, OrderGuard, Claimed, FreeTags;
    if n > 0 {
      Lockstep(d, n - 1);
      if HandOver(d, n - 1, false) == HandOver(d, n - 1, true) {
        assert TurnFits(d, n - 1, false);
        LiteralTurn(d, n - 1);
      } else {
        var x: nat :| Spoiled(d, HandOver(d, n - 1, false), x);
        StaysSpoiled(d, n - 1, n, x);
      }
    }
  }

  lemma UnguardedSpoils(d: seq<Page>, e: seq<Page>, lists: FreeLists, n: nat) returns (x: nat)
    requires n < |d| && HandedOver(d, e, lists, n) && Wanted(d[n]) && !OrderGuard(Claimed(e, n), n, 0)
    requires StaysInside(Claimed(e, n), n, 0, false)
    ensures Spoiled(d, FreeTags(Claimed(e, n), n, 0, false), x)
  {
    NextFreeable(d, e, lists, n);
    x := LiteralSwallows(Claimed(e, n), WantedBelow(d, n), lists, n, 0);
  }

  /** The tags after page n was freed: it lies in the block the merge ended with. */
  lemma MergedBlock(f: seq<Page>, m: set<nat>, lists: FreeLists, n: nat)
    requires Freeable(f, m, lists, n, 0)
    ensures var (q, u) := MergeTop(f, n, 0, true); var g, m' := FreeTags(f, n, 0, true), m + Run(n, 0);
            && Partition(g, m') && Coalesced(g, m') && InRun(q, u, n) && n in m' && g[n].order == u && HeadOf(n, u) == q
            && (forall i: nat :: i in m' <==> i in m || i == n)
            && (forall i: nat :: i < |f| ==> (g[i].isFree <==> f[i].isFree || i == n))
  {
    hide MergeTop, Coalesced, Listed;
    var (q, u) := MergeTop(f, n, 0, true);
    OnlyOne(n);
    MergeEnds(f, m, Run(n, 0), n, 0);
    FreeKeeps(f, m, lists, n, 0);
    assert InRun(n, 0, n) && n in Run(q, u);
    HeadUnique(n, u, q);
  }

  /** Freeing the last page of a wanted upper run merges exactly that run. */
  lemma UpperRunMerges(f: seq<Page>, m: set<nat>, lists: FreeLists, n: nat, b: nat, t: nat, x: nat)
    requires Freeable(f, m, lists, n, 0) && t < MAX_PAGE_ORDER - 1 && Aligned(b, t + 1) && n == b + Pow2(t + 1) - 1
    requires n < |f| && forall i: nat :: InRun(b + Pow2(t), t, i) ==> i == n || (i in m && f[i].isFree)
    requires InRun(b, t, x) && !f[x].isFree
    ensures MergeTop(f, n, 0, true) == (b + Pow2(t), t)
  {
    hide MergeTop, Freeable, FreeTags, Partition, Coalesced, Run;
    var up := b + Pow2(t);
    var (q, u) := MergeTop(f, n, 0, true);
    var g, m' := FreeTags(f, n, 0, true), m + Run(n, 0);
    MergedBlock(f, m, lists, n);
    assert InRun(up, t, up) && InRun(up, t, n);
    AlignedWeaken(b, t, t + 1);
    BuddyFacts(b, t);
    FreeRunInBlock(g, m', up, t);
    MergedIsUpper(g, m', q, u, up, t, b, x, n);
  }

  /** At an unsafe hole the guard fails as soon as the upper run is complete. */
  lemma UnsafeUnguarded(d: seq<Page>, e: seq<Page>, lists: FreeLists, n: nat, b: nat, t: nat, x: nat)
    requires n < |d| && HandedOver(d, e, lists, n)
    requires t < MAX_PAGE_ORDER - 1 && Aligned(b, t + 1) && n == b + Pow2(t + 1) - 1 && Wanted(d[b])
    requires AllWanted(d, n + 1, b + Pow2(t), t) && InRun(b, t, x) && !Wanted(d[x])
    ensures Wanted(d[n]) && !OrderGuard(Claimed(e, n), n, 0)
  {
    hide MergeTop, Partition, Freeable, HandedOver, Claimed, WantedBelow, Wanted;
    var f, m := Claimed(e, n), WantedBelow(d, n);
    assert InRun(b + Pow2(t), t, n);
    HandedTags(d, e, lists, n);
    UpperRunMerges(f, m, lists, n, b, t, x);
    OddLowerHalf(f, m, b, t, x);
    AlignedWeaken(b, t, t + 1);
    BuddyFacts(b, t);
  }

  /** The block that page n ends up in is exactly the upper run. */
  lemma MergedIsUpper(g: seq<Page>, m: set<nat>, q: nat, u: nat, up: nat, t: nat, b: nat, x: nat, n: nat)
    requires Partition(g, m) && InRun(q, u, n) && n in m && g[n].order == u && HeadOf(n, u) == q
    requires up in m && g[up].order >= t && g[up].isFree && InRun(up, t, n) && Aligned(up, t)
    requires Aligned(b, t + 1) && up == b + Pow2(t) && InRun(b, t, x) && (x in m ==> !g[x].isFree)
    ensures q == up && u == t
  {
    var h, k := HeadOf(up, g[up].order), g[up].order;
    assert IsBlock(g, m, h, k, true);
    Nested(up, t, h, k, up);
    HeadUnique(n, k, h);
    assert g[n].order == k;
    WiderHolds(h, k, b, t + 1, up, x);
    HeadUnique(up, t, up);
  }

  /** A free page b heads a block too small to cover its run with a hole. */
  lemma OddLowerHalf(f: seq<Page>, m: set<nat>, b: nat, t: nat, x: nat)
    requires Partition(f, m) && b in m && f[b].isFree && Aligned(b, t + 1) && t < MAX_PAGE_ORDER
    requires InRun(b, t, x) && (x in m ==> !f[x].isFree)
    ensures FreeHead(f, b) && f[b].order < t && f[b].typ == NormalMem
  {
    var k, h := f[b].order, HeadOf(b, f[b].order);
    assert IsBlock(f, m, h, k, true);
    if k >= t {
      AlignedWeaken(b, t, t + 1);
      Nested(b, t, h, k, b);
    } else {
      AlignedWeaken(b, k, t + 1);
      HeadUnique(b, k, b);
    }
  }

  /** Without the order test, pages_pool_init stays inside the array and marks exactly the wanted pages
      free if and only if the holes are safe and every wanted run below the top order has a buddy. */
  lemma LiteralHandOverExact(d: seq<Page>, n: nat)
    requires FreshDatabase(d) && n <= |d|
    ensures (&& AllTurnsFit(d, n, false)
             && forall i :: 0 <= i < |d| ==> (HandOver(d, n, false)[i].isFree <==> i < n && Wanted(d[i])))
            <==> SafeHoles(d, n) && Walled(|d|, WantedBelow(d, n))
  {
    TurnsFitExact(d, n);
    if SafeHoles(d, n) {
      SafeRun(d, n, n);
      CheckedHandOver(d, n);
      SafeFits(d, n);
    } else if AllTurnsFit(d, n, false) {
      var b: nat, t: nat :| !SafeAt(d, n, b, t);
      UnsafeRun(d, n, b, t);
    }
  }

  /** Where the holes are safe both loops look at the same descriptors. */
  lemma SafeFits(d: seq<Page>, n: nat)
    requires FreshDatabase(d) && n <= |d| && SafeHoles(d, n)
    ensures AllTurnsFit(d, n, false) <==> AllTurnsFit(d, n, true)
  {
    hide FreshDatabase, HandedOver, OrderGuard, Claimed, TurnFits, SafeHoles, HandOver, HandOverLists;
    forall i: nat | i < n
      ensures TurnFits(d, i, false) <==> TurnFits(d, i, true)
    {
      SafeRun(d, i, n);
      LiteralTurn(d, i);
      if Wanted(d[i]) {
        SafeGuard(d, HandOver(d, i, true), HandOverLists(d, i, true), i, n);
      }
    }
  }

  lemma {:induction false} SafeRun(d: seq<Page>, i: nat, n: nat)
    requires FreshDatabase(d) && i <= n <= |d| && SafeHoles(d, n)
    ensures HandOver(d, i, false) == HandOver(d, i, true)
    decreases i
  {
    hide FreshDatabase, Spoiled, HandedOver, OrderGuard, Claimed, FreeTags, SafeHoles;
    if i > 0 {
      SafeRun(d, i - 1, n);
      LiteralTurn(d, i - 1);
      if Wanted(d[i - 1]) {
        SafeGuard(d, HandOver(d, i - 1, true), HandOverLists(d, i - 1, true), i - 1, n);
      }
    }
  }

  lemma UnsafeRun(d: seq<Page>, n: nat, b: nat, t: nat)
    requires FreshDatabase(d) && n <= |d| && !SafeAt(d, n, b, t) && AllTurnsFit(d, n, false)
    ensures AnySpoiled(d, HandOver(d, n, false))
  {
    hide FreshDatabase, Spoiled, HandedOver, OrderGuard, Claimed, HandOver, HandOverLists;
    var x: nat :| InRun(b, t, x) && !(x < n && Wanted(d[x]));
    var i := b + Pow2(t + 1) - 1;
    assert InRun(b + Pow2(t), t, i);
    assert TurnFits(d, i, false);
    Lockstep(d, i);
    var y: nat, j := 0, i;
    if HandOver(d, i, false) == HandOver(d, i, true) {
      LiteralTurn(d, i);
      UnsafeUnguarded(d, HandOver(d, i, true), HandOverLists(d, i, true), i, b, t, x);
      j := i + 1;
    }
    y :| Spoiled(d, HandOver(d, j, false), y);
    StaysSpoiled(d, j, n, y);
  }

  /** pages_pool_init: what ends up free is exactly what was wanted, with the
      order test always, without it where the holes are safe. */
  method PagesPoolInit(pgdb: array<Page>, nr: nat, checked: bool) returns (pool: PagePools.PagePool)
    requires FreshDatabase(pgdb[..]) && nr <= pgdb.Length
    requires Walled(pgdb.Length, WantedBelow(pgdb[..], nr)) && (checked || SafeHoles(pgdb[..], nr))
    modifies pgdb
    ensures fresh(pool) && pool.descs == pgdb && pool.orderChecked == checked && pool.Valid()
    ensures pool.managed == WantedBelow(old(pgdb[..]), nr)
    ensures pgdb[..] == HandOver(old(pgdb[..]), nr, checked)
    ensures forall i :: 0 <= i < pgdb.Length ==> (pgdb[i].isFree <==> i < nr && Wanted(old(pgdb[i])))
  {
    hide HandedOver, FreshDatabase, FreeTags, FreeListsAfter, PoolInv, SafeHoles, OrderGuard, StaysInside, Walled;
    ghost var d := pgdb[..];
    NothingFree(d);
    pool := new PagePools.PagePool(pgdb, checked);
    CheckedHandOver(d, 0);
    var i := 0;
    while i < nr
      invariant i <= nr && fresh(pool) && fresh(pool.links) && fresh(pool.links.prev) && fresh(pool.links.next)
      invariant pool.descs == pgdb && pool.orderChecked == checked && pool.Valid()
      invariant pool.managed == WantedBelow(d, i)
      invariant pgdb[..] == HandOver(d, i, checked) == HandOver(d, i, true)
    {
      CheckedHandOver(d, i);
      StepHandOver(d, HandOver(d, i, true), HandOverLists(d, i, true), i);
      if pgdb[i].typ == NormalMem && pgdb[i].refCount < 0 {
        HandedTags(d, HandOver(d, i, true), HandOverLists(d, i, true), i);
        WalledTurn(d, nr, i);
        if !checked {
          SafeRun(d, i, nr);
          LiteralTurn(d, i);
          SafeGuard(d, HandOver(d, i, true), HandOverLists(d, i, true), i, nr);
          SafeRun(d, i + 1, nr);
        }
        assert TurnFits(d, i, checked);
        NextWanted(d, i);
        pool.AddPages(i, 0);
      } else {
        NextUnwanted(d, i);
        if !checked { SafeRun(d, i + 1, nr); }
      }
      i := i + 1;
    }
    CheckedHandOver(d, nr);
    ExactFree(d, HandOver(d, nr, true), HandOverLists(d, nr, true), nr);
  }

  lemma NothingFree(d: seq<Page>)
    requires FreshDatabase(d)
    ensures forall i :: 0 <= i < |d| ==> !d[i].isFree
  {
  }

  lemma ExactFree(d: seq<Page>, e: seq<Page>, lists: FreeLists, n: nat)
    requires n <= |d| && HandedOver(d, e, lists, n)
    ensures forall i :: 0 <= i < |d| ==> (e[i].isFree <==> i < n && Wanted(d[i]))
  {
  }

  lemma NextWanted(d: seq<Page>, n: nat)
    requires n < |d| && Wanted(d[n])
    ensures WantedBelow(d, n + 1) == WantedBelow(d, n) + Run(n, 0) && n !in WantedBelow(d, n)
    ensures Pow2(0) == 1 && Aligned(n, 0) && forall i: nat :: InRun(n, 0, i) <==> i == n
  {
    OnlyOne(n);
  }

  lemma NextUnwanted(d: seq<Page>, n: nat)
    requires n < |d| && !Wanted(d[n])
    ensures WantedBelow(d, n + 1) == WantedBelow(d, n)
  {
  }
}
