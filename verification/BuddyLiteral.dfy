/** The merge test as the source has it, without a look at the buddy's order:
    exactly when it does what the test with the look does. */
module BuddyLiteral {
  import opened Bits
  import opened Buddy
  import opened BuddyFree
  import opened BuddyAlloc

  /** Where merging of equal orders stops, the next buddy is not a free head of
      some other order. */
  predicate OrderGuard(d: seq<Page>, p: nat, k: nat) {
    var (q, t) := MergeTop(d, p, k, true);
    !Mergeable(d, q, t, false)
  }

  /** The literal loop first does what the checked loop does. */
  lemma {:induction false} LiteralFollows(d: seq<Page>, lists: FreeLists, p: nat, k: nat)
    ensures var (q, t) := MergeTop(d, p, k, true);
            && MergeTop(d, p, k, false) == MergeTop(d, q, t, false)
            && MergeLists(d, lists, p, k, false) == MergeLists(d, MergeLists(d, lists, p, k, true), q, t, false)
    decreases MAX_PAGE_ORDER - k
  {
    if Mergeable(d, p, k, true) {
      var b := BuddyPfn(p, k);
      LiteralFollows(d, UnlinkHead(d, lists, b), Lower(p, b), k + 1);
    }
  }

  /** Both loops look at the same descriptors as far as they go together. */
  lemma {:induction false} LiteralLooks(d: seq<Page>, p: nat, k: nat)
    ensures var (q, t) := MergeTop(d, p, k, true);
            && (StaysInside(d, p, k, false) ==> StaysInside(d, q, t, false))
            && (!Mergeable(d, q, t, false) ==> (StaysInside(d, p, k, false) <==> StaysInside(d, p, k, true)))
    decreases MAX_PAGE_ORDER - k
  {
    if Mergeable(d, p, k, true) {
      LiteralLooks(d, Lower(p, BuddyPfn(p, k)), k + 1);
    }
  }

  lemma {:induction false} MergeTopGrows(d: seq<Page>, p: nat, k: nat)
    requires Aligned(p, k)
    ensures var (q, t) := MergeTop(d, p, k, false);
            Aligned(q, t) && forall i :: InRun(p, k, i) ==> InRun(q, t, i)
    decreases MAX_PAGE_ORDER - k
  {
    if Mergeable(d, p, k, false) {
      BuddyFacts(p, k);
      MergeTopGrows(d, Lower(p, BuddyPfn(p, k)), k + 1);
    }
  }

  /** A free head next to the final run but of another order heads a smaller
      block, so its half is not wholly free. */
  lemma OddBuddyHasHole(d: seq<Page>, m: set<nat>, freed: set<nat>, q: nat, t: nat) returns (i: nat)
    requires Merging(d, m, freed, q, t) && Coalesced(d, m)
    requires Mergeable(d, q, t, false) && !Mergeable(d, q, t, true) && BuddyPfn(q, t) + Pow2(t) <= |d|
    ensures i < |d| && InRun(BuddyPfn(q, t), t, i) && !InRun(q, t, i) && !d[i].isFree
    ensures BuddyPfn(q, t) in m && d[BuddyPfn(q, t)].order < t
  {
    var b := BuddyPfn(q, t);
    BuddyFacts(q, t);
    assert b in m;
    HeadStartsBlock(d, m, b);
    if d[b].order > t {
      AlignedWeaken(b, t + 1, d[b].order);
      BuddyFacts(b, t);
      Pow2Mono(t, d[b].order);
      SameBlock(d, m, b, q);
    }
    assert d[b].order < t;
    if forall j: nat :: InRun(b, t, j) ==> d[j].isFree {
      FreeRunInBlock(d, m, b, t);
    }
    i :| InRun(b, t, i) && !d[i].isFree;
  }

  /** The literal loop that stays inside has room for the odd buddy's run. */
  lemma OddBuddyFits(d: seq<Page>, p: nat, k: nat)
    requires Aligned(p, k) && StaysInside(d, p, k, false)
    ensures var (q, t) := MergeTop(d, p, k, true);
            Mergeable(d, q, t, false) && Aligned(q, t) ==> BuddyPfn(q, t) + Pow2(t) <= |d|
  {
    var (q, t) := MergeTop(d, p, k, true);
    LiteralLooks(d, p, k);
    if Mergeable(d, q, t, false) && Aligned(q, t) {
      BuddyFacts(q, t);
      Pow2Double(t);
    }
  }

  /** Without the guard some page that was neither free nor freed ends up marked free,
      unless the free already reached past the end of the array. */
  lemma LiteralSwallows(d: seq<Page>, m: set<nat>, lists: FreeLists, p: nat, k: nat) returns (i: nat)
    requires Freeable(d, m, lists, p, k) && !OrderGuard(d, p, k) && StaysInside(d, p, k, false)
    ensures i < |d| && !d[i].isFree && !InRun(p, k, i) && FreeTags(d, p, k, false)[i].isFree
    ensures (forall j :: j in m ==> j < p) ==> i < p
  {
    hide Mergeable, StaysInside, Aligned, MergeTop, Partition, Coalesced, Listed;
    var (q, t) := MergeTop(d, p, k, true);
    MergeEnds(d, m, Run(p, k), p, k);
    OddBuddyFits(d, p, k);
    i := OddBuddyHasHole(d, m, Run(p, k), q, t);
    assert InRun(p, k, i) ==> i in Run(p, k);
    LiteralFollows(d, lists, p, k);
    LiteralReaches(d, q, t, i);
    assert InRun(p, k, p);
    assert p in Run(q, t);
    BuddyFacts(q, t);
  }

  /** The literal loop's final block covers the odd buddy. */
  lemma LiteralReaches(d: seq<Page>, q: nat, t: nat, i: nat)
    requires Aligned(q, t) && Mergeable(d, q, t, false) && InRun(BuddyPfn(q, t), t, i)
    ensures var (q', t') := MergeTop(d, q, t, false); InRun(q', t', i)
  {
    var low := Lower(q, BuddyPfn(q, t));
    assert Aligned(low, t + 1) && InRun(low, t + 1, i) by { BuddyFacts(q, t); }
    MergeTopGrows(d, low, t + 1);
  }

  /** The literal free stays inside the array and adds exactly the freed run to the free pages
      if and only if the guard holds and the checked free stays inside; then it is the checked free. */
  lemma LiteralFreeExact(d: seq<Page>, m: set<nat>, lists: FreeLists, p: nat, k: nat)
    requires Freeable(d, m, lists, p, k)
    ensures (&& StaysInside(d, p, k, false)
             && forall i: nat :: i < |d| ==> (FreeTags(d, p, k, false)[i].isFree <==> d[i].isFree || InRun(p, k, i)))
            <==> OrderGuard(d, p, k) && StaysInside(d, p, k, true)
    ensures OrderGuard(d, p, k) ==>
            && FreeTags(d, p, k, false) == FreeTags(d, p, k, true)
            && FreeListsAfter(d, lists, p, k, false) == FreeListsAfter(d, lists, p, k, true)
            && (StaysInside(d, p, k, false) <==> StaysInside(d, p, k, true))
  {
    hide FreeTags, FreeListsAfter, StaysInside, Freeable, Mergeable;
    LiteralLooks(d, p, k);
    if OrderGuard(d, p, k) {
      GuardedSame(d, lists, p, k);
      FreeKeeps(d, m, lists, p, k);
    } else if StaysInside(d, p, k, false) {
      var i := LiteralSwallows(d, m, lists, p, k);
    }
  }

  lemma GuardedSame(d: seq<Page>, lists: FreeLists, p: nat, k: nat)
    requires OrderGuard(d, p, k)
    ensures FreeTags(d, p, k, false) == FreeTags(d, p, k, true)
    ensures FreeListsAfter(d, lists, p, k, false) == FreeListsAfter(d, lists, p, k, true)
  {
    LiteralFollows(d, lists, p, k);
  }

  /** A descriptor as the boot code leaves it. */
  function BlankPage(): Page { Page(NormalMem, false, false, 0, 0, 0, 0, 0, 1, 0) }

  /** Pages 0 and 2 are free, all others are in use. */
  predicate TwoFree(d: seq<Page>) {
    && |d| == 1024
    && forall i :: 0 <= i < 1024 ==> d[i] == if i == 0 || i == 2 then BlankPage().(isFree := true, isHead := true) else BlankPage()
  }

  const TWO_LISTS: FreeLists := [[2, 0], [], [], [], [], [], [], [], [], [], []]

  lemma TwoFreePool(d: seq<Page>)
    requires TwoFree(d)
    ensures PoolInv(d, {0, 2}, TWO_LISTS)
  {
    hide Listed, Partition;
    TwoFreeListed(d);
    TwoFreePartition(d);
    Pow2Values();
    XorPow2(0, 0);
    XorPow2(2, 0);
  }

  lemma TwoFreeListed(d: seq<Page>)
    requires TwoFree(d)
    ensures Listed(d, {0, 2}, TWO_LISTS)
  {
    forall k, x: nat | 0 <= k < MAX_PAGE_ORDER
      ensures x in TWO_LISTS[k] <==> x in {0, 2} && FreeHead(d, x) && d[x].order == k
    {
      assert TWO_LISTS[k] == if k == 0 then [2, 0] else [];
    }
  }

  lemma TwoFreePartition(d: seq<Page>)
    requires TwoFree(d)
    ensures Partition(d, {0, 2})
  {
    Pow2Values();
    assert IsBlock(d, {0, 2}, 0, 0, true) && IsBlock(d, {0, 2}, 2, 0, true);
  }

  /** Page 1 in use next to free page 0: freeing page 3 next to free page 2 swallows page 1. */
  lemma LiteralCounterexample(d: seq<Page>)
    requires TwoFree(d)
    ensures Freeable(d, {0, 2}, TWO_LISTS, 3, 0) && StaysInside(d, 3, 0, false)
    ensures !d[1].isFree && FreeTags(d, 3, 0, false)[1].isFree
  {
    hide PoolInv, MergeTop, StaysInside, Mergeable, BuddyPfn;
    Pow2Values();
    TwoFreePool(d);
    TwoFreeMerges(d);
    LiteralReaches(d, 2, 1, 1);
  }

  /** Page 3 merges with page 2, and the two with pages 0 and 1, in use or not. */
  lemma TwoFreeMerges(d: seq<Page>)
    requires TwoFree(d)
    ensures StaysInside(d, 3, 0, false) && MergeTop(d, 3, 0, false) == MergeTop(d, 2, 1, false)
    ensures Aligned(2, 1) && Mergeable(d, 2, 1, false) && InRun(BuddyPfn(2, 1), 1, 1)
  {
    hide TwoFree, MergeTop, StaysInside, Mergeable, BuddyPfn;
    Pow2Values();
    TwoFreeTests(d);
    MergeTurn(d, 3, 0, false);
    MergeTurn(d, 2, 1, false);
    MergeTurn(d, 0, 2, false);
  }

  lemma TwoFreeTests(d: seq<Page>)
    requires TwoFree(d)
    ensures BuddyPfn(3, 0) == 2 && BuddyPfn(2, 1) == 0 && BuddyPfn(0, 2) == 4 && |d| == 1024
    ensures Mergeable(d, 3, 0, false) && Mergeable(d, 2, 1, false) && !Mergeable(d, 0, 2, false)
  {
    hide Xor;
    Pow2Values();
    XorPow2(3, 0);
    XorPow2(2, 1);
    XorPow2(0, 2);
    assert Bit(3, 0) && Bit(2, 1) && !Bit(0, 2);
  }

  /** One turn of the merge loop. */
  lemma MergeTurn(d: seq<Page>, p: nat, k: nat, checked: bool)
    ensures var low := Lower(p, BuddyPfn(p, k));
            && MergeTop(d, p, k, checked) == (if Mergeable(d, p, k, checked) then MergeTop(d, low, k + 1, checked) else (p, k))
            && (StaysInside(d, p, k, checked) <==>
                && p + Pow2(k) <= |d|
                && (k < MAX_PAGE_ORDER - 1 ==>
                    BuddyPfn(p, k) < |d| && (Mergeable(d, p, k, checked) ==> StaysInside(d, low, k + 1, checked))))
  {
  }
}
