/** The end of the descriptor array. The merge loop reads a buddy's descriptor
    without asking whether there is one; exactly when there is. */
module BuddyEdge {
  import opened Bits
  import opened Buddy
  import opened BuddyFree
  import opened BuddyAlloc

  /** The aligned run of 2^t pages around p consists of pages being freed, those of run (p, k), and of free pages. */
  ghost predicate Complete(d: seq<Page>, m: set<nat>, p: nat, k: nat, t: nat) {
    forall i: nat :: InRun(HeadOf(p, t), t, i) ==> InRun(p, k, i) || (i in m && i < |d| && d[i].isFree)
  }

  /** The run of 2^t pages around p has a buddy with a descriptor. */
  predicate HasBuddy(d: seq<Page>, p: nat, t: nat) { BuddyPfn(HeadOf(p, t), t) < |d| }

  /** Freeing run (p, k) finds a descriptor wherever it looks. */
  ghost predicate BuddiesExist(d: seq<Page>, m: set<nat>, p: nat, k: nat, from: nat) {
    forall t: nat :: from <= t < MAX_PAGE_ORDER - 1 && Complete(d, m, p, k, t) ==> HasBuddy(d, p, t)
  }

  lemma MergingRun(d: seq<Page>, m: set<nat>, p: nat, k: nat, q: nat, j: nat)
    requires Merging(d, m, Run(p, k), q, j)
    ensures Partition(d, m) && Aligned(q, j)
  {
  }

  /** Where the loop stops, no larger run is complete. */
  lemma StopsIncomplete(d: seq<Page>, m: set<nat>, p: nat, k: nat, q: nat, j: nat, t: nat)
    requires Merging(d, m, Run(p, k), q, j) && Coalesced(d, m) && j < t < MAX_PAGE_ORDER
    requires q == HeadOf(p, j) && InRun(q, j, p) && InRun(p, k, p) && BuddyPfn(q, j) < |d| && !Mergeable(d, q, j, true)
    ensures !Complete(d, m, p, k, t)
  {
    hide Merging, Complete, Coalesced, Mergeable, Aligned, HeadOf, BuddyPfn, Pow2, Partition;
    var b, h := BuddyPfn(q, j), HeadOf(p, t);
    MergingRun(d, m, p, k, q, j);
    BuddyFacts(q, j);
    Pow2Double(j);
    Nested(Lower(q, b), j + 1, h, t, p);
    if Complete(d, m, p, k, t) {
      BuddyRunFree(d, m, p, k, q, j, h, t);
      FreeRunInBlock(d, m, b, j);
      BuddyBlock(d, m, p, k, q, j);
    }
  }

  /** In a complete run the buddy run is free. */
  lemma BuddyRunFree(d: seq<Page>, m: set<nat>, p: nat, k: nat, q: nat, j: nat, h: nat, t: nat)
    requires Merging(d, m, Run(p, k), q, j) && Complete(d, m, p, k, t) && h == HeadOf(p, t)
    requires var b := BuddyPfn(q, j);
             (b == q + Pow2(j) || q == b + Pow2(j)) && h <= Lower(q, b) && Lower(q, b) + Pow2(j + 1) <= h + Pow2(t)
    ensures var b := BuddyPfn(q, j);
            b + Pow2(j) <= |d| && forall i: nat :: InRun(b, j, i) ==> i in m && i < |d| && d[i].isFree
  {
    var b := BuddyPfn(q, j);
    forall i: nat | InRun(b, j, i)
      ensures i in m && i < |d| && d[i].isFree
    {
      assert InRun(h, t, i);
      assert InRun(p, k, i) ==> i in Run(p, k);
    }
    assert InRun(b, j, b + Pow2(j) - 1);
  }

  /** A free block that holds the buddy's first page is the buddy itself. */
  lemma BuddyBlock(d: seq<Page>, m: set<nat>, p: nat, k: nat, q: nat, j: nat)
    requires Merging(d, m, Run(p, k), q, j) && j < MAX_PAGE_ORDER - 1 && InRun(q, j, p) && InRun(p, k, p)
    requires var b := BuddyPfn(q, j); b < |d| && b in m && d[b].isFree && d[b].order >= j
    ensures Mergeable(d, q, j, true)
  {
    var b := BuddyPfn(q, j);
    BuddyFacts(q, j);
    BuddyFacts(b, j);
    assert p in Run(p, k);
    var h, o := HeadOf(b, d[b].order), d[b].order;
    assert IsBlock(d, m, h, o, true);
    WiderHolds(h, o, Lower(q, b), j + 1, b, p);
    if o == j { HeadUnique(b, j, b); }
  }

  lemma MergingHolds(d: seq<Page>, m: set<nat>, p: nat, k: nat, q: nat, j: nat)
    requires Merging(d, m, Run(p, k), q, j) && p in Run(p, k)
    ensures InRun(q, j, p) && j < MAX_PAGE_ORDER && Aligned(q, j) && q + Pow2(j) <= |d|
  {
  }

  lemma MergingComplete(d: seq<Page>, m: set<nat>, p: nat, k: nat, q: nat, j: nat)
    requires Merging(d, m, Run(p, k), q, j) && q == HeadOf(p, j)
    ensures Complete(d, m, p, k, j)
  {
    forall i: nat | InRun(q, j, i)
      ensures InRun(p, k, i) || (i in m && i < |d| && d[i].isFree)
    {
      InFreed(p, k, i);
    }
  }

  /** From a point of the merge loop on: every buddy that is looked at has a
      descriptor exactly if all complete runs have buddies with descriptors. */
  lemma {:induction false} LoopInsideExact(d: seq<Page>, m: set<nat>, p: nat, k: nat, q: nat, j: nat)
    requires Merging(d, m, Run(p, k), q, j) && Coalesced(d, m) && q == HeadOf(p, j) && InRun(p, k, p)
    ensures StaysInside(d, q, j, true) <==> BuddiesExist(d, m, p, k, j)
    decreases MAX_PAGE_ORDER - j
  {
    hide Complete, Mergeable, Coalesced, Aligned, Run, InRun;
    InFreed(p, k, p);
    MergingHolds(d, m, p, k, q, j);
    if j < MAX_PAGE_ORDER - 1 {
      MergingComplete(d, m, p, k, q, j);
      if BuddyPfn(q, j) < |d| {
        if Mergeable(d, q, j, true) {
          MergeStep(d, m, Run(p, k), q, j);
          MergingHolds(d, m, p, k, Lower(q, BuddyPfn(q, j)), j + 1);
          RunBounds(Lower(q, BuddyPfn(q, j)), j + 1, p);
          HeadUnique(p, j + 1, Lower(q, BuddyPfn(q, j)));
          LoopInsideExact(d, m, p, k, Lower(q, BuddyPfn(q, j)), j + 1);
        } else {
          forall t: nat | j < t < MAX_PAGE_ORDER - 1 ensures !Complete(d, m, p, k, t) { StopsIncomplete(d, m, p, k, q, j, t); }
        }
      }
    }
  }

  lemma RunBounds(p: nat, k: nat, i: nat)
    ensures InRun(p, k, i) <==> p <= i < p + Pow2(k)
  {
  }

  lemma InFreed(p: nat, k: nat, i: nat)
    ensures i in Run(p, k) <==> InRun(p, k, i)
  {
  }

  /** Freeing a run touches existing descriptors only, exactly if each aligned run around it
      that is then wholly free, below the top order, has a buddy with a descriptor. */
  lemma FreeInsideExact(d: seq<Page>, m: set<nat>, lists: FreeLists, p: nat, k: nat)
    requires Freeable(d, m, lists, p, k)
    ensures StaysInside(d, p, k, true) <==> BuddiesExist(d, m, p, k, k)
  {
    HeadUnique(p, k, p);
    assert InRun(p, k, p);
    LoopInsideExact(d, m, p, k, p, k);
  }

  // ----------------------------------------------- all frees of a pool

  ghost predicate RunIn(m: set<nat>, p: nat, t: nat) { forall i: nat :: InRun(p, t, i) ==> i in m }

  /** Every aligned run of managed pages below the top order has a buddy among the first n frames. */
  ghost predicate Walled(n: nat, m: set<nat>) {
    forall p: nat, t: nat {:trigger RunIn(m, p, t)} :: t < MAX_PAGE_ORDER - 1 && Aligned(p, t) && RunIn(m, p, t) ==> BuddyPfn(p, t) < n
  }

  /** Where all managed runs have buddies, every free stays inside. */
  lemma WalledInside(d: seq<Page>, m: set<nat>, all: set<nat>, lists: FreeLists, p: nat, k: nat)
    requires Freeable(d, m, lists, p, k) && Walled(|d|, all) && m + Run(p, k) <= all
    ensures StaysInside(d, p, k, true)
  {
    FreeInsideExact(d, m, lists, p, k);
    forall t: nat | k <= t < MAX_PAGE_ORDER - 1 && Complete(d, m, p, k, t)
      ensures HasBuddy(d, p, t)
    {
      forall i: nat | InRun(HeadOf(p, t), t, i) ensures i in all { InFreed(p, k, i); }
      assert RunIn(all, HeadOf(p, t), t);
    }
  }

  /** An array that ends with a top-order run walls in whatever it holds. */
  lemma AlignedWalled(n: nat, m: set<nat>)
    requires Aligned(n, MAX_PAGE_ORDER - 1) && forall i :: i in m ==> i < n
    ensures Walled(n, m)
  {
    forall p: nat, t: nat | t < MAX_PAGE_ORDER - 1 && Aligned(p, t) && RunIn(m, p, t)
      ensures BuddyPfn(p, t) < n
    {
      assert InRun(p, t, p);
      BuddyInside(n, p, t);
    }
  }
}
