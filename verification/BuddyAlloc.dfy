/** Allocation keeps the pool's invariant, takes exactly one run out of the
    free pages, and fails only when no such run exists. */
module BuddyAlloc {
  import opened Bits
  import opened Options
  import opened Buddy

  /** The head that __alloc_page_direct takes. */
  function AllocPage(lists: FreeLists, k: nat): Option<nat>
    requires |lists| == MAX_PAGE_ORDER
  {
    if k >= MAX_PAGE_ORDER then None else
    var a := FirstOrder(lists, k);
    if a == MAX_PAGE_ORDER then None else Some(lists[a][0])
  }

  function AllocTags(d: seq<Page>, lists: FreeLists, k: nat): (r: seq<Page>)
    requires |lists| == MAX_PAGE_ORDER
    ensures |r| == |d|
  {
    if AllocPage(lists, k).None? then d else
    var a := FirstOrder(lists, k);
    SplitTags(d, lists[a][0], a, k)
  }

  function AllocListsAfter(lists: FreeLists, k: nat): (r: FreeLists)
    requires |lists| == MAX_PAGE_ORDER
    ensures |r| == MAX_PAGE_ORDER
  {
    if AllocPage(lists, k).None? then lists else
    var a := FirstOrder(lists, k);
    SplitLists(lists[a := lists[a][1..]], lists[a][0], a, k)
  }

  /** The run (p, a) was taken off its list and is being split. */
  ghost predicate Splitting(d: seq<Page>, m: set<nat>, lists: FreeLists, p: nat, a: nat) {
    && a < MAX_PAGE_ORDER && Aligned(p, a) && p + Pow2(a) <= |d| && m !! Run(p, a)
    && Partition(d, m) && Coalesced(d, m) && Listed(d, m, lists)
    && Outside(d, m + Run(p, a))
    && forall i :: InRun(p, a, i) ==> d[i].typ == NormalMem
  }

  /** Giving the upper half back. */
  lemma SplitStep(d: seq<Page>, m: set<nat>, lists: FreeLists, p: nat, a: nat)
    requires Splitting(d, m, lists, p, a) && a > 0
    ensures var b := BuddyPfn(p, a - 1);
            && b == p + Pow2(a - 1)
            && Splitting(Reinit(d, b, a - 1, true), m + Run(b, a - 1), Pushed(lists, a - 1, b), p, a - 1)
  {
    var k, b := a - 1, BuddyPfn(p, a - 1);
    SplitHalves(p, a);
    BuddyFacts(p, k);
    AddRun(d, m, b, k, true);
    SplitCoalesced(d, m, p, k);
    SplitListed(d, m, lists, b, k);
    assert m + Run(b, k) + Run(p, k) == m + Run(p, a);
  }

  lemma SplitCoalesced(d: seq<Page>, m: set<nat>, p: nat, k: nat)
    requires Partition(d, m) && Coalesced(d, m) && k < MAX_PAGE_ORDER && Aligned(p, k) && p !in m
    requires var b := BuddyPfn(p, k); Aligned(b, k) && BuddyPfn(b, k) == p && m !! Run(b, k) && p !in Run(b, k)
    ensures var b := BuddyPfn(p, k); Coalesced(Reinit(d, b, k, true), m + Run(b, k))
  {
    var b := BuddyPfn(p, k);
    var d', m' := Reinit(d, b, k, true), m + Run(b, k);
    forall h: nat | h in m' && h < |d| && FreeHead(d', h)
      ensures Alone(d', m', h)
    {
      if !InRun(b, k, h) {
        HeadStartsBlock(d, m, h);
        BuddyFacts(h, d[h].order);
        assert Alone(d, m, h);
      }
    }
  }

  lemma SplitListed(d: seq<Page>, m: set<nat>, lists: FreeLists, b: nat, k: nat)
    requires Listed(d, m, lists) && k < MAX_PAGE_ORDER && b + Pow2(k) <= |d| && m !! Run(b, k)
    ensures Listed(Reinit(d, b, k, true), m + Run(b, k), Pushed(lists, k, b))
  {
    var d', lists' := Reinit(d, b, k, true), Pushed(lists, k, b);
    assert lists'[k] == [b] + lists[k];
    forall j, x: nat | 0 <= j < MAX_PAGE_ORDER
      ensures x in lists'[j] <==> x in m + Run(b, k) && FreeHead(d', x) && d'[x].order == j
    {
      assert x in lists'[j] <==> x in lists[j] || (j == k && x == b);
    }
    assert b in Run(b, k);
  }

  /** The lower part that remains becomes the block handed out. */
  lemma SplitLast(d: seq<Page>, m: set<nat>, lists: FreeLists, p: nat, k: nat)
    requires Splitting(d, m, lists, p, k)
    ensures var d' := Reinit(d, p, k, false); var m' := m + Run(p, k);
            PoolInv(d', m', lists) && IsBlock(d', m', p, k, false)
  {
    AddRun(d, m, p, k, false);
    CoalescedSub(d, m, Reinit(d, p, k, false), m + Run(p, k));
  }

  lemma {:induction false} SplitEnds(d: seq<Page>, m: set<nat>, lists: FreeLists, p: nat, a: nat, k: nat)
    requires Splitting(d, m, lists, p, a) && k <= a
    ensures var d' := SplitTags(d, p, a, k); var m' := m + Run(p, a);
            PoolInv(d', m', SplitLists(lists, p, a, k)) && IsBlock(d', m', p, k, false)
    decreases a
  {
    if a == k {
      SplitLast(d, m, lists, p, k);
    } else {
      var b := BuddyPfn(p, a - 1);
      SplitStep(d, m, lists, p, a);
      SplitEnds(Reinit(d, b, a - 1, true), m + Run(b, a - 1), Pushed(lists, a - 1, b), p, a - 1, k);
      assert m + Run(b, a - 1) + Run(p, a - 1) == m + Run(p, a);
    }
  }

  /** The halves of the run that a split step works on. */
  lemma SplitHalves(p: nat, a: nat)
    requires a > 0 && Aligned(p, a)
    ensures Aligned(p, a - 1) && BuddyPfn(p, a - 1) == p + Pow2(a - 1)
    ensures forall i :: InRun(p, a, i) <==> InRun(p, a - 1, i) || InRun(BuddyPfn(p, a - 1), a - 1, i)
  {
    AlignedWeaken(p, a - 1, a);
    BuddyFacts(p, a - 1);
  }

  /** Splitting touches only the run, */
  lemma {:induction false} SplitOutside(d: seq<Page>, p: nat, a: nat, k: nat)
    requires k <= a && Aligned(p, a)
    ensures forall i: nat :: InRun(p, k, i) ==> InRun(p, a, i)
    ensures forall i: nat :: i < |d| && !InRun(p, a, i) ==> SplitTags(d, p, a, k)[i] == d[i]
    decreases a
  {
    if a > k {
      SplitHalves(p, a);
      SplitOutside(Reinit(d, BuddyPfn(p, a - 1), a - 1, true), p, a - 1, k);
    }
  }

  /** and frees all of it but its first 2^k pages. */
  lemma {:induction false} SplitFrees(d: seq<Page>, p: nat, a: nat, k: nat)
    requires k <= a && Aligned(p, a)
    ensures forall i: nat :: i < |d| && InRun(p, a, i) ==> (SplitTags(d, p, a, k)[i].isFree <==> !InRun(p, k, i))
    decreases a
  {
    if a > k {
      SplitHalves(p, a);
      var d1 := Reinit(d, BuddyPfn(p, a - 1), a - 1, true);
      SplitOutside(d1, p, a - 1, k);
      SplitFrees(d1, p, a - 1, k);
    }
  }

  /** The head handed out has no reference and no owner yet. */
  lemma {:induction false} SplitHead(d: seq<Page>, p: nat, a: nat, k: nat)
    requires k <= a && p < |d|
    ensures var pg := SplitTags(d, p, a, k)[p]; pg.refCount == -1 && pg.isHead && pg.kc == 0
    decreases a
  {
    if a > k {
      SplitHead(Reinit(d, BuddyPfn(p, a - 1), a - 1, true), p, a - 1, k);
    } else {
      assert InRun(p, k, p);
    }
  }

  lemma AllocHead(d: seq<Page>, lists: FreeLists, k: nat)
    requires |lists| == MAX_PAGE_ORDER && AllocPage(lists, k).Some? && AllocPage(lists, k).value < |d|
    ensures var pg := AllocTags(d, lists, k)[AllocPage(lists, k).value]; pg.refCount == -1 && pg.isHead && pg.kc == 0
  {
    SplitHead(d, lists[FirstOrder(lists, k)][0], FirstOrder(lists, k), k);
  }

  /** A page of a block as handed out: in use, of the block's order, of no cache; only the head's counts are set. */
  predicate HandedOut(was: Page, now: Page, k: nat, head: bool) {
    && now.typ == was.typ && now.pool == was.pool && now.objNr == was.objNr
    && !now.isFree && now.order == k && now.freelist == 0 && now.kc == 0 && now.isHead == head
    && now.refCount == (if head then -1 else was.refCount) && now.mapCount == (if head then -1 else was.mapCount)
  }

  lemma {:induction false} SplitRun(d: seq<Page>, p: nat, a: nat, k: nat, i: nat)
    requires k <= a && Aligned(p, a) && InRun(p, k, i) && i < |d|
    ensures HandedOut(d[i], SplitTags(d, p, a, k)[i], k, i == p)
    decreases a
  {
    hide Aligned, Pow2, BuddyPfn;
    if a > k {
      AlignedWeaken(p, a - 1, a);
      BuddyFacts(p, a - 1);
      Pow2Mono(k, a - 1);
      SplitRun(Reinit(d, BuddyPfn(p, a - 1), a - 1, true), p, a - 1, k, i);
    }
  }

  /** Every page of the block that an allocation gives. */
  lemma AllocBlock(d: seq<Page>, m: set<nat>, lists: FreeLists, k: nat, i: nat)
    requires PoolInv(d, m, lists) && AllocPage(lists, k).Some? && InRun(AllocPage(lists, k).value, k, i)
    ensures i < |d| && HandedOut(d[i], AllocTags(d, lists, k)[i], k, i == AllocPage(lists, k).value)
  {
    hide SplitTags, IsBlock, Partition, Coalesced, Aligned;
    var a := FirstOrder(lists, k);
    TakeHead(d, m, lists, a);
    BlockInside(d, m, lists[a][0], a);
    Pow2Mono(k, a);
    SplitRun(d, lists[a][0], a, k, i);
  }

  lemma BlockInside(d: seq<Page>, m: set<nat>, p: nat, k: nat)
    requires IsBlock(d, m, p, k, true)
    ensures Aligned(p, k) && p + Pow2(k) <= |d|
  {
  }

  /** Taking the first block off freelist[a]. */
  lemma TakeHead(d: seq<Page>, m: set<nat>, lists: FreeLists, a: nat)
    requires PoolInv(d, m, lists) && a < MAX_PAGE_ORDER && lists[a] != []
    ensures var p := lists[a][0];
            && p in m && IsBlock(d, m, p, a, true)
            && Splitting(d, m - Run(p, a), lists[a := lists[a][1..]], p, a)
            && m - Run(p, a) + Run(p, a) == m
  {
    var p, s := lists[a][0], lists[a];
    assert p in s;
    HeadStartsBlock(d, m, p);
    BlockSaturated(d, m, p, a, true);
    RemoveRun(d, m, p, a);
    CoalescedSub(d, m, d, m - Run(p, a));
    var lists' := lists[a := s[1..]];
    forall j, x: nat | 0 <= j < MAX_PAGE_ORDER
      ensures x in lists'[j] <==> x in m - Run(p, a) && FreeHead(d, x) && d[x].order == j
    {
      assert x in s <==> x == p || x in s[1..];
      assert InRun(p, a, x) && d[x].isHead ==> x == p;
    }
    assert m - Run(p, a) + Run(p, a) == m;
  }

  /** Allocation from a pool in good order. */
  lemma AllocKeeps(d: seq<Page>, m: set<nat>, lists: FreeLists, k: nat)
    requires PoolInv(d, m, lists)
    ensures PoolInv(AllocTags(d, lists, k), m, AllocListsAfter(lists, k))
    ensures var d' := AllocTags(d, lists, k);
            match AllocPage(lists, k)
            case None => d' == d
            case Some(p) =>
              && k < MAX_PAGE_ORDER && Run(p, k) <= m && IsBlock(d', m, p, k, false)
              && (forall i: nat :: InRun(p, k, i) ==> d[i].isFree)
              && (forall i: nat :: i < |d| ==> (d'[i].isFree <==> d[i].isFree && !InRun(p, k, i)))
              && (forall i: nat :: i < |d| && !d[i].isFree ==> d'[i] == d[i])
  {
    if AllocPage(lists, k).Some? {
      var a := FirstOrder(lists, k);
      var p := lists[a][0];
      TakeHead(d, m, lists, a);
      SplitEnds(d, m - Run(p, a), lists[a := lists[a][1..]], p, a, k);
      SplitOutside(d, p, a, k);
      SplitFrees(d, p, a, k);
    }
  }

  // ------------------------------------------------- completeness, best fit

  /** An aligned run of 2^k managed pages that are all free. */
  ghost predicate FreeRun(d: seq<Page>, m: set<nat>, p: nat, k: nat) {
    Aligned(p, k) && forall i: nat :: InRun(p, k, i) ==> i in m && i < |d| && d[i].isFree
  }

  /** Free pages of a coalesced pool that form an aligned run lie in one block. */
  lemma {:induction false} FreeRunInBlock(d: seq<Page>, m: set<nat>, p: nat, k: nat)
    requires Partition(d, m) && Coalesced(d, m)
    requires k < MAX_PAGE_ORDER && FreeRun(d, m, p, k)
    ensures p < |d| && d[p].order >= k && HeadOf(p, d[p].order) <= p
    decreases k
  {
    hide FreeRun, Aligned, HeadOf, BuddyPfn, Partition, Coalesced, Pow2;
    FreeHalves(d, m, p, k);
    if k > 0 {
      FreeRunInBlock(d, m, p, k - 1);
      FreeRunInBlock(d, m, p + Pow2(k - 1), k - 1);
      if d[p].order == k - 1 { NoFreeHalves(d, m, p, k - 1); }
    }
  }

  /** A free run starts with a free page, and its halves are free runs. */
  lemma FreeHalves(d: seq<Page>, m: set<nat>, p: nat, k: nat)
    requires FreeRun(d, m, p, k)
    ensures Aligned(p, k) && p in m && p < |d| && d[p].isFree
    ensures k > 0 ==>
            var b := p + Pow2(k - 1);
            FreeRun(d, m, p, k - 1) && FreeRun(d, m, b, k - 1) && b in m && b < |d| && d[b].isFree
  {
    hide Aligned, Pow2;
    assert InRun(p, k, p);
    if k > 0 {
      Pow2Double(k - 1);
      AlignedWeaken(p, k - 1, k);
      AlignedPow2(k - 1, k - 1);
      AlignedSum(p, Pow2(k - 1), k - 1);
      var b := p + Pow2(k - 1);
      assert InRun(p, k, b);
      forall i: nat | InRun(p, k - 1, i) || InRun(b, k - 1, i)
        ensures i in m && i < |d| && d[i].isFree
      {
        assert InRun(p, k, i);
      }
    }
  }

  /** Two free buddies are not blocks of their own: the lower one lies in a larger block. */
  lemma NoFreeHalves(d: seq<Page>, m: set<nat>, p: nat, j: nat)
    requires Partition(d, m) && Coalesced(d, m) && j < MAX_PAGE_ORDER - 1 && Aligned(p, j + 1)
    requires p in m && p + Pow2(j) in m && p + Pow2(j) < |d| && d[p].isFree && d[p + Pow2(j)].isFree && d[p + Pow2(j)].order >= j
    ensures d[p].order != j
  {
    hide Aligned, HeadOf, BuddyPfn, Pow2;
    var b := p + Pow2(j);
    AlignedWeaken(p, j, j + 1);
    BuddyFacts(p, j);
    BuddyFacts(b, j);
    assert Alone(d, m, p);
    if d[p].order == j {
      HeadUnique(p, j, p);
      if d[b].order > j {
        AlignedSame(b, j, d[b].order);
      } else {
        HeadUnique(b, j, b);
      }
    }
  }

  /** The larger aligned run around an odd multiple of 2^j holds its even neighbour too. */
  lemma AlignedSame(b: nat, j: nat, k: nat)
    requires j < k && Aligned(b, j) && !Aligned(b, j + 1)
    ensures b >= Pow2(j) && InRun(HeadOf(b, k), k, b - Pow2(j))
  {
    BuddyFacts(b, j);
    var low := b - Pow2(j);
    Pow2Mono(j, k);
    AlignedWeaken(HeadOf(b, k), j + 1, k);
    if low < HeadOf(b, k) {
      AlignedGap(low, HeadOf(b, k), j + 1);
    }
  }

  lemma FreeRunListed(d: seq<Page>, m: set<nat>, lists: FreeLists, p: nat, k: nat)
    requires PoolInv(d, m, lists) && k < MAX_PAGE_ORDER && FreeRun(d, m, p, k)
    ensures AllocPage(lists, k).Some?
  {
    assert InRun(p, k, p) && InRun(p, k, p + Pow2(k) - 1);
    FreeRunInBlock(d, m, p, k);
    var a, h := d[p].order, HeadOf(p, d[p].order);
    assert IsBlock(d, m, h, a, true);
    assert h in lists[a];
  }

  /** AllocPages fails exactly when no aligned run of 2^k free pages is left. */
  lemma AllocComplete(d: seq<Page>, m: set<nat>, lists: FreeLists, k: nat)
    requires PoolInv(d, m, lists) && k < MAX_PAGE_ORDER
    ensures AllocPage(lists, k).None? <==> !exists p: nat :: FreeRun(d, m, p, k)
  {
    if p: nat :| FreeRun(d, m, p, k) {
      FreeRunListed(d, m, lists, p, k);
    }
    if AllocPage(lists, k).Some? {
      AllocKeeps(d, m, lists, k);
      var p := AllocPage(lists, k).value;
      assert FreeRun(d, m, p, k);
    }
  }

  /** The run is cut from a block of the smallest order that suffices. */
  lemma AllocBestFit(d: seq<Page>, m: set<nat>, lists: FreeLists, k: nat)
    requires PoolInv(d, m, lists) && AllocPage(lists, k).Some?
    ensures var p := AllocPage(lists, k).value;
            && p in m && FreeHead(d, p) && d[p].order >= k
            && forall h: nat :: h in m && FreeHead(d, h) && d[h].order >= k ==> d[h].order >= d[p].order
  {
    var a := FirstOrder(lists, k);
    assert lists[a][0] in lists[a];
    forall h: nat | h in m && FreeHead(d, h) && d[h].order >= k
      ensures d[h].order >= a
    {
      assert IsBlock(d, m, HeadOf(h, d[h].order), d[h].order, true);
      assert h in lists[d[h].order];
    }
  }

  // ----------------------------------------------------------- canonicity

  /** The free blocks are determined by the set of free pages. */
  lemma FreeBlocksDetermined(d: seq<Page>, e: seq<Page>, m: set<nat>)
    requires |d| == |e| && Partition(d, m) && Coalesced(d, m) && Partition(e, m) && Coalesced(e, m)
    requires forall i: nat :: i in m ==> d[i].isFree == e[i].isFree
    ensures forall i: nat :: i in m && d[i].isFree ==> d[i].order == e[i].order && d[i].isHead == e[i].isHead
  {
    forall i: nat | i in m && d[i].isFree
      ensures d[i].order == e[i].order && d[i].isHead == e[i].isHead
    {
      OrderAtLeast(d, e, m, i);
      OrderAtLeast(e, d, m, i);
      assert IsBlock(d, m, HeadOf(i, d[i].order), d[i].order, true) && IsBlock(e, m, HeadOf(i, e[i].order), e[i].order, true);
    }
  }

  lemma OrderAtLeast(d: seq<Page>, e: seq<Page>, m: set<nat>, i: nat)
    requires |d| == |e| && Partition(d, m) && Partition(e, m) && Coalesced(e, m)
    requires forall j: nat :: j in m ==> d[j].isFree == e[j].isFree
    requires i in m && d[i].isFree
    ensures e[i].order >= d[i].order
  {
    var k, h := d[i].order, HeadOf(i, d[i].order);
    assert IsBlock(d, m, h, k, true);
    FreeRunInBlock(e, m, h, k);
    assert h in m;
    var g, t := HeadOf(h, e[h].order), e[h].order;
    Nested(h, k, g, t, h);
    SameBlock(e, m, h, i);
  }
}
