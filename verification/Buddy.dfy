/** The buddy system on page descriptors: which tags and free lists each
    operation of the pool leaves behind, as functions of the ones it found, and
    the invariant they keep. A descriptor is named by its page frame number. */
module Buddy {
  import opened Bits
  import opened ListLinks

  datatype PageType = NonExisted | NormalMem | Reserved | AcpiReclaimable | Nvs | BadRam | Unknown

  /** struct Page. Pointers are addresses, 0 is the null pointer. */
  datatype Page = Page(
    typ: PageType, isFree: bool, isHead: bool, order: nat,
    refCount: int, mapCount: int, freelist: nat, kc: nat, pool: nat, objNr: nat)

  const MAX_PAGE_ORDER: nat := 11

  type FreeLists = seq<seq<nat>>

  // ---------------------------------------------------------------- blocks

  predicate InRun(p: nat, k: nat, i: int) { p <= i < p + Pow2(k) }

  ghost function Run(p: nat, k: nat): set<nat> { set i: nat | p <= i < p + Pow2(k) && InRun(p, k, i) }

  function BuddyPfn(pfn: nat, order: nat): nat { Xor(pfn, Pow2(order)) }

  predicate FreeHead(d: seq<Page>, i: nat) { i < |d| && d[i].isHead && d[i].isFree }

  /** Pages h .. h+2^k-1 form one block of order k, free or in use. */
  ghost predicate IsBlock(d: seq<Page>, m: set<nat>, h: nat, k: nat, free: bool) {
    && k < MAX_PAGE_ORDER && Aligned(h, k) && h + Pow2(k) <= |d|
    && forall j: nat :: InRun(h, k, j) ==> j in m && d[j].order == k && d[j].isFree == free && (d[j].isHead <==> j == h)
  }

  /** Every page of m lies in the block that its own order names, inside m. */
  ghost predicate Partition(d: seq<Page>, m: set<nat>) {
    forall i: nat :: i in m ==>
      i < |d| && d[i].typ == NormalMem && IsBlock(d, m, HeadOf(i, d[i].order), d[i].order, d[i].isFree)
  }

  /** h is not a free head below the top order whose buddy is free too, with the same order. */
  ghost predicate Alone(d: seq<Page>, m: set<nat>, h: nat)
    requires h < |d|
  {
    FreeHead(d, h) && d[h].order < MAX_PAGE_ORDER - 1 ==>
      var b := BuddyPfn(h, d[h].order);
      !(b in m && FreeHead(d, b) && d[b].order == d[h].order)
  }

  /** No two buddies of one order below the top are both free. */
  ghost predicate Coalesced(d: seq<Page>, m: set<nat>) {
    forall h: nat {:trigger Alone(d, m, h)} :: h in m && h < |d| ==> Alone(d, m, h)
  }

  /** freelist[k] links exactly the free heads of order k, each once. */
  ghost predicate Listed(d: seq<Page>, m: set<nat>, lists: FreeLists) {
    && |lists| == MAX_PAGE_ORDER
    && forall k :: 0 <= k < MAX_PAGE_ORDER ==>
      Distinct(lists[k]) && forall x: nat :: x in lists[k] <==> x in m && FreeHead(d, x) && d[x].order == k
  }

  /** Pages the pool does not manage are not marked free. */
  ghost predicate Outside(d: seq<Page>, m: set<nat>) {
    forall i: nat :: i < |d| && i !in m ==> !d[i].isFree
  }

  /** The pool's invariant. */
  ghost predicate PoolInv(d: seq<Page>, m: set<nat>, lists: FreeLists) {
    Partition(d, m) && Coalesced(d, m) && Listed(d, m, lists) && Outside(d, m)
  }

  /** Run (p, k) is set aside from the managed pages and may be freed into the pool. */
  ghost predicate Freeable(d: seq<Page>, m: set<nat>, lists: FreeLists, p: nat, k: nat) {
    && PoolInv(d, m, lists)
    && k < MAX_PAGE_ORDER && Aligned(p, k) && p + Pow2(k) <= |d| && m !! Run(p, k)
    && forall i :: InRun(p, k, i) ==> d[i].typ == NormalMem
  }

  // ------------------------------------------------------------ operations

  /** What __reinit_page writes into one descriptor. */
  function Retagged(pg: Page, k: nat, free: bool, head: bool): Page {
    pg.(isFree := free, order := k, freelist := 0, kc := 0, isHead := head,
        refCount := if head then -1 else pg.refCount,
        mapCount := if head then -1 else pg.mapCount)
  }

  function Reinit(d: seq<Page>, p: nat, k: nat, free: bool): (r: seq<Page>)
    ensures |r| == |d|
    ensures forall i :: 0 <= i < |d| ==> r[i] == if InRun(p, k, i) then Retagged(d[i], k, free, i == p) else d[i]
  {
    seq(|d|, i requires 0 <= i < |d| => if InRun(p, k, i) then Retagged(d[i], k, free, i == p) else d[i])
  }

  /** The test of the merge loop. The source does not look at the buddy's
      order; checked adds that look. Nor does it ask whether the buddy has a
      descriptor: StaysInside says when it has. */
  predicate Mergeable(d: seq<Page>, p: nat, k: nat, checked: bool) {
    && k < MAX_PAGE_ORDER - 1
    && var b := BuddyPfn(p, k);
    b < |d| && d[b].typ == NormalMem && FreeHead(d, b) && (checked ==> d[b].order == k)
  }

  function Lower(p: nat, b: nat): nat { if b < p then b else p }

  /** A free touches no descriptor at or past the end of the array: each buddy that
      the merge loop looks at has one, and so have all pages of the final block. */
  predicate StaysInside(d: seq<Page>, p: nat, k: nat, checked: bool)
    ensures StaysInside(d, p, k, checked) ==> p + Pow2(k) <= |d| && (k < MAX_PAGE_ORDER - 1 ==> BuddyPfn(p, k) < |d|)
    decreases MAX_PAGE_ORDER - k
  {
    && p + Pow2(k) <= |d|
    && (k < MAX_PAGE_ORDER - 1 ==>
        && BuddyPfn(p, k) < |d|
        && (Mergeable(d, p, k, checked) ==> StaysInside(d, Lower(p, BuddyPfn(p, k)), k + 1, checked)))
  }

  /** Head and order of the block the merge loop ends with. */
  function MergeTop(d: seq<Page>, p: nat, k: nat, checked: bool): (nat, nat)
    decreases MAX_PAGE_ORDER - k
  {
    if Mergeable(d, p, k, checked) then MergeTop(d, Lower(p, BuddyPfn(p, k)), k + 1, checked) else (p, k)
  }

  /** s without its first x. */
  function Unlinked(s: seq<nat>, x: nat): (r: seq<nat>) {
    if s == [] then [] else if s[0] == x then s[1..] else [s[0]] + Unlinked(s[1..], x)
  }

  /** list_del takes b off whichever list it is on: that of its own order. */
  function UnlinkHead(d: seq<Page>, lists: FreeLists, b: nat): (r: FreeLists)
    requires b < |d|
    ensures |r| == |lists|
  {
    if d[b].order < |lists| then lists[d[b].order := Unlinked(lists[d[b].order], b)] else lists
  }

  function MergeLists(d: seq<Page>, lists: FreeLists, p: nat, k: nat, checked: bool): (r: FreeLists)
    ensures |r| == |lists|
    decreases MAX_PAGE_ORDER - k
  {
    if Mergeable(d, p, k, checked) then
      var b := BuddyPfn(p, k);
      MergeLists(d, UnlinkHead(d, lists, b), Lower(p, b), k + 1, checked)
    else lists
  }

  function Pushed(lists: FreeLists, k: nat, x: nat): (r: FreeLists)
    ensures |r| == |lists|
  {
    if k < |lists| then lists[k := [x] + lists[k]] else lists
  }

  function FreeTags(d: seq<Page>, p: nat, k: nat, checked: bool): (r: seq<Page>)
    ensures |r| == |d|
  {
    var (q, t) := MergeTop(d, p, k, checked);
    Reinit(d, q, t, true)
  }

  function FreeListsAfter(d: seq<Page>, lists: FreeLists, p: nat, k: nat, checked: bool): FreeLists {
    var (q, t) := MergeTop(d, p, k, checked);
    Pushed(MergeLists(d, lists, p, k, checked), t, q)
  }

  /** Smallest order from k up with a block on its list; MAX_PAGE_ORDER if none. */
  function FirstOrder(lists: FreeLists, k: nat): (a: nat)
    requires |lists| == MAX_PAGE_ORDER && k <= MAX_PAGE_ORDER
    ensures k <= a <= MAX_PAGE_ORDER
    ensures a < MAX_PAGE_ORDER ==> lists[a] != []
    ensures forall j :: k <= j < a ==> lists[j] == []
    decreases MAX_PAGE_ORDER - k
  {
    if k == MAX_PAGE_ORDER || lists[k] != [] then k else FirstOrder(lists, k + 1)
  }

  function SplitTags(d: seq<Page>, p: nat, a: nat, k: nat): (r: seq<Page>)
    requires k <= a
    ensures |r| == |d|
    decreases a
  {
    if a == k then Reinit(d, p, k, false)
    else SplitTags(Reinit(d, BuddyPfn(p, a - 1), a - 1, true), p, a - 1, k)
  }

  function SplitLists(lists: FreeLists, p: nat, a: nat, k: nat): (r: FreeLists)
    requires k <= a
    ensures |r| == |lists|
    decreases a
  {
    if a == k then lists else SplitLists(Pushed(lists, a - 1, BuddyPfn(p, a - 1)), p, a - 1, k)
  }

  // --------------------------------------------------------------- buddies

  lemma BuddyFacts(p: nat, k: nat)
    requires Aligned(p, k)
    ensures var b := BuddyPfn(p, k); var low := Lower(p, b);
            && Aligned(b, k) && Aligned(low, k + 1) && BuddyPfn(b, k) == p
            && (b == p + Pow2(k) || p == b + Pow2(k))
            && (Aligned(p, k + 1) <==> b == p + Pow2(k))
  {
    var b := BuddyPfn(p, k);
    XorTwice(p, Pow2(k));
    XorPow2(p, k);
    XorPow2(b, k);
    AlignedBit(p, k);
    AlignedBit(b, k);
    AlignedPow2(k, k);
    AlignedSum(p, Pow2(k), k);
    if Bit(p, k) { AlignedSum(p, Pow2(k), k); }
  }

  /** The merged block of two buddies stays inside the descriptor array. */
  lemma BuddyInside(n: nat, p: nat, k: nat)
    requires Aligned(n, MAX_PAGE_ORDER - 1) && k < MAX_PAGE_ORDER - 1 && Aligned(p, k) && p < n
    ensures BuddyPfn(p, k) < n && Lower(p, BuddyPfn(p, k)) + Pow2(k + 1) <= n
  {
    BuddyFacts(p, k);
    AlignedWeaken(n, k + 1, MAX_PAGE_ORDER - 1);
    AlignedGap(Lower(p, BuddyPfn(p, k)), n, k + 1);
  }

  /** A wider aligned run that meets a narrower one holds all of it. */
  lemma WiderHolds(h: nat, k: nat, g: nat, t: nat, i: nat, x: nat)
    requires Aligned(h, k) && Aligned(g, t) && InRun(h, k, i) && InRun(g, t, i) && InRun(g, t, x)
    ensures k >= t ==> InRun(h, k, x)
  {
    if k >= t { Nested(g, t, h, k, i); }
  }

  /** All pages of a block name the same block. */
  lemma SameBlock(d: seq<Page>, m: set<nat>, i: nat, j: nat)
    requires Partition(d, m) && i in m && InRun(HeadOf(i, d[i].order), d[i].order, j)
    ensures j in m && d[j].order == d[i].order && d[j].isFree == d[i].isFree
    ensures HeadOf(j, d[j].order) == HeadOf(i, d[i].order)
  {
    HeadUnique(j, d[i].order, HeadOf(i, d[i].order));
  }

  /** Run(p, k) is a union of whole blocks as far as it meets m. */
  ghost predicate Saturated(d: seq<Page>, m: set<nat>, p: nat, k: nat)
    requires Partition(d, m)
  {
    forall i: nat :: i in m && InRun(p, k, i) ==>
      p <= HeadOf(i, d[i].order) && HeadOf(i, d[i].order) + Pow2(d[i].order) <= p + Pow2(k)
  }

  /** A run of whole blocks can be set aside. */
  lemma RemoveRun(d: seq<Page>, m: set<nat>, p: nat, k: nat)
    requires Partition(d, m) && Saturated(d, m, p, k)
    ensures Partition(d, m - Run(p, k))
  {
    forall i: nat | i in m - Run(p, k)
      ensures IsBlock(d, m - Run(p, k), HeadOf(i, d[i].order), d[i].order, d[i].isFree)
    {
      forall j: nat | InRun(HeadOf(i, d[i].order), d[i].order, j)
        ensures j !in Run(p, k)
      {
        SameBlock(d, m, i, j);
      }
    }
  }

  /** Re-tagging an aligned run that was set aside makes it a block. */
  lemma AddRun(d: seq<Page>, m: set<nat>, p: nat, k: nat, free: bool)
    requires Partition(d, m) && m !! Run(p, k)
    requires k < MAX_PAGE_ORDER && Aligned(p, k) && p + Pow2(k) <= |d|
    requires forall i :: InRun(p, k, i) ==> d[i].typ == NormalMem
    ensures var d' := Reinit(d, p, k, free); var m' := m + Run(p, k);
            Partition(d', m') && IsBlock(d', m', p, k, free)
  {
    hide IsBlock, Reinit;
    var d', m' := Reinit(d, p, k, free), m + Run(p, k);
    RunAsBlock(d, m, p, k, free);
    forall i: nat | i in m'
      ensures i < |d'| && d'[i].typ == NormalMem && IsBlock(d', m', HeadOf(i, d'[i].order), d'[i].order, d'[i].isFree)
    {
      if i in m {
        BlockBeside(d, d', m, m', HeadOf(i, d[i].order), d[i].order, d[i].isFree);
      } else {
        HeadUnique(i, k, p);
      }
    }
  }

  lemma RunAsBlock(d: seq<Page>, m: set<nat>, p: nat, k: nat, free: bool)
    requires k < MAX_PAGE_ORDER && Aligned(p, k) && p + Pow2(k) <= |d|
    ensures var d' := Reinit(d, p, k, free);
            && IsBlock(d', m + Run(p, k), p, k, free)
            && forall i: nat :: i < |d| ==>
                 if InRun(p, k, i) then d'[i].order == k && d'[i].isFree == free && d'[i].typ == d[i].typ else d'[i] == d[i]
  {
  }

  /** A block none of whose pages changes stays a block of the larger set. */
  lemma BlockBeside(d: seq<Page>, d': seq<Page>, m: set<nat>, m': set<nat>, h: nat, k: nat, free: bool)
    requires IsBlock(d, m, h, k, free) && m <= m' && |d'| == |d|
    requires forall i: nat :: i in m && i < |d| ==> d'[i] == d[i]
    ensures IsBlock(d', m', h, k, free)
  {
  }

  /** Every block of the partition is a saturated run, and taking it out is clean. */
  lemma BlockSaturated(d: seq<Page>, m: set<nat>, h: nat, k: nat, free: bool)
    requires Partition(d, m) && IsBlock(d, m, h, k, free)
    ensures Saturated(d, m, h, k)
  {
    forall i: nat | i in m && InRun(h, k, i)
      ensures HeadOf(i, d[i].order) == h
    {
      HeadUnique(i, k, h);
    }
  }

  /** Fewer free heads stay coalesced. */
  lemma CoalescedSub(d: seq<Page>, m: set<nat>, d': seq<Page>, m': set<nat>)
    requires Coalesced(d, m)
    requires forall h: nat :: h in m' && FreeHead(d', h) ==> h in m && FreeHead(d, h) && d[h].order == d'[h].order
    ensures Coalesced(d', m')
  {
    forall h: nat | h in m' && h < |d'| && FreeHead(d', h)
      ensures Alone(d', m', h)
    {
      assert Alone(d, m, h);
    }
  }

  /** Descriptors that agree on what the buddy system looks at. */
  ghost predicate SameShape(d: seq<Page>, e: seq<Page>) {
    && |d| == |e|
    && forall i :: 0 <= i < |d| ==>
      d[i].typ == e[i].typ && d[i].isFree == e[i].isFree && d[i].isHead == e[i].isHead && d[i].order == e[i].order
  }

  lemma BlockShape(d: seq<Page>, e: seq<Page>, m: set<nat>, h: nat, k: nat, free: bool)
    requires SameShape(d, e) && IsBlock(d, m, h, k, free)
    ensures IsBlock(e, m, h, k, free)
  {
  }

  /** The invariant does not depend on the other fields. */
  lemma ShapeKeeps(d: seq<Page>, e: seq<Page>, m: set<nat>, lists: FreeLists)
    requires SameShape(d, e) && PoolInv(d, m, lists)
    ensures PoolInv(e, m, lists)
  {
    forall i: nat | i in m
      ensures IsBlock(e, m, HeadOf(i, e[i].order), e[i].order, e[i].isFree)
    {
      BlockShape(d, e, m, HeadOf(i, d[i].order), d[i].order, d[i].isFree);
    }
    CoalescedSub(d, m, e, m);
  }

  /** A free head of order k starts the block of its buddy's size next to p. */
  lemma HeadStartsBlock(d: seq<Page>, m: set<nat>, h: nat)
    requires Partition(d, m) && h in m && d[h].isHead
    ensures HeadOf(h, d[h].order) == h && IsBlock(d, m, h, d[h].order, d[h].isFree)
  {
  }
}
