/** class PagePool: the buddy system over the page database and the linked free
    lists. Each method is proved to leave the tags and lists that Buddy.dfy and
    BuddyAlloc.dfy describe. Locking is modelled in Locks.dfy. */
module PagePools {
  import opened Bits
  import opened Options
  import opened ListLinks
  import opened Buddy
  import opened BuddyFree
  import opened BuddyAlloc
  import opened BuddyEdge
  import opened BuddyLiteral
  import opened BuddyRuns
  import opened Addresses
  import opened Atomics

  /** What the pool field of a descriptor holds when it points to the pool. */
  const SELF: nat := 1

  /** Every managed page's pool field points to the pool, which is how put_page and PageFree find it. */
  ghost predicate Named(d: seq<Page>, m: set<nat>) { forall i: nat :: i in m && i < |d| ==> d[i].pool == SELF }

  lemma {:induction false} SplitPools(d: seq<Page>, p: nat, a: nat, k: nat)
    requires k <= a
    ensures forall i :: 0 <= i < |d| ==> SplitTags(d, p, a, k)[i].pool == d[i].pool
    decreases a
  {
    if a > k { SplitPools(Reinit(d, BuddyPfn(p, a - 1), a - 1, true), p, a - 1, k); }
  }

  lemma AllocNames(d: seq<Page>, m: set<nat>, lists: FreeLists, k: nat)
    requires |lists| == MAX_PAGE_ORDER && Named(d, m)
    ensures Named(AllocTags(d, lists, k), m)
  {
    if AllocPage(lists, k).Some? { SplitPools(d, lists[FirstOrder(lists, k)][0], FirstOrder(lists, k), k); }
  }

  lemma FreePools(d: seq<Page>, p: nat, k: nat, checked: bool)
    ensures forall i :: 0 <= i < |d| ==> FreeTags(d, p, k, checked)[i].pool == d[i].pool
  {
    hide MergeTop;
  }

  lemma FreeNames(d: seq<Page>, m: set<nat>, p: nat, k: nat, checked: bool)
    requires Named(d, m)
    ensures Named(FreeTags(d, p, k, checked), m)
  {
    hide FreeTags;
    FreePools(d, p, k, checked);
  }

  /** Descriptors as the loop of AddPages leaves them: it writes to the first page only. */
  function Claimed(d: seq<Page>, i: nat): (r: seq<Page>)
    requires i < |d|
    ensures |r| == |d|
  {
    d[i := d[i].(pool := SELF)]
  }

  /** Adding pages whose pool field is still null leaves every managed page pointing to the pool
      exactly if it is a single page. */
  lemma AddNamesExact(d: seq<Page>, m: set<nat>, page: nat, order: nat, checked: bool)
    requires Named(d, m) && m !! Run(page, order) && page + Pow2(order) <= |d|
    requires forall i: nat :: InRun(page, order, i) ==> d[i].pool == 0
    ensures Named(FreeTags(Claimed(d, page), page, order, checked), m + Run(page, order)) <==> order == 0
  {
    hide FreeTags;
    var e := FreeTags(Claimed(d, page), page, order, checked);
    FreePools(Claimed(d, page), page, order, checked);
    forall i: nat ensures i in Run(page, order) <==> InRun(page, order, i) { InFreed(page, order, i); }
    if order > 0 {
      assert Pow2(order) >= 2;
      assert InRun(page, order, page + 1) && e[page + 1].pool == 0;
    }
  }

  /** Unlinking the i-th element of a list without repeats. */
  lemma {:induction false} UnlinkedAt(s: seq<nat>, i: nat)
    requires Distinct(s) && i < |s|
    ensures Unlinked(s, s[i]) == Without(s, i)
  {
    if i > 0 {
      assert s[1..][i - 1] == s[i];
      UnlinkedAt(s[1..], i - 1);
      assert Without(s, i) == [s[0]] + Without(s[1..], i - 1);
    }
  }

  /** The lists of a family of circles: each circle without its sentinel. */
  ghost function Tails(rings: seq<seq<nat>>): (r: FreeLists)
    ensures |r| == |rings|
    ensures forall k :: 0 <= k < |rings| ==> r[k] == if rings[k] == [] then [] else rings[k][1..]
  {
    seq(|rings|, k requires 0 <= k < |rings| => if rings[k] == [] then [] else rings[k][1..])
  }

  /** One circle for each order: its sentinel n + k, then pages below n. */
  ghost predicate Rings(rings: seq<seq<nat>>, n: nat) {
    && |rings| == MAX_PAGE_ORDER
    && forall k :: 0 <= k < MAX_PAGE_ORDER ==>
      rings[k] != [] && rings[k][0] == n + k && forall x :: x in rings[k][1..] ==> x < n
  }

  lemma TailsTakeOff(rings: seq<seq<nat>>, n: nat, k: nat, i: nat)
    requires Rings(rings, n) && k < MAX_PAGE_ORDER && 0 < i < |rings[k]| && Distinct(rings[k])
    ensures var rings' := rings[k := Without(rings[k], i)];
            Rings(rings', n) && Tails(rings') == Tails(rings)[k := Unlinked(Tails(rings)[k], rings[k][i])]
  {
    var s := rings[k];
    assert Without(s, i)[1..] == Without(s[1..], i - 1) && s[i] == s[1..][i - 1];
    assert forall x :: x in Without(s, i)[1..] ==> x in s[1..] by {
      assert forall x :: x in Without(s[1..], i - 1) ==> x in s[1..];
    }
    assert Without(s, i)[0] == s[0];
    UnlinkedAt(s[1..], i - 1);
  }

  lemma TailsPush(rings: seq<seq<nat>>, n: nat, k: nat, x: nat)
    requires Rings(rings, n) && k < MAX_PAGE_ORDER && x < n
    ensures var rings' := rings[k := Inserted(rings[k], 1, x)];
            Rings(rings', n) && Tails(rings') == Pushed(Tails(rings), k, x)
  {
    assert Inserted(rings[k], 1, x)[1..] == [x] + rings[k][1..];
  }

  /** What the merge loop keeps, with or without the order test: the running
      block's head is on no list, and the lists hold all other free heads. */
  ghost predicate Detached(d: seq<Page>, m: set<nat>, lists: FreeLists, p: nat, k: nat) {
    && |lists| == MAX_PAGE_ORDER && Aligned(p, k) && k < MAX_PAGE_ORDER && p + Pow2(k) <= |d|
    && (forall j :: 0 <= j < MAX_PAGE_ORDER ==> Distinct(lists[j]) && p !in lists[j])
    && (forall x: nat :: x in m && FreeHead(d, x) && !InRun(p, k, x) ==> d[x].order < MAX_PAGE_ORDER && x in lists[d[x].order])
    && (forall j, x: nat {:trigger x in lists[j]} :: 0 <= j < MAX_PAGE_ORDER && x in lists[j] ==> x < |d| && d[x].order == j)
  }

  lemma DetachedUnlink(d: seq<Page>, m: set<nat>, lists: FreeLists, p: nat, k: nat, b: nat, low: nat)
    requires Detached(d, m, lists, p, k) && k < MAX_PAGE_ORDER - 1
    requires b < |d| && d[b].order < MAX_PAGE_ORDER && b in lists[d[b].order]
    requires Aligned(low, k + 1) && low + Pow2(k + 1) <= |d| && (low == p || low == b)
    requires InRun(low, k + 1, b) && forall i :: InRun(p, k, i) ==> InRun(low, k + 1, i)
    ensures Detached(d, m, UnlinkHead(d, lists, b), low, k + 1)
  {
    hide Unlinked, Aligned, Pow2;
    UnlinkedContents(lists[d[b].order], b);
    var lists' := UnlinkHead(d, lists, b);
    forall j | 0 <= j < MAX_PAGE_ORDER
      ensures Distinct(lists'[j]) && forall x: nat :: x in lists'[j] <==> x in lists[j] && x != b
    {
    }
    forall x: nat | x in m && FreeHead(d, x) && !InRun(low, k + 1, x)
      ensures d[x].order < MAX_PAGE_ORDER && x in lists'[d[x].order]
    {
      assert !InRun(p, k, x) && x in lists[d[x].order] && x != b;
    }
    forall j | 0 <= j < MAX_PAGE_ORDER
      ensures low !in lists'[j]
    {
      assert p !in lists[j];
    }
    forall j, x: nat | 0 <= j < MAX_PAGE_ORDER && x in lists'[j]
      ensures x < |d| && d[x].order == j
    {
      assert x in lists[j];
    }
  }

  /** Unlinking a buddy keeps this for the merged run. */
  lemma DetachedStep(d: seq<Page>, m: set<nat>, lists: FreeLists, p: nat, k: nat, checked: bool)
    requires Detached(d, m, lists, p, k) && Mergeable(d, p, k, checked) && StaysInside(d, p, k, checked) && Outside(d, m)
    ensures var b := BuddyPfn(p, k);
            && b < |d| && d[b].order < MAX_PAGE_ORDER && b in lists[d[b].order] && Aligned(Lower(p, b), k + 1)
            && Detached(d, m, UnlinkHead(d, lists, b), Lower(p, b), k + 1)
            && StaysInside(d, Lower(p, b), k + 1, checked)
  {
    var b := BuddyPfn(p, k);
    BuddyFacts(p, k);
    assert b in m && !InRun(p, k, b);
    DetachedUnlink(d, m, lists, p, k, b, Lower(p, b));
  }

  /** Only head marks inside the running block differ from d. */
  ghost predicate TagsFrom(cur: seq<Page>, d: seq<Page>, q: nat, k: nat)
    ensures cur == d ==> TagsFrom(cur, d, q, k)
  {
    |cur| == |d| && forall i: nat :: i < |d| ==> cur[i] == d[i] || (InRun(q, k, i) && cur[i] == d[i].(isHead := false))
  }

  /** The upper of two merged blocks loses its head mark, if it is the one being freed. */
  lemma TagsMerge(cur: seq<Page>, d: seq<Page>, m: set<nat>, lists: FreeLists, p: nat, k: nat, checked: bool)
    requires Detached(d, m, lists, p, k) && Mergeable(d, p, k, checked) && TagsFrom(cur, d, p, k)
    requires BuddyPfn(p, k) < |d| && d[BuddyPfn(p, k)].order < MAX_PAGE_ORDER
    ensures var b := BuddyPfn(p, k);
            && p < |cur| && b < |cur| && Lower(p, b) == (if b < p then b else p)
            && UnlinkHead(d, lists, b) == lists[d[b].order := Unlinked(lists[d[b].order], b)]
            && TagsFrom(if b < p then cur[p := cur[p].(isHead := false)] else cur, d, Lower(p, b), k + 1)
  {
    BuddyFacts(p, k);
    assert InRun(p, k, p);
  }

  lemma DetachedStart(d: seq<Page>, m: set<nat>, lists: FreeLists, p: nat, k: nat)
    requires Freeable(d, m, lists, p, k)
    ensures Detached(d, m, lists, p, k)
  {
    assert p in Run(p, k) by { assert InRun(p, k, p); }
    forall x: nat | x in m && FreeHead(d, x)
      ensures d[x].order < MAX_PAGE_ORDER && x in lists[d[x].order]
    {
      assert IsBlock(d, m, HeadOf(x, d[x].order), d[x].order, true);
    }
  }

  /** One turn of the merge functions. */
  lemma MergeUnfold(d: seq<Page>, lists: FreeLists, p: nat, k: nat, checked: bool)
    ensures Mergeable(d, p, k, checked) ==>
            var b := BuddyPfn(p, k);
            && Mergeable(d, p, k, false) && b < |d|
            && MergeTop(d, p, k, checked) == MergeTop(d, Lower(p, b), k + 1, checked)
            && MergeLists(d, lists, p, k, checked) == MergeLists(d, UnlinkHead(d, lists, b), Lower(p, b), k + 1, checked)
    ensures !Mergeable(d, p, k, checked) ==>
            MergeTop(d, p, k, checked) == (p, k) && MergeLists(d, lists, p, k, checked) == lists
    ensures Mergeable(d, p, k, checked) ==> k < MAX_PAGE_ORDER - 1
  {
  }

  /** One turn of the split functions. */
  lemma SplitUnfold(d: seq<Page>, m: set<nat>, lists: FreeLists, p: nat, a: nat, k: nat)
    requires Splitting(d, m, lists, p, a) && k <= a
    ensures a > k ==>
            var b := BuddyPfn(p, a - 1);
            && b + Pow2(a - 1) <= |d| && b < |d| && |lists| == MAX_PAGE_ORDER
            && (forall j :: 0 <= j < MAX_PAGE_ORDER ==> b !in lists[j])
            && SplitTags(d, p, a, k) == SplitTags(Reinit(d, b, a - 1, true), p, a - 1, k)
            && SplitLists(lists, p, a, k) == SplitLists(Pushed(lists, a - 1, b), p, a - 1, k)
    ensures SplitTags(d, p, k, k) == Reinit(d, p, k, false) && SplitLists(lists, p, k, k) == lists
    ensures a < MAX_PAGE_ORDER && p + Pow2(a) <= |d|
  {
    if a > k {
      SplitHalves(p, a);
      assert InRun(BuddyPfn(p, a - 1), a - 1, BuddyPfn(p, a - 1));
    }
  }

  lemma ClaimedNames(d: seq<Page>, m: set<nat>, page: nat)
    requires Named(d, m) && page < |d|
    ensures Named(Claimed(d, page), m) && SameShape(d, Claimed(d, page)) && Claimed(Claimed(d, page), page) == Claimed(d, page)
  {
  }

  /** A run of normal pages that the pool does not manage may be freed into it. */
  lemma AddFreeable(d: seq<Page>, m: set<nat>, lists: FreeLists, page: nat, order: nat)
    requires page < |d| && order < MAX_PAGE_ORDER && PoolInv(Claimed(d, page), m, lists)
    requires Aligned(page, order) && page + Pow2(order) <= |d|
    requires forall i: nat :: InRun(page, order, i) ==> i !in m && d[i].typ == NormalMem
    ensures Freeable(Claimed(d, page), m, lists, page, order)
  {
  }

  /** A single page whose pool field is set joins the named ones. */
  lemma OnlyFirst(d: seq<Page>, m: set<nat>, page: nat, order: nat, checked: bool)
    requires Named(d, m) && page < |d| && d[page].pool == SELF
    ensures order == 0 ==> Named(FreeTags(d, page, order, checked), m + Run(page, order))
  {
    hide FreeTags;
    FreePools(d, page, order, checked);
    forall i: nat ensures i in Run(page, order) <==> InRun(page, order, i) { InFreed(page, order, i); }
  }

  /** One reference less on page h. */
  function Counted(d: seq<Page>, h: nat): (r: seq<Page>)
    requires h < |d|
    ensures |r| == |d|
  {
    d[h := d[h].(refCount := Wrap(d[h].refCount - 1))]
  }

  /** The block of a managed page: its head is managed too. */
  lemma BlockOf(d: seq<Page>, m: set<nat>, lists: FreeLists, i: nat)
    requires PoolInv(d, m, lists) && i in m
    ensures i < |d| && d[i].order < MAX_PAGE_ORDER
    ensures var h := HeadOf(i, d[i].order);
            h < |d| && h in m && d[h].order == d[i].order && InRun(h, d[i].order, i) && IsBlock(d, m, h, d[i].order, d[i].isFree)
  {
    var h := HeadOf(i, d[i].order);
    assert InRun(h, d[i].order, i) && InRun(h, d[i].order, h);
  }

  class PagePool {
    /** pgdb_base, as far as descriptors are there. */
    const descs: array<Page>
    /** Node i < descs.Length is the list field of page i; after them come the sentinels. */
    const links: Links
    /** false: the merge test of the source; true: with the test of the buddy's order. */
    const orderChecked: bool
    ghost var managed: set<nat>

    function Sentinel(k: nat): nat { descs.Length + k }

    /** The free lists, without their sentinels. */
    ghost function Lists(): (r: FreeLists)
      reads links
      ensures |r| == |links.rings|
    {
      Tails(links.rings)
    }

    /** The links form one circle for each order, through its sentinel. */
    ghost predicate Linked()
      reads links, links.prev, links.next
    {
      links.Valid() && links.size == descs.Length + MAX_PAGE_ORDER && Rings(links.rings, descs.Length)
    }

    /** Tags and lists are in order. */
    ghost predicate InOrder()
      reads this, descs, links, links.prev, links.next
    {
      Linked() && PoolInv(descs[..], managed, Lists())
    }

    /** And every managed page knows the pool. */
    ghost predicate Valid()
      reads this, descs, links, links.prev, links.next
    {
      InOrder() && Named(descs[..], managed)
    }

    /** PagePool::Init over a page database in which nothing is free yet. */
    constructor (pgdb: array<Page>, checked: bool)
      requires forall i :: 0 <= i < pgdb.Length ==> !pgdb[i].isFree
      ensures Valid() && descs == pgdb && orderChecked == checked && managed == {}
      ensures fresh(links) && fresh(links.prev) && fresh(links.next)
    {
      descs := pgdb;
      orderChecked := checked;
      links := new Links(pgdb.Length + MAX_PAGE_ORDER);
      managed := {};
      new;
      var i := 0;
      while i < MAX_PAGE_ORDER
        invariant i <= MAX_PAGE_ORDER && links.Valid() && |links.rings| == i && managed == {}
        invariant forall k :: 0 <= k < i ==> links.rings[k] == [Sentinel(k)]
      {
        links.HeadInit(Sentinel(i));
        i := i + 1;
      }
    }

    /** __reinit_page */
    method ReinitPage(p: nat, k: nat, free: bool)
      requires p + Pow2(k) <= descs.Length
      modifies descs
      ensures descs[..] == Reinit(old(descs[..]), p, k, free)
    {
      var n := Pow2(k);
      var i := 0;
      while i < n
        invariant i <= n
        invariant forall j :: 0 <= j < descs.Length && !(p <= j < p + i) ==> descs[j] == old(descs[j])
        invariant forall j :: p <= j < p + i ==> descs[j] == Retagged(old(descs[j]), k, free, j == p).(isHead := false)
      {
        descs[p + i] := descs[p + i].(isFree := free, order := k, freelist := 0, kc := 0, isHead := false);
        descs[p] := descs[p].(refCount := -1, mapCount := -1);
        i := i + 1;
      }
      descs[p] := descs[p].(isHead := true);
    }

    /** A page that no free list holds has loose links. */
    lemma LooseOffLists(x: nat)
      requires Linked() && x < descs.Length
      requires forall k :: 0 <= k < MAX_PAGE_ORDER ==> x !in Lists()[k]
      ensures links.Loose(x)
    {
      forall k | 0 <= k < MAX_PAGE_ORDER
        ensures x !in links.rings[k]
      {
        assert links.rings[k] == [Sentinel(k)] + Lists()[k];
      }
    }

    /** The sentinel's next link names the first page of a list. */
    lemma FirstOnList(k: nat)
      requires Linked() && k < MAX_PAGE_ORDER && Lists()[k] != []
      ensures links.next[Sentinel(k)] == Lists()[k][0]
    {
      var ring := links.rings[k];
      assert Circle(links.prev[..], links.next[..], ring);
      assert links.next[..][ring[0]] == ring[After(0, |ring|)];
    }

    /** list_add_next(&freelist[k], &x->list) */
    method PushHead(k: nat, x: nat)
      requires Linked() && k < MAX_PAGE_ORDER && x < descs.Length && links.Loose(x)
      modifies links`rings, links.prev, links.next
      ensures Linked() && Lists() == Pushed(old(Lists()), k, x)
    {
      TailsPush(links.rings, descs.Length, k, x);
      hide Links.Valid, Links.Loose;
      links.AddNext(Sentinel(k), x, k, 0);
    }

    /** list_del of a page on freelist[k] */
    method TakeOff(x: nat, ghost k: nat)
      requires Linked() && k < MAX_PAGE_ORDER && x in Lists()[k]
      modifies links`rings, links.prev, links.next
      ensures Linked() && Lists() == old(Lists())[k := Unlinked(old(Lists())[k], x)]
      ensures links.Loose(x)
    {
      ghost var ring := links.rings[k];
      ghost var i :| 0 <= i < |Lists()[k]| && Lists()[k][i] == x;
      assert Circle(links.prev[..], links.next[..], ring) && ring[i + 1] == x;
      TailsTakeOff(links.rings, descs.Length, k, i + 1);
      links.Del(x, k, i + 1);
    }

    /** The search loop of __alloc_page_direct. */
    method TakeFirst(order: nat) returns (p: Option<nat>, at: nat)
      requires Linked() && order < MAX_PAGE_ORDER
      modifies links`rings, links.prev, links.next
      ensures Linked() && at == FirstOrder(old(Lists()), order)
      ensures at == MAX_PAGE_ORDER ==> p.None? && Lists() == old(Lists())
      ensures at < MAX_PAGE_ORDER ==> p == Some(old(Lists())[at][0]) && Lists() == old(Lists())[at := old(Lists())[at][1..]]
    {
      p, at := None, order;
      while at < MAX_PAGE_ORDER
        invariant order <= at <= MAX_PAGE_ORDER
        invariant Linked() && Lists() == old(Lists()) && p.None?
        invariant FirstOrder(Lists(), order) == FirstOrder(Lists(), at)
      {
        var empty := links.Empty(Sentinel(at), at);
        assert links.rings[at] == [Sentinel(at)] + Lists()[at];
        if !empty {
          var page := links.next[Sentinel(at)];
          FirstOnList(at);
          TakeOff(page, at);
          return Some(page), at;
        }
        at := at + 1;
      }
    }

    /** __alloc_page_direct */
    method AllocPageDirect(order: nat) returns (p: Option<nat>)
      requires Valid() && order < MAX_PAGE_ORDER
      modifies descs, links`rings, links.prev, links.next
      ensures Valid()
      ensures p == AllocPage(old(Lists()), order)
      ensures descs[..] == AllocTags(old(descs[..]), old(Lists()), order)
      ensures Lists() == AllocListsAfter(old(Lists()), order)
    {
      AllocKeeps(descs[..], managed, Lists(), order);
      AllocNames(descs[..], managed, Lists(), order);
      var at;
      p, at := TakeFirst(order);
      if p.None? {
        return;
      }
      TakeHead(descs[..], managed, old(Lists()), at);
      Split(p.value, at, order, managed - Run(p.value, at));
    }

    /** One turn of the split loop: the upper half of the run becomes a free block of its own. */
    method SplitOff(p: nat, at: nat, ghost rest: set<nat>)
      requires Linked() && 0 < at && Splitting(descs[..], rest, Lists(), p, at)
      modifies descs, links`rings, links.prev, links.next
      ensures Linked() && Splitting(descs[..], rest + Run(BuddyPfn(p, at - 1), at - 1), Lists(), p, at - 1)
      ensures descs[..] == Reinit(old(descs[..]), BuddyPfn(p, at - 1), at - 1, true)
      ensures Lists() == Pushed(old(Lists()), at - 1, BuddyPfn(p, at - 1))
    {
      hide *;
      SplitStep(descs[..], rest, Lists(), p, at);
      SplitUnfold(descs[..], rest, Lists(), p, at, at - 1);
      var buddy := BuddyPfn(p, at - 1);
      LooseOffLists(buddy);
      ReinitPage(buddy, at - 1, true);
      PushHead(at - 1, buddy);
    }

    /** The split loop and the final tagging of __alloc_page_direct. */
    method Split(p: nat, from: nat, order: nat, ghost rest: set<nat>)
      requires Linked() && order <= from && Splitting(descs[..], rest, Lists(), p, from)
      modifies descs, links`rings, links.prev, links.next
      ensures Linked() && descs[..] == SplitTags(old(descs[..]), p, from, order)
      ensures Lists() == SplitLists(old(Lists()), p, from, order)
    {
      hide *;
      var at := from;
      ghost var m := rest;
      while at > order
        invariant order <= at <= from && Linked()
        invariant Splitting(descs[..], m, Lists(), p, at)
        invariant SplitTags(descs[..], p, at, order) == old(SplitTags(descs[..], p, from, order))
        invariant SplitLists(Lists(), p, at, order) == old(SplitLists(Lists(), p, from, order))
      {
        SplitUnfold(descs[..], m, Lists(), p, at, order);
        SplitOff(p, at, m);
        at := at - 1;
        m := m + Run(BuddyPfn(p, at), at);
      }
      SplitUnfold(descs[..], m, Lists(), p, at, order);
      ReinitPage(p, at, false);
    }

    /** AllocPages, __alloc_pages. Reclaiming is an empty stub, so its retry finds what the first try found. */
    method AllocPages(order: nat) returns (p: Option<nat>)
      requires Valid()
      modifies descs, links`rings, links.prev, links.next
      ensures Valid()
      ensures p == AllocPage(old(Lists()), order)
      ensures descs[..] == AllocTags(old(descs[..]), old(Lists()), order)
      ensures Lists() == AllocListsAfter(old(Lists()), order)
    {
      if order >= MAX_PAGE_ORDER {
        return None;
      }
      p := AllocPageDirect(order);
      if p.None? {
        p := AllocPageDirect(order);
      }
    }

    /** One turn of the merge loop with a buddy that passes the test. */
    method Absorb(p: nat, k: nat, ghost d: seq<Page>, ghost m: set<nat>) returns (q: nat)
      requires |d| == descs.Length && Outside(d, m)
      requires Linked() && Detached(d, m, Lists(), p, k) && TagsFrom(descs[..], d, p, k)
      requires Mergeable(d, p, k, orderChecked) && StaysInside(d, p, k, orderChecked)
      modifies descs, links`rings, links.prev, links.next
      ensures q == Lower(p, BuddyPfn(p, k))
      ensures Linked() && Detached(d, m, Lists(), q, k + 1) && TagsFrom(descs[..], d, q, k + 1)
      ensures Aligned(q, k + 1) && StaysInside(d, q, k + 1, orderChecked)
      ensures Lists() == UnlinkHead(d, old(Lists()), BuddyPfn(p, k))
    {
      hide *;
      DetachedStep(d, m, Lists(), p, k, orderChecked);
      TagsMerge(descs[..], d, m, Lists(), p, k, orderChecked);
      var buddy := BuddyPfn(p, k);
      q := p;
      TakeOff(buddy, d[buddy].order);
      if buddy < p {
        descs[p] := descs[p].(isHead := false);
        q := buddy;
      }
      assert descs[..] == if buddy < p then old(descs[..])[p := old(descs[p]).(isHead := false)] else old(descs[..]);
    }

    /** The merge loop of __free_pages. m is the managed pages without the run being freed. */
    method MergeLoop(p: nat, k: nat, ghost m: set<nat>) returns (q: nat, order: nat)
      requires Linked() && Outside(descs[..], m) && Detached(descs[..], m, Lists(), p, k)
      requires k < MAX_PAGE_ORDER && Aligned(p, k) && StaysInside(descs[..], p, k, orderChecked)
      modifies descs, links`rings, links.prev, links.next
      ensures (q, order) == MergeTop(old(descs[..]), p, k, orderChecked)
      ensures Lists() == MergeLists(old(descs[..]), old(Lists()), p, k, orderChecked)
      ensures Linked() && Detached(old(descs[..]), m, Lists(), q, order) && TagsFrom(descs[..], old(descs[..]), q, order)
    {
      hide *;
      ghost var d := descs[..];
      ghost var top, rest := MergeTop(d, p, k, orderChecked), MergeLists(d, Lists(), p, k, orderChecked);
      q, order := p, k;
      while order < MAX_PAGE_ORDER - 1
        invariant Linked() && Detached(d, m, Lists(), q, order) && TagsFrom(descs[..], d, q, order)
        invariant order < MAX_PAGE_ORDER && Aligned(q, order) && StaysInside(d, q, order, orderChecked)
        invariant top == MergeTop(d, q, order, orderChecked)
        invariant rest == MergeLists(d, Lists(), q, order, orderChecked)
      {
        MergeUnfold(d, Lists(), q, order, orderChecked);
        var merge := MergeTest(q, order, d);
        if !merge {
          return;
        }
        q := Absorb(q, order, d, m);
        order := order + 1;
      }
      MergeUnfold(d, Lists(), q, order, orderChecked);
    }

    /** The merge test on the present tags: the buddy's descriptor is there to be read. */
    method MergeTest(p: nat, k: nat, ghost d: seq<Page>) returns (merge: bool)
      requires |d| == descs.Length && TagsFrom(descs[..], d, p, k)
      requires k < MAX_PAGE_ORDER - 1 && Aligned(p, k) && StaysInside(d, p, k, orderChecked)
      ensures merge == Mergeable(d, p, k, orderChecked)
    {
      var buddy := BuddyPfn(p, k);
      BuddyFacts(p, k);
      merge := descs[buddy].typ == NormalMem && descs[buddy].isHead && descs[buddy].isFree
        && (orderChecked ==> descs[buddy].order == k);
    }

    /** __free_pages from the merge loop on. */
    method Merge(p: nat, k: nat, ghost m: set<nat>)
      requires Linked() && Freeable(descs[..], m, Lists(), p, k) && StaysInside(descs[..], p, k, orderChecked)
      modifies descs, links`rings, links.prev, links.next
      ensures Linked()
      ensures descs[..] == FreeTags(old(descs[..]), p, k, orderChecked)
      ensures Lists() == FreeListsAfter(old(descs[..]), old(Lists()), p, k, orderChecked)
    {
      DetachedStart(descs[..], m, Lists(), p, k);
      var q, order := MergeLoop(p, k, m);
      ReinitPage(q, order, true);
      assert descs[..] == Reinit(old(descs[..]), q, order, true);
      LooseOffLists(q);
      PushHead(order, q);
    }

    /** FreePages, __free_pages, for a block in use around which all buddies looked at have descriptors. */
    method FreePages(p: Option<nat>, order: nat)
      requires Valid()
      requires p.Some? && order < MAX_PAGE_ORDER ==>
               IsBlock(descs[..], managed, p.value, order, false) && StaysInside(descs[..], p.value, order, orderChecked)
      modifies descs, links`rings, links.prev, links.next
      ensures Linked() && Named(descs[..], managed)
      ensures p.None? || order >= MAX_PAGE_ORDER ==> descs[..] == old(descs[..]) && Lists() == old(Lists())
      ensures p.Some? && order < MAX_PAGE_ORDER ==>
              && descs[..] == FreeTags(old(descs[..]), p.value, order, orderChecked)
              && Lists() == FreeListsAfter(old(descs[..]), old(Lists()), p.value, order, orderChecked)
              && (orderChecked || OrderGuard(old(descs[..]), p.value, order) ==> Valid())
    {
      if p.None? {
        return;
      }
      if order >= MAX_PAGE_ORDER {
        return;
      }
      ghost var m := managed - Run(p.value, order);
      UsedFreeable(descs[..], managed, Lists(), p.value, order);
      FreeNames(descs[..], managed, p.value, order, orderChecked);
      FreeKeeps(descs[..], m, Lists(), p.value, order);
      LiteralFreeExact(descs[..], m, Lists(), p.value, order);
      Merge(p.value, order, m);
    }

    /** AddPages: hand a run of normal pages to the pool. Only the head's pool
        pointer is set, over and over. */
    method AddPages(page: nat, order: nat)
      requires Valid() && page < descs.Length
      requires order < MAX_PAGE_ORDER ==>
               && Aligned(page, order) && page + Pow2(order) <= descs.Length
               && (forall i: nat :: InRun(page, order, i) ==> i !in managed && descs[i].typ == NormalMem)
               && StaysInside(Claimed(descs[..], page), page, order, orderChecked)
      modifies descs, links`rings, links.prev, links.next, this`managed
      ensures order < MAX_PAGE_ORDER ==>
              var d := Claimed(old(descs[..]), page);
              && descs[..] == FreeTags(d, page, order, orderChecked)
              && Lists() == FreeListsAfter(d, old(Lists()), page, order, orderChecked)
              && (orderChecked || OrderGuard(d, page, order) ==> InOrder())
              && (order == 0 ==> Named(descs[..], managed))
      ensures Linked() && managed == old(managed) + (if order < MAX_PAGE_ORDER then Run(page, order) else {})
      ensures order >= MAX_PAGE_ORDER ==> Valid() && Lists() == old(Lists()) && descs[..] == Claimed(old(descs[..]), page)
    {
      hide PoolInv, FreeTags, FreeListsAfter, OrderGuard, StaysInside, Named, Freeable;
      ghost var d, m := descs[..], managed;
      var i, n := 0, Pow2(order);
      while i < n
        modifies descs
        invariant i <= n
        invariant descs[..] == if i == 0 then old(descs[..]) else Claimed(old(descs[..]), page)
      {
        descs[page] := descs[page].(pool := SELF);
        i := i + 1;
      }
      ClaimedNames(d, managed, page);
      ShapeKeeps(d, descs[..], managed, Lists());
      if order >= MAX_PAGE_ORDER {
        return;
      }
      AddFreeable(d, managed, Lists(), page, order);
      FreeKeeps(descs[..], managed, Lists(), page, order);
      LiteralFreeExact(descs[..], managed, Lists(), page, order);
      OnlyFirst(descs[..], managed, page, order, orderChecked);
      Merge(page, order, managed);
      managed := managed + Run(page, order);
    }

    // ------------------------------------------------ the other page fields

    /** Writing fields that the buddy system does not look at. */
    method SetFields(page: nat, pg: Page)
      requires Valid() && page < descs.Length
      requires pg.pool == descs[page].pool
      requires pg.typ == descs[page].typ && pg.isFree == descs[page].isFree && pg.isHead == descs[page].isHead && pg.order == descs[page].order
      modifies descs
      ensures Valid() && descs[..] == old(descs[..])[page := pg]
    {
      descs[page] := pg;
      ShapeKeeps(old(descs[..]), descs[..], managed, Lists());
    }

    /** get_page: one more reference to the block of page i. */
    method GetPage(i: nat)
      requires Valid() && i in managed && descs.Length <= DIRECT_PAGES
      modifies descs
      ensures Valid()
      ensures var h := HeadOf(i, old(descs[i].order));
              h < descs.Length && descs[..] == old(descs[..])[h := old(descs[h]).(refCount := Wrap(old(descs[h].refCount) + 1))]
    {
      hide PoolInv, IsBlock, InRun, HeadOf;
      BlockOf(descs[..], managed, Lists(), i);
      HeadPageFound(descs[..], managed, HeadOf(i, descs[i].order), descs[i].order, descs[i].isFree, i);
      var h := GetHeadPage(descs[..], i);
      var cell := new Atomic(descs[h].refCount);
      var _ := cell.Inc();
      SetFields(h, descs[h].(refCount := cell.value));
    }

    /** put_page: the test looks at the count before the decrement, so the block
        is freed only when no reference was counted before this put. */
    method PutPage(i: nat) returns (freed: bool)
      requires Valid() && i in managed && !descs[i].isFree && descs.Length <= DIRECT_PAGES
      requires var h := HeadOf(i, descs[i].order);
               h < descs.Length && descs[h].refCount < 0 ==> StaysInside(Counted(descs[..], h), h, descs[i].order, orderChecked)
      modifies descs, links`rings, links.prev, links.next
      ensures Linked() && Named(descs[..], managed)
      ensures var h := HeadOf(i, old(descs[i].order)); h < descs.Length && (freed <==> old(descs[h].refCount) < 0)
      ensures var d, h, k := old(descs[..]), HeadOf(i, old(descs[i].order)), old(descs[i].order);
              && (!freed ==> Valid() && descs[..] == Counted(d, h) && Lists() == old(Lists()))
              && (freed ==> descs[..] == FreeTags(Counted(d, h), h, k, orderChecked))
              && (freed ==> Lists() == FreeListsAfter(Counted(d, h), old(Lists()), h, k, orderChecked))
              && (orderChecked || OrderGuard(Counted(d, h), h, k) ==> Valid())
    {
      hide PoolInv, IsBlock, InRun, HeadOf, FreeTags, FreeListsAfter, OrderGuard, StaysInside;
      BlockOf(descs[..], managed, Lists(), i);
      ghost var k := descs[i].order;
      HeadPageFound(descs[..], managed, HeadOf(i, k), k, false, i);
      var h := GetHeadPage(descs[..], i);
      var cell := new Atomic(descs[h].refCount);
      var before := cell.Dec();
      SetFields(h, descs[h].(refCount := cell.value));
      freed := before < 0;
      if freed {
        BlockShape(old(descs[..]), descs[..], managed, h, k, false);
        assert descs[h].pool == SELF;   // p->pool is this pool
        FreePages(Some(h), descs[h].order);
      }
    }
  }
}
