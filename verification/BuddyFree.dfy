/** Freeing with the order test keeps the pool's invariant and adds exactly the
    freed run to the free pages. */
module BuddyFree {
  import opened Bits
  import opened ListLinks
  import opened Buddy

  /** What the merge loop knows of its running block: the run (p, k) consists of
      the pages being freed, which are set aside, and of whole free blocks. */
  ghost predicate Merging(d: seq<Page>, m: set<nat>, freed: set<nat>, p: nat, k: nat) {
    && Partition(d, m) && Outside(d, m) && freed !! m
    && k < MAX_PAGE_ORDER && Aligned(p, k) && p + Pow2(k) <= |d|
    && freed <= Run(p, k) && Saturated(d, m, p, k)
    && forall i: nat :: InRun(p, k, i) ==> i in freed || (i in m && d[i].isFree)
  }

  lemma MergeStep(d: seq<Page>, m: set<nat>, freed: set<nat>, p: nat, k: nat)
    requires Merging(d, m, freed, p, k) && Mergeable(d, p, k, true)
    ensures var b := BuddyPfn(p, k);
            && b in m && d[b].order == k && IsBlock(d, m, b, k, true)
            && Merging(d, m, freed, Lower(p, b), k + 1)
            && (forall i :: InRun(Lower(p, b), k + 1, i) <==> InRun(p, k, i) || InRun(b, k, i))
  {
    var b := BuddyPfn(p, k);
    BuddyFacts(p, k);
    HeadStartsBlock(d, m, b);
    BlockSaturated(d, m, b, k, true);
  }

  /** The loop stops with a run of the same kind that cannot grow. */
  lemma {:induction false} MergeEnds(d: seq<Page>, m: set<nat>, freed: set<nat>, p: nat, k: nat)
    requires Merging(d, m, freed, p, k)
    ensures var (q, t) := MergeTop(d, p, k, true);
            Merging(d, m, freed, q, t) && !Mergeable(d, q, t, true) && k <= t && Run(p, k) <= Run(q, t)
    decreases MAX_PAGE_ORDER - k
  {
    if Mergeable(d, p, k, true) {
      MergeStep(d, m, freed, p, k);
      MergeEnds(d, m, freed, Lower(p, BuddyPfn(p, k)), k + 1);
    }
  }

  lemma {:induction false} UnlinkedContents(s: seq<nat>, x: nat)
    requires Distinct(s)
    ensures Distinct(Unlinked(s, x))
    ensures forall y :: y in Unlinked(s, x) <==> y in s && y != x
  {
    if s != [] && s[0] != x {
      UnlinkedContents(s[1..], x);
      assert forall y :: y in s <==> y == s[0] || y in s[1..];
      assert forall i :: 1 <= i < |s| ==> s[i] != s[0] && s[i] == s[1..][i - 1];
      assert s[0] !in s[1..];
    } else if s != [] {
      assert forall y :: y in s <==> y == s[0] || y in s[1..];
    }
  }

  /** The lists hold the free heads of m except those inside run (p, k). */
  ghost predicate ListedOutside(d: seq<Page>, m: set<nat>, lists: FreeLists, p: nat, k: nat) {
    && |lists| == MAX_PAGE_ORDER
    && forall j :: 0 <= j < MAX_PAGE_ORDER ==>
      Distinct(lists[j]) && forall x: nat :: x in lists[j] <==> x in m && FreeHead(d, x) && d[x].order == j && !InRun(p, k, x)
  }

  lemma {:induction false} MergeListsEnd(d: seq<Page>, m: set<nat>, freed: set<nat>, lists: FreeLists, p: nat, k: nat)
    requires Merging(d, m, freed, p, k) && ListedOutside(d, m, lists, p, k)
    ensures var (q, t) := MergeTop(d, p, k, true);
            ListedOutside(d, m, MergeLists(d, lists, p, k, true), q, t)
    decreases MAX_PAGE_ORDER - k
  {
    if Mergeable(d, p, k, true) {
      var b := BuddyPfn(p, k);
      MergeStep(d, m, freed, p, k);
      UnlinkedContents(lists[k], b);
      MergeListsEnd(d, m, freed, UnlinkHead(d, lists, b), Lower(p, b), k + 1);
    }
  }

  /** The freed run together with the free blocks it met becomes one block. */
  lemma FreePartition(d: seq<Page>, m: set<nat>, freed: set<nat>, q: nat, t: nat)
    requires Merging(d, m, freed, q, t)
    requires forall i :: InRun(q, t, i) ==> d[i].typ == NormalMem
    ensures var d' := Reinit(d, q, t, true);
            Partition(d', m + freed) && IsBlock(d', m + freed, q, t, true) && Outside(d', m + freed)
  {
    RemoveRun(d, m, q, t);
    AddRun(d, m - Run(q, t), q, t, true);
    assert m - Run(q, t) + Run(q, t) == m + freed;
  }

  lemma FreeListed(d: seq<Page>, m: set<nat>, freed: set<nat>, lists: FreeLists, q: nat, t: nat)
    requires Merging(d, m, freed, q, t) && ListedOutside(d, m, lists, q, t)
    ensures Listed(Reinit(d, q, t, true), m + freed, Pushed(lists, t, q))
  {
    var d', lists' := Reinit(d, q, t, true), Pushed(lists, t, q);
    assert lists'[t] == [q] + lists[t];
    forall j, x: nat | 0 <= j < MAX_PAGE_ORDER
      ensures x in lists'[j] <==> x in m + freed && FreeHead(d', x) && d'[x].order == j
    {
      assert x in lists'[j] <==> x in lists[j] || (j == t && x == q);
    }
    assert q !in lists[t];
  }

  /** Freeing a run that was set aside. */
  lemma FreeKeeps(d: seq<Page>, m: set<nat>, lists: FreeLists, p: nat, k: nat)
    requires Freeable(d, m, lists, p, k)
    ensures PoolInv(FreeTags(d, p, k, true), m + Run(p, k), FreeListsAfter(d, lists, p, k, true))
    ensures var d' := FreeTags(d, p, k, true);
            && (forall i: nat :: i < |d| ==> (d'[i].isFree <==> d[i].isFree || InRun(p, k, i)))
            && (forall i: nat :: i < |d| && !InRun(p, k, i) && !d[i].isFree ==> d'[i] == d[i])
  {
    var freed := Run(p, k);
    var (q, t) := MergeTop(d, p, k, true);
    assert Merging(d, m, freed, q, t) && !Mergeable(d, q, t, true) && ListedOutside(d, m, MergeLists(d, lists, p, k, true), q, t) by {
      MergeEnds(d, m, freed, p, k);
      MergeListsEnd(d, m, freed, lists, p, k);
    }
    FreePartition(d, m, freed, q, t);
    FreeCoalesced(d, m, freed, q, t);
    FreeListed(d, m, freed, MergeLists(d, lists, p, k, true), q, t);
  }

  /** The block the loop ends with has no free buddy of its order. */
  lemma FreeCoalesced(d: seq<Page>, m: set<nat>, freed: set<nat>, q: nat, t: nat)
    requires Merging(d, m, freed, q, t) && !Mergeable(d, q, t, true) && Coalesced(d, m)
    ensures Coalesced(Reinit(d, q, t, true), m + freed)
  {
    var d' := Reinit(d, q, t, true);
    forall h: nat | h in m + freed && h < |d| && FreeHead(d', h)
      ensures Alone(d', m + freed, h)
    {
      if InRun(q, t, h) {
        BuddyFacts(q, t);
      } else {
        OtherAlone(d, m, freed, q, t, h);
      }
    }
  }

  /** A free head outside the final block still has no free buddy of its order. */
  lemma OtherAlone(d: seq<Page>, m: set<nat>, freed: set<nat>, q: nat, t: nat, h: nat)
    requires Merging(d, m, freed, q, t) && Coalesced(d, m) && !Mergeable(d, q, t, true)
    requires h in m && h < |d| && FreeHead(d, h) && !InRun(q, t, h)
    ensures Alone(Reinit(d, q, t, true), m + freed, h)
  {
    HeadStartsBlock(d, m, h);
    BuddyFacts(h, d[h].order);
    assert Alone(d, m, h);
  }
}
