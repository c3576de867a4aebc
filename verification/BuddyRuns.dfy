/** Whole runs of allocations and frees, with a ledger of what is handed out. */
module BuddyRuns {
  import opened Bits
  import opened Options
  import opened Buddy
  import opened BuddyFree
  import opened BuddyAlloc
  import opened BuddyEdge
  import opened BuddyLiteral

  /** A block in use can be freed. */
  lemma UsedFreeable(d: seq<Page>, m: set<nat>, lists: FreeLists, p: nat, k: nat)
    requires PoolInv(d, m, lists) && IsBlock(d, m, p, k, false)
    ensures Freeable(d, m - Run(p, k), lists, p, k) && m - Run(p, k) + Run(p, k) == m
  {
    BlockSaturated(d, m, p, k, false);
    RemoveRun(d, m, p, k);
    CoalescedSub(d, m, d, m - Run(p, k));
    assert forall i :: InRun(p, k, i) ==> i in m;
  }

  predicate SameTags(a: Page, b: Page) { a.isFree == b.isFree && a.isHead == b.isHead && a.order == b.order }

  /** Allocating a block and freeing it again restores every block, and each
      free list as a set. */
  lemma AllocThenFree(d: seq<Page>, m: set<nat>, lists: FreeLists, k: nat)
    requires PoolInv(d, m, lists) && AllocPage(lists, k).Some?
    ensures var p := AllocPage(lists, k).value;
            var e, l := AllocTags(d, lists, k), AllocListsAfter(lists, k);
            && (forall i: nat :: i in m ==> i < |d| && SameTags(d[i], FreeTags(e, p, k, true)[i]))
            && (forall j, x: nat :: 0 <= j < MAX_PAGE_ORDER ==> (x in FreeListsAfter(e, l, p, k, true)[j] <==> x in lists[j]))
  {
    var p := AllocPage(lists, k).value;
    var e, l := AllocTags(d, lists, k), AllocListsAfter(lists, k);
    AllocKeeps(d, m, lists, k);
    UsedFreeable(e, m, l, p, k);
    FreeKeeps(e, m - Run(p, k), l, p, k);
    FreeBlocksDetermined(d, FreeTags(e, p, k, true), m);
  }

  /** The block that a free ends with is the first that its order gives again. */
  lemma FreedNext(d: seq<Page>, m: set<nat>, lists: FreeLists, p: nat, k: nat)
    requires Freeable(d, m, lists, p, k)
    ensures var (q, t) := MergeTop(d, p, k, true);
            && AllocPage(FreeListsAfter(d, lists, p, k, true), t) == Some(q)
            && ((q, t) != (p, k) ==> var b := BuddyPfn(p, k); b < |d| && d[b].isFree && d[b].isHead && d[b].order == k)
  {
    hide MergeTop, MergeLists, Partition, Coalesced, BuddyPfn;
    MergeEnds(d, m, Run(p, k), p, k);
    MergeTurn(d, p, k, true);
  }

  // ----------------------------------------------------------------- runs

  datatype Op = Alloc(order: nat) | Free(head: nat)

  /** Descriptors, free lists, and the blocks handed out: head to order. */
  datatype State = State(d: seq<Page>, lists: FreeLists, ledger: map<nat, nat>)

  /** One call. Callers free only what they hold; anything else is no call. */
  function Step(s: State, op: Op): (r: State)
    requires |s.lists| == MAX_PAGE_ORDER
    ensures |r.lists| == MAX_PAGE_ORDER
  {
    match op
    case Alloc(k) =>
      (match AllocPage(s.lists, k)
       case None => s
       case Some(p) => State(AllocTags(s.d, s.lists, k), AllocListsAfter(s.lists, k), s.ledger[p := k]))
    case Free(p) =>
      if p !in s.ledger then s
      else State(FreeTags(s.d, p, s.ledger[p], true), FreeListsAfter(s.d, s.lists, p, s.ledger[p], true), s.ledger - {p})
  }

  function Exec(s: State, ops: seq<Op>): State
    requires |s.lists| == MAX_PAGE_ORDER
    decreases |ops|
  {
    if ops == [] then s else Exec(Step(s, ops[0]), ops[1..])
  }

  /** The pool is in order and the ledger lists exactly the blocks in use. */
  ghost predicate Good(s: State, m: set<nat>)
    ensures Good(s, m) ==> PoolInv(s.d, m, s.lists) && |s.lists| == MAX_PAGE_ORDER
  {
    && PoolInv(s.d, m, s.lists)
    && (forall p :: p in s.ledger ==> IsBlock(s.d, m, p, s.ledger[p], false))
    && (forall i: nat :: i in m && !s.d[i].isFree ==> HeadOf(i, s.d[i].order) in s.ledger)
  }

  lemma StepGood(s: State, m: set<nat>, op: Op)
    requires Good(s, m)
    ensures Good(Step(s, op), m)
  {
    match op
    case Alloc(k) => AllocGood(s, m, k);
    case Free(p) => if p in s.ledger { FreeGood(s, m, p); }
  }

  lemma AllocGood(s: State, m: set<nat>, k: nat)
    requires Good(s, m)
    ensures Good(Step(s, Alloc(k)), m)
  {
    var s' := Step(s, Alloc(k));
    AllocKeeps(s.d, m, s.lists, k);
    if AllocPage(s.lists, k).Some? {
      var q := AllocPage(s.lists, k).value;
      assert InRun(q, k, q);
      forall p | p in s'.ledger
        ensures IsBlock(s'.d, m, p, s'.ledger[p], false)
      {
        if p != q { assert IsBlock(s.d, m, p, s.ledger[p], false); }
      }
      forall i: nat | i in m && !s'.d[i].isFree
        ensures HeadOf(i, s'.d[i].order) in s'.ledger
      {
        if s.d[i].isFree { HeadUnique(i, k, q); }
      }
    }
  }

  /** A page in use lies in the ledger's block of its head. */
  lemma LedgerOrder(s: State, m: set<nat>, i: nat)
    requires Good(s, m) && i in m && !s.d[i].isFree
    ensures var h := HeadOf(i, s.d[i].order);
            h in s.ledger && s.ledger[h] == s.d[i].order && InRun(h, s.ledger[h], i)
  {
    var h := HeadOf(i, s.d[i].order);
    assert IsBlock(s.d, m, h, s.ledger[h], false) && InRun(h, s.ledger[h], h);
    assert IsBlock(s.d, m, h, s.d[i].order, false) && InRun(h, s.d[i].order, h);
  }

  lemma FreeGood(s: State, m: set<nat>, p: nat)
    requires Good(s, m) && p in s.ledger
    ensures Good(Step(s, Free(p)), m)
  {
    var s', k := Step(s, Free(p)), s.ledger[p];
    UsedFreeable(s.d, m, s.lists, p, k);
    FreeKeeps(s.d, m - Run(p, k), s.lists, p, k);
    forall g | g in s'.ledger
      ensures IsBlock(s'.d, m, g, s'.ledger[g], false)
    {
      assert IsBlock(s.d, m, g, s.ledger[g], false) && IsBlock(s.d, m, p, k, false);
      LedgerDisjoint(s, m, g, p);
    }
    forall i: nat | i in m && !s'.d[i].isFree
      ensures HeadOf(i, s'.d[i].order) in s'.ledger
    {
      assert s'.d[i] == s.d[i] && !InRun(p, k, i);
      LedgerOrder(s, m, i);
    }
  }

  /** Blocks handed out do not overlap. */
  lemma LedgerDisjoint(s: State, m: set<nat>, g: nat, p: nat)
    requires Good(s, m) && g in s.ledger && p in s.ledger && g != p
    ensures forall i :: !(InRun(g, s.ledger[g], i) && InRun(p, s.ledger[p], i))
  {
    assert IsBlock(s.d, m, g, s.ledger[g], false) && IsBlock(s.d, m, p, s.ledger[p], false);
    forall i | InRun(g, s.ledger[g], i) && InRun(p, s.ledger[p], i)
      ensures false
    {
      HeadUnique(i, s.d[i].order, g);
      HeadUnique(i, s.d[i].order, p);
    }
  }

  /** The call touches descriptors of the array only. */
  predicate Fits(s: State, op: Op, checked: bool) {
    op.Free? && op.head in s.ledger ==> StaysInside(s.d, op.head, s.ledger[op.head], checked)
  }

  predicate AlwaysFits(s: State, ops: seq<Op>)
    requires |s.lists| == MAX_PAGE_ORDER
    decreases |ops|
  {
    ops != [] ==> Fits(s, ops[0], true) && AlwaysFits(Step(s, ops[0]), ops[1..])
  }

  /** Every run that stays inside the array keeps the invariant, hands out blocks that never overlap, and
      keeps free and handed-out pages together equal to the managed pages. */
  lemma {:induction false} RunsGood(s: State, m: set<nat>, ops: seq<Op>)
    requires Good(s, m) && AlwaysFits(s, ops)
    ensures var e := Exec(s, ops);
            && Good(e, m)
            && (forall g, p, i :: g in e.ledger && p in e.ledger && g != p ==> !(InRun(g, e.ledger[g], i) && InRun(p, e.ledger[p], i)))
            && (forall i: nat :: i in m ==> i < |e.d| && (e.d[i].isFree <==> !exists p :: p in e.ledger && InRun(p, e.ledger[p], i)))
    decreases |ops|
  {
    if ops == [] {
      forall g, p | g in s.ledger && p in s.ledger && g != p
        ensures forall i :: !(InRun(g, s.ledger[g], i) && InRun(p, s.ledger[p], i))
      {
        LedgerDisjoint(s, m, g, p);
      }
      forall i: nat | i in m && !s.d[i].isFree
        ensures exists p :: p in s.ledger && InRun(p, s.ledger[p], i)
      {
        LedgerOrder(s, m, i);
      }
    } else {
      StepGood(s, m, ops[0]);
      RunsGood(Step(s, ops[0]), m, ops[1..]);
    }
  }

  /** Two runs that end with the same blocks handed out end with the same
      blocks everywhere: history does not fragment the pool. */
  lemma RunsCanonical(s: State, m: set<nat>, ops: seq<Op>, ops': seq<Op>)
    requires Good(s, m) && AlwaysFits(s, ops) && AlwaysFits(s, ops') && Exec(s, ops).ledger == Exec(s, ops').ledger
    ensures var e, e' := Exec(s, ops), Exec(s, ops');
            forall i: nat :: i in m ==> i < |e.d| && i < |e'.d| && SameTags(e.d[i], e'.d[i])
  {
    var e, e' := Exec(s, ops), Exec(s, ops');
    RunsGood(s, m, ops);
    RunsGood(s, m, ops');
    SameLength(s, ops);
    SameLength(s, ops');
    FreeBlocksDetermined(e.d, e'.d, m);
    forall i: nat | i in m && !e.d[i].isFree
      ensures SameTags(e.d[i], e'.d[i])
    {
      var p :| p in e.ledger && InRun(p, e.ledger[p], i);
      assert IsBlock(e.d, m, p, e.ledger[p], false) && IsBlock(e'.d, m, p, e'.ledger[p], false);
    }
  }

  lemma {:induction false} SameLength(s: State, ops: seq<Op>)
    requires |s.lists| == MAX_PAGE_ORDER
    ensures |Exec(s, ops).d| == |s.d|
    decreases |ops|
  {
    if ops != [] { SameLength(Step(s, ops[0]), ops[1..]); }
  }

  // --------------------------------------- runs that stay inside the array

  /** Freeing what was handed out stays inside if all managed runs have buddies. */
  lemma {:induction false} WalledFits(s: State, m: set<nat>, ops: seq<Op>)
    requires Good(s, m) && Walled(|s.d|, m)
    ensures AlwaysFits(s, ops)
    decreases |ops|
  {
    if ops != [] {
      if ops[0].Free? && ops[0].head in s.ledger {
        var p, k := ops[0].head, s.ledger[ops[0].head];
        assert IsBlock(s.d, m, p, k, false);
        UsedFreeable(s.d, m, s.lists, p, k);
        WalledInside(s.d, m - Run(p, k), m, s.lists, p, k);
      }
      StepGood(s, m, ops[0]);
      SameLength(s, [ops[0]]);
      assert Exec(s, [ops[0]]) == Exec(Step(s, ops[0]), []);
      WalledFits(Step(s, ops[0]), m, ops[1..]);
    }
  }

  function FreePart(s: State, m: set<nat>): set<nat> { set i | i in m && i < |s.d| && s.d[i].isFree }

  /** While a page is free, allocating one page takes some free page, and only that. */
  lemma TakesOne(s: State, m: set<nat>, p: nat) returns (i: nat)
    requires Good(s, m) && p in m && p < |s.d| && s.d[p].isFree
    ensures var n := Step(s, Alloc(0));
            && Good(n, m) && |n.d| == |s.d| && i in n.ledger && n.ledger[i] == 0
            && (forall j: nat :: j < |s.d| ==> (n.d[j].isFree <==> s.d[j].isFree && j != i))
            && |FreePart(n, m)| < |FreePart(s, m)|
  {
    hide Good, PoolInv, IsBlock, InRun, Run, AllocPage, AllocTags, AllocListsAfter, FreePart;
    OnePage(p);
    assert FreeRun(s.d, m, p, 0);
    AllocComplete(s.d, m, s.lists, 0);
    AllocKeeps(s.d, m, s.lists, 0);
    AllocGood(s, m, 0);
    i := AllocPage(s.lists, 0).value;
    OnePage(i);
    InFreed(i, 0, i);
    InArray(s, m, i);
    FewerFree(s, Step(s, Alloc(0)), m, i);
  }

  lemma InArray(s: State, m: set<nat>, i: nat)
    requires Good(s, m) && i in m
    ensures i < |s.d|
  {
  }

  lemma FewerFree(s: State, n: State, m: set<nat>, i: nat)
    requires i in m && i < |s.d| == |n.d| && s.d[i].isFree
    requires forall j: nat :: j < |s.d| ==> (n.d[j].isFree <==> s.d[j].isFree && j != i)
    ensures |FreePart(n, m)| < |FreePart(s, m)|
  {
    assert FreePart(n, m) == FreePart(s, m) - {i} && i in FreePart(s, m);
  }

  /** While an aligned run without a buddy is free, allocating page by page hands
      one of its pages out, and freeing that page looks past the array. */
  lemma {:induction false} PageThenPast(s: State, m: set<nat>, p: nat, t: nat) returns (ops: seq<Op>)
    requires Good(s, m) && t < MAX_PAGE_ORDER - 1 && Aligned(p, t) && BuddyPfn(p, t) >= |s.d|
    requires forall i: nat :: InRun(p, t, i) ==> i in m && i < |s.d| && s.d[i].isFree
    ensures !AlwaysFits(s, ops)
    decreases |FreePart(s, m)|
  {
    hide Good, BuddyPfn, Aligned, FreePart, Step, Fits;
    assert InRun(p, t, p);
    var i := TakesOne(s, m, p);
    var n := Step(s, Alloc(0));
    AllocFits(s);
    if InRun(p, t, i) {
      ops := [Alloc(0), Free(i)];
      PastAfter(n, m, p, t, i);
      assert ops[1..] == [Free(i)];
    } else {
      var rest := PageThenPast(n, m, p, t);
      ops := [Alloc(0)] + rest;
      assert ops[1..] == rest;
    }
  }

  lemma AllocFits(s: State)
    ensures Fits(s, Alloc(0), true)
  {
  }

  lemma OnePage(i: nat)
    ensures forall j: int :: InRun(i, 0, j) <==> j == i
  {
  }

  /** Freeing the one page in use of an aligned run without a buddy. */
  lemma PastAfter(s: State, m: set<nat>, p: nat, t: nat, i: nat)
    requires Good(s, m) && i in s.ledger && s.ledger[i] == 0
    requires t < MAX_PAGE_ORDER - 1 && Aligned(p, t) && BuddyPfn(p, t) >= |s.d| && InRun(p, t, i)
    requires forall j: nat :: InRun(p, t, j) && j != i ==> j in m && j < |s.d| && s.d[j].isFree
    ensures !Fits(s, Free(i), true)
  {
    var rest := m - Run(i, 0);
    assert IsBlock(s.d, m, i, 0, false);
    UsedFreeable(s.d, m, s.lists, i, 0);
    FreeInsideExact(s.d, rest, s.lists, i, 0);
    HeadUnique(i, t, p);
    OnePage(i);
    forall j: nat ensures j in Run(i, 0) <==> j == i { InFreed(i, 0, j); }
    assert Complete(s.d, rest, i, 0, t);
  }

  /** Giving everything back first. */
  lemma {:induction false} AllBackThenPast(s: State, m: set<nat>, p: nat, t: nat) returns (ops: seq<Op>)
    requires Good(s, m) && t < MAX_PAGE_ORDER - 1 && Aligned(p, t) && RunIn(m, p, t) && BuddyPfn(p, t) >= |s.d|
    ensures !AlwaysFits(s, ops)
    decreases |s.ledger|
  {
    if s.ledger == map[] {
      forall i: nat | InRun(p, t, i)
        ensures i in m && i < |s.d| && s.d[i].isFree
      {
        if !s.d[i].isFree { LedgerOrder(s, m, i); }
      }
      ops := PageThenPast(s, m, p, t);
    } else {
      var h :| h in s.ledger;
      FreeGood(s, m, h);
      var n := Step(s, Free(h));
      assert |n.ledger| < |s.ledger| by { assert n.ledger.Keys == s.ledger.Keys - {h}; }
      var rest := AllBackThenPast(n, m, p, t);
      ops := [Free(h)] + rest;
      assert ops[1..] == rest;
    }
  }

  /** All runs of a pool stay inside the array if and only if every aligned run of
      managed pages below the top order has a buddy with a descriptor. */
  lemma AllRunsInside(s: State, m: set<nat>)
    requires Good(s, m)
    ensures (forall ops: seq<Op> :: AlwaysFits(s, ops)) <==> Walled(|s.d|, m)
  {
    if Walled(|s.d|, m) {
      forall ops: seq<Op> ensures AlwaysFits(s, ops) { WalledFits(s, m, ops); }
    } else {
      var p: nat, t: nat :| t < MAX_PAGE_ORDER - 1 && Aligned(p, t) && RunIn(m, p, t) && BuddyPfn(p, t) >= |s.d|;
      var ops := AllBackThenPast(s, m, p, t);
    }
  }

  // ---------------------------------------------- runs of the literal test

  /** The call with the merge test of the source. */
  function LiteralStep(s: State, op: Op): (r: State)
    requires |s.lists| == MAX_PAGE_ORDER
    ensures |r.lists| == MAX_PAGE_ORDER
  {
    if op.Free? && op.head in s.ledger then
      var k := s.ledger[op.head];
      State(FreeTags(s.d, op.head, k, false), FreeListsAfter(s.d, s.lists, op.head, k, false), s.ledger - {op.head})
    else Step(s, op)
  }

  predicate Guarded(s: State, op: Op) { op.Free? && op.head in s.ledger ==> OrderGuard(s.d, op.head, s.ledger[op.head]) }

  /** One literal call stays inside the array and keeps the pool in order exactly if the guard holds
      and the checked call stays inside; with the guard it is the checked call. */
  lemma LiteralStepExact(s: State, m: set<nat>, op: Op)
    requires Good(s, m)
    ensures Fits(s, op, false) && Good(LiteralStep(s, op), m) <==> Guarded(s, op) && Fits(s, op, true)
    ensures Guarded(s, op) ==> LiteralStep(s, op) == Step(s, op)
  {
    if op.Free? && op.head in s.ledger {
      var p, k := op.head, s.ledger[op.head];
      assert IsBlock(s.d, m, p, k, false);
      UsedFreeable(s.d, m, s.lists, p, k);
      LiteralFreeExact(s.d, m - Run(p, k), s.lists, p, k);
      if OrderGuard(s.d, p, k) {
        StepGood(s, m, op);
      } else if StaysInside(s.d, p, k, false) {
        var i := LiteralSwallows(s.d, m - Run(p, k), s.lists, p, k);
        SwallowedBad(s, m, p, i);
      }
    } else {
      StepGood(s, m, op);
    }
  }

  /** A page in use that is marked free spoils the order of the pool. */
  lemma SwallowedBad(s: State, m: set<nat>, p: nat, i: nat)
    requires Good(s, m) && p in s.ledger && i < |s.d| && !s.d[i].isFree && !InRun(p, s.ledger[p], i)
    requires var e := LiteralStep(s, Free(p)); |e.d| == |s.d| && e.d[i].isFree
    ensures !Good(LiteralStep(s, Free(p)), m)
  {
    var e := LiteralStep(s, Free(p));
    if i in m {
      LedgerOrder(s, m, i);
      var h := HeadOf(i, s.d[i].order);
      assert h in e.ledger && InRun(h, e.ledger[h], i);
    }
  }

  /** Every state of the literal run is in order, and every call stays inside the array. */
  ghost predicate AlwaysGood(s: State, m: set<nat>, ops: seq<Op>)
    decreases |ops|
  {
    Good(s, m) && (ops != [] ==> Fits(s, ops[0], false) && AlwaysGood(LiteralStep(s, ops[0]), m, ops[1..]))
  }

  predicate AlwaysGuarded(s: State, ops: seq<Op>)
    requires |s.lists| == MAX_PAGE_ORDER
    decreases |ops|
  {
    ops != [] ==> Guarded(s, ops[0]) && Fits(s, ops[0], true) && AlwaysGuarded(LiteralStep(s, ops[0]), ops[1..])
  }

  function LiteralExec(s: State, ops: seq<Op>): State
    requires |s.lists| == MAX_PAGE_ORDER
    decreases |ops|
  {
    if ops == [] then s else LiteralExec(LiteralStep(s, ops[0]), ops[1..])
  }

  /** The code as written stays inside and keeps the pool in order through a whole run exactly if at every
      free the guard holds and the checked free stays inside; then the run is the checked run, with all
      that RunsGood says of it. */
  lemma {:induction false} LiteralRunsExact(s: State, m: set<nat>, ops: seq<Op>)
    requires Good(s, m)
    ensures AlwaysGood(s, m, ops) <==> AlwaysGuarded(s, ops)
    ensures AlwaysGuarded(s, ops) ==> LiteralExec(s, ops) == Exec(s, ops) && AlwaysFits(s, ops)
    decreases |ops|
  {
    if ops != [] {
      LiteralStepExact(s, m, ops[0]);
      if Guarded(s, ops[0]) {
        StepGood(s, m, ops[0]);
        LiteralRunsExact(LiteralStep(s, ops[0]), m, ops[1..]);
      }
    }
  }
}
