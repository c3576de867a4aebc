/** Spinlocks: atomic steps on a counter, and every interleaving of threads that
    follow the kernel's locking paths. */
module Locks {
  import opened Atomics

  const LOCKED: int := 1
  const FREE: int := 0

  // ------------------------------------------------------ one lock, one step

  class SpinLock {
    const counter: Atomic

    predicate Held() reads counter { counter.value == 1 }

    /** The counter is one of the two values. */
    predicate Valid() reads counter { counter.value == 1 || counter.value == 0 }

    constructor ()
      ensures Valid() && !Held() && fresh(counter)
    {
      counter := new Atomic(FREE);
    }

    /** Succeeds exactly on a free lock, which is then held; otherwise nothing changes. */
    method TryLock() returns (taken: bool)
      requires Valid()
      modifies counter
      ensures Valid() && Held() && taken == !old(Held())
    {
      taken := counter.CompareAndSwap(FREE, LOCKED);
    }

    method UnLock()
      modifies counter
      ensures Valid() && !Held()
    {
      var _ := counter.Set(FREE);
    }
  }

  // ------------------------------------------------------- the locking paths

  /** The locks of the kernel: the destructor list, the caches, the page pools. */
  datatype Lock = DtorLock | CacheLock(cache: nat) | PoolLock(pool: nat)

  function Rank(l: Lock): nat { match l case DtorLock => 0 case CacheLock(_) => 1 case PoolLock(_) => 2 }

  datatype Action = Acquire(l: Lock) | Release(l: Lock)

  /** The calls that take locks. A cache call (Malloc, Free) makes pool calls inside its section:
      the pools tried for a page, or the one a page goes back to. */
  datatype Call = PoolCall(pool: nat) | CacheCall(cache: nat, pools: seq<nat>) | FinalizeCall(inner: seq<Call>)

  /** Destructors and the deletes of a finalization use the heap but not the destructor list. */
  predicate Proper(c: Call) { c.FinalizeCall? ==> forall i :: 0 <= i < |c.inner| ==> !c.inner[i].FinalizeCall? }

  function Section(l: Lock, body: seq<Action>): seq<Action> { [Acquire(l)] + body + [Release(l)] }

  function PoolActions(pools: seq<nat>): seq<Action> {
    if pools == [] then [] else Section(PoolLock(pools[0]), []) + PoolActions(pools[1..])
  }

  /** The lock steps of a call made inside no other or inside a finalization. */
  function HeapActions(c: Call): seq<Action>
    requires !c.FinalizeCall?
  {
    match c
    case PoolCall(p) => PoolActions([p])
    case CacheCall(k, pools) => Section(CacheLock(k), PoolActions(pools))
  }

  function HeapCalls(calls: seq<Call>): seq<Action>
    requires forall i :: 0 <= i < |calls| ==> !calls[i].FinalizeCall?
  {
    if calls == [] then [] else HeapActions(calls[0]) + HeapCalls(calls[1..])
  }

  function Actions(c: Call): seq<Action>
    requires Proper(c)
  {
    if c.FinalizeCall? then Section(DtorLock, HeapCalls(c.inner)) else HeapActions(c)
  }

  /** The lock steps of pool calls, one section after the other. */
  lemma {:induction false} PoolSteps(pools: seq<nat>)
    ensures |PoolActions(pools)| == 2 * |pools|
    ensures forall i :: 0 <= i < |pools| ==>
              PoolActions(pools)[2 * i] == Acquire(PoolLock(pools[i])) && PoolActions(pools)[2 * i + 1] == Release(PoolLock(pools[i]))
  {
    if pools != [] {
      PoolSteps(pools[1..]);
      assert PoolActions(pools) == [Acquire(PoolLock(pools[0])), Release(PoolLock(pools[0]))] + PoolActions(pools[1..]);
    }
  }

  /** A cache call holds its cache's lock from its first lock step to its last, all its pool calls between; a
      finalization holds the lock of the destructor list around all the calls made inside it. */
  lemma LockedAround(c: Call)
    requires Proper(c)
    ensures c.CacheCall? ==>
            && |Actions(c)| == 2 * |c.pools| + 2
            && Actions(c)[0] == Acquire(CacheLock(c.cache)) && Actions(c)[2 * |c.pools| + 1] == Release(CacheLock(c.cache))
            && forall i :: 0 <= i < |c.pools| ==>
                 Actions(c)[2 * i + 1] == Acquire(PoolLock(c.pools[i])) && Actions(c)[2 * i + 2] == Release(PoolLock(c.pools[i]))
    ensures c.PoolCall? ==> Actions(c) == [Acquire(PoolLock(c.pool)), Release(PoolLock(c.pool))]
    ensures c.FinalizeCall? ==>
            && |Actions(c)| >= 2 && Actions(c)[0] == Acquire(DtorLock) && Actions(c)[|Actions(c)| - 1] == Release(DtorLock)
            && Actions(c)[1..|Actions(c)| - 1] == HeapCalls(c.inner)
  {
    if c.CacheCall? { PoolSteps(c.pools); }
    if c.PoolCall? { PoolSteps([c.pool]); }
  }

  /** The calls inside a finalization do their lock steps one after the other. */
  lemma {:induction false} InnerSteps(calls: seq<Call>, i: nat)
    requires (forall j :: 0 <= j < |calls| ==> !calls[j].FinalizeCall?) && i < |calls|
    ensures HeapCalls([]) == [] && HeapCalls(calls) == HeapCalls(calls[..i]) + Actions(calls[i]) + HeapCalls(calls[i + 1..])
  {
    hide HeapCalls, HeapActions;
    FirstInner([]);
    FirstInner(calls);
    FirstInner(calls[..i]);
    if i == 0 {
      assert calls[..0] == [];
    } else {
      var a, b, c := HeapCalls(calls[1..][..i - 1]), Actions(calls[i]), HeapCalls(calls[i + 1..]);
      InnerSteps(calls[1..], i - 1);
      assert calls[..i][1..] == calls[1..][..i - 1] && calls[1..][i..] == calls[i + 1..];
      assert HeapActions(calls[0]) + (a + b + c) == HeapActions(calls[0]) + a + b + c;
    }
  }

  lemma FirstInner(calls: seq<Call>)
    requires forall j :: 0 <= j < |calls| ==> !calls[j].FinalizeCall?
    ensures HeapCalls(calls) == if calls == [] then [] else HeapActions(calls[0]) + HeapCalls(calls[1..])
  {
  }

  /** From here on locks are taken in rising rank and released last in, first out, down to none. */
  predicate Nested(held: seq<Lock>, todo: seq<Action>)
    decreases |todo|
  {
    if todo == [] then held == [] else
    match todo[0]
    case Acquire(l) => (held == [] || Rank(held[|held| - 1]) < Rank(l)) && Nested(held + [l], todo[1..])
    case Release(l) => held != [] && held[|held| - 1] == l && Nested(held[..|held| - 1], todo[1..])
  }

  /** Taking a lock of higher rank than those held. */
  lemma NestedAcquire(held: seq<Lock>, l: Lock, rest: seq<Action>)
    requires (held == [] || Rank(held[|held| - 1]) < Rank(l)) && Nested(held + [l], rest)
    ensures Nested(held, [Acquire(l)] + rest)
  {
    assert ([Acquire(l)] + rest)[1..] == rest;
  }

  /** Releasing the lock taken last. */
  lemma NestedRelease(held: seq<Lock>, l: Lock, rest: seq<Action>)
    requires Nested(held, rest)
    ensures Nested(held + [l], [Release(l)] + rest)
  {
    assert ([Release(l)] + rest)[1..] == rest && (held + [l])[..|held|] == held;
  }

  lemma SectionFirst(l: Lock, body: seq<Action>, todo: seq<Action>)
    ensures Section(l, body) + todo == [Acquire(l)] + (body + ([Release(l)] + todo))
  {
  }

  lemma {:induction false} NestedPools(held: seq<Lock>, pools: seq<nat>, todo: seq<Action>)
    requires held == [] || Rank(held[|held| - 1]) < 2
    requires Nested(held, todo)
    ensures Nested(held, PoolActions(pools) + todo)
    decreases |pools|
  {
    hide Nested, Section;
    if pools == [] {
      assert PoolActions(pools) + todo == todo;
    } else {
      var l, rest := PoolLock(pools[0]), PoolActions(pools[1..]) + todo;
      NestedPools(held, pools[1..], todo);
      NestedRelease(held, l, rest);
      NestedAcquire(held, l, [Release(l)] + rest);
      SectionFirst(l, [], rest);
      assert PoolActions(pools) + todo == Section(l, []) + rest && [] + ([Release(l)] + rest) == [Release(l)] + rest;
    }
  }

  lemma NestedHeap(held: seq<Lock>, c: Call, todo: seq<Action>)
    requires !c.FinalizeCall? && (held == [] || Rank(held[|held| - 1]) < 1)
    requires Nested(held, todo)
    ensures Nested(held, HeapActions(c) + todo)
  {
    hide Nested, PoolActions, Section;
    match c
    case PoolCall(p) => NestedPools(held, [p], todo);
    case CacheCall(k, pools) =>
      var l, rest := CacheLock(k), [Release(CacheLock(k))] + todo;
      NestedRelease(held, l, todo);
      NestedPools(held + [l], pools, rest);
      NestedAcquire(held, l, PoolActions(pools) + rest);
      SectionFirst(l, PoolActions(pools), todo);
  }

  lemma {:induction false} NestedCalls(held: seq<Lock>, calls: seq<Call>, todo: seq<Action>)
    requires (forall i :: 0 <= i < |calls| ==> !calls[i].FinalizeCall?) && (held == [] || Rank(held[|held| - 1]) < 1)
    requires Nested(held, todo)
    ensures Nested(held, HeapCalls(calls) + todo)
    decreases |calls|
  {
    hide Nested, HeapActions;
    if calls == [] {
      assert HeapCalls(calls) + todo == todo;
    } else {
      NestedCalls(held, calls[1..], todo);
      NestedHeap(held, calls[0], HeapCalls(calls[1..]) + todo);
      assert HeapCalls(calls) + todo == HeapActions(calls[0]) + (HeapCalls(calls[1..]) + todo);
    }
  }

  /** Every call keeps the lock order: destructor list, then cache, then pool. */
  lemma CallsNested(c: Call)
    requires Proper(c)
    ensures Nested([], Actions(c))
  {
    assert Nested([], []);
    hide Nested, HeapActions, HeapCalls, Section;
    if c.FinalizeCall? {
      var l, rest := DtorLock, [Release(DtorLock)] + [];
      NestedRelease([], l, []);
      NestedCalls([] + [l], c.inner, rest);
      NestedAcquire([], l, HeapCalls(c.inner) + rest);
      SectionFirst(l, HeapCalls(c.inner), []);
      assert Actions(c) == Section(l, HeapCalls(c.inner)) + [];
    } else {
      NestedHeap([], c, []);
      assert HeapActions(c) + [] == HeapActions(c);
    }
  }

  // ------------------------------------------------------------ all threads

  /** A thread holds locks, the latest last, and has lock steps still to do. */
  datatype Thread = Thread(held: seq<Lock>, todo: seq<Action>)

  /** Counters that were never touched are free. */
  datatype State = State(counter: map<Lock, int>, threads: seq<Thread>) {
    function Counter(l: Lock): int { if l in counter then counter[l] else FREE }
  }

  datatype Step = Start(t: nat, c: Call) | Do(t: nat)

  /** What may happen: an idle thread makes a call, or a thread does its next lock step. */
  predicate Enabled(s: State, step: Step) {
    match step
    case Start(t, c) => t < |s.threads| && s.threads[t].todo == [] && Proper(c)
    case Do(t) => t < |s.threads| && s.threads[t].todo != []
  }

  /** The next lock step of a thread would only spin: its compare-and-swap fails. */
  predicate Spins(s: State, t: nat)
    requires t < |s.threads| && s.threads[t].todo != []
  {
    var a := s.threads[t].todo[0];
    a.Acquire? && s.Counter(a.l) != FREE
  }

  function Next(s: State, step: Step): State
    requires Enabled(s, step)
  {
    match step
    case Start(t, c) => s.(threads := s.threads[t := s.threads[t].(todo := Actions(c))])
    case Do(t) =>
      var w := s.threads[t];
      match w.todo[0]
      case Acquire(l) =>
        if s.Counter(l) == FREE then State(s.counter[l := LOCKED], s.threads[t := Thread(w.held + [l], w.todo[1..])]) else s
      case Release(l) =>
        State(s.counter[l := FREE], s.threads[t := Thread(if w.held == [] then [] else w.held[..|w.held| - 1], w.todo[1..])])
  }

  ghost predicate Holds(s: State, t: nat, l: Lock)
    requires t < |s.threads|
  {
    l in s.threads[t].held
  }

  /** Held locks rise in rank, so no lock is held twice by one thread. */
  ghost predicate Rising(held: seq<Lock>) { forall i, j :: 0 <= i < j < |held| ==> Rank(held[i]) < Rank(held[j]) }

  ghost predicate ThreadOk(w: Thread) { Rising(w.held) && Nested(w.held, w.todo) }

  ghost predicate HasHolder(s: State, l: Lock) { exists t: nat :: t < |s.threads| && Holds(s, t, l) }

  /** At most one holder, and the counter says whether there is one. */
  ghost predicate LockOk(s: State, l: Lock) {
    && (forall t: nat, u: nat {:trigger Holds(s, t, l), Holds(s, u, l)} ::
       t < |s.threads| && u < |s.threads| && Holds(s, t, l) && Holds(s, u, l) ==> t == u)
    && s.Counter(l) == (if HasHolder(s, l) then 1 else 0)
  }

  /** What every reachable state satisfies. */
  ghost predicate Good(s: State) {
    && (forall t: nat :: t < |s.threads| ==> ThreadOk(s.threads[t]))
    && (forall l: Lock :: LockOk(s, l))
  }

  predicate Initial(s: State) { s.counter == map[] && forall t: nat :: t < |s.threads| ==> s.threads[t] == Thread([], []) }

  lemma InitialGood(s: State)
    requires Initial(s)
    ensures Good(s)
  {
    assert forall t: nat :: t < |s.threads| ==> Nested([], s.threads[t].todo);
  }

  lemma SameHolders(s: State, n: State, l: Lock)
    requires LockOk(s, l) && n.Counter(l) == s.Counter(l) && |n.threads| == |s.threads|
    requires forall t: nat :: t < |s.threads| ==> (Holds(n, t, l) <==> Holds(s, t, l))
    ensures LockOk(n, l)
  {
    if HasHolder(s, l) { var t: nat :| t < |s.threads| && Holds(s, t, l); assert Holds(n, t, l); }
    if HasHolder(n, l) { var t: nat :| t < |s.threads| && Holds(n, t, l); assert Holds(s, t, l); }
  }

  lemma OneHolder(n: State, t: nat, l: Lock)
    requires t < |n.threads| && n.Counter(l) == LOCKED
    requires forall u: nat :: u < |n.threads| ==> (Holds(n, u, l) <==> u == t)
    ensures LockOk(n, l)
  {
    assert Holds(n, t, l);
  }

  lemma LastOut(held: seq<Lock>, k: Lock)
    requires Rising(held) && held != []
    ensures Rising(held[..|held| - 1])
    ensures k in held[..|held| - 1] <==> k in held && k != held[|held| - 1]
  {
    if k in held && k != held[|held| - 1] {
      var i :| 0 <= i < |held| && held[i] == k;
      assert held[..|held| - 1][i] == k;
    }
  }

  /** Every step of every thread keeps it. */
  lemma StepGood(s: State, step: Step)
    requires Good(s) && Enabled(s, step)
    ensures Good(Next(s, step))
  {
    var n, t := Next(s, step), step.t;
    var w := s.threads[t];
    assert ThreadOk(w);
    if step.Start? {
      CallsNested(step.c);
    } else if w.todo[0].Release? {
      LastOut(w.held, w.todo[0].l);
    }
    forall k: Lock
      ensures LockOk(n, k)
    {
      LockKept(s, step, k);
    }
    forall u: nat | u < |n.threads|
      ensures ThreadOk(n.threads[u])
    {
      assert u != t ==> n.threads[u] == s.threads[u];
    }
  }

  lemma ReleaseLast(w: Thread)
    requires ThreadOk(w) && w.todo != [] && w.todo[0].Release?
    ensures w.held != [] && w.held[|w.held| - 1] == w.todo[0].l && Rising(w.held)
  {
  }

  /** The step is a lock step on k that does not spin. */
  predicate Moves(s: State, step: Step, k: Lock)
    requires Enabled(s, step)
  {
    step.Do? && !Spins(s, step.t) && s.threads[step.t].todo[0].l == k
  }

  /** Who holds k after a step, and what its counter is. */
  lemma HoldsNext(s: State, step: Step, u: nat, k: Lock)
    requires Good(s) && Enabled(s, step) && u < |s.threads|
    ensures var n := Next(s, step);
            && |n.threads| == |s.threads|
            && (Holds(n, u, k) <==> if u == step.t && Moves(s, step, k) then s.threads[u].todo[0].Acquire? else Holds(s, u, k))
            && n.Counter(k) == if !Moves(s, step, k) then s.Counter(k) else if s.threads[step.t].todo[0].Acquire? then LOCKED else FREE
  {
    hide ThreadOk, Actions, Rising, LockOk;
    var w := s.threads[step.t];
    assert ThreadOk(w);
    if step.Do? && w.todo[0].Release? {
      ReleaseLast(w);
      LastOut(w.held, k);
    }
  }

  lemma LockKept(s: State, step: Step, k: Lock)
    requires Good(s) && Enabled(s, step)
    ensures LockOk(Next(s, step), k)
  {
    var n, t := Next(s, step), step.t;
    forall u: nat | u < |s.threads| { HoldsNext(s, step, u, k); }
    HoldsNext(s, step, t, k);
    assert LockOk(s, k) && ThreadOk(s.threads[t]);
    hide ThreadOk, Next, Spins, Good;
    if !Moves(s, step, k) {
      SameHolders(s, n, k);
    } else if s.threads[t].todo[0].Acquire? {
      FreeUnheld(s, t, k);
      OneHolder(n, t, k);
    } else {
      ReleaseLast(s.threads[t]);
      assert Holds(s, t, k);
    }
  }

  /** A lock that can be taken has no holder. */
  lemma FreeUnheld(s: State, t: nat, k: Lock)
    requires LockOk(s, k) && t < |s.threads| && s.threads[t].todo != [] && s.threads[t].todo[0] == Acquire(k) && !Spins(s, t)
    ensures forall u: nat :: u < |s.threads| ==> !Holds(s, u, k)
  {
  }

  // ------------------------------------------------------------------ runs

  predicate CanRun(s: State, steps: seq<Step>)
    decreases |steps|
  {
    steps == [] || (Enabled(s, steps[0]) && CanRun(Next(s, steps[0]), steps[1..]))
  }

  function Run(s: State, steps: seq<Step>): State
    requires CanRun(s, steps)
    decreases |steps|
  {
    if steps == [] then s else Run(Next(s, steps[0]), steps[1..])
  }

  lemma {:induction false} RunGood(s: State, steps: seq<Step>)
    requires Good(s) && CanRun(s, steps)
    ensures Good(Run(s, steps))
    decreases |steps|
  {
    if steps != [] {
      StepGood(s, steps[0]);
      RunGood(Next(s, steps[0]), steps[1..]);
    }
  }

  /** Under every interleaving a lock has at most one holder, and its counter is LOCKED exactly while it has one. */
  lemma MutualExclusion(s: State, steps: seq<Step>, l: Lock)
    requires Initial(s) && CanRun(s, steps)
    ensures var r := Run(s, steps);
            && (forall t: nat, u: nat {:trigger Holds(r, t, l), Holds(r, u, l)} ::
               t < |r.threads| && u < |r.threads| && Holds(r, t, l) && Holds(r, u, l) ==> t == u)
            && (r.Counter(l) == 1 <==> exists t: nat :: t < |r.threads| && Holds(r, t, l))
            && (r.Counter(l) == 0 <==> forall t: nat :: t < |r.threads| ==> !Holds(r, t, l))
  {
    InitialGood(s);
    RunGood(s, steps);
    assert LockOk(Run(s, steps), l);
  }

  /** A thread with work whose wait chain ends at a thread that can move: each lock on the chain has higher rank. */
  lemma {:induction false} CanMove(s: State, t: nat) returns (u: nat)
    requires Good(s) && t < |s.threads| && s.threads[t].todo != []
    ensures u < |s.threads| && s.threads[u].todo != [] && !Spins(s, u)
    decreases 3 - (if s.threads[t].todo[0].Acquire? then Rank(s.threads[t].todo[0].l) else 3)
  {
    u := t;
    if Spins(s, t) {
      var l := s.threads[t].todo[0].l;
      assert LockOk(s, l);
      var h: nat :| h < |s.threads| && Holds(s, h, l);
      var w := s.threads[h];
      assert ThreadOk(w);
      var i :| 0 <= i < |w.held| && w.held[i] == l;
      assert Rank(l) <= Rank(w.held[|w.held| - 1]);
      if w.todo[0].Acquire? {
        u := CanMove(s, h);
      } else {
        u := h;
      }
    }
  }

  /** No reachable state is deadlocked: while some thread has work, some thread can do its next step for real. */
  lemma NoDeadlock(s: State, steps: seq<Step>, t: nat) returns (u: nat)
    requires Initial(s) && CanRun(s, steps) && t < |Run(s, steps).threads| && Run(s, steps).threads[t].todo != []
    ensures var r := Run(s, steps);
            u < |r.threads| && r.threads[u].todo != [] && !Spins(r, u) && Next(r, Do(u)).threads[u].todo == r.threads[u].todo[1..]
  {
    InitialGood(s);
    RunGood(s, steps);
    u := CanMove(Run(s, steps), t);
  }

  function Work(threads: seq<Thread>): nat { if threads == [] then 0 else |threads[0].todo| + Work(threads[1..]) }

  lemma {:induction false} WorkDrops(threads: seq<Thread>, t: nat, w: Thread)
    requires t < |threads|
    ensures Work(threads[t := w]) == Work(threads) - |threads[t].todo| + |w.todo|
  {
    if t == 0 {
      assert threads[t := w][1..] == threads[1..];
    } else {
      assert threads[t := w][1..] == threads[1..][t - 1 := w];
      WorkDrops(threads[1..], t - 1, w);
    }
  }

  lemma {:induction false} NoWork(threads: seq<Thread>)
    requires forall t: nat :: t < |threads| ==> threads[t].todo == []
    ensures Work(threads) == 0
  {
    if threads != [] { NoWork(threads[1..]); }
  }

  lemma IdleFree(s: State)
    requires Good(s) && forall t: nat :: t < |s.threads| ==> s.threads[t].todo == []
    ensures forall t: nat :: t < |s.threads| ==> s.threads[t] == Thread([], [])
    ensures forall l: Lock :: s.Counter(l) == FREE
  {
    assert forall t: nat :: t < |s.threads| ==> ThreadOk(s.threads[t]);
    forall l: Lock
      ensures s.Counter(l) == FREE
    {
      assert LockOk(s, l);
    }
  }

  /** From every reachable state the calls that were started can all be finished, whatever they wait for:
      at most as many steps as there are lock steps left, and then every lock is free. */
  lemma {:induction false} AllFinish(s: State) returns (steps: seq<Step>)
    requires Good(s)
    ensures CanRun(s, steps) && |steps| == Work(s.threads)
    ensures var r := Run(s, steps);
            && |r.threads| == |s.threads| && (forall t: nat :: t < |r.threads| ==> r.threads[t] == Thread([], []))
            && forall l: Lock :: r.Counter(l) == FREE
    decreases Work(s.threads)
  {
    if t: nat :| t < |s.threads| && s.threads[t].todo != [] {
      var u := CanMove(s, t);
      var n := Next(s, Do(u));
      StepGood(s, Do(u));
      WorkDrops(s.threads, u, n.threads[u]);
      assert n.threads == s.threads[u := n.threads[u]];
      var rest := AllFinish(n);
      steps := [Do(u)] + rest;
      assert steps[1..] == rest;
    } else {
      steps := [];
      NoWork(s.threads);
      IdleFree(s);
    }
  }
}
