/** The list of destructors to run at exit: registration and finalization. */
module Dtors {
  import opened ListLinks

  const ENOMEM: int := 12

  /** What was registered: a destructor, its argument, and the handle of the object file it belongs to. */
  datatype Record = Record(destructor: nat, arg: nat, handle: nat)

  /** A null handle asks for every destructor. */
  predicate Selected(r: Record, handle: nat) { handle == 0 || r.handle == handle }

  function Chosen(s: seq<Record>, handle: nat): seq<Record> {
    if s == [] then [] else
    var rest := Chosen(s[1..], handle);
    if Selected(s[0], handle) then [s[0]] + rest else rest
  }

  function Others(s: seq<Record>, handle: nat): seq<Record> {
    if s == [] then [] else
    var rest := Others(s[1..], handle);
    if Selected(s[0], handle) then rest else [s[0]] + rest
  }

  lemma Cons(r: Record, s: seq<Record>, handle: nat)
    ensures Chosen([], handle) == [] && Others([], handle) == []
    ensures Chosen([r] + s, handle) == (if Selected(r, handle) then [r] else []) + Chosen(s, handle)
    ensures Others([r] + s, handle) == (if Selected(r, handle) then [] else [r]) + Others(s, handle)
  {
    assert ([r] + s)[1..] == s;
  }

  lemma {:induction false} Split(s: seq<Record>, t: seq<Record>, handle: nat)
    ensures Chosen(s + t, handle) == Chosen(s, handle) + Chosen(t, handle)
    ensures Others(s + t, handle) == Others(s, handle) + Others(t, handle)
  {
    hide Chosen, Others, Selected;
    if s == [] {
      Cons(Record(0, 0, 0), [], handle);
      assert s + t == t;
    } else {
      Split(s[1..], t, handle);
      Cons(s[0], s[1..], handle);
      Cons(s[0], s[1..] + t, handle);
      assert s == [s[0]] + s[1..] && s + t == [s[0]] + (s[1..] + t);
    }
  }

  lemma One(r: Record, handle: nat)
    ensures Chosen([r], handle) == if Selected(r, handle) then [r] else []
    ensures Others([r], handle) == if Selected(r, handle) then [] else [r]
  {
    assert [r][1..] == [];
  }

  /** t is what s has at these positions, in the same order. */
  ghost predicate PickedAt(s: seq<Record>, t: seq<Record>, at: seq<nat>) {
    && |at| == |t| && (forall k :: 0 <= k < |t| ==> at[k] < |s| && t[k] == s[at[k]])
    && forall j, k :: 0 <= j < k < |at| ==> at[j] < at[k]
  }

  lemma NonePicked(s: seq<Record>)
    ensures PickedAt(s, [], [])
  {
  }

  lemma PickedMore(s: seq<Record>, t: seq<Record>, at: seq<nat>)
    requires s != [] && PickedAt(s[..|s| - 1], t, at)
    ensures PickedAt(s, t, at) && PickedAt(s, t + [s[|s| - 1]], at + [|s| - 1])
  {
  }

  lemma LastOne(s: seq<Record>, handle: nat)
    ensures s == [] ==> Chosen(s, handle) == [] && Others(s, handle) == []
    ensures s != [] ==>
            var r, before := s[|s| - 1], s[..|s| - 1];
            && Chosen(s, handle) == (if handle == 0 || r.handle == handle then Chosen(before, handle) + [r] else Chosen(before, handle))
            && Others(s, handle) == (if handle == 0 || r.handle == handle then Others(before, handle) else Others(before, handle) + [r])
  {
    hide Chosen, Others;
    if s == [] {
      Cons(Record(0, 0, 0), [], handle);
    } else {
      Split(s[..|s| - 1], [s[|s| - 1]], handle);
      One(s[|s| - 1], handle);
      assert s == s[..|s| - 1] + [s[|s| - 1]];
    }
  }

  /** The chosen records are those with the handle, or all for a null handle; the others are the rest. Both keep their order. */
  lemma {:induction false} DividedAt(s: seq<Record>, handle: nat) returns (at: seq<nat>, rest: seq<nat>)
    ensures PickedAt(s, Chosen(s, handle), at) && PickedAt(s, Others(s, handle), rest)
    ensures forall i: nat :: i in at <==> i < |s| && (handle == 0 || s[i].handle == handle)
    ensures forall i: nat :: i in rest <==> i < |s| && handle != 0 && s[i].handle != handle
  {
    hide Chosen, Others, PickedAt;
    at, rest := [], [];
    LastOne(s, handle);
    if s == [] {
      assert PickedAt(s, [], []) by { NonePicked(s); }
    } else {
      var n := |s| - 1;
      at, rest := DividedAt(s[..n], handle);
      LastOne(s, handle);
      PickedMore(s, Chosen(s[..n], handle), at);
      PickedMore(s, Others(s[..n], handle), rest);
      if handle == 0 || s[n].handle == handle { at := at + [n]; } else { rest := rest + [n]; }
    }
  }

  // ------------------------------------------------------------- the list

  class DtorInfo {
    var next: DtorInfo?
    const record: Record

    constructor (r: Record, n: DtorInfo?)
      ensures record == r && next == n
    {
      record, next := r, n;
    }
  }

  function Records(nodes: seq<DtorInfo>): (s: seq<Record>)
    ensures |s| == |nodes| && forall i :: 0 <= i < |s| ==> s[i] == nodes[i].record
  {
    seq(|nodes|, i requires 0 <= i < |nodes| => nodes[i].record)
  }

  lemma RecordsCons(nodes: seq<DtorInfo>, k: nat, handle: nat)
    requires k < |nodes|
    ensures Chosen(Records(nodes[k..]), handle) ==
            (if Selected(nodes[k].record, handle) then [nodes[k].record] else []) + Chosen(Records(nodes[k + 1..]), handle)
    ensures Others(Records(nodes[k..]), handle) ==
            (if Selected(nodes[k].record, handle) then [] else [nodes[k].record]) + Others(Records(nodes[k + 1..]), handle)
  {
    assert Records(nodes[k..])[1..] == Records(nodes[k + 1..]);
  }

  function Successor(nodes: seq<DtorInfo>, i: nat): DtorInfo? { if i + 1 < |nodes| then nodes[i + 1] else null }

  /** The nodes are linked in this order, starting at `head`. */
  ghost predicate Linked(head: DtorInfo?, nodes: seq<DtorInfo>)
    reads nodes
  {
    && head == (if nodes == [] then null else nodes[0])
    && forall i: nat :: i < |nodes| ==> nodes[i].next == Successor(nodes, i)
  }

  lemma DistinctPair(nodes: seq<DtorInfo>, i: nat, j: nat)
    requires Distinct(nodes) && i < |nodes| && j < |nodes| && i != j
    ensures nodes[i] != nodes[j]
  {
  }

  lemma LeftOut(nodes: seq<DtorInfo>, k: nat)
    requires Distinct(nodes) && k < |nodes|
    ensures var rest := Without(nodes, k);
            && Distinct(rest) && nodes[k] !in rest && (forall n :: n in rest ==> n in nodes)
            && (forall n :: n in nodes ==> n in rest || n == nodes[k])
            && (forall i :: 0 <= i < |rest| ==> rest[i] in nodes)
  {
    var rest := Without(nodes, k);
    forall n | n in nodes && n != nodes[k] ensures n in rest {
      var i :| 0 <= i < |nodes| && nodes[i] == n;
      assert rest[if i < k then i else i - 1] == n;
    }
  }

  lemma InFront(info: DtorInfo, nodes: seq<DtorInfo>)
    requires Distinct(nodes) && info !in nodes
    ensures Distinct([info] + nodes) && Records([info] + nodes) == [info.record] + Records(nodes)
    ensures Successor([info] + nodes, 0) == if nodes == [] then null else nodes[0]
    ensures forall i: nat :: i + 1 < |[info] + nodes| ==> ([info] + nodes)[i + 1] == nodes[i] && Successor([info] + nodes, i + 1) == Successor(nodes, i)
  {
  }

  /** Successors when the node at position k is left out. */
  lemma SuccessorWithout(nodes: seq<DtorInfo>, k: nat, i: nat)
    requires Distinct(nodes) && k < |nodes| && i + 1 < |nodes|
    ensures var rest, j := Without(nodes, k), if i < k then i else i + 1;
            && rest[i] == nodes[j] && Successor(rest, i) == Successor(nodes, if j + 1 == k then k else j)
            && (k > 0 ==> (rest[i] == nodes[k - 1] <==> j + 1 == k))
  {
    if k > 0 && i + 1 != k { DistinctPair(nodes, k - 1, if i < k then i else i + 1); }
  }

  lemma HeadWithout(nodes: seq<DtorInfo>, k: nat)
    requires k < |nodes|
    ensures var rest := Without(nodes, k);
            (if rest == [] then null else rest[0]) == if k == 0 then Successor(nodes, 0) else nodes[0]
  {
  }

  /** The list and the calls that the walk ends with, seen from position k. */
  ghost function LeftList(nodes: seq<DtorInfo>, k: nat, handle: nat): seq<Record>
    requires k <= |nodes|
  {
    Records(nodes[..k]) + Others(Records(nodes[k..]), handle)
  }

  ghost function AllCalls(nodes: seq<DtorInfo>, k: nat, calls: seq<Record>, handle: nat): seq<Record>
    requires k <= |nodes|
  {
    calls + Chosen(Records(nodes[k..]), handle)
  }

  lemma Start(nodes: seq<DtorInfo>, calls: seq<Record>, handle: nat)
    ensures LeftList(nodes, 0, handle) == Others(Records(nodes), handle)
    ensures AllCalls(nodes, 0, calls, handle) == calls + Chosen(Records(nodes), handle)
  {
    assert nodes[0..] == nodes;
    assert Records(nodes[..0]) == [];
  }

  lemma WorkRemove(nodes: seq<DtorInfo>, k: nat, calls: seq<Record>, handle: nat)
    requires k < |nodes| && Selected(nodes[k].record, handle)
    ensures var rest := Without(nodes, k);
            && LeftList(rest, k, handle) == LeftList(nodes, k, handle)
            && AllCalls(rest, k, calls + [nodes[k].record], handle) == AllCalls(nodes, k, calls, handle)
  {
    RecordsCons(nodes, k, handle);
    var rest := Without(nodes, k);
    assert rest[..k] == nodes[..k] && rest[k..] == nodes[k + 1..];
  }

  lemma WorkSkip(nodes: seq<DtorInfo>, k: nat, calls: seq<Record>, handle: nat)
    requires k < |nodes| && !Selected(nodes[k].record, handle)
    ensures LeftList(nodes, k + 1, handle) == LeftList(nodes, k, handle)
    ensures AllCalls(nodes, k + 1, calls, handle) == AllCalls(nodes, k, calls, handle)
  {
    RecordsCons(nodes, k, handle);
    assert Records(nodes[..k + 1]) == Records(nodes[..k]) + [nodes[k].record];
  }

  lemma WorkDone(nodes: seq<DtorInfo>, calls: seq<Record>, handle: nat)
    ensures LeftList(nodes, |nodes|, handle) == Records(nodes) && AllCalls(nodes, |nodes|, calls, handle) == calls
  {
    assert nodes[..|nodes|] == nodes && nodes[|nodes|..] == [];
  }

  lemma ChosenHandles(s: seq<Record>, handle: nat)
    ensures forall i :: 0 <= i < |Chosen(s, handle)| ==> handle == 0 || Chosen(s, handle)[i].handle == handle
    ensures forall i :: 0 <= i < |Others(s, handle)| ==> handle != 0 && Others(s, handle)[i].handle != handle
    ensures |Chosen(s, handle)| + |Others(s, handle)| == |s|
  {
    hide Chosen, Others;
    var at, rest := DividedAt(s, handle);
    forall i | 0 <= i < |at| ensures at[i] in at && at[i] < |s| {}
    forall i | 0 <= i < |rest| ensures rest[i] in rest && rest[i] < |s| {}
    Divided(s, handle);
    assert |multiset(Chosen(s, handle)) + multiset(Others(s, handle))| == |multiset(s)|;
  }

  class DtorList {
    var head: DtorInfo?
    /** The destructor calls made, in order. */
    var calls: seq<Record>
    /** The nodes given back to the heap. */
    var deleted: seq<DtorInfo>
    ghost var nodes: seq<DtorInfo>

    ghost predicate Valid()
      reads this, nodes
    {
      Distinct(nodes) && Linked(head, nodes) && forall n :: n in nodes ==> n !in deleted
    }

    ghost function List(): seq<Record> reads this { Records(nodes) }

    constructor ()
      ensures Valid() && List() == [] && calls == [] && deleted == []
    {
      head, calls, deleted, nodes := null, [], [], [];
    }

    /** __cxa_atexit: a new node in front, or an error when the heap has no memory. */
    method AtExit(memory: bool, r: Record) returns (rc: int)
      requires Valid()
      modifies this`head, this`nodes
      ensures Valid() && rc == (if memory then 0 else -12)
      ensures List() == (if memory then [r] else []) + old(List())
      ensures forall n :: n in nodes ==> n in old(nodes) || fresh(n)
    {
      if !memory {
        return -ENOMEM;
      }
      hide Distinct, Successor, Records;
      var info := new DtorInfo(r, head);
      ghost var was := nodes;
      InFront(info, was);
      head := info;
      nodes := [info] + nodes;
      rc := 0;
    }

    /** `*pdtor = dtor->next`: the node at position k leaves the list. */
    method Unlink(prev: DtorInfo?, dtor: DtorInfo, ghost k: nat)
      requires Valid() && k < |nodes| && nodes[k] == dtor
      requires prev == if k == 0 then null else nodes[k - 1]
      modifies this`head, this`nodes, this`deleted, nodes
      ensures Valid() && nodes == Without(old(nodes), k) && deleted == old(deleted) + [dtor]
    {
      hide Distinct, Successor;
      ghost var was := nodes;
      LeftOut(was, k);
      assert forall i: nat :: i < |was| ==> old(was[i].next) == Successor(was, i);
      HeadWithout(was, k);
      if prev == null {
        head := dtor.next;
      } else {
        prev.next := dtor.next;
      }
      deleted := deleted + [dtor];
      nodes := Without(was, k);
      forall i: nat | i < |nodes|
        ensures nodes[i].next == Successor(nodes, i)
      {
        SuccessorWithout(was, k, i);
      }
    }

    /** __cxa_finalize: `prev` stands for the pointer to pointer; null is the address of the global head. */
    method Finalize(handle: nat)
      requires Valid()
      modifies this, nodes
      ensures Valid()
      ensures calls == old(calls) + Chosen(old(List()), handle)
      ensures List() == Others(old(List()), handle)
      ensures |calls| >= |old(calls)| && calls[..|old(calls)|] == old(calls)
      ensures forall i :: |old(calls)| <= i < |calls| ==> handle == 0 || calls[i].handle == handle
      ensures forall i :: 0 <= i < |List()| ==> handle != 0 && List()[i].handle != handle
      ensures |calls| + |List()| == |old(calls)| + |old(List())|
      ensures |deleted| == |old(deleted)| + |Chosen(old(List()), handle)|
      ensures forall n :: n in nodes ==> n in old(nodes)
      ensures forall n :: n in old(nodes) ==> n in nodes || n in deleted
    {
      hide Linked, Distinct, Chosen, Others, LeftList, AllCalls;
      ghost var k := 0;
      var prev: DtorInfo? := null;
      var dtor := head;
      Start(nodes, calls, handle);
      AtPosition(null, 0);
      while dtor != null
        invariant Valid() && k <= |nodes|
        invariant dtor == (if k < |nodes| then nodes[k] else null)
        invariant prev == if k == 0 then null else nodes[k - 1]
        invariant LeftList(nodes, k, handle) == Others(old(List()), handle)
        invariant AllCalls(nodes, k, calls, handle) == old(calls) + Chosen(old(List()), handle)
        invariant |deleted| - |old(deleted)| == |calls| - |old(calls)|
        invariant forall i :: 0 <= i < |nodes| ==> nodes[i] in old(nodes)
        invariant forall n :: n in old(nodes) ==> n in nodes || n in deleted
        decreases |nodes| - k
      {
        ghost var was := nodes;
        if handle == 0 || dtor.record.handle == handle {
          WorkRemove(nodes, k, calls, handle);
          Unlink(prev, dtor, k);
          calls := calls + [dtor.record];
          LeftOut(was, k);
        } else {
          WorkSkip(nodes, k, calls, handle);
          prev := dtor;
          k := k + 1;
        }
        AtPosition(prev, k);
        dtor := if prev == null then head else prev.next;
      }
      WorkDone(nodes, calls, handle);
      ChosenHandles(old(List()), handle);
    }

    /** What the pointer to pointer reads. */
    lemma AtPosition(prev: DtorInfo?, k: nat)
      requires Valid() && k <= |nodes| && prev == if k == 0 then null else nodes[k - 1]
      ensures (if prev == null then head else prev.next) == if k < |nodes| then nodes[k] else null
    {
      if k > 0 {
        assert nodes[k - 1].next == Successor(nodes, k - 1);
      }
    }
  }

  // ------------------------------------------------------------------ runs

  datatype Event = Register(r: Record) | Finish(handle: nat)
  datatype State = State(list: seq<Record>, calls: seq<Record>)

  /** What AtExit and Finalize do to the list and to the calls made. */
  function Next(s: State, e: Event): State {
    match e
    case Register(r) => State([r] + s.list, s.calls)
    case Finish(h) => State(Others(s.list, h), s.calls + Chosen(s.list, h))
  }

  function Run(events: seq<Event>): State {
    if events == [] then State([], []) else Next(Run(events[..|events| - 1]), events[|events| - 1])
  }

  function Registered(events: seq<Event>): seq<Record> {
    if events == [] then [] else
    var e, before := events[|events| - 1], Registered(events[..|events| - 1]);
    if e.Register? then before + [e.r] else before
  }

  function Reversed(s: seq<Record>): (r: seq<Record>)
    ensures |r| == |s|
  {
    if s == [] then [] else Reversed(s[1..]) + [s[0]]
  }

  lemma {:induction false} ReversedSnoc(s: seq<Record>, r: Record)
    ensures Reversed(s + [r]) == [r] + Reversed(s)
  {
    if s == [] {
      assert [r][1..] == [];
    } else {
      assert (s + [r])[1..] == s[1..] + [r];
      ReversedSnoc(s[1..], r);
    }
  }

  lemma ReversedCons(r: Record, s: seq<Record>)
    ensures Reversed([r] + s) == Reversed(s) + [r]
  {
    assert ([r] + s)[1..] == s;
  }

  lemma {:induction false} ChosenReversed(s: seq<Record>, handle: nat)
    ensures Chosen(Reversed(s), handle) == Reversed(Chosen(s, handle))
    ensures Others(Reversed(s), handle) == Reversed(Others(s, handle))
  {
    if s != [] {
      ChosenReversed(s[1..], handle);
      Split(Reversed(s[1..]), [s[0]], handle);
      One(s[0], handle);
      if Selected(s[0], handle) {
        ReversedCons(s[0], Chosen(s[1..], handle));
        assert Others(Reversed(s), handle) == Others(Reversed(s[1..]), handle) + [];
      } else {
        ReversedCons(s[0], Others(s[1..], handle));
        assert Chosen(Reversed(s), handle) == Chosen(Reversed(s[1..]), handle) + [];
      }
    }
  }

  lemma {:induction false} Divided(s: seq<Record>, handle: nat)
    ensures multiset(Chosen(s, handle)) + multiset(Others(s, handle)) == multiset(s)
    ensures forall r :: r in Chosen(s, handle) ==> Selected(r, handle)
    ensures forall r :: r in Others(s, handle) ==> !Selected(r, handle)
  {
    if s != [] {
      Divided(s[1..], handle);
      assert s == [s[0]] + s[1..];
    }
  }

  /** In every run each registration is called once or is still listed, never both and never twice. */
  lemma {:induction false} CalledOnce(events: seq<Event>)
    ensures multiset(Run(events).calls) + multiset(Run(events).list) == multiset(Registered(events))
  {
    if events != [] {
      var e, before := events[|events| - 1], events[..|events| - 1];
      CalledOnce(before);
      match e
      case Register(r) =>
      case Finish(h) => Divided(Run(before).list, h);
    }
  }

  /** What a run owes: the registrations that no later finalization selected. */
  function Owed(events: seq<Event>): seq<Record> {
    if events == [] then [] else
    var e, before := events[|events| - 1], Owed(events[..|events| - 1]);
    match e
    case Register(r) => before + [r]
    case Finish(h) => Others(before, h)
  }

  /** Any finalization, after any run, calls the selected registrations that are still owed,
      the latest first, and leaves the others in the same order. */
  lemma {:induction false} LatestFirst(events: seq<Event>, handle: nat)
    ensures var s, t := Run(events), Run(events + [Finish(handle)]);
            && s.list == Reversed(Owed(events))
            && t.calls == s.calls + Reversed(Chosen(Owed(events), handle))
            && t.list == Reversed(Others(Owed(events), handle))
    decreases |events|
  {
    assert (events + [Finish(handle)])[..|events|] == events;
    if events != [] {
      var e, before := events[|events| - 1], events[..|events| - 1];
      LatestFirst(before, handle);
      match e
      case Register(r) => ReversedSnoc(Owed(before), r);
      case Finish(h) => ChosenReversed(Owed(before), h);
    }
    ChosenReversed(Owed(events), handle);
  }

  /** Event i registers a destructor that no later finalization selects, by its handle or by the null handle. */
  ghost predicate Pending(events: seq<Event>, i: nat) {
    && i < |events| && events[i].Register?
    && forall j :: i < j < |events| && events[j].Finish? ==> events[j].handle != 0 && events[j].handle != events[i].r.handle
  }

  ghost predicate RegisteredAt(events: seq<Event>, s: seq<Record>, at: seq<nat>) {
    |at| == |s| && forall k :: 0 <= k < |s| ==> at[k] < |events| && events[at[k]] == Register(s[k])
  }

  /** What is owed are the pending registrations, in their order. */
  lemma {:induction false} OwedAt(events: seq<Event>) returns (at: seq<nat>)
    ensures RegisteredAt(events, Owed(events), at) && forall j, k :: 0 <= j < k < |at| ==> at[j] < at[k]
    ensures forall i: nat :: i in at <==> Pending(events, i)
    decreases |events|
  {
    hide Pending, RegisteredAt, PickedAt, Others, Chosen, Owed;
    at := [];
    OwedStep(events);
    if events == [] {
      NothingPending(events);
    } else {
      var n := |events| - 1;
      var before := events[..n];
      var was := OwedAt(before);
      if events[n].Register? {
        at := was + [n];
        OneMore(events, Owed(before), was);
        PendingMore(events);
      } else {
        var picked, rest := DividedAt(Owed(before), events[n].handle);
        at := Through(events, Owed(before), was, Others(Owed(before), events[n].handle), rest);
        PendingAfter(events, was, rest, at);
      }
    }
  }

  lemma OwedStep(events: seq<Event>)
    ensures events == [] ==> Owed(events) == []
    ensures events != [] ==>
            var e, before := events[|events| - 1], Owed(events[..|events| - 1]);
            Owed(events) == if e.Register? then before + [e.r] else Others(before, e.handle)
  {
  }

  lemma NothingPending(events: seq<Event>)
    requires events == []
    ensures RegisteredAt(events, [], []) && forall i: nat :: !Pending(events, i)
  {
  }

  lemma OneMore(events: seq<Event>, s: seq<Record>, was: seq<nat>)
    requires events != [] && events[|events| - 1].Register? && RegisteredAt(events[..|events| - 1], s, was)
    ensures RegisteredAt(events, s + [events[|events| - 1].r], was + [|events| - 1])
    ensures forall k :: 0 <= k < |was| ==> was[k] < |events| - 1
  {
  }

  /** Positions of positions. */
  lemma Through(events: seq<Event>, s: seq<Record>, was: seq<nat>, t: seq<Record>, rest: seq<nat>) returns (at: seq<nat>)
    requires events != [] && RegisteredAt(events[..|events| - 1], s, was) && PickedAt(s, t, rest)
    requires forall j, k :: 0 <= j < k < |was| ==> was[j] < was[k]
    ensures RegisteredAt(events, t, at) && forall j, k :: 0 <= j < k < |at| ==> at[j] < at[k]
    ensures |was| == |s| && |at| == |rest| && forall k :: 0 <= k < |rest| ==> rest[k] < |was| && at[k] == was[rest[k]]
  {
    at := seq(|rest|, k requires 0 <= k < |rest| => was[rest[k]]);
  }

  lemma PendingMore(events: seq<Event>)
    requires events != [] && events[|events| - 1].Register?
    ensures forall i: nat :: Pending(events, i) <==> Pending(events[..|events| - 1], i) || i == |events| - 1
  {
  }

  lemma PendingAfter(events: seq<Event>, was: seq<nat>, rest: seq<nat>, at: seq<nat>)
    requires events != [] && events[|events| - 1].Finish?
    requires var before, h := events[..|events| - 1], events[|events| - 1].handle;
             && RegisteredAt(before, Owed(before), was) && (forall i: nat :: i in was <==> Pending(before, i))
             && |at| == |rest| && (forall k :: 0 <= k < |rest| ==> rest[k] < |was| && at[k] == was[rest[k]])
             && forall i: nat :: i in rest <==> i < |was| && h != 0 && Owed(before)[i].handle != h
    ensures forall i: nat :: i in at <==> Pending(events, i)
  {
    hide Owed;
    var before, h := events[..|events| - 1], events[|events| - 1].handle;
    forall i: nat
      ensures i in at <==> Pending(events, i)
    {
      assert Pending(events, i) <==> Pending(before, i) && h != 0 && h != events[i].r.handle;
      if Pending(events, i) {
        var k :| 0 <= k < |was| && was[k] == i;
        assert k in rest;
        var j :| 0 <= j < |rest| && rest[j] == k;
        assert at[j] == i;
      }
      if i in at {
        var j :| 0 <= j < |at| && at[j] == i;
        assert rest[j] in rest && was[rest[j]] in was;
      }
    }
  }

  lemma {:induction false} ReversedAt(s: seq<Record>, k: nat)
    requires k < |s|
    ensures Reversed(s)[k] == s[|s| - 1 - k]
  {
    if k < |s| - 1 { ReversedAt(s[1..], k); }
  }

  /** The events that `at` picks out of those that `was` names, from the last to the first. */
  function Back(was: seq<nat>, at: seq<nat>): (r: seq<nat>)
    requires forall k :: 0 <= k < |at| ==> at[k] < |was|
    ensures |r| == |at| && forall k :: 0 <= k < |at| ==> r[k] == was[at[|at| - 1 - k]]
  {
    seq(|at|, k requires 0 <= k < |at| => was[at[|at| - 1 - k]])
  }

  lemma BackAt(events: seq<Event>, s: seq<Record>, was: seq<nat>, t: seq<Record>, at: seq<nat>)
    requires RegisteredAt(events, s, was) && PickedAt(s, t, at) && forall j, k :: 0 <= j < k < |was| ==> was[j] < was[k]
    ensures forall k :: 0 <= k < |at| ==> at[k] < |was|
    ensures var r := Back(was, at);
            RegisteredAt(events, Reversed(t), r) && forall j, k :: 0 <= j < k < |r| ==> r[j] > r[k]
    ensures forall i: nat :: i in Back(was, at) <==> exists k: nat :: k in at && k < |was| && was[k] == i
  {
    var r := Back(was, at);
    forall k | 0 <= k < |t| ensures Reversed(t)[k] == t[|t| - 1 - k] { ReversedAt(t, k); }
    forall i: nat
      ensures i in r <==> exists k: nat :: k in at && k < |was| && was[k] == i
    {
      if i in r {
        var j :| 0 <= j < |r| && r[j] == i;
        assert at[|at| - 1 - j] in at;
      }
      if k: nat :| k in at && k < |was| && was[k] == i {
        var j :| 0 <= j < |at| && at[j] == k;
        assert r[|at| - 1 - j] == i;
      }
    }
  }

  /** A finalization after any run, event by event: it calls exactly the pending registrations with its handle, or
      all of them for the null handle, and leaves the other pending ones listed; both the latest first. */
  lemma FinalizeRun(events: seq<Event>, handle: nat) returns (called: seq<nat>, left: seq<nat>)
    ensures var s, t := Run(events), Run(events + [Finish(handle)]);
            && |t.calls| >= |s.calls| && t.calls[..|s.calls|] == s.calls
            && RegisteredAt(events, t.calls[|s.calls|..], called) && RegisteredAt(events, t.list, left)
    ensures forall j, k :: 0 <= j < k < |called| ==> called[j] > called[k]
    ensures forall j, k :: 0 <= j < k < |left| ==> left[j] > left[k]
    ensures forall i: nat :: i in called <==> Pending(events, i) && (handle == 0 || events[i].r.handle == handle)
    ensures forall i: nat :: i in left <==> Pending(events, i) && handle != 0 && events[i].r.handle != handle
  {
    hide Owed, Chosen, Others, Run, Reversed, Pending;
    LatestFirst(events, handle);
    var owed := Owed(events);
    var was := OwedAt(events);
    var at, rest := DividedAt(owed, handle);
    BackAt(events, owed, was, Chosen(owed, handle), at);
    BackAt(events, owed, was, Others(owed, handle), rest);
    called, left := Back(was, at), Back(was, rest);
    PendingAt(events, owed, was);
  }

  lemma PendingAt(events: seq<Event>, s: seq<Record>, was: seq<nat>)
    requires RegisteredAt(events, s, was)
    ensures forall k :: 0 <= k < |was| ==> was[k] in was && was[k] < |events| && events[was[k]].Register? && events[was[k]].r == s[k]
  {
  }

  /** After a finalization of everything nothing is owed and every registration was called exactly once. */
  lemma AllCalled(events: seq<Event>)
    ensures Run(events + [Finish(0)]).list == []
    ensures multiset(Run(events + [Finish(0)]).calls) == multiset(Registered(events))
  {
    var more := events + [Finish(0)];
    assert more[..|events|] == events;
    CalledOnce(more);
    Divided(Run(events).list, 0);
    if Run(more).list != [] {
      assert Run(more).list[0] in Others(Run(events).list, 0);
    }
  }

  lemma {:induction false} Untouched(s: seq<Record>, handle: nat)
    requires forall i :: 0 <= i < |s| ==> !Selected(s[i], handle)
    ensures Chosen(s, handle) == [] && Others(s, handle) == s
  {
    if s != [] {
      Untouched(s[1..], handle);
    }
  }

  /** A second finalization with the same handle finds nothing to do. */
  lemma FinalizeTwice(events: seq<Event>, handle: nat)
    ensures Run(events + [Finish(handle)] + [Finish(handle)]) == Run(events + [Finish(handle)])
  {
    var once := events + [Finish(handle)];
    var s := Run(once);
    assert once[..|events|] == events && (once + [Finish(handle)])[..|once|] == once;
    Divided(Run(events).list, handle);
    forall i | 0 <= i < |s.list| ensures !Selected(s.list[i], handle) {
      assert s.list[i] in Others(Run(events).list, handle);
    }
    Untouched(s.list, handle);
  }
}
