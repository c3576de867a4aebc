/** Circular intrusive lists. A node is named by its index in an arena, which
    stands for the address of a ListHead; the two links of node x are prev[x]
    and next[x]. The ghost field rings gives the family of circles that the
    links form, each read from its sentinel in next order. */
module ListLinks {

  /** s without its element at i. */
  function Without<T>(s: seq<T>, i: nat): (r: seq<T>)
    requires i < |s|
  {
    s[..i] + s[i + 1..]
  }

  /** s with x put in at position i. */
  function Inserted<T>(s: seq<T>, i: nat, x: T): (r: seq<T>)
    requires i <= |s|
  {
    s[..i] + [x] + s[i..]
  }

  ghost predicate Distinct<T>(s: seq<T>) {
    forall i, j :: 0 <= i < j < |s| ==> s[i] != s[j]
  }

  /** Position after i on a circle of n nodes. */
  function After(i: nat, n: nat): nat { if i + 1 < n then i + 1 else 0 }

  /** The links p (prev) and n (next) join the nodes of s into one circle. */
  ghost predicate Circle(p: seq<nat>, n: seq<nat>, s: seq<nat>)
    requires |p| == |n|
  {
    && s != [] && Distinct(s)
    && (forall i :: 0 <= i < |s| ==> s[i] < |p|)
    && (forall i {:trigger n[s[i]]} :: 0 <= i < |s| ==> n[s[i]] == s[After(i, |s|)] && p[s[After(i, |s|)]] == s[i])
  }

  /** Disjoint circles. */
  ghost predicate Family(p: seq<nat>, n: seq<nat>, rings: seq<seq<nat>>)
    requires |p| == |n|
  {
    && (forall r :: 0 <= r < |rings| ==> Circle(p, n, rings[r]))
    && (forall r, t, x {:trigger x in rings[r], x in rings[t]} :: 0 <= r < t < |rings| && x in rings[r] ==> x !in rings[t])
  }

  /** Place in s of the node at place j after an insertion at i + 1. */
  lemma InsertedAt(s: seq<nat>, i: nat, x: nat, j: nat)
    requires i < |s| && j <= |s| && x !in s && Distinct(s)
    ensures var t := Inserted(s, i + 1, x);
            && t[j] == (if j <= i then s[j] else if j == i + 1 then x else s[j - 1])
            && (t[j] == x <==> j == i + 1) && (t[j] == s[i] <==> j == i)
            && (t[j] == s[After(i, |s|)] <==> j == if i + 1 == |s| then 0 else i + 2)
  {
  }

  lemma InsertDistinct(s: seq<nat>, i: nat, x: nat)
    requires i < |s| && x !in s && Distinct(s)
    ensures Distinct(Inserted(s, i + 1, x))
  {
  }

  /** One step along the circle after a new node was linked between s[i] and its successor. */
  lemma InsertStep(p: seq<nat>, n: seq<nat>, s: seq<nat>, i: nat, x: nat, j: nat)
    requires |p| == |n| && Circle(p, n, s) && i < |s| && x < |p| && x !in s && j <= |s|
    ensures var after, t := s[After(i, |s|)], Inserted(s, i + 1, x);
            && n[x := after][s[i] := x][t[j]] == t[After(j, |t|)]
            && p[after := x][x := s[i]][t[After(j, |t|)]] == t[j]
  {
    var t := Inserted(s, i + 1, x);
    InsertedAt(s, i, x, j);
    InsertedAt(s, i, x, After(j, |t|));
    if j != i && j != i + 1 {
      var k := if j < i then j else j - 1;
      assert n[s[k]] == s[After(k, |s|)] && p[s[After(k, |s|)]] == s[k];
    }
  }

  /** Linking a new node between s[i] and its successor. */
  lemma InsertCircle(p: seq<nat>, n: seq<nat>, s: seq<nat>, i: nat, x: nat)
    requires |p| == |n| && Circle(p, n, s) && i < |s| && x < |p| && x !in s
    ensures var after := s[After(i, |s|)];
            Circle(p[after := x][x := s[i]], n[x := after][s[i] := x], Inserted(s, i + 1, x))
  {
    var after := s[After(i, |s|)];
    var t := Inserted(s, i + 1, x);
    var p', n' := p[after := x][x := s[i]], n[x := after][s[i] := x];
    InsertDistinct(s, i, x);
    forall j | 0 <= j < |t|
      ensures n'[t[j]] == t[After(j, |t|)] && p'[t[After(j, |t|)]] == t[j]
    {
      InsertStep(p, n, s, i, x, j);
    }
  }

  /** One step along the circle after the node at i > 0 was unlinked. */
  lemma RemoveStep(p: seq<nat>, n: seq<nat>, s: seq<nat>, i: nat, j: nat)
    requires |p| == |n| && Circle(p, n, s) && 0 < i < |s| && j + 1 < |s|
    ensures var after, before, t := s[After(i, |s|)], s[i - 1], Without(s, i);
            && n[before := after][t[j]] == t[After(j, |t|)]
            && p[after := before][t[After(j, |t|)]] == t[j]
  {
    var after, before, t := s[After(i, |s|)], s[i - 1], Without(s, i);
    var k := if j < i then j else j + 1;
    assert t[j] == s[k] && n[s[k]] == s[After(k, |s|)];
    if j == i - 1 {
      assert t[After(j, |t|)] == after;
    } else {
      assert t[After(j, |t|)] == s[After(k, |s|)];
    }
  }

  /** Unlinking the node at i > 0. */
  lemma RemoveCircle(p: seq<nat>, n: seq<nat>, s: seq<nat>, i: nat)
    requires |p| == |n| && Circle(p, n, s) && 0 < i < |s|
    ensures n[s[i]] == s[After(i, |s|)] && p[s[i]] == s[i - 1]
    ensures Circle(p[s[After(i, |s|)] := s[i - 1]], n[s[i - 1] := s[After(i, |s|)]], Without(s, i))
  {
    assert n[s[i]] == s[After(i, |s|)] && n[s[i - 1]] == s[i];
    var t := Without(s, i);
    var p', n' := p[s[After(i, |s|)] := s[i - 1]], n[s[i - 1] := s[After(i, |s|)]];
    forall j | 0 <= j < |t|
      ensures n'[t[j]] == t[After(j, |t|)] && p'[t[After(j, |t|)]] == t[j]
    {
      RemoveStep(p, n, s, i, j);
    }
  }

  class Links {
    const size: nat
    const prev: array<nat>
    const next: array<nat>
    ghost var rings: seq<seq<nat>>

    ghost predicate Valid()
      reads this, prev, next
    {
      && prev != next && prev.Length == size && next.Length == size
      && Family(prev[..], next[..], rings)
    }

    /** Node x is on no circle. */
    ghost predicate Loose(x: nat)
      reads this
    {
      x < size && forall r :: 0 <= r < |rings| ==> x !in rings[r]
    }

    constructor (n: nat)
      ensures Valid() && size == n && rings == [] && fresh(prev) && fresh(next)
    {
      size := n;
      prev := new nat[n];
      next := new nat[n];
      rings := [];
    }

    /** Turn a loose node into the sentinel of a new empty list. */
    method HeadInit(head: nat)
      requires Valid() && Loose(head)
      modifies this`rings, prev, next
      ensures Valid() && rings == old(rings) + [[head]]
    {
      prev[head] := head;
      next[head] := head;
      rings := rings + [[head]];
      forall r | 0 <= r < |rings|
        ensures Circle(prev[..], next[..], rings[r])
      {
        if r < |old(rings)| {
          assert old(Circle(prev[..], next[..], rings[r]));
          assert forall i :: 0 <= i < |rings[r]| ==> rings[r][i] in rings[r] && old(next[..][rings[r][i]]) == next[..][rings[r][i]];
        }
      }
    }

    /** Link node right after entry, which is at place i of circle r. */
    method AddNext(entry: nat, node: nat, ghost r: nat, ghost i: nat)
      requires Valid() && Loose(node)
      requires r < |rings| && i < |rings[r]| && rings[r][i] == entry
      modifies this`rings, prev, next
      ensures Valid() && rings == old(rings)[r := Inserted(old(rings)[r], i + 1, node)]
    {
      ghost var p, n := prev[..], next[..];
      InsertCircle(p, n, rings[r], i, node);
      prev[next[entry]] := node;
      prev[node] := entry;
      next[node] := next[entry];
      next[entry] := node;
      Relinked(r, Inserted(rings[r], i + 1, node), p, n);
      rings := rings[r := Inserted(rings[r], i + 1, node)];
    }

    /** Link node right before entry; before a sentinel means at the tail. */
    method AddPrev(entry: nat, node: nat, ghost r: nat, ghost i: nat)
      requires Valid() && Loose(node)
      requires r < |rings| && i < |rings[r]| && rings[r][i] == entry
      modifies this`rings, prev, next
      ensures Valid()
      ensures rings == old(rings)[r := if i == 0 then old(rings)[r] + [node] else Inserted(old(rings)[r], i, node)]
    {
      ghost var p: seq<nat>, n: seq<nat>, s: seq<nat> := prev[..], next[..], rings[r];
      ghost var j := if i == 0 then |s| - 1 else i - 1;
      ghost var t := Inserted(s, j + 1, node);
      assert n[s[j]] == s[After(j, |s|)] && After(j, |s|) == i && p[entry] == s[j];
      next[prev[entry]] := node;
      prev[node] := prev[entry];
      next[node] := entry;
      prev[entry] := node;
      assert Circle(prev[..], next[..], t) by {
        InsertCircle(p, n, s, j, node);
        assert prev[..] == p[entry := node][node := s[j]];
        assert next[..] == n[node := entry][s[j] := node];
      }
      Relinked(r, t, p, n);
      rings := rings[r := t];
      assert i == 0 ==> t == s + [node];
    }

    /** Unlink node, which is at place i > 0 of circle r. Its own links are left as they were. */
    method Del(node: nat, ghost r: nat, ghost i: nat)
      requires Valid()
      requires r < |rings| && 0 < i < |rings[r]| && rings[r][i] == node
      modifies this`rings, prev, next
      ensures Valid() && rings == old(rings)[r := Without(old(rings)[r], i)]
      ensures Loose(node)
    {
      ghost var p, n := prev[..], next[..];
      RemoveCircle(p, n, rings[r], i);
      next[prev[node]] := next[node];
      prev[next[node]] := prev[node];
      Relinked(r, Without(rings[r], i), p, n);
      rings := rings[r := Without(rings[r], i)];
    }

    /** Circles other than r survive when only links of r, or of loose nodes, changed. */
    lemma Relinked(r: nat, s: seq<nat>, p: seq<nat>, n: seq<nat>)
      requires prev != next && prev.Length == next.Length == |p| == |n| == size && r < |rings|
      requires Family(p, n, rings)
      requires Circle(prev[..], next[..], s)
      requires forall x :: x in s ==> x in rings[r] || Loose(x)
      requires forall x :: 0 <= x < size && (prev[x] != p[x] || next[x] != n[x]) ==> x in rings[r] || Loose(x)
      ensures Family(prev[..], next[..], rings[r := s])
    {
      forall t | 0 <= t < |rings| && t != r
        ensures Circle(prev[..], next[..], rings[t])
      {
        assert Circle(p, n, rings[t]);
        assert forall i :: 0 <= i < |rings[t]| ==> rings[t][i] in rings[t] && rings[t][i] !in rings[r];
        assert forall i :: 0 <= i < |rings[t]| ==> n[rings[t][i]] == next[..][rings[t][i]];
      }
    }

    /** Is the list of sentinel head, which starts circle r, empty? */
    method Empty(head: nat, ghost r: nat) returns (e: bool)
      requires Valid() && r < |rings| && rings[r][0] == head
      ensures e <==> rings[r] == [head]
    {
      e := next[head] == head && prev[head] == head;
      assert Circle(prev[..], next[..], rings[r]);
      if |rings[r]| > 1 {
        assert next[..][rings[r][0]] == rings[r][1] != rings[r][0];
      }
    }
  }
}
