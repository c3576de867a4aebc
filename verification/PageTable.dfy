/** Four-level page tables in physical memory: the walk the processor makes, the
    tree the tables form, and what linking a table or writing a leaf does to
    every translation. A virtual page is named by its slot, the 36 bits of the
    address that the four indices take. */
module PageTables {
  import opened Bits
  import opened Options
  import opened Addresses

  /** Table frames of physical memory: frame address to 512 words. */
  type Memory = map<nat, seq<nat>>

  const ENTRIES: nat := 512
  const SLOTS: nat := 0x10_0000_0000
  /** PDE_ATTR_P | PDE_ATTR_RW */
  const PDE_DEFAULT: nat := 3

  function ZeroPage(): (z: seq<nat>)
    ensures |z| == ENTRIES && forall i :: 0 <= i < ENTRIES ==> z[i] == 0
  {
    seq(ENTRIES, i => 0)
  }

  /** Slot number without its lowest 9L bits. */
  function Prefix(s: nat, level: nat): nat {
    if level == 0 then s else Prefix(s, level - 1) / ENTRIES
  }

  /** Index into the table of a level, 1 being the lowest. */
  function Index(s: nat, level: nat): (i: nat)
    requires level >= 1
    ensures i < ENTRIES
  {
    Prefix(s, level - 1) % ENTRIES
  }

  /** Slot of a virtual address. */
  function Slot(va: nat): (s: nat)
    ensures s < SLOTS
  {
    va / PAGE_SIZE % SLOTS
  }

  function Target(entry: nat): nat { entry / PAGE_SIZE * PAGE_SIZE }

  /** The leaf word for slot s below table t, 0 where the walk finds nothing. Only a directory word
      with the present bit leads on. */
  function Walk(mem: Memory, t: nat, level: nat, s: nat): nat
    decreases level
  {
    if t !in mem || |mem[t]| != ENTRIES || level == 0 then 0
    else if level == 1 then mem[t][Index(s, 1)]
    else if mem[t][Index(s, level)] % 2 == 0 then 0
    else Walk(mem, Target(mem[t][Index(s, level)]), level - 1, s)
  }

  /** What the processor finds for a virtual page: its frame, and whether it may be written. */
  datatype Access = Access(frame: nat, writable: bool)

  /** The processor's walk below table t: bit 0 of a word says present, bit 1 writable, at every level,
      and bit 7 of a directory word names a large page instead of a table, of which there are none. */
  function Reach(mem: Memory, t: nat, level: nat, s: nat): Option<Access>
    decreases level
  {
    if t !in mem || |mem[t]| != ENTRIES || level == 0 then None else
    var w := mem[t][Index(s, level)];
    if w % 2 == 0 then None
    else if level == 1 then Some(Access(Target(w), w / 2 % 2 == 1))
    else if w / 128 % 2 == 1 then None
    else match Reach(mem, Target(w), level - 1, s)
      case None => None
      case Some(a) => Some(Access(a.frame, a.writable && w / 2 % 2 == 1))
  }

  /** What a leaf word gives when every directory word above it is present and writable. */
  function Leaf(w: nat): Option<Access> {
    if w % 2 == 1 then Some(Access(w / 4096 * 4096, w / 2 % 2 == 1)) else None
  }

  /** A frame with attributes in the low bits of its word. */
  lemma LeafOf(pa: nat, attr: nat)
    requires pa % 4096 == 0 && attr < 4096
    ensures Leaf(pa + attr) == if attr % 2 == 1 then Some(Access(pa, attr / 2 % 2 == 1)) else None
  {
    LowBits(pa / 4096, attr);
  }

  lemma LowBits(q: nat, attr: nat)
    requires attr < 4096
    ensures (4096 * q + attr) / 4096 == q && (4096 * q + attr) % 2 == attr % 2 && (4096 * q + attr) / 2 % 2 == attr / 2 % 2
  {
    var h := attr / 2;
    assert (4096 * q + attr) / 2 == 2048 * q + h;
    DivModUnique(2048 * q + h, 2, 1024 * q + h / 2, h % 2);
  }

  /** One level of either walk. */
  lemma WalkLevel(mem: Memory, t: nat, level: nat, s: nat)
    requires t in mem && |mem[t]| == ENTRIES && level > 0
    ensures var w := mem[t][Index(s, level)];
            && Walk(mem, t, level, s) == (if level == 1 then w else if w % 2 == 0 then 0 else Walk(mem, Target(w), level - 1, s))
            && (w % 4096 == 3 && level > 1 ==> Reach(mem, t, level, s) == Reach(mem, Target(w), level - 1, s))
            && (w == 0 || level == 1 ==> Reach(mem, t, level, s) == Leaf(w))
  {
    var w := mem[t][Index(s, level)];
    if w % 4096 == 3 { LowBits(w / 4096, 3); SeventhBit(w); }
  }

  lemma SeventhBit(w: nat)
    requires w % 4096 == 3
    ensures w / 128 % 2 == 0
  {
    var q := w / 4096;
    assert w == 4096 * q + 3;
    assert w / 128 == 32 * q;
  }

  /** A zeroed table leads nowhere. */
  lemma EmptyTable(mem: Memory, t: nat, level: nat, s: nat)
    requires t in mem && mem[t] == ZeroPage()
    ensures Walk(mem, t, level, s) == 0
  {
  }

  // -------------------------------------------------- the index macros

  function PteEntry(va: nat): nat { And(Shr(va, 12), 0x1FF) }
  function PmdEntry(va: nat): nat { And(Shr(va, 21), 0x1FF) }
  function PudEntry(va: nat): nat { And(Shr(va, 30), 0x1FF) }
  function PgdEntry(va: nat): nat { And(Shr(va, 39), 0x1FF) }

  lemma LowNine(a: nat)
    ensures And(a, 0x1FF) == a % ENTRIES
  {
    Pow2Values();
    AndLowMask(a, 9);
    HeadOfIsMod(a, 9);
  }

  lemma {:induction false} ShrAdd(a: nat, i: nat, j: nat)
    ensures Shr(a, i + j) == Shr(Shr(a, i), j)
    decreases i
  {
    if i > 0 { ShrAdd(a / 2, i - 1, j); }
  }

  /** Dropping high digits does not change the low digit. */
  lemma ModDigit(x: nat, m: nat)
    requires m > 0
    ensures x % (ENTRIES * m) / ENTRIES == x / ENTRIES % m
    ensures x % (ENTRIES * m) % ENTRIES == x % ENTRIES
  {
    var q, r := x / (ENTRIES * m), x % (ENTRIES * m);
    assert x == ENTRIES * (q * m) + r;
    DivModUnique(x, ENTRIES, q * m + r / ENTRIES, r % ENTRIES);
    DivModUnique(x / ENTRIES, m, q, r / ENTRIES);
  }

  /** Each macro takes nine bits of the page number. */
  lemma EntryDigits(va: nat)
    ensures var p := va / PAGE_SIZE;
            && PteEntry(va) == p % ENTRIES && PmdEntry(va) == p / ENTRIES % ENTRIES
            && PudEntry(va) == p / ENTRIES / ENTRIES % ENTRIES
            && PgdEntry(va) == p / ENTRIES / ENTRIES / ENTRIES % ENTRIES
  {
    hide And, Shr;
    var p := va / PAGE_SIZE;
    Pow2Values();
    ShrIsDiv(va, 12);
    ShrAdd(va, 12, 9);
    ShrIsDiv(p, 9);
    ShrAdd(va, 21, 9);
    ShrIsDiv(p / ENTRIES, 9);
    ShrAdd(va, 30, 9);
    ShrIsDiv(p / ENTRIES / ENTRIES, 9);
    LowNine(p);
    LowNine(p / ENTRIES);
    LowNine(p / ENTRIES / ENTRIES);
    LowNine(p / ENTRIES / ENTRIES / ENTRIES);
  }

  /** So do the indices of the slot. */
  lemma SlotDigits(p: nat)
    ensures var s := p % SLOTS;
            && Index(s, 1) == p % ENTRIES && Index(s, 2) == p / ENTRIES % ENTRIES
            && Index(s, 3) == p / ENTRIES / ENTRIES % ENTRIES
            && Index(s, 4) == p / ENTRIES / ENTRIES / ENTRIES % ENTRIES
  {
    hide Prefix;
    var s := p % SLOTS;
    var q1 := p / ENTRIES;
    var q2 := q1 / ENTRIES;
    PrefixZero(s);
    PrefixStep(s, 0);
    PrefixStep(s, 1);
    PrefixStep(s, 2);
    ModDigit(p, 0x800_0000);
    ModDigit(q1, 0x4_0000);
    ModDigit(q2, ENTRIES);
    assert Prefix(s, 1) == q1 % 0x800_0000;
    assert Prefix(s, 2) == q2 % 0x4_0000;
    assert Prefix(s, 3) == q2 / ENTRIES % ENTRIES;
  }

  /** The macros pick the indices of the address's slot. */
  lemma EntryMacros(va: nat)
    ensures PteEntry(va) == Index(Slot(va), 1) && PmdEntry(va) == Index(Slot(va), 2)
    ensures PudEntry(va) == Index(Slot(va), 3) && PgdEntry(va) == Index(Slot(va), 4)
  {
    hide PteEntry, PmdEntry, PudEntry, PgdEntry, Index;
    EntryDigits(va);
    SlotDigits(va / PAGE_SIZE);
  }

  lemma PrefixZero(s: nat)
    ensures Prefix(s, 0) == s
  {
  }

  lemma PrefixStep(s: nat, level: nat)
    ensures Prefix(s, level + 1) == Prefix(s, level) / ENTRIES
    ensures Prefix(s, level) == Prefix(s, level + 1) * ENTRIES + Index(s, level + 1)
  {
  }

  lemma PrefixTop(s: nat)
    requires s < SLOTS
    ensures Prefix(s, 4) == 0
  {
    PrefixStep(s, 0);
    PrefixStep(s, 1);
    PrefixStep(s, 2);
    PrefixStep(s, 3);
  }

  // ------------------------------------------------------------ the tree

  /** Place of a table: its level, the slot prefix it serves, and the table above it. */
  datatype Label = Label(level: nat, prefix: nat, parent: nat)

  ghost predicate TableOk(mem: Memory, labels: map<nat, Label>, t: nat)
    requires t in labels
  {
    var l := labels[t];
    && t in mem && |mem[t]| == ENTRIES && t % PAGE_SIZE == 0 && 1 <= l.level <= 4
    && (forall i :: 0 <= i < ENTRIES ==> mem[t][i] < WORD_LIMIT)
    && (l.level > 1 ==> forall i :: 0 <= i < ENTRIES && mem[t][i] != 0 ==>
          mem[t][i] % 4096 == 3 && Target(mem[t][i]) in labels && labels[Target(mem[t][i])] == Label(l.level - 1, l.prefix * ENTRIES + i, t))
  }

  ghost predicate LinkedFromParent(mem: Memory, labels: map<nat, Label>, t: nat)
    requires t in labels
  {
    var l := labels[t];
    && l.parent in labels && labels[l.parent].level == l.level + 1 && labels[l.parent].prefix == l.prefix / ENTRIES
    && l.parent in mem && |mem[l.parent]| == ENTRIES
    && mem[l.parent][l.prefix % ENTRIES] != 0 && Target(mem[l.parent][l.prefix % ENTRIES]) == t
  }

  /** The tables are a tree under root: each is reached from one entry only. */
  ghost predicate Tree(mem: Memory, labels: map<nat, Label>, root: nat) {
    && root in labels && labels[root].level == 4 && labels[root].prefix == 0
    && (forall t {:trigger TableOk(mem, labels, t)} :: t in labels ==> TableOk(mem, labels, t))
    && (forall t {:trigger LinkedFromParent(mem, labels, t)} :: t in labels && t != root ==> LinkedFromParent(mem, labels, t))
    && (forall t :: t in labels && labels[t].level == 4 ==> t == root)
  }

  /** No two tables serve the same place. */
  lemma {:induction false} NoSharing(mem: Memory, labels: map<nat, Label>, root: nat, t: nat, u: nat)
    requires Tree(mem, labels, root) && t in labels && u in labels
    requires labels[t].level == labels[u].level && labels[t].prefix == labels[u].prefix
    ensures t == u
    decreases 4 - labels[t].level
  {
    assert TableOk(mem, labels, t) && TableOk(mem, labels, u);
    if labels[t].level < 4 {
      assert LinkedFromParent(mem, labels, t) && LinkedFromParent(mem, labels, u);
      NoSharing(mem, labels, root, labels[t].parent, labels[u].parent);
    }
  }

  /** Table t is on the walk of slot s at its level. */
  ghost predicate OnWalk(labels: map<nat, Label>, t: nat, level: nat, s: nat) {
    t in labels && labels[t].level == level && labels[t].prefix == Prefix(s, level)
  }

  lemma WalkStep(mem: Memory, labels: map<nat, Label>, root: nat, t: nat, level: nat, s: nat)
    requires Tree(mem, labels, root) && OnWalk(labels, t, level, s) && level > 1
    requires t in mem && |mem[t]| == ENTRIES && mem[t][Index(s, level)] != 0
    ensures OnWalk(labels, Target(mem[t][Index(s, level)]), level - 1, s)
  {
    assert TableOk(mem, labels, t);
    PrefixStep(s, level - 1);
  }

  /** In the tree the processor's walk ends at the leaf word, and no directory word on the way takes
      the access away. */
  lemma {:induction false} ReachIsLeaf(mem: Memory, labels: map<nat, Label>, root: nat, t: nat, level: nat, s: nat)
    requires Tree(mem, labels, root) && OnWalk(labels, t, level, s)
    ensures Reach(mem, t, level, s) == Leaf(Walk(mem, t, level, s))
    decreases level
  {
    hide Walk, Reach, Leaf, Index, Target;
    assert TableOk(mem, labels, t);
    WalkLevel(mem, t, level, s);
    if level > 1 && mem[t][Index(s, level)] != 0 {
      WalkStep(mem, labels, root, t, level, s);
      ReachIsLeaf(mem, labels, root, Target(mem[t][Index(s, level)]), level - 1, s);
    }
  }

  function Stored(mem: Memory, t: nat, i: nat, w: nat): (r: Memory)
    requires t in mem && i < |mem[t]|
  {
    var row: seq<nat> := mem[t];
    mem[t := row[i := w]]
  }

  /** A walk that has a table at some level passes through it. */
  lemma {:induction false} WalkThrough(mem: Memory, labels: map<nat, Label>, root: nat, t: nat, level: nat, s: nat)
    requires Tree(mem, labels, root) && OnWalk(labels, t, level, s) && s < SLOTS
    ensures Walk(mem, root, 4, s) == Walk(mem, t, level, s)
    decreases 4 - level
  {
    assert TableOk(mem, labels, t);
    if level < 4 {
      assert LinkedFromParent(mem, labels, t);
      PrefixStep(s, level);
      WalkThrough(mem, labels, root, labels[t].parent, level + 1, s);
      assert TableOk(mem, labels, labels[t].parent);
    }
  }

  /** Hanging a zeroed fresh frame under an empty entry changes no translation. */
  function Hung(mem: Memory, t: nat, i: nat, page: nat): Memory
    requires t in mem && i < |mem[t]| && t != page
  {
    Stored(mem[page := ZeroPage()], t, i, page + PDE_DEFAULT)
  }

  lemma HangKeepsTree(mem: Memory, labels: map<nat, Label>, root: nat, t: nat, i: nat, page: nat)
    requires Tree(mem, labels, root) && t in labels && labels[t].level > 1
    requires t in mem && |mem[t]| == ENTRIES && i < ENTRIES && mem[t][i] == 0
    requires page !in labels && page % PAGE_SIZE == 0 && page + PAGE_SIZE <= WORD_LIMIT
    ensures Tree(Hung(mem, t, i, page), labels[page := Label(labels[t].level - 1, labels[t].prefix * ENTRIES + i, t)], root)
    ensures Target(page + PDE_DEFAULT) == page
  {
    var mem', l := Hung(mem, t, i, page), Label(labels[t].level - 1, labels[t].prefix * ENTRIES + i, t);
    var labels' := labels[page := l];
    assert Target(page + PDE_DEFAULT) == page;
    assert TableOk(mem, labels, t);
    forall u | u in labels'
      ensures TableOk(mem', labels', u)
    {
      if u in labels { assert TableOk(mem, labels, u); }
    }
    forall u | u in labels' && u != root
      ensures LinkedFromParent(mem', labels', u)
    {
      if u in labels {
        assert LinkedFromParent(mem, labels, u) && TableOk(mem, labels, u);
      } else {
        assert l.prefix / ENTRIES == labels[t].prefix && l.prefix % ENTRIES == i;
      }
    }
  }

  lemma FreshTarget(page: nat)
    requires page % PAGE_SIZE == 0
    ensures Target(page + PDE_DEFAULT) == page && (page + PDE_DEFAULT) % 2 == 1
  {
  }

  lemma {:induction false} HangKeepsWalk(mem: Memory, labels: map<nat, Label>, root: nat, t: nat, i: nat, page: nat, u: nat, level: nat, s: nat)
    requires Tree(mem, labels, root) && t in labels && labels[t].level > 1
    requires t in mem && |mem[t]| == ENTRIES && i < ENTRIES && mem[t][i] == 0
    requires page !in labels && page % PAGE_SIZE == 0
    requires OnWalk(labels, u, level, s)
    ensures Walk(Hung(mem, t, i, page), u, level, s) == Walk(mem, u, level, s)
    decreases level
  {
    hide *;
    OnWalkLabel(labels, u, level, s);
    TableHas(mem, labels, root, u);
    TableHas(mem, labels, root, t);
    var mem', j := Hung(mem, t, i, page), Index(s, level);
    HungWord(mem, t, i, page, u, j);
    WalkLevel(mem, u, level, s);
    WalkLevel(mem', u, level, s);
    if level > 1 {
      if u == t && j == i {
        FreshTarget(page);
        EmptyTable(mem', page, level - 1, s);
      } else if mem[u][j] != 0 {
        WalkStep(mem, labels, root, u, level, s);
        HangKeepsWalk(mem, labels, root, t, i, page, Target(mem[u][j]), level - 1, s);
      }
    }
  }

  lemma OnWalkLabel(labels: map<nat, Label>, t: nat, level: nat, s: nat)
    requires OnWalk(labels, t, level, s)
    ensures t in labels && labels[t].level == level
  {
  }

  lemma TableHas(mem: Memory, labels: map<nat, Label>, root: nat, t: nat)
    requires Tree(mem, labels, root) && t in labels
    ensures t in mem && |mem[t]| == ENTRIES && 1 <= labels[t].level <= 4
  {
    assert TableOk(mem, labels, t);
  }

  lemma HungWord(mem: Memory, t: nat, i: nat, page: nat, u: nat, j: nat)
    requires t in mem && |mem[t]| == ENTRIES && i < ENTRIES && u in mem && |mem[u]| == ENTRIES && j < ENTRIES && page != t && page != u
    ensures var mem' := Hung(mem, t, i, page);
            && page in mem' && mem'[page] == ZeroPage() && u in mem' && |mem'[u]| == ENTRIES
            && mem'[u][j] == if u == t && j == i then page + PDE_DEFAULT else mem[u][j]
  {
  }

  /** Writing to a frame that is no table changes nothing. */
  lemma {:induction false} OutsideKeepsWalk(mem: Memory, labels: map<nat, Label>, root: nat, page: nat, z: seq<nat>, u: nat, level: nat, s: nat)
    requires Tree(mem, labels, root) && page !in labels && OnWalk(labels, u, level, s)
    ensures Walk(mem[page := z], u, level, s) == Walk(mem, u, level, s)
    decreases level
  {
    assert TableOk(mem, labels, u);
    if level > 1 && mem[u][Index(s, level)] != 0 {
      WalkStep(mem, labels, root, u, level, s);
      OutsideKeepsWalk(mem, labels, root, page, z, Target(mem[u][Index(s, level)]), level - 1, s);
    }
  }

  lemma OutsideKeeps(mem: Memory, labels: map<nat, Label>, root: nat, page: nat, z: seq<nat>)
    requires Tree(mem, labels, root) && page !in labels
    ensures Tree(mem[page := z], labels, root)
    ensures forall s: nat :: s < SLOTS ==> Walk(mem[page := z], root, 4, s) == Walk(mem, root, 4, s)
  {
    var mem' := mem[page := z];
    forall u | u in labels
      ensures TableOk(mem', labels, u)
    {
      assert TableOk(mem, labels, u);
    }
    forall u | u in labels && u != root
      ensures LinkedFromParent(mem', labels, u)
    {
      assert LinkedFromParent(mem, labels, u);
    }
    forall s: nat | s < SLOTS
      ensures Walk(mem', root, 4, s) == Walk(mem, root, 4, s)
    {
      PrefixTop(s);
      OutsideKeepsWalk(mem, labels, root, page, z, root, 4, s);
    }
  }

  /** Writing a leaf word changes that slot's translation and no other. */
  lemma LeafKeepsTree(mem: Memory, labels: map<nat, Label>, root: nat, t: nat, i: nat, w: nat)
    requires Tree(mem, labels, root) && t in labels && labels[t].level == 1
    requires t in mem && |mem[t]| == ENTRIES && i < ENTRIES && w < WORD_LIMIT
    ensures Tree(Stored(mem, t, i, w), labels, root)
  {
    var mem' := Stored(mem, t, i, w);
    forall u | u in labels
      ensures TableOk(mem', labels, u)
    {
      assert TableOk(mem, labels, u);
    }
    forall u | u in labels && u != root
      ensures LinkedFromParent(mem', labels, u)
    {
      assert LinkedFromParent(mem, labels, u) && TableOk(mem, labels, u);
    }
  }

  lemma {:induction false} LeafWalk(mem: Memory, labels: map<nat, Label>, root: nat, t: nat, i: nat, w: nat, u: nat, level: nat, s: nat)
    requires Tree(mem, labels, root) && t in labels && labels[t].level == 1 && OnWalk(labels, u, level, s)
    requires t in mem && |mem[t]| == ENTRIES && i < ENTRIES
    ensures level > 0 && (s != labels[t].prefix * ENTRIES + i ==> Walk(Stored(mem, t, i, w), u, level, s) == Walk(mem, u, level, s))
    decreases level
  {
    var mem' := Stored(mem, t, i, w);
    assert TableOk(mem, labels, u);
    if level == 1 {
      PrefixStep(s, 0);
    } else {
      assert u != t;
      if mem[u][Index(s, level)] != 0 {
        WalkStep(mem, labels, root, u, level, s);
        LeafWalk(mem, labels, root, t, i, w, Target(mem[u][Index(s, level)]), level - 1, s);
      }
    }
  }

  /** Writing word i of a lowest table sets the translation of the slot it serves, and of no other. */
  lemma LeafTranslates(mem: Memory, labels: map<nat, Label>, root: nat, t: nat, i: nat, w: nat)
    requires Tree(mem, labels, root) && t in labels && labels[t].level == 1
    requires t in mem && |mem[t]| == ENTRIES && i < ENTRIES && w < WORD_LIMIT
    ensures forall s: nat :: s < SLOTS ==>
      Walk(Stored(mem, t, i, w), root, 4, s) == if s == labels[t].prefix * ENTRIES + i then w else Walk(mem, root, 4, s)
  {
    var mem' := Stored(mem, t, i, w);
    LeafKeepsTree(mem, labels, root, t, i, w);
    forall s: nat | s < SLOTS
      ensures Walk(mem', root, 4, s) == if s == labels[t].prefix * ENTRIES + i then w else Walk(mem, root, 4, s)
    {
      PrefixTop(s);
      if s == labels[t].prefix * ENTRIES + i {
        PrefixStep(s, 0);
        WalkThrough(mem', labels, root, t, 1, s);
      } else {
        LeafWalk(mem, labels, root, t, i, w, root, 4, s);
      }
    }
  }

  /** Hanging an empty table changes no translation. */
  lemma HangTranslates(mem: Memory, labels: map<nat, Label>, root: nat, t: nat, i: nat, page: nat)
    requires Tree(mem, labels, root) && t in labels && labels[t].level > 1
    requires t in mem && |mem[t]| == ENTRIES && i < ENTRIES && mem[t][i] == 0
    requires page !in labels && page % PAGE_SIZE == 0
    ensures forall s: nat :: s < SLOTS ==> Walk(Hung(mem, t, i, page), root, 4, s) == Walk(mem, root, 4, s)
  {
    forall s: nat | s < SLOTS
      ensures Walk(Hung(mem, t, i, page), root, 4, s) == Walk(mem, root, 4, s)
    {
      PrefixTop(s);
      HangKeepsWalk(mem, labels, root, t, i, page, root, 4, s);
    }
  }
}
