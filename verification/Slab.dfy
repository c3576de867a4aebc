/** class KMemCache: objects of one size carved from blocks of the page pool.
    Free objects of the current block form a chain through their own first
    words. Locking is modelled in Locks.dfy. */
module Slab {
  import opened Bits
  import opened Options
  import opened ListLinks
  import opened Buddy
  import opened BuddyFree
  import opened BuddyAlloc
  import opened Addresses
  import opened PagePools

  // ----------------------------------------------------------- memory

  const WORD: nat := 8

  /** The eight bytes of the words at a and b do not overlap. */
  predicate Apart(a: nat, b: nat) { a + WORD <= b || b + WORD <= a }

  /** What is known of memory after a word was stored at a: words that overlap it are lost. */
  function Written(word: map<nat, nat>, a: nat, v: nat): (r: map<nat, nat>)
    ensures a in r && r[a] == v
    ensures forall b :: b in word && Apart(a, b) ==> b in r && r[b] == word[b]
    ensures forall b :: b in r && b != a ==> b in word && Apart(a, b)
  {
    (map b | b in word && Apart(a, b) :: word[b])[a := v]
  }

  /** Known words of memory, by the address of the first of their eight bytes. */
  class Ram {
    var word: map<nat, nat>

    constructor ()
    {
      word := map[];
    }

    method Store(a: nat, v: nat)
      modifies this
      ensures word == Written(old(word), a, v)
    {
      word := Written(word, a, v);
    }
  }

  // ------------------------------------------------------------- geometry

  /** The order that KMemCache::Init picks for an object size. */
  function CacheOrder(sz: nat): nat {
    Shr(sz, PAGE_SHIFT) + (if sz >= PAGE_SIZE then 1 else 0)
  }

  function PageObjNr(sz: nat): nat
    requires sz > 0
  {
    PAGE_SIZE * Pow2(CacheOrder(sz)) / sz
  }

  /** The order is 0 below a page and one more than the whole pages of the size from a page up. A block holds as
      many objects as fit its bytes, and more than one unless the size lies between half a page and a page. */
  lemma GeometryFits(sz: nat)
    requires sz > 0
    ensures CacheOrder(sz) == if sz < 4096 then 0 else sz / 4096 + 1
    ensures PageObjNr(sz) * sz <= 4096 * Pow2(CacheOrder(sz)) < (PageObjNr(sz) + 1) * sz && PageObjNr(sz) >= 1
    ensures PageObjNr(sz) >= 2 <==> !(2048 < sz < PAGE_SIZE)
  {
    hide Pow2, Shr;
    var q := sz / PAGE_SIZE;
    ShrTwelve(sz);
    Pow2Values();
    var bytes := PAGE_SIZE * Pow2(CacheOrder(sz));
    QuotientAtLeast(bytes, sz, 1);
    QuotientAtLeast(bytes, sz, 2);
    DivBack(bytes, sz);
    assert (PageObjNr(sz) + 1) * sz == PageObjNr(sz) * sz + sz;
    if sz >= PAGE_SIZE {
      Pow2Grows(q);
      Pow2Double(q);
    }
  }

  /** The sizes that kheap_pool_init sets up. */
  const KOBJ_DEFAULT_SIZE: seq<nat> := [16, 32, 64, 128, 192, 256, 512, 1024, 2048, 4096, 8192]

  /** Each default size gives several objects a block: one page holds 4096 bytes of them, for the two largest
      sizes four pages or eight. */
  lemma DefaultSizes(i: nat)
    requires i < |KOBJ_DEFAULT_SIZE|
    ensures PageObjNr(KOBJ_DEFAULT_SIZE[i]) == [256, 128, 64, 32, 21, 16, 8, 4, 2, 4, 4][i]
    ensures KOBJ_DEFAULT_SIZE[i] == [16, 32, 64, 128, 192, 256, 512, 1024, 2048, 4096, 8192][i]
  {
    hide PageObjNr, CacheOrder, Pow2;
    var sz := KOBJ_DEFAULT_SIZE[i];
    Pow2Values();
    GeometryFits(sz);
    NrOnly(PageObjNr(sz), [256, 128, 64, 32, 21, 16, 8, 4, 2, 4, 4][i], sz, 4096 * Pow2(CacheOrder(sz)));
  }

  /** Only one number of objects fills a block. */
  lemma NrOnly(n: nat, k: nat, sz: nat, bytes: nat)
    requires n * sz <= bytes < (n + 1) * sz && k * sz <= bytes < (k + 1) * sz
    ensures n == k
  {
    if n < k { MulMono(n + 1, k, sz); }
    if k < n { MulMono(k + 1, n, sz); }
  }

  lemma ShrTwelve(sz: nat)
    ensures Shr(sz, PAGE_SHIFT) == sz / PAGE_SIZE
  {
    Pow2Values();
    ShrIsDiv(sz, 12);
    HeadOfIsMod(sz, 12);
  }

  lemma {:induction false} Pow2Grows(q: nat)
    ensures Pow2(q) >= q + 1
  {
    if q > 0 { Pow2Grows(q - 1); }
  }

  lemma QuotientAtLeast(a: nat, b: nat, q: nat)
    requires b > 0
    ensures a / b >= q <==> a >= q * b
  {
    var e := a / b - q;
    assert a == a / b * b + a % b;
    assert a - q * b == e * b + a % b;
    MulSign(e, b);
  }

  // -------------------------------------------------------------- objects

  function ObjAddr(g: nat, sz: nat, i: nat): nat { PageToVirt(g) + i * sz }

  /** Objects of blocks that do not overlap have disjoint bytes, and so have two objects of one block. */
  lemma ObjectsDisjoint(g: nat, i: nat, h: nat, j: nat, sz: nat, nr: nat, k: nat)
    requires nr * sz <= PAGE_SIZE * Pow2(k) && i < nr && j < nr
    requires g == h ==> i != j
    requires g != h ==> g + Pow2(k) <= h || h + Pow2(k) <= g
    ensures ObjAddr(g, sz, i) + sz <= ObjAddr(h, sz, j) || ObjAddr(h, sz, j) + sz <= ObjAddr(g, sz, i)
  {
    ObjectInside(g, i, sz, nr, k);
    ObjectInside(h, j, sz, nr, k);
    if g == h {
      if i < j { StepUp(i, j, sz); } else { StepUp(j, i, sz); }
    }
  }

  lemma StepUp(i: nat, j: nat, sz: nat)
    requires i < j
    ensures i * sz + sz <= j * sz
  {
    assert (j - i - 1) * sz >= 0;
    assert j * sz == i * sz + sz + (j - i - 1) * sz;
  }

  /** Storing the next object's link leaves an object's own link alone exactly if objects have
      room for a word: slicing into smaller objects would break its own chain. */
  lemma LinkSurvives(word: map<nat, nat>, g: nat, sz: nat, i: nat, v: nat)
    requires sz > 0 && ObjAddr(g, sz, i) in word
    ensures ObjAddr(g, sz, i) in Written(word, ObjAddr(g, sz, i + 1), v) <==> sz >= WORD
  {
    assert (i + 1) * sz == i * sz + sz;
  }

  /** An object lies inside its block. */
  lemma ObjectInside(g: nat, i: nat, sz: nat, nr: nat, k: nat)
    requires nr * sz <= PAGE_SIZE * Pow2(k) && i < nr
    ensures PageToVirt(g) <= ObjAddr(g, sz, i) && ObjAddr(g, sz, i) + sz <= PageToVirt(g) + PAGE_SIZE * Pow2(k)
    ensures ObjAddr(g, sz, i) + sz <= PageToVirt(g + Pow2(k))
  {
    hide PageToVirt, Pow2;
    StepUp(i, nr, sz);
    BlockEnd(g, Pow2(k));
  }

  lemma BlockEnd(g: nat, n: nat)
    ensures PageToVirt(g + n) == PageToVirt(g) + PAGE_SIZE * n
  {
  }

  /** head points to a null-terminated chain through the objects of block g listed in c. */
  ghost predicate ChainAt(word: map<nat, nat>, head: nat, g: nat, sz: nat, c: seq<nat>)
    decreases |c|
  {
    if c == [] then head == 0
    else head == ObjAddr(g, sz, c[0]) && head in word && ChainAt(word, word[head], g, sz, c[1..])
  }

  /** What points to a chain. */
  function ChainHead(g: nat, sz: nat, c: seq<nat>): nat { if c == [] then 0 else ObjAddr(g, sz, c[0]) }

  lemma ChainFirst(word: map<nat, nat>, head: nat, g: nat, sz: nat, c: seq<nat>)
    requires ChainAt(word, head, g, sz, c)
    ensures head == ChainHead(g, sz, c)
    ensures c != [] ==> head in word && word[head] == ChainHead(g, sz, c[1..])
  {
  }

  lemma {:induction false} ChainFrame(word: map<nat, nat>, word': map<nat, nat>, head: nat, g: nat, sz: nat, c: seq<nat>)
    requires ChainAt(word, head, g, sz, c)
    requires forall i :: 0 <= i < |c| ==> var a := ObjAddr(g, sz, c[i]); a in word ==> a in word' && word'[a] == word[a]
    ensures ChainAt(word', head, g, sz, c)
    decreases |c|
  {
    if c != [] {
      assert forall i :: 0 <= i < |c[1..]| ==> c[1..][i] == c[i + 1];
      ChainFrame(word, word', word[head], g, sz, c[1..]);
    }
  }

  /** The order in which slicing chains the objects: last first. */
  function Countdown(n: nat): (c: seq<nat>)
    ensures |c| == n && forall i :: 0 <= i < n ==> c[i] == n - 1 - i
  {
    if n == 0 then [] else [n - 1] + Countdown(n - 1)
  }

  // ---------------------------------------------------------- cache state

  /** Size, count and order of a cache, and the address that names it. */
  datatype Shape = Shape(self: nat, sz: nat, nr: nat, order: nat) {
    ghost predicate Ok() { self > 0 && sz >= WORD && nr >= 1 && nr * sz <= PAGE_SIZE * Pow2(order) }
  }

  /** live: for each block the cache owns, the objects handed out. */
  datatype Cache = Cache(current: Option<nat>, freelist: nat, full: seq<nat>, live: map<nat, set<nat>>, chain: seq<nat>)

  /** Block g belongs to the cache and its counters are right. */
  ghost predicate Owned(d: seq<Page>, m: set<nat>, s: Shape, live: map<nat, set<nat>>, g: nat)
    requires g in live
  {
    && IsBlock(d, m, g, s.order, false) && g < |d| && d[g].kc == s.self && d[g].refCount == 0
    && (forall i :: i in live[g] ==> i < s.nr)
    && |live[g]| + d[g].objNr == s.nr
  }

  ghost predicate OwnedBlocks(d: seq<Page>, m: set<nat>, s: Shape, live: map<nat, set<nat>>) {
    forall g {:trigger Owned(d, m, s, live, g)} :: g in live ==> Owned(d, m, s, live, g)
  }

  /** Full lists the blocks that are not current, once each, and with two or more objects a block none that is all free. */
  ghost predicate Listed(c: Cache, nr: nat) {
    && Distinct(c.full) && (forall g :: g in c.full <==> g in c.live && c.current != Some(g))
    && (nr >= 2 ==> forall g :: g in c.full ==> c.live[g] != {})
  }

  /** The accounting of a cache. */
  ghost predicate CacheInv(c: Cache, s: Shape, d: seq<Page>, m: set<nat>, word: map<nat, nat>) {
    && s.Ok() && OwnedBlocks(d, m, s, c.live) && Listed(c, s.nr)
    && (c.current.None? ==> c.chain == [] && c.freelist == 0)
    && (c.current.Some? ==> CurrentInv(c, s, d, word))
  }

  /** The chain of the current block holds exactly its free objects. */
  ghost predicate CurrentInv(c: Cache, s: Shape, d: seq<Page>, word: map<nat, nat>)
    requires c.current.Some?
  {
    var g := c.current.value;
    && g in c.live && g < |d| && |c.chain| == d[g].objNr && Distinct(c.chain)
    && (forall i :: i in c.chain ==> i < s.nr && i !in c.live[g])
    && ChainAt(word, c.freelist, g, s.sz, c.chain)
  }

  /** What is outside a cache's blocks does not concern it. */
  lemma CacheFrame(c: Cache, s: Shape, d: seq<Page>, m: set<nat>, word: map<nat, nat>, d': seq<Page>, word': map<nat, nat>)
    requires CacheInv(c, s, d, m, word) && |d'| == |d|
    requires forall g, i :: g in c.live && InRun(g, s.order, i) && i < |d| ==> d'[i] == d[i]
    requires forall g, i :: g in c.live && 0 <= i < s.nr && ObjAddr(g, s.sz, i) in word ==>
               ObjAddr(g, s.sz, i) in word' && word'[ObjAddr(g, s.sz, i)] == word[ObjAddr(g, s.sz, i)]
    ensures CacheInv(c, s, d', m, word')
  {
    forall g | g in c.live
      ensures Owned(d', m, s, c.live, g)
    {
      assert Owned(d, m, s, c.live, g) && InRun(g, s.order, g);
    }
    if c.current.Some? {
      var g := c.current.value;
      assert InRun(g, s.order, g);
      assert forall i :: 0 <= i < |c.chain| ==> c.chain[i] in c.chain;
      ChainFrame(word, word', c.freelist, g, s.sz, c.chain);
    }
  }

  /** Live objects of a cache never share a byte. */
  lemma LiveDisjoint(c: Cache, s: Shape, d: seq<Page>, m: set<nat>, word: map<nat, nat>, g: nat, i: nat, h: nat, j: nat)
    requires CacheInv(c, s, d, m, word)
    requires g in c.live && i in c.live[g] && h in c.live && j in c.live[h] && (g, i) != (h, j)
    ensures ObjAddr(g, s.sz, i) + s.sz <= ObjAddr(h, s.sz, j) || ObjAddr(h, s.sz, j) + s.sz <= ObjAddr(g, s.sz, i)
  {
    assert Owned(d, m, s, c.live, g) && Owned(d, m, s, c.live, h);
    if g != h { BlocksApart(d, m, g, h, s.order, false); }
    ObjectsDisjoint(g, i, h, j, s.sz, s.nr, s.order);
  }

  /** Two blocks of one order with different heads are apart. */
  lemma BlocksApart(d: seq<Page>, m: set<nat>, g: nat, h: nat, k: nat, free: bool)
    requires IsBlock(d, m, g, k, free) && IsBlock(d, m, h, k, free) && g != h
    ensures g + Pow2(k) <= h || h + Pow2(k) <= g
  {
    if g < h { AlignedGap(g, h, k); } else { AlignedGap(h, g, k); }
  }

  /** Whatever the holder of a live object does to its bytes, the cache stays in order: memory may
      change in every word that reaches into the object. */
  lemma ClientWriteKeeps(c: Cache, s: Shape, d: seq<Page>, m: set<nat>, word: map<nat, nat>, word': map<nat, nat>, g: nat, i: nat)
    requires CacheInv(c, s, d, m, word) && g in c.live && i in c.live[g]
    requires forall b :: b in word && (b + WORD <= ObjAddr(g, s.sz, i) || ObjAddr(g, s.sz, i) + s.sz <= b) ==>
               b in word' && word'[b] == word[b]
    ensures CacheInv(c, s, d, m, word')
  {
    hide IsBlock, Pow2, ObjAddr;
    assert Owned(d, m, s, c.live, g);
    if c.current.Some? {
      var h := c.current.value;
      assert Owned(d, m, s, c.live, h);
      if g != h { BlocksApart(d, m, g, h, s.order, false); }
      forall j | 0 <= j < |c.chain|
        ensures var b := ObjAddr(h, s.sz, c.chain[j]); b in word ==> b in word' && word'[b] == word[b]
      {
        assert c.chain[j] in c.chain;
        ObjectsDisjoint(g, i, h, c.chain[j], s.sz, s.nr, s.order);
      }
      ChainFrame(word, word', c.freelist, h, s.sz, c.chain);
    }
  }

  // ------------------------------------------------ operations on values

  /** The counts of a block that the cache owns. */
  lemma OwnedCounts(d: seq<Page>, m: set<nat>, s: Shape, live: map<nat, set<nat>>, g: nat)
    requires OwnedBlocks(d, m, s, live) && g in live
    ensures g < |d| && |live[g]| + d[g].objNr == s.nr && forall i :: i in live[g] ==> i < s.nr
  {
    assert Owned(d, m, s, live, g);
  }

  /** One block's count and handed-out objects change together, or the block leaves. */
  lemma Recounted(d: seq<Page>, m: set<nat>, s: Shape, live: map<nat, set<nat>>, live': map<nat, set<nat>>, g: nat, n: nat)
    requires OwnedBlocks(d, m, s, live) && g < |d|
    requires forall h :: h in live' ==> h in live && (h != g ==> live'[h] == live[h])
    requires g in live' ==> |live'[g]| + n == s.nr && forall i :: i in live'[g] ==> i < s.nr
    ensures OwnedBlocks(d[g := d[g].(objNr := n)], m, s, live')
  {
    hide IsBlock, Pow2;
    var d' := d[g := d[g].(objNr := n)];
    forall h | h in live'
      ensures Owned(d', m, s, live', h)
    {
      assert Owned(d, m, s, live, h);
      BlockShape(d, d', m, h, s.order, false);
    }
  }

  /** __internal_obj_alloc with an object on the chain. */
  function Popped(c: Cache, next: nat): Cache
    requires c.current.Some? && c.current.value in c.live && c.chain != []
  {
    var g := c.current.value;
    c.(freelist := next, live := c.live[g := c.live[g] + {c.chain[0]}], chain := c.chain[1..])
  }

  lemma PopKeeps(c: Cache, s: Shape, d: seq<Page>, m: set<nat>, word: map<nat, nat>)
    requires CacheInv(c, s, d, m, word) && c.freelist != 0
    ensures c.current.Some? && c.current.value in c.live && c.current.value < |d| && c.chain != [] && c.freelist in word
    ensures d[c.current.value].objNr > 0 && c.freelist == ObjAddr(c.current.value, s.sz, c.chain[0])
    ensures c.chain[0] !in c.live[c.current.value] && c.chain[0] < s.nr
    ensures word[c.freelist] == ChainHead(c.current.value, s.sz, c.chain[1..])
    ensures var g := c.current.value;
            CacheInv(Popped(c, word[c.freelist]), s, d[g := d[g].(objNr := d[g].objNr - 1)], m, word)
  {
    hide OwnedBlocks;
    var g, x := c.current.value, c.chain[0];
    ChainFirst(word, c.freelist, g, s.sz, c.chain);
    assert x in c.chain;
    OwnedCounts(d, m, s, c.live, g);
    Recounted(d, m, s, c.live, Popped(c, word[c.freelist]).live, g, d[g].objNr - 1);
    assert forall i :: i in c.chain[1..] ==> i in c.chain && i != x;
  }

  /** The current block is used up: it goes to the front of full. */
  function Retired(c: Cache): Cache {
    if c.current.Some? then c.(current := None, full := [c.current.value] + c.full) else c
  }

  lemma RetireKeeps(c: Cache, s: Shape, d: seq<Page>, m: set<nat>, word: map<nat, nat>)
    requires CacheInv(c, s, d, m, word) && c.freelist == 0
    ensures c.chain == [] && CacheInv(Retired(c), s, d, m, word)
  {
    if c.current.Some? {
      var g := c.current.value;
      assert Owned(d, m, s, c.live, g);
    }
  }

  /** An added block, sliced, becomes the current one. */
  function Sliced(c: Cache, s: Shape, g: nat): Cache
    requires s.nr > 0
  {
    c.(current := Some(g), freelist := ObjAddr(g, s.sz, s.nr - 1), live := c.live[g := {}], chain := Countdown(s.nr))
  }

  /** Block g as slicing leaves it. */
  ghost predicate SlicedPage(s: Shape, d: seq<Page>, m: set<nat>, word: map<nat, nat>, g: nat) {
    && IsBlock(d, m, g, s.order, false) && g < |d|
    && d[g].kc == s.self && d[g].refCount == 0 && d[g].objNr == s.nr
    && s.nr > 0 && ChainAt(word, ObjAddr(g, s.sz, s.nr - 1), g, s.sz, Countdown(s.nr))
  }

  lemma SliceKeeps(c: Cache, s: Shape, d: seq<Page>, m: set<nat>, word: map<nat, nat>, g: nat)
    requires CacheInv(c, s, d, m, word) && c.current.None? && g !in c.live && SlicedPage(s, d, m, word, g)
    ensures CacheInv(Sliced(c, s, g), s, d, m, word) && Sliced(c, s, g).freelist != 0
  {
    hide IsBlock, ChainAt, Countdown, Pow2;
    var c' := Sliced(c, s, g);
    assert ObjAddr(g, s.sz, s.nr - 1) > 0;
    forall h | h in c'.live
      ensures Owned(d, m, s, c'.live, h)
    {
      if h != g { assert Owned(d, m, s, c.live, h); }
    }
  }

  /** An object of the current block goes back on the chain. */
  function FreedCurrent(c: Cache, s: Shape, i: nat): Cache
    requires c.current.Some? && c.current.value in c.live
  {
    var g := c.current.value;
    c.(freelist := ObjAddr(g, s.sz, i), live := c.live[g := c.live[g] - {i}], chain := [i] + c.chain)
  }

  lemma FreeCurrentKeeps(c: Cache, s: Shape, d: seq<Page>, m: set<nat>, word: map<nat, nat>, i: nat)
    requires CacheInv(c, s, d, m, word) && c.current.Some? && c.current.value in c.live && i in c.live[c.current.value]
    ensures c.current.value < |d|
    ensures var g := c.current.value;
            CacheInv(FreedCurrent(c, s, i), s, d[g := d[g].(objNr := d[g].objNr + 1)], m, Written(word, ObjAddr(g, s.sz, i), c.freelist))
  {
    hide OwnedBlocks, IsBlock, Pow2, ObjAddr, Written;
    var g := c.current.value;
    var a := ObjAddr(g, s.sz, i);
    var word', c' := Written(word, a, c.freelist), FreedCurrent(c, s, i);
    OwnedCounts(d, m, s, c.live, g);
    Recounted(d, m, s, c.live, c'.live, g, d[g].objNr + 1);
    assert i !in c.chain;
    forall j | 0 <= j < |c.chain|
      ensures Apart(ObjAddr(g, s.sz, c.chain[j]), a)
    {
      assert c.chain[j] in c.chain;
      ObjectsDisjoint(g, i, g, c.chain[j], s.sz, s.nr, s.order);
    }
    ChainFrame(word, word', c.freelist, g, s.sz, c.chain);
    assert c'.chain[1..] == c.chain;
  }

  /** An object of a retired block: the block moves to the front of full, leaves
      the cache, or stays. */
  function FreedRetired(c: Cache, s: Shape, g: nat, i: nat, objNr: nat): Cache
    requires g in c.live
  {
    if objNr == 1 then c.(full := [g] + Unlinked(c.full, g), live := c.live[g := c.live[g] - {i}])
    else if objNr == s.nr then c.(full := Unlinked(c.full, g), live := c.live - {g})
    else c.(live := c.live[g := c.live[g] - {i}])
  }

  lemma FreeRetiredKeeps(c: Cache, s: Shape, d: seq<Page>, m: set<nat>, word: map<nat, nat>, g: nat, i: nat)
    requires CacheInv(c, s, d, m, word) && g in c.live && i in c.live[g] && c.current != Some(g)
    ensures g < |d|
    ensures var n := d[g].objNr + 1;
            && CacheInv(FreedRetired(c, s, g, i, n), s, d[g := d[g].(objNr := n)], m, word)
            && (n == s.nr <==> c.live[g] == {i})
  {
    hide OwnedBlocks, Listed, ChainAt, Unlinked, Pow2;
    OwnedCounts(d, m, s, c.live, g);
    var n := d[g].objNr + 1;
    assert c.live[g] == {i} + (c.live[g] - {i});
    Recounted(d, m, s, c.live, FreedRetired(c, s, g, i, n).live, g, n);
    FreedListed(c, s, g, i, n);
  }

  /** What each of the three branches leaves on full. */
  lemma FreedListed(c: Cache, s: Shape, g: nat, i: nat, n: nat)
    requires Listed(c, s.nr) && g in c.live && i in c.live[g] && c.current != Some(g) && |c.live[g]| + n == s.nr + 1
    ensures Listed(FreedRetired(c, s, g, i, n), s.nr)
  {
    hide Unlinked;
    UnlinkedContents(c.full, g);
    assert c.live[g] == {i} + (c.live[g] - {i});
  }

  // ------------------------------------------------------ runs of a cache

  /** The free-list pointer is null exactly when the current block has no free object. */
  lemma ChainEnds(c: Cache, s: Shape, d: seq<Page>, m: set<nat>, word: map<nat, nat>)
    requires CacheInv(c, s, d, m, word)
    ensures s.nr > 0 && (c.freelist != 0 <==> HasFree(c))
  {
    hide Owned, IsBlock;
    if c.current.Some? { ChainFirst(word, c.freelist, c.current.value, s.sz, c.chain); }
  }

  /** The current block has a free object. */
  predicate HasFree(c: Cache) { c.current.Some? && c.current.value in c.live && c.chain != [] }

  function TakeFirst(c: Cache, s: Shape): Cache
    requires HasFree(c)
  {
    Popped(c, ChainHead(c.current.value, s.sz, c.chain[1..]))
  }

  /** One Malloc, and the object it gives: `added` is what the pool has when it is asked. */
  function Given(c: Cache, s: Shape, added: Option<nat>): (Cache, Option<(nat, nat)>)
    requires s.nr > 0
  {
    if HasFree(c) then (TakeFirst(c, s), Some((c.current.value, c.chain[0])))
    else if added.None? then (Retired(c), None)
    else var n := Sliced(Retired(c), s, added.value); (TakeFirst(n, s), Some((added.value, n.chain[0])))
  }

  /** One Free. */
  function Returned(c: Cache, s: Shape, g: nat, i: nat): Cache
    requires g in c.live && |c.live[g]| <= s.nr
  {
    if c.current == Some(g) then FreedCurrent(c, s, i) else FreedRetired(c, s, g, i, s.nr - |c.live[g]| + 1)
  }

  datatype CacheOp = Take(added: Option<nat>) | Back(g: nat, i: nat)

  /** A call. Callers free only what they hold; anything else is no call. */
  function CacheStep(c: Cache, s: Shape, op: CacheOp): Cache
    requires s.nr > 0
  {
    match op
    case Take(added) => Given(c, s, added).0
    case Back(g, i) => if g in c.live && i in c.live[g] && |c.live[g]| <= s.nr then Returned(c, s, g, i) else c
  }

  /** Some Malloc of the run gives object i of block g. */
  predicate Gives(c: Cache, s: Shape, ops: seq<CacheOp>, g: nat, i: nat)
    requires s.nr > 0
    decreases |ops|
  {
    ops != [] && ((ops[0].Take? && Given(c, s, ops[0].added).1 == Some((g, i))) || Gives(CacheStep(c, s, ops[0]), s, ops[1..], g, i))
  }

  /** The pool does not hand block g out (again) during the run. */
  predicate PoolKeeps(ops: seq<CacheOp>, g: nat) { forall k :: 0 <= k < |ops| ==> ops[k] != Take(Some(g)) }

  /** No object of a block that is not current is ever given again. */
  lemma {:induction false} RetiredNeverGiven(c: Cache, s: Shape, ops: seq<CacheOp>, g: nat, i: nat)
    requires s.nr > 0 && c.current != Some(g) && PoolKeeps(ops, g)
    ensures !Gives(c, s, ops, g, i)
    decreases |ops|
  {
    if ops != [] {
      assert ops[0] != Take(Some(g));
      RetiredNeverGiven(CacheStep(c, s, ops[0]), s, ops[1..], g, i);
    }
  }

  /** An object freed into the current block is what the next Malloc gives, and then the cache is as it was. */
  lemma NextMallocGives(c: Cache, s: Shape, d: seq<Page>, m: set<nat>, word: map<nat, nat>, i: nat, added: Option<nat>)
    requires CacheInv(c, s, d, m, word) && c.current.Some? && c.current.value in c.live && i in c.live[c.current.value]
    ensures |c.live[c.current.value]| <= s.nr
    ensures Given(Returned(c, s, c.current.value, i), s, added) == (c, Some((c.current.value, i)))
  {
    var g := c.current.value;
    assert Owned(d, m, s, c.live, g);
    ChainFirst(word, c.freelist, g, s.sz, c.chain);
    var r := Returned(c, s, g, i);
    assert r == FreedCurrent(c, s, i) && r.chain == [i] + c.chain && r.chain[1..] == c.chain;
    assert c.live[g] - {i} + {i} == c.live[g];
    assert c.live[g := c.live[g] - {i}][g := c.live[g]] == c.live;
    assert HasFree(r) && TakeFirst(r, s) == c;
  }

  /** A freed object can be given again, the pool keeping its block, if and only if its block is current when it is freed. */
  lemma ReuseExact(c: Cache, s: Shape, d: seq<Page>, m: set<nat>, word: map<nat, nat>, g: nat, i: nat)
    requires CacheInv(c, s, d, m, word) && g in c.live && i in c.live[g]
    ensures |c.live[g]| <= s.nr
    ensures (exists ops :: PoolKeeps(ops, g) && Gives(Returned(c, s, g, i), s, ops, g, i)) <==> c.current == Some(g)
  {
    assert Owned(d, m, s, c.live, g);
    var n := Returned(c, s, g, i);
    if c.current == Some(g) {
      NextMallocGives(c, s, d, m, word, i, None);
      var ops := [Take(None)];
      assert PoolKeeps(ops, g) && Gives(n, s, ops, g, i);
    } else {
      forall ops: seq<CacheOp> | PoolKeeps(ops, g)
        ensures !Gives(n, s, ops, g, i)
      {
        RetiredNeverGiven(n, s, ops, g, i);
      }
    }
  }

  /** Mallocs one after the other, whatever the pool has. */
  function Takes(c: Cache, s: Shape, adds: seq<Option<nat>>): Cache
    requires s.nr > 0
    decreases |adds|
  {
    if adds == [] then c else Takes(Given(c, s, adds[0]).0, s, adds[1..])
  }

  /** While the current block has k free objects left, the last k of its slicing, Mallocs give exactly these, the
      highest first. */
  lemma {:induction false} CountdownGiven(c: Cache, s: Shape, k: nat, adds: seq<Option<nat>>, added: Option<nat>)
    requires s.nr > 0 && c.current.Some? && c.current.value in c.live && c.chain == Countdown(k) && |adds| <= k
    ensures var t := Takes(c, s, adds);
            && t.current == c.current && t.current.value in t.live && t.chain == Countdown(k - |adds|)
            && (|adds| < k ==> Given(t, s, added).1 == Some((c.current.value, k - |adds| - 1)))
            && (|adds| == k ==> !HasFree(t))
    decreases |adds|
  {
    CountdownSteps(k);
    if adds != [] {
      CountdownGiven(Given(c, s, adds[0]).0, s, k - 1, adds[1..], added);
    }
  }

  lemma CountdownSteps(k: nat)
    ensures |Countdown(k)| == k && (k > 0 ==> Countdown(k)[0] == k - 1 && Countdown(k)[1..] == Countdown(k - 1))
  {
  }

  /** A block just added gives all its s.nr objects, the last first, and then no more. */
  lemma BlockGivesAll(c: Cache, s: Shape, g: nat, adds: seq<Option<nat>>, added: Option<nat>)
    requires s.nr > 0 && |adds| <= s.nr
    ensures var t := Takes(Sliced(c, s, g), s, adds);
            && t.current == Some(g) && (HasFree(t) <==> |adds| < s.nr)
            && (|adds| < s.nr ==> Given(t, s, added).1 == Some((g, s.nr - 1 - |adds|)))
  {
    CountdownGiven(Sliced(c, s, g), s, s.nr, adds, added);
    CountdownSteps(s.nr - |adds|);
  }

  function CacheRun(c: Cache, s: Shape, ops: seq<CacheOp>): Cache
    requires s.nr > 0
    decreases |ops|
  {
    if ops == [] then c else CacheRun(CacheStep(c, s, ops[0]), s, ops[1..])
  }

  /** From an empty cache, two objects to a block and one block, 5, in the pool: a third Malloc fails,
      one object comes back, and Malloc fails again, with and without it. */
  lemma FreedButRefused(s: Shape)
    requires s.nr == 2
    ensures var c := CacheRun(Cache(None, 0, [], map[], []), s, [Take(Some(5)), Take(None), Take(None)]);
            && c.live == map[5 := {0, 1}] && Given(c, s, None).1 == None
            && CacheStep(c, s, Back(5, 0)).live == map[5 := {1}] && Given(CacheStep(c, s, Back(5, 0)), s, None).1 == None
  {
    var empty := Cache(None, 0, [], map[], []);
    var c1 := CacheStep(empty, s, Take(Some(5)));
    var c2 := CacheStep(c1, s, Take(None));
    var c3 := CacheStep(c2, s, Take(None));
    assert Countdown(2) == [1, 0];
    assert c1.chain == [0] && c1.live == map[5 := {1}] && c1.current == Some(5);
    assert c1.live[5] + {0} == {0, 1};
    assert c2.chain == [] && c2.live == map[5 := {0, 1}] && c2.current == Some(5);
    assert c3.live == map[5 := {0, 1}] && c3.current == None;
    var ops := [Take(Some(5)), Take(None), Take(None)];
    assert ops[1..] == [Take(None), Take(None)] && ops[1..][1..] == [Take(None)] && ops[1..][1..][1..] == [];
    assert CacheRun(empty, s, ops) == CacheRun(c1, s, ops[1..]) == CacheRun(c2, s, [Take(None)]) == CacheRun(c3, s, []) == c3;
    assert |c3.live[5]| == 2;
  }

  // --------------------------------------------------------------- class

  class KMemCache {
    const pool: PagePool
    const ram: Ram
    const shape: Shape
    var current: Option<nat>
    var freelist: nat
    var partial: seq<nat>
    var full: seq<nat>
    ghost var live: map<nat, set<nat>>
    ghost var chain: seq<nat>

    ghost function State(): Cache
      reads this
    {
      Cache(current, freelist, full, live, chain)
    }

    /** Nothing is ever linked to partial. */
    ghost predicate Valid()
      reads this, ram, pool, pool.descs, pool.links, pool.links.prev, pool.links.next
    {
      && pool.Valid() && pool.descs.Length <= DIRECT_PAGES && partial == []
      && CacheInv(State(), shape, pool.descs[..], pool.managed, ram.word)
    }

    /** KMemCache::Init, with the pool that AddPool puts in the first slot. */
    constructor (p: PagePool, r: Ram, self: nat, sz: nat)
      requires p.Valid() && p.descs.Length <= DIRECT_PAGES && self > 0 && sz >= WORD
      ensures Valid() && pool == p && ram == r && live == map[]
      ensures shape == Shape(self, sz, PageObjNr(sz), CacheOrder(sz))
      ensures shape.order == (if sz < 4096 then 0 else sz / 4096 + 1) && shape.nr * sz <= 4096 * Pow2(shape.order) < (shape.nr + 1) * sz
    {
      pool, ram := p, r;
      GeometryFits(sz);
      shape := Shape(self, sz, PAGE_SIZE * Pow2(CacheOrder(sz)) / sz, CacheOrder(sz));
      current, freelist, partial, full := None, 0, [], [];
      live, chain := map[], [];
    }

    /** Descriptors in use outside the cache, and words outside its objects, stay. */
    twostate predicate OthersKept()
      reads this, ram, pool, pool.descs
    {
      && (forall x: nat :: x < pool.descs.Length && !old(pool.descs[x].isFree) && x !in old(live) ==> pool.descs[x] == old(pool.descs[x]))
      && (forall a :: a in old(ram.word) && (forall g, i: nat :: g in live && i < shape.nr ==> Apart(a, ObjAddr(g, shape.sz, i))) ==>
            a in ram.word && ram.word[a] == old(ram.word[a]))
    }

    /** The loop of __page_obj_slicing: chain the objects of block g, last first. */
    method WriteChain(g: nat) returns (curr: nat)
      requires shape.Ok()
      modifies ram
      ensures curr == ObjAddr(g, shape.sz, shape.nr - 1) && ChainAt(ram.word, curr, g, shape.sz, Countdown(shape.nr))
      ensures forall a :: a in old(ram.word) && (forall i: nat :: i < shape.nr ==> Apart(a, ObjAddr(g, shape.sz, i))) ==>
                a in ram.word && ram.word[a] == old(ram.word[a])
    {
      hide ChainAt, Countdown, ObjAddr, Written;
      ChainNil(ram.word, g, shape.sz);
      curr := 0;
      var next := PageToVirt(g);
      var i := 0;
      while i < shape.nr
        invariant i <= shape.nr && next == ObjAddr(g, shape.sz, i)
        invariant curr == if i == 0 then 0 else ObjAddr(g, shape.sz, i - 1)
        invariant ChainAt(ram.word, curr, g, shape.sz, Countdown(i))
        invariant forall a :: a in old(ram.word) && (forall j: nat :: j < shape.nr ==> Apart(a, ObjAddr(g, shape.sz, j))) ==>
                a in ram.word && ram.word[a] == old(ram.word[a])
      {
        ChainPush(ram.word, curr, g, shape, i);
        NextObject(g, shape.sz, i);
        ram.Store(next, curr);
        curr := next;
        next := next + shape.sz;
        i := i + 1;
      }
    }

    /** __page_obj_slicing */
    method Slice(g: nat)
      requires pool.Valid() && pool.descs.Length <= DIRECT_PAGES && shape.Ok()
      requires IsBlock(pool.descs[..], pool.managed, g, shape.order, false) && g < pool.descs.Length && pool.descs[g].refCount == -1
      modifies ram, pool.descs
      ensures pool.Valid() && SlicedPage(shape, pool.descs[..], pool.managed, ram.word, g)
      ensures pool.descs[g].freelist == ObjAddr(g, shape.sz, shape.nr - 1)
      ensures forall x: nat :: x < pool.descs.Length && x != g ==> pool.descs[x] == old(pool.descs[x])
      ensures SameShape(old(pool.descs[..]), pool.descs[..])
      ensures forall a :: a in old(ram.word) && (forall i: nat :: i < shape.nr ==> Apart(a, ObjAddr(g, shape.sz, i))) ==>
                a in ram.word && ram.word[a] == old(ram.word[a])
    {
      hide IsBlock, PagePool.Valid, ChainAt, Countdown;
      BlockHead(pool.descs[..], pool.managed, g, shape.order);
      var curr := WriteChain(g);
      pool.SetFields(g, pool.descs[g].(objNr := shape.nr, freelist := curr, kc := shape.self));
      pool.GetPage(g);
      BlockShape(old(pool.descs[..]), pool.descs[..], pool.managed, g, shape.order, false);
    }

    /** The used-up current block goes on full. */
    method Retire()
      requires Valid() && freelist == 0
      modifies this`current, this`full
      ensures Valid() && State() == Retired(old(State())) && chain == [] && current.None?
    {
      hide PagePool.Valid, CacheInv;
      RetireKeeps(State(), shape, pool.descs[..], pool.managed, ram.word);
      if current.Some? {
        full := [current.value] + full;
        current := None;
      }
    }

    /** No object on the chain: retire the current block and take a new one from
        the pool. The source looks at partial first. */
    method Refill() returns (ghost added: nat)
      requires Valid() && freelist == 0
      modifies this, ram, pool.descs, pool.links`rings, pool.links.prev, pool.links.next
      ensures Valid() && OthersKept()
      ensures freelist == 0 ==> live == old(live) && AllocPage(old(pool.Lists()), shape.order).None?
      ensures freelist == 0 ==> pool.descs[..] == old(pool.descs[..]) && pool.Lists() == old(pool.Lists())
      ensures State() == if freelist == 0 then Retired(old(State())) else Sliced(Retired(old(State())), shape, added)
      ensures freelist != 0 ==> current == Some(added) && added !in old(live) && live == old(live)[added := {}]
      ensures freelist != 0 ==> added < pool.descs.Length && old(pool.descs[added].isFree)
      ensures forall x: nat :: x < pool.descs.Length && !old(pool.descs[x].isFree) ==> !pool.descs[x].isFree
    {
      hide PagePool.Valid, CacheInv, ObjAddr, AllocPage, Countdown;
      Retire();
      if partial != [] {
        assert false;
      }
      added := NewCurrent();
    }

    /** One block of the pool, if it has one, is sliced and becomes the current one. */
    method NewCurrent() returns (ghost added: nat)
      requires Valid() && current.None? && freelist == 0 && chain == []
      modifies this, ram, pool.descs, pool.links`rings, pool.links.prev, pool.links.next
      ensures Valid() && OthersKept() && |old(pool.Lists())| == MAX_PAGE_ORDER
      ensures freelist == 0 ==> State() == old(State()) && AllocPage(old(pool.Lists()), shape.order).None?
      ensures freelist == 0 ==> pool.descs[..] == old(pool.descs[..]) && pool.Lists() == old(pool.Lists())
      ensures freelist != 0 ==> shape.nr > 0 && State() == Sliced(old(State()), shape, added) && added !in old(live)
      ensures freelist != 0 ==> added < pool.descs.Length && old(pool.descs[added].isFree)
      ensures forall x: nat :: x < pool.descs.Length && !old(pool.descs[x].isFree) ==> !pool.descs[x].isFree
    {
      hide PagePool.Valid, CacheInv, CurrentInv, Owned, ChainAt, IsBlock, AllocPage, AllocTags, AllocListsAfter;
      hide Shape.Ok, SlicedPage, Run, PoolInv, ObjAddr, Countdown;
      ghost var d, m, lists := pool.descs[..], pool.managed, pool.Lists();
      PoolInOrder();
      AllocKeeps(d, m, lists, shape.order);
      NothingAllocated(d, lists, shape.order);
      var p := pool.AllocPages(shape.order);
      current := p;
      added := if p.Some? then p.value else 0;
      if p.Some? {
        var g := p.value;
        NewBlock(State().(current := None), shape, d, m, lists, ram.word);
        TakeOver(g);
      }
    }

    /** The block that became current is sliced and its chain taken over. */
    method TakeOver(g: nat)
      requires pool.Valid() && pool.descs.Length <= DIRECT_PAGES && partial == [] && shape.Ok()
      requires current == Some(g) && g !in live && g < pool.descs.Length && pool.descs[g].refCount == -1
      requires IsBlock(pool.descs[..], pool.managed, g, shape.order, false)
      requires CacheInv(State().(current := None), shape, pool.descs[..], pool.managed, ram.word)
      modifies this`freelist, this`live, this`chain, ram, pool.descs
      ensures Valid() && freelist != 0 && shape.nr > 0 && State() == Sliced(old(State()).(current := None), shape, g)
      ensures forall x: nat :: x < pool.descs.Length && x != g ==> pool.descs[x] == old(pool.descs[x])
      ensures !pool.descs[g].isFree
      ensures forall a :: a in old(ram.word) && (forall i: nat :: i < shape.nr ==> Apart(a, ObjAddr(g, shape.sz, i))) ==>
                a in ram.word && ram.word[a] == old(ram.word[a])
    {
      hide PagePool.Valid, CacheInv, CurrentInv, Owned, ChainAt, SlicedPage, ObjAddr, Countdown, Shape.Ok, IsBlock;
      ghost var e, w := pool.descs[..], ram.word;
      Slice(g);
      AfterSlice(State().(current := None), shape, e, pool.descs[..], pool.managed, w, ram.word, g);
      SlicedUse(pool.descs[..], pool.managed, ram.word, g);
      freelist := pool.descs[g].freelist;
      live := live[g := {}];
      chain := Countdown(shape.nr);
    }

    lemma SlicedUse(d: seq<Page>, m: set<nat>, w: map<nat, nat>, g: nat)
      requires SlicedPage(shape, d, m, w, g)
      ensures g < |d| && !d[g].isFree && shape.nr > 0
    {
      assert InRun(g, shape.order, g);
    }

    lemma PoolInOrder()
      requires pool.Valid()
      ensures PoolInv(pool.descs[..], pool.managed, pool.Lists()) && |pool.Lists()| == MAX_PAGE_ORDER
    {
    }

    /** Malloc, __internal_obj_alloc: 0, or object i of block g, which nobody holds. The block is the
        current one as long as that has a free object, else one that the pool had free. */
    method Malloc() returns (obj: nat, ghost g: nat, ghost i: nat)
      requires Valid()
      modifies this, ram, pool.descs, pool.links`rings, pool.links.prev, pool.links.next
      ensures Valid() && OthersKept() && shape.nr > 0
      ensures forall x: nat :: x < pool.descs.Length && !old(pool.descs[x].isFree) ==> !pool.descs[x].isFree
      ensures old(freelist) != 0 ==> obj == old(freelist)
      ensures obj == 0 ==> live == old(live) && AllocPage(old(pool.Lists()), shape.order).None?
      ensures obj == 0 ==> pool.descs[..] == old(pool.descs[..]) && pool.Lists() == old(pool.Lists())
      ensures obj != 0 ==>
              && obj == ObjAddr(g, shape.sz, i) && i < shape.nr
              && (g in old(live) ==> i !in old(live)[g])
              && live == old(live)[g := (if g in old(live) then old(live)[g] else {}) + {i}]
      ensures obj != 0 ==>
              && current == Some(g)
              && if HasFree(old(State())) then old(current) == Some(g)
                 else g !in old(live) && g < pool.descs.Length && old(pool.descs[g].isFree)
      ensures (State(), if obj == 0 then None else Some((g, i))) ==
              Given(old(State()), shape, if obj == 0 then None else Some(g))
    {
      hide PagePool.Valid, CacheInv, ObjAddr;
      SomeObjects();
      if freelist == 0 {
        ghost var added := Refill();
        if freelist == 0 {
          return 0, 0, 0;
        }
      }
      obj, g, i := TakeObject();
    }

    lemma SomeObjects()
      requires Valid()
      ensures shape.nr > 0 && (freelist != 0 <==> HasFree(State()))
    {
      hide PagePool.Valid, CacheInv;
      ChainEnds(State(), shape, pool.descs[..], pool.managed, ram.word);
    }

    /** The first object of the chain. */
    method TakeObject() returns (obj: nat, ghost g: nat, ghost i: nat)
      requires Valid() && freelist != 0
      modifies this, pool.descs
      ensures obj == old(freelist) && HasFree(old(State())) && State() == TakeFirst(old(State()), shape) && i == old(chain)[0]
      ensures Valid() && obj != 0 && current == old(current) && current == Some(g) && g in old(live)
      ensures obj == ObjAddr(g, shape.sz, i) && i < shape.nr && i !in old(live)[g] && live == old(live)[g := old(live)[g] + {i}]
      ensures forall x: nat :: x < pool.descs.Length && x != g ==> pool.descs[x] == old(pool.descs[x])
      ensures SameShape(old(pool.descs[..]), pool.descs[..])
    {
      hide PagePool.Valid, CacheInv, CurrentInv, Owned, ChainAt, IsBlock;
      PopKeeps(State(), shape, pool.descs[..], pool.managed, ram.word);
      g, i := current.value, chain[0];
      obj := freelist;
      freelist := ram.word[freelist];
      var page := current.value;
      pool.SetFields(page, pool.descs[page].(objNr := pool.descs[page].objNr - 1));
      live := live[g := live[g] + {i}];
      chain := chain[1..];
    }

    /** Free, __internal_obj_free, of object i of block g. */
    method Free(g: nat, obj: nat, ghost i: nat)
      requires Valid() && g in live && i in live[g] && obj == ObjAddr(g, shape.sz, i)
      modifies this, ram, pool.descs, pool.links`rings, pool.links.prev, pool.links.next
      ensures Valid() && g < pool.descs.Length
      ensures |old(live)[g]| <= shape.nr && State() == Returned(old(State()), shape, g, i)
      ensures live == if old(current) != Some(g) && old(live)[g] == {i} && shape.nr >= 2 then old(live) - {g} else old(live)[g := old(live)[g] - {i}]
      ensures pool.Lists() == old(pool.Lists()) && SameShape(old(pool.descs[..]), pool.descs[..])
      ensures forall x: nat :: x < pool.descs.Length && x != g ==> pool.descs[x] == old(pool.descs[x])
      ensures forall a :: a in old(ram.word) && Apart(a, obj) ==> a in ram.word && ram.word[a] == old(ram.word[a])
    {
      hide PagePool.Valid, CacheInv, CurrentInv, Owned, ChainAt, IsBlock, SameShape, ObjAddr;
      OwnedPage(g);
      ObjectCount(g);
      ghost var d := pool.descs[..];
      pool.SetFields(g, pool.descs[g].(objNr := pool.descs[g].objNr + 1));
      if current == Some(g) {
        FreeCurrentKeeps(old(State()), shape, d, pool.managed, ram.word, i);
        ram.Store(obj, freelist);
        freelist := obj;
        live := live[g := live[g] - {i}];
        chain := [i] + chain;
      } else {
        FreeRetiredKeeps(old(State()), shape, d, pool.managed, ram.word, g, i);
        BlockShape(d, pool.descs[..], pool.managed, g, shape.order, false) by { ShapeBut(d, pool.descs[..], g); }
        FreeRetired(g, i);
      }
      ShapeBut(d, pool.descs[..], g);
    }

    /** The branches for a block that is not current: to the front of full, off full and out, or nothing. */
    method FreeRetired(g: nat, ghost i: nat)
      requires pool.Valid() && pool.descs.Length <= DIRECT_PAGES && partial == []
      requires g in live && i in live[g] && g < pool.descs.Length && pool.descs[g].refCount == 0
      requires IsBlock(pool.descs[..], pool.managed, g, shape.order, false)
      requires CacheInv(FreedRetired(State(), shape, g, i, pool.descs[g].objNr), shape, pool.descs[..], pool.managed, ram.word)
      modifies this`full, this`live, pool.descs, pool.links`rings, pool.links.prev, pool.links.next
      ensures Valid() && State() == FreedRetired(old(State()), shape, g, i, old(pool.descs[g].objNr))
      ensures pool.Lists() == old(pool.Lists())
      ensures var n := old(pool.descs[g].objNr);
              pool.descs[..] == old(pool.descs[..])[g := old(pool.descs[g]).(refCount := if n != 1 && n == shape.nr then -1 else 0)]
    {
      hide PagePool.Valid, CacheInv, IsBlock, SameShape;
      if pool.descs[g].objNr == 1 {
        full := [g] + Unlinked(full, g);
        live := live[g := live[g] - {i}];
      } else if pool.descs[g].objNr == shape.nr {
        full := Unlinked(full, g);
        live := live - {g};
        DropPage(g);
      } else {
        live := live[g := live[g] - {i}];
      }
    }

    /** put_page on a block with one reference: the count drops to -1 and the
        block is not given back. */
    method DropPage(g: nat)
      requires Valid() && g !in live && g < pool.descs.Length
      requires IsBlock(pool.descs[..], pool.managed, g, shape.order, false) && pool.descs[g].refCount == 0
      modifies pool.descs, pool.links`rings, pool.links.prev, pool.links.next
      ensures Valid() && pool.Lists() == old(pool.Lists())
      ensures pool.descs[..] == old(pool.descs[..])[g := old(pool.descs[g]).(refCount := -1)]
    {
      hide PagePool.Valid, CacheInv, IsBlock;
      BlockHead(pool.descs[..], pool.managed, g, shape.order);
      var freed := pool.PutPage(g);
      Dropped(State(), shape, old(pool.descs[..]), pool.descs[..], pool.managed, ram.word, g);
    }

    lemma ObjectCount(g: nat)
      requires Valid() && g in live
      ensures g < pool.descs.Length && |live[g]| + pool.descs[g].objNr == shape.nr
    {
      assert Owned(pool.descs[..], pool.managed, shape, live, g);
    }

    lemma OwnedPage(g: nat)
      requires Valid() && g in live
      ensures g < pool.descs.Length && g in pool.managed && pool.descs[g].order == shape.order && !pool.descs[g].isFree
      ensures HeadOf(g, pool.descs[g].order) == g && pool.descs[g].refCount == 0
      ensures IsBlock(pool.descs[..], pool.managed, g, shape.order, false)
    {
      assert Owned(pool.descs[..], pool.managed, shape, live, g);
      BlockHead(pool.descs[..], pool.managed, g, shape.order);
    }
  }

  lemma ShapeBut(d: seq<Page>, e: seq<Page>, g: nat)
    requires g < |d| && |e| == |d| && e == d[g := d[g].(refCount := e[g].refCount, objNr := e[g].objNr)]
    ensures SameShape(d, e) && forall x: nat :: x < |d| && x != g ==> e[x] == d[x]
  {
  }

  lemma Dropped(c: Cache, s: Shape, d: seq<Page>, e: seq<Page>, m: set<nat>, word: map<nat, nat>, g: nat)
    requires CacheInv(c, s, d, m, word) && g !in c.live && g < |d| && IsBlock(d, m, g, s.order, false)
    requires |e| == |d| && e == d[g := e[g]]
    ensures CacheInv(c, s, e, m, word)
  {
    forall h, i | h in c.live && InRun(h, s.order, i) && i < |d|
      ensures e[i] == d[i]
    {
      assert Owned(d, m, s, c.live, h) && InRun(g, s.order, g);
      BlocksApart(d, m, g, h, s.order, false);
    }
    CacheFrame(c, s, d, m, word, e, word);
  }

  /** The block that the pool just handed out is none of the cache's. */
  lemma NewBlock(c: Cache, s: Shape, d: seq<Page>, m: set<nat>, lists: FreeLists, word: map<nat, nat>)
    requires CacheInv(c, s, d, m, word) && PoolInv(d, m, lists) && AllocPage(lists, s.order).Some?
    ensures var g := AllocPage(lists, s.order).value; var e := AllocTags(d, lists, s.order);
            && g < |d| && g !in c.live && d[g].isFree && IsBlock(e, m, g, s.order, false) && e[g].refCount == -1
            && s.Ok() && CacheInv(c, s, e, m, word)
  {
    var g, e := AllocPage(lists, s.order).value, AllocTags(d, lists, s.order);
    AllocKeeps(d, m, lists, s.order);
    assert InRun(g, s.order, g);
    AllocHead(d, lists, s.order);
    forall h | h in c.live
      ensures h < |d| && !d[h].isFree
    {
      assert Owned(d, m, s, c.live, h) && InRun(h, s.order, h);
    }
    forall h, i | h in c.live && InRun(h, s.order, i) && i < |d|
      ensures e[i] == d[i]
    {
      assert Owned(d, m, s, c.live, h);
    }
    CacheFrame(c, s, d, m, word, e, word);
  }

  /** An allocation that fails changes nothing. */
  lemma NothingAllocated(d: seq<Page>, lists: FreeLists, k: nat)
    requires |lists| == MAX_PAGE_ORDER
    ensures AllocPage(lists, k).None? ==> AllocListsAfter(lists, k) == lists && AllocTags(d, lists, k) == d
  {
  }

  /** Slicing the new block does not disturb the others. */
  lemma AfterSlice(c: Cache, s: Shape, e: seq<Page>, f: seq<Page>, m: set<nat>, w: map<nat, nat>, w': map<nat, nat>, g: nat)
    requires CacheInv(c, s, e, m, w) && c.current.None? && g !in c.live && g < |e| == |f|
    requires IsBlock(e, m, g, s.order, false) && SlicedPage(s, f, m, w', g)
    requires forall x: nat :: x < |e| && x != g ==> f[x] == e[x]
    requires forall a :: a in w && (forall i: nat :: i < s.nr ==> Apart(a, ObjAddr(g, s.sz, i))) ==> a in w' && w'[a] == w[a]
    ensures CacheInv(Sliced(c, s, g), s, f, m, w') && Sliced(c, s, g).freelist != 0
  {
    forall h, i | h in c.live && InRun(h, s.order, i) && i < |e|
      ensures f[i] == e[i]
    {
      assert Owned(e, m, s, c.live, h);
      BlocksApart(e, m, g, h, s.order, false);
    }
    forall h, i | h in c.live && 0 <= i < s.nr && ObjAddr(h, s.sz, i) in w
      ensures ObjAddr(h, s.sz, i) in w' && w'[ObjAddr(h, s.sz, i)] == w[ObjAddr(h, s.sz, i)]
    {
      assert Owned(e, m, s, c.live, h);
      BlocksApart(e, m, g, h, s.order, false);
      forall j: nat | j < s.nr
        ensures Apart(ObjAddr(h, s.sz, i), ObjAddr(g, s.sz, j))
      {
        ObjectsDisjoint(h, i, g, j, s.sz, s.nr, s.order);
      }
    }
    CacheFrame(c, s, e, m, w, f, w');
    SliceKeeps(c, s, f, m, w', g);
  }

  lemma NextObject(g: nat, sz: nat, i: nat)
    ensures ObjAddr(g, sz, i + 1) == ObjAddr(g, sz, i) + sz
  {
    assert (i + 1) * sz == i * sz + sz;
  }

  lemma ChainNil(word: map<nat, nat>, g: nat, sz: nat)
    ensures ObjAddr(g, sz, 0) == PageToVirt(g) && Countdown(0) == [] && ChainAt(word, 0, g, sz, [])
  {
  }

  lemma BlockHead(d: seq<Page>, m: set<nat>, g: nat, k: nat)
    requires IsBlock(d, m, g, k, false)
    ensures g in m && g < |d| && d[g].order == k && HeadOf(g, k) == g && !d[g].isFree
  {
    assert InRun(g, k, g);
    HeadUnique(g, k, g);
  }

  /** One more object in front of the countdown chain. */
  lemma ChainPush(word: map<nat, nat>, head: nat, g: nat, s: Shape, i: nat)
    requires s.Ok() && i < s.nr && ChainAt(word, head, g, s.sz, Countdown(i))
    ensures ChainAt(Written(word, ObjAddr(g, s.sz, i), head), ObjAddr(g, s.sz, i), g, s.sz, Countdown(i + 1))
  {
    var word' := Written(word, ObjAddr(g, s.sz, i), head);
    forall j | 0 <= j < i
      ensures Apart(ObjAddr(g, s.sz, Countdown(i)[j]), ObjAddr(g, s.sz, i))
    {
      StepUp(Countdown(i)[j], i, s.sz);
    }
    ChainFrame(word, word', head, g, s.sz, Countdown(i));
    assert Countdown(i + 1)[1..] == Countdown(i);
  }
}
