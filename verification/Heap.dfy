/** class KHeapPool: routing of a request to a size cache or to whole pages, and
    the way back from an address to its cache. */
module Heap {
  import opened Bits
  import opened Options
  import opened Buddy
  import opened BuddyFree
  import opened BuddyAlloc
  import opened BuddyEdge
  import opened BuddyLiteral
  import opened BuddyRuns
  import opened Addresses
  import opened PagePools
  import opened Slab
  import HandOff

  // --------------------------------------------------------- page requests

  /** Below this size the shift 1 << order stays inside an int. */
  const SIZE_LIMIT: nat := 0x800_0000_0000

  /** The order computation of __malloc_pools: the least order whose block holds the size. */
  method PoolOrder(size: nat) returns (order: nat)
    requires size < SIZE_LIMIT
    ensures size <= PAGE_SIZE * Pow2(order)
    ensures forall k: nat :: size <= PAGE_SIZE * Pow2(k) ==> order <= k
    ensures order <= 31
  {
    hide *;
    order := 0;
    var s: nat := Shr(size, PAGE_SHIFT + 1);
    ShiftedStart(size);
    while s > 0
      invariant Shifted(size, s, Pow2(13 + order)) && (order > 0 ==> Pow2(12 + order) <= size)
      decreases s
    {
      HalveShifted(size, s, Pow2(13 + order));
      PageBytes(order + 1);
      order := order + 1;
      s := s / 2;
    }
    RoundedUp(size, order);
    if Pow2(order) * PAGE_SIZE < size {
      order := order + 1;
    }
    LeastOrder(size, order);
  }

  lemma ShiftedStart(size: nat)
    ensures Shifted(size, Shr(size, PAGE_SHIFT + 1), Pow2(13))
  {
    hide Shr, Pow2;
    ShrIsDiv(size, PAGE_SHIFT + 1);
    DivBack(size, Pow2(13));
    Shift(size, size / Pow2(13), Pow2(13));
  }

  lemma Shift(size: nat, s: nat, m: nat)
    requires m > 0 && size == s * m + size % m
    ensures Shifted(size, s, m)
  {
    assert (s + 1) * m == s * m + m;
  }

  /** The loop's order, or one more if the size is no full block, is the least sufficient one. */
  lemma RoundedUp(size: nat, order: nat)
    requires size < SIZE_LIMIT && Shifted(size, 0, Pow2(13 + order)) && (order > 0 ==> Pow2(12 + order) <= size)
    ensures order <= 30
    ensures var k := if Pow2(order) * PAGE_SIZE < size then order + 1 else order;
            size <= PAGE_SIZE * Pow2(k) && (k > 0 ==> PAGE_SIZE * Pow2(k - 1) < size)
  {
    hide Pow2;
    OrderBound(order);
    PageBytes(order);
    PageBytes(order + 1);
    if order > 0 { PageBytes(order - 1); }
  }

  /** s is the size divided by m. */
  ghost predicate Shifted(size: nat, s: nat, m: nat) { s * m <= size < (s + 1) * m }

  lemma HalveShifted(size: nat, s: nat, m: nat)
    requires Shifted(size, s, m) && s > 0
    ensures Shifted(size, s / 2, 2 * m) && m <= size
  {
    var h := s / 2;
    assert h * (2 * m) == (2 * h) * m && (h + 1) * (2 * m) == (2 * h + 2) * m;
    MulMono(2 * h, s, m);
    MulMono(s + 1, 2 * h + 2, m);
    MulMono(1, s, m);
  }

  /** Bytes of a block of an order. */
  lemma PageBytes(order: nat)
    ensures PAGE_SIZE * Pow2(order) == Pow2(12 + order) && Pow2(13 + order) == 2 * Pow2(12 + order)
  {
    Pow2Values();
    Pow2Add(12, order);
  }

  lemma OrderBound(order: nat)
    ensures order >= 31 ==> Pow2(12 + order) >= SIZE_LIMIT
  {
    hide Pow2;
    Pow2Values();
    SizeLimit(11, 22);
    if order >= 31 {
      Pow2Mono(43, 12 + order);
    }
  }

  /** The limit is the power with exponent 43. */
  lemma SizeLimit(i: nat, j: nat)
    requires i == 11 && j == 22 && Pow2(i) == 2048 && Pow2(10) == 1024
    ensures Pow2(j + i + 10) == SIZE_LIMIT
  {
    hide Pow2;
    Pow2Add(i, i);
    Pow2Add(i, 10);
    Pow2Add(j, i + 10);
  }

  lemma LeastOrder(size: nat, order: nat)
    requires size <= PAGE_SIZE * Pow2(order) && (order > 0 ==> PAGE_SIZE * Pow2(order - 1) < size)
    ensures forall k: nat :: size <= PAGE_SIZE * Pow2(k) ==> order <= k
  {
    forall k: nat | size <= PAGE_SIZE * Pow2(k)
      ensures order <= k
    {
      if k < order { Pow2Mono(k, order - 1); }
    }
  }

  // ------------------------------------------------------------ the heap

  /** A piece of memory handed out: object k of block g of cache i, or a whole block. */
  datatype Piece = Obj(i: nat, g: nat, k: nat) | Block(h: nat)

  /** Blocks handed out whole: in use, referenced once, of no cache. */
  ghost predicate BigInv(big: map<nat, nat>, d: seq<Page>, m: set<nat>) {
    forall h {:trigger BigBlock(big, d, m, h)} :: h in big ==> BigBlock(big, d, m, h)
  }

  ghost predicate BigBlock(big: map<nat, nat>, d: seq<Page>, m: set<nat>, h: nat)
    requires h in big
  {
    IsBlock(d, m, h, big[h], false) && h < |d| && d[h].kc == 0 && d[h].refCount == 0
  }

  /** Blocks with different heads are apart. */
  lemma HeadsApart(d: seq<Page>, m: set<nat>, g: nat, k: nat, h: nat, l: nat)
    requires IsBlock(d, m, g, k, false) && IsBlock(d, m, h, l, false) && g != h
    ensures g + Pow2(k) <= h || h + Pow2(l) <= g
  {
    var x := if g < h then h else g;
    assert !(InRun(g, k, x) && InRun(h, l, x));
  }

  /** So bytes inside one block are none of the other. */
  lemma RangesApart(d: seq<Page>, m: set<nat>, g: nat, k: nat, a: nat, a': nat, h: nat, l: nat, b: nat, b': nat)
    requires IsBlock(d, m, g, k, false) && IsBlock(d, m, h, l, false) && g != h
    requires PageToVirt(g) <= a && a' <= PageToVirt(g + Pow2(k)) && PageToVirt(h) <= b && b' <= PageToVirt(h + Pow2(l))
    ensures a' <= b || b' <= a
  {
    hide IsBlock, PageToVirt, Pow2;
    HeadsApart(d, m, g, k, h, l);
    PageToVirtMono(g + Pow2(k), h);
    PageToVirtMono(h + Pow2(l), g);
  }

  /** Objects of two caches have different addresses. */
  lemma ForeignAddress(d: seq<Page>, m: set<nat>, s: Shape, t: Shape, g: nat, i: nat, h: nat, j: nat)
    requires s.Ok() && t.Ok() && i < s.nr && j < t.nr && g != h
    requires IsBlock(d, m, g, s.order, false) && IsBlock(d, m, h, t.order, false)
    ensures ObjAddr(g, s.sz, i) + s.sz <= ObjAddr(h, t.sz, j) || ObjAddr(h, t.sz, j) + t.sz <= ObjAddr(g, s.sz, i)
  {
    hide IsBlock, PageToVirt, ObjAddr, Pow2;
    ObjectInside(g, i, s.sz, s.nr, s.order);
    ObjectInside(h, j, t.sz, t.nr, t.order);
    RangesApart(d, m, g, s.order, ObjAddr(g, s.sz, i), ObjAddr(g, s.sz, i) + s.sz, h, t.order, ObjAddr(h, t.sz, j), ObjAddr(h, t.sz, j) + t.sz);
  }

  lemma PageToVirtMono(p: nat, q: nat)
    ensures p <= q ==> PageToVirt(p) <= PageToVirt(q)
  {
  }

  /** A cache's own blocks are known by their head and owner. */
  lemma OwnedHead(c: Cache, s: Shape, d: seq<Page>, m: set<nat>, w: map<nat, nat>, x: nat)
    requires CacheInv(c, s, d, m, w)
    ensures x in c.live ==> x < |d| && d[x].isHead && d[x].kc == s.self && s.self > 0 && IsBlock(d, m, x, s.order, false)
  {
    if x in c.live { assert Owned(d, m, s, c.live, x) && InRun(x, s.order, x); }
  }

  /** One cache's Malloc does not disturb another. */
  lemma OtherCacheKept(c: Cache, c': Cache, s: Shape, o: Cache, t: Shape, d: seq<Page>, d': seq<Page>, m: set<nat>, w: map<nat, nat>, w': map<nat, nat>)
    requires CacheInv(c, s, d, m, w) && CacheInv(c', s, d', m, w') && CacheInv(o, t, d, m, w) && s.self != t.self && |d'| == |d|
    requires forall x: nat :: x < |d| && !d[x].isFree && x !in c.live ==> d'[x] == d[x]
    requires forall a :: a in w && (forall g, i: nat :: g in c'.live && i < s.nr ==> Apart(a, ObjAddr(g, s.sz, i))) ==> a in w' && w'[a] == w[a]
    ensures CacheInv(o, t, d', m, w')
  {
    forall h, x | h in o.live && InRun(h, t.order, x) && x < |d|
      ensures d'[x] == d[x]
    {
      assert Owned(d, m, t, o.live, h) && InRun(h, t.order, h);
      OwnedHead(c, s, d, m, w, x);
    }
    forall h, j: nat | h in o.live && j < t.nr && ObjAddr(h, t.sz, j) in w
      ensures ObjAddr(h, t.sz, j) in w' && w'[ObjAddr(h, t.sz, j)] == w[ObjAddr(h, t.sz, j)]
    {
      assert Owned(d, m, t, o.live, h) && InRun(h, t.order, h) && d'[h] == d[h];
      BlockMoved(d, d', m, h, t.order);
      forall g, i: nat | g in c'.live && i < s.nr
        ensures Apart(ObjAddr(h, t.sz, j), ObjAddr(g, s.sz, i))
      {
        assert Owned(d', m, s, c'.live, g);
        ForeignAddress(d', m, s, t, g, i, h, j);
      }
    }
    CacheFrame(o, t, d, m, w, d', w');
  }

  lemma BlockMoved(d: seq<Page>, d': seq<Page>, m: set<nat>, h: nat, k: nat)
    requires IsBlock(d, m, h, k, false) && |d'| == |d|
    requires forall x :: InRun(h, k, x) ==> d'[x] == d[x]
    ensures IsBlock(d', m, h, k, false)
  {
  }

  /** Nor does it disturb whole blocks. */
  lemma BigKept(c: Cache, s: Shape, big: map<nat, nat>, d: seq<Page>, d': seq<Page>, m: set<nat>, w: map<nat, nat>)
    requires CacheInv(c, s, d, m, w) && BigInv(big, d, m) && |d'| == |d|
    requires forall x: nat :: x < |d| && !d[x].isFree && x !in c.live ==> d'[x] == d[x]
    ensures BigInv(big, d', m)
  {
    forall h | h in big
      ensures BigBlock(big, d', m, h)
    {
      assert BigBlock(big, d, m, h) && InRun(h, big[h], h);
      forall x | InRun(h, big[h], x)
        ensures d'[x] == d[x]
      {
        OwnedHead(c, s, d, m, w, x);
      }
      BlockMoved(d, d', m, h, big[h]);
    }
  }

  class KHeapPool {
    const pool: PagePool
    const ram: Ram
    /** The address of cache i is written i + 1. */
    const caches: seq<KMemCache>
    ghost var big: map<nat, nat>

    ghost predicate Wired()
      reads caches
    {
      && (forall i, j :: 0 <= i < j < |caches| ==> caches[i] != caches[j])
      && (forall i :: 0 <= i < |caches| ==> caches[i].pool == pool && caches[i].ram == ram && caches[i].shape.self == i + 1)
    }

    ghost predicate Valid()
      reads this, caches, ram, pool, pool.descs, pool.links, pool.links.prev, pool.links.next
    {
      && Wired() && pool.Valid() && pool.descs.Length <= DIRECT_PAGES
      && (forall i :: 0 <= i < |caches| ==> caches[i].Valid())
      && BigInv(big, pool.descs[..], pool.managed)
    }

    /** Piece a is handed out. */
    ghost predicate Live(a: Piece)
      reads this, caches
    {
      match a
      case Obj(i, g, k) => i < |caches| && g in caches[i].live && k in caches[i].live[g]
      case Block(h) => h in big
    }

    /** First byte and length of a piece. */
    ghost function Start(a: Piece): nat
      requires a.Obj? ==> a.i < |caches|
    {
      match a
      case Obj(i, g, k) => ObjAddr(g, caches[i].shape.sz, k)
      case Block(h) => PageToVirt(h)
    }

    ghost function Size(a: Piece): nat
      reads this, caches
      requires Live(a)
    {
      match a
      case Obj(i, g, k) => caches[i].shape.sz
      case Block(h) => PAGE_SIZE * Pow2(big[h])
    }

    /** Object b is not handed out, and its block is in use but not its cache's current one: the object
        came back after the block was retired. */
    ghost predicate Spent(b: Piece)
      reads this, caches, pool, pool.descs
    {
      && b.Obj? && b.i < |caches| && b.g < pool.descs.Length && !pool.descs[b.g].isFree
      && caches[b.i].current != Some(b.g) && (b.g in caches[b.i].live ==> b.k !in caches[b.i].live[b.g])
    }

    constructor (p: PagePool, r: Ram, cs: seq<KMemCache>)
      requires p.Valid() && p.descs.Length <= DIRECT_PAGES
      requires forall i, j :: 0 <= i < j < |cs| ==> cs[i] != cs[j]
      requires forall i :: 0 <= i < |cs| ==> cs[i].Valid() && cs[i].pool == p && cs[i].ram == r && cs[i].shape.self == i + 1
      ensures Valid() && pool == p && ram == r && caches == cs && big == map[]
    {
      pool, ram, caches := p, r, cs;
      big := map[];
    }

    /** The caches before n were asked and had nothing; nothing was handed out. */
    twostate predicate NothingTaken()
      reads this, caches
    {
      big == old(big) && forall j :: 0 <= j < |caches| ==> caches[j].live == old(caches[j].live)
    }

    /** __malloc_caches: the first cache that fits and can give an object. */
    method MallocCaches(size: nat) returns (obj: nat, ghost a: Piece)
      requires Valid()
      modifies this, caches, ram, pool.descs, pool.links`rings, pool.links.prev, pool.links.next
      ensures Valid() && |old(pool.Lists())| == MAX_PAGE_ORDER && (obj == 0 ==> NothingTaken())
      ensures obj != 0 ==> a.Obj? && a.i < |caches| && !old(Spent(a))
      // the caches asked before that fit the size could not get a block
      ensures forall j :: 0 <= j < |caches| && size <= caches[j].shape.sz && (obj == 0 || j < a.i) ==>
                AllocPage(old(pool.Lists()), caches[j].shape.order).None?
      ensures obj == 0 ==> pool.descs[..] == old(pool.descs[..]) && pool.Lists() == old(pool.Lists())
      ensures forall b: Piece :: old(Spent(b)) ==> Spent(b)
      ensures obj != 0 ==> a.Obj? && !old(Live(a)) && Live(a) && Start(a) == obj && Size(a) >= size
      ensures obj != 0 ==> forall b: Piece :: Live(b) <==> old(Live(b)) || b == a
      ensures big == old(big)
    {
      hide KHeapPool.Valid, Wired, PagePool.Valid, CacheInv, BigInv, AllocPage, ObjAddr, KMemCache.Valid, PagePool.Lists;
      SizedLists();
      var n := 0;
      while n < |caches|
        invariant n <= |caches| && Valid() && NothingTaken()
        invariant forall j :: 0 <= j < n && size <= caches[j].shape.sz ==> AllocPage(old(pool.Lists()), caches[j].shape.order).None?
        invariant pool.descs[..] == old(pool.descs[..]) && pool.Lists() == old(pool.Lists())
        invariant forall b: Piece :: old(Spent(b)) ==> Spent(b)
      {
        if size <= caches[n].shape.sz {
          ghost var g, k;
          obj, g, k := AskCache(n);
          if obj != 0 {
            a := Obj(n, g, k);
            return;
          }
        }
        n := n + 1;
      }
      return 0, Block(0);
    }

    lemma SizedLists()
      requires Valid()
      ensures |pool.Lists()| == MAX_PAGE_ORDER
    {
      PoolInOrder(pool);
    }

    /** caches[n]->Malloc(), and why the rest of the heap does not notice. */
    method AskCache(n: nat) returns (obj: nat, ghost g: nat, ghost k: nat)
      requires Valid() && n < |caches|
      modifies caches[n], ram, pool.descs, pool.links`rings, pool.links.prev, pool.links.next
      ensures Valid()
      ensures forall j :: 0 <= j < |caches| && j != n ==> caches[j].live == old(caches[j].live)
      ensures forall b: Piece :: old(Spent(b)) ==> Spent(b)
      ensures obj != 0 ==> !old(Spent(Obj(n, g, k)))
      ensures |old(pool.Lists())| == MAX_PAGE_ORDER
      ensures obj == 0 ==> caches[n].live == old(caches[n].live) && AllocPage(old(pool.Lists()), caches[n].shape.order).None?
      ensures obj == 0 ==> pool.descs[..] == old(pool.descs[..]) && pool.Lists() == old(pool.Lists())
      ensures obj != 0 ==>
              && obj == ObjAddr(g, caches[n].shape.sz, k)
              && (g in old(caches[n].live) ==> k !in old(caches[n].live)[g])
              && caches[n].live == old(caches[n].live)[g := (if g in old(caches[n].live) then old(caches[n].live)[g] else {}) + {k}]
    {
      hide PagePool.Valid, CacheInv, BigInv, ObjAddr, AllocPage, PagePool.Lists, HasFree, TakeFirst, Pow2;
      PoolInOrder(pool);
      var cache := caches[n];
      ghost var c, d, m, w := cache.State(), pool.descs[..], pool.managed, ram.word;
      assert cache.Valid();
      obj, g, k := cache.Malloc();
      BigKept(c, cache.shape, big, d, pool.descs[..], m, w);
      forall j | 0 <= j < |caches|
        ensures caches[j].Valid()
      {
        if j != n {
          assert old(caches[j].Valid()) && caches[j].State() == old(caches[j].State());
          OtherCacheKept(c, cache.State(), cache.shape, caches[j].State(), caches[j].shape, d, pool.descs[..], m, w, ram.word);
        }
      }
    }

    /** __malloc_pools */
    method MallocPools(size: nat) returns (obj: nat, ghost a: Piece)
      requires Valid() && size < SIZE_LIMIT
      modifies this, pool.descs, pool.links`rings, pool.links.prev, pool.links.next
      ensures Valid()
      ensures obj == 0 ==> NothingTaken()
      ensures obj == 0 ==> forall k: nat :: size <= PAGE_SIZE * Pow2(k) && k < MAX_PAGE_ORDER ==>
                !exists p: nat :: FreeRun(old(pool.descs[..]), pool.managed, p, k)
      ensures obj != 0 ==> a.Block? && !old(Live(a)) && Live(a) && Start(a) == obj && Size(a) >= size
      ensures obj != 0 ==> forall k: nat :: size <= 4096 * Pow2(k) ==> big[a.h] <= k
      ensures forall b: Piece :: old(Spent(b)) ==> Spent(b)
      ensures obj != 0 ==> forall b: Piece :: Live(b) <==> old(Live(b)) || b == a
    {
      hide PagePool.Valid, CacheInv, BigInv, AllocTags, AllocListsAfter, AllocPage, PoolInv, IsBlock, FreeRun, Run;
      hide Wired, KMemCache.Valid, PagePool.Lists, Pow2, HeadOf;
      var order := PoolOrder(size);
      ghost var d, m, lists := pool.descs[..], pool.managed, pool.Lists();
      PoolInOrder(pool);
      AllocKeeps(d, m, lists, order);
      var p := pool.AllocPages(order);
      if p.None? {
        NoneLeft(d, m, lists, size, order);
        KeepCaches(d);
        return 0, Block(0);
      }
      AllocatedBlock(d, m, lists, order);
      BlockHead(pool.descs[..], m, p.value, order);
      ghost var e := pool.descs[..];
      pool.GetPage(p.value);
      GotBlock(big, d, e, pool.descs[..], m, p.value, order);
      KeepCaches(d);
      big := big[p.value := order];
      return PageToVirt(p.value), Block(p.value);
    }

    /** Descriptors of blocks in use unchanged, words unchanged: the caches are in order. */
    twostate lemma KeepCaches(d: seq<Page>)
      requires old(Valid()) && Wired() && pool.Valid() && d == old(pool.descs[..])
      requires forall x: nat :: x < |d| && !d[x].isFree ==> pool.descs[x] == d[x]
      requires forall i :: 0 <= i < |caches| ==> unchanged(caches[i])
      requires unchanged(ram) && pool.managed == old(pool.managed)
      ensures forall i :: 0 <= i < |caches| ==> caches[i].Valid()
    {
      hide PagePool.Valid, CacheInv, BigInv;
      forall i | 0 <= i < |caches|
        ensures caches[i].Valid()
      {
        assert old(caches[i].Valid());
        CacheUnmoved(caches[i].State(), caches[i].shape, d, pool.descs[..], pool.managed, ram.word);
      }
    }

    /** Malloc: from the first cache that fits and has an object, else whole pages. It fails only when
        no cache that fits can get a block and no run of pages that would do is free. What was freed into a
        retired block is never given: it is spent, Free makes it so, and every call keeps it so. */
    method Malloc(size: nat) returns (obj: nat, ghost a: Piece)
      requires Valid() && size < SIZE_LIMIT
      modifies this, caches, ram, pool.descs, pool.links`rings, pool.links.prev, pool.links.next
      ensures Valid() && |old(pool.Lists())| == MAX_PAGE_ORDER
      ensures obj == 0 ==> NothingTaken()
      ensures obj != 0 && a.Obj? ==> a.i < |caches|
      ensures forall j :: 0 <= j < |caches| && size <= caches[j].shape.sz && (obj == 0 || a.Block? || j < a.i) ==>
                AllocPage(old(pool.Lists()), caches[j].shape.order).None?
      ensures obj == 0 ==> forall k: nat :: size <= PAGE_SIZE * Pow2(k) && k < MAX_PAGE_ORDER ==>
                !exists p: nat :: FreeRun(old(pool.descs[..]), pool.managed, p, k)
      ensures obj != 0 ==> !old(Live(a)) && Live(a) && Start(a) == obj && Size(a) >= size
      ensures obj != 0 ==> forall b: Piece :: Live(b) <==> old(Live(b)) || b == a
      ensures obj != 0 ==> !old(Spent(a))
      ensures forall b: Piece :: old(Spent(b)) ==> Spent(b)
    {
      hide KHeapPool.Valid, FreeRun;
      obj, a := MallocCaches(size);
      if obj == 0 {
        obj, a := MallocPools(size);
      }
    }

    /** Free: the owner found from the address alone is the one that handed the piece out. */
    method Free(obj: nat, ghost a: Piece)
      requires Valid() && Live(a) && obj == Start(a)
      modifies this, caches, ram, pool.descs, pool.links`rings, pool.links.prev, pool.links.next
      ensures Valid() && !Live(a)
      ensures forall b: Piece :: Live(b) <==> old(Live(b)) && b != a
      ensures a.Obj? && old(caches[a.i].current) != Some(a.g) ==> Spent(a)
      ensures forall b: Piece :: old(Spent(b)) ==> Spent(b)
      // no page goes back to the pool
      ensures pool.Lists() == old(pool.Lists()) && SameShape(old(pool.descs[..]), pool.descs[..])
    {
      hide PagePool.Valid, CacheInv, BigInv, IsBlock, ObjAddr, PageToVirt, VirtToPfn;
      Owner(a);
      var page := GetHeadPage(pool.descs[..], VirtToPfn(obj));
      if pool.descs[page].kc == 0 {
        FreeBlock(page);
      } else {
        FreeObject(pool.descs[page].kc - 1, page, obj, a.k);
      }
    }

    /** The head page and owner that Free finds. */
    lemma Owner(a: Piece)
      requires Valid() && Live(a)
      ensures Start(a) >= DIRECT_MAP_BASE
      ensures var i := VirtToPfn(Start(a)); var d := pool.descs[..];
              && i < |d| && d[i].order < MAX_PAGE_ORDER && 0 <= GetHeadPage(d, i) < |d|
              && var h := GetHeadPage(d, i);
              if a.Obj? then h == a.g && d[h].kc == a.i + 1 else h == a.h && d[h].kc == 0
    {
      var d, m := pool.descs[..], pool.managed;
      match a
      case Obj(i, g, k) =>
        var s := caches[i].shape;
        assert caches[i].Valid() && Owned(d, m, s, caches[i].live, g);
        ObjectInside(g, k, s.sz, s.nr, s.order);
        assert ObjAddr(g, s.sz, k) < PageToVirt(g) + PAGE_SIZE * Pow2(s.order);
        OwnerRecovered(d, m, g, s.order, false, ObjAddr(g, s.sz, k));
      case Block(h) =>
        assert BigBlock(big, d, m, h);
        OwnerRecovered(d, m, h, big[h], false, PageToVirt(h));
    }

    /** put_page on a whole block: its one reference goes, the block stays out of the pool. */
    method FreeBlock(page: nat)
      requires Valid() && page in big
      modifies this`big, pool.descs, pool.links`rings, pool.links.prev, pool.links.next
      ensures Valid() && big == old(big) - {page}
      ensures pool.Lists() == old(pool.Lists()) && SameShape(old(pool.descs[..]), pool.descs[..])
    {
      hide PagePool.Valid, CacheInv, BigInv, IsBlock;
      ghost var d := pool.descs[..];
      BigFacts(big, d, pool.managed, page);
      var freed := pool.PutPage(page);
      big := big - {page};
      BigMinus(old(big), d, pool.descs[..], pool.managed, page);
      forall i | 0 <= i < |caches|
        ensures caches[i].Valid()
      {
        assert old(caches[i].Valid());
        CacheBesideBlock(caches[i].State(), caches[i].shape, old(big), d, pool.descs[..], pool.managed, ram.word, page);
      }
    }

    /** caches[n]->Free, and why the rest of the heap does not notice. */
    method FreeObject(n: nat, page: nat, obj: nat, ghost k: nat)
      requires Valid() && n < |caches| && page in caches[n].live && k in caches[n].live[page] && obj == ObjAddr(page, caches[n].shape.sz, k)
      modifies caches[n], ram, pool.descs, pool.links`rings, pool.links.prev, pool.links.next
      ensures Valid() && forall j :: 0 <= j < |caches| && j != n ==> caches[j].live == old(caches[j].live)
      ensures forall j :: 0 <= j < |caches| ==> caches[j].current == old(caches[j].current)
      ensures page < pool.descs.Length && !pool.descs[page].isFree
      ensures forall g, i :: (g in caches[n].live && i in caches[n].live[g]) <==> (g in old(caches[n].live) && i in old(caches[n].live)[g] && (g, i) != (page, k))
      ensures pool.Lists() == old(pool.Lists()) && SameShape(old(pool.descs[..]), pool.descs[..])
    {
      hide PagePool.Valid, CacheInv, BigInv, IsBlock, ObjAddr;
      var cache := caches[n];
      assert cache.Valid();
      cache.OwnedPage(page);
      ghost var c, d, m, w := cache.State(), pool.descs[..], pool.managed, ram.word;
      cache.Free(page, obj, k);
      BigKept(c, cache.shape, big, d, pool.descs[..], m, w);
      forall j | 0 <= j < |caches|
        ensures caches[j].Valid()
      {
        if j != n {
          assert old(caches[j].Valid()) && caches[j].State() == old(caches[j].State());
          OtherFreeKept(c, cache.shape, caches[j].State(), caches[j].shape, d, pool.descs[..], m, w, ram.word, page, k);
        }
      }
    }

    /** PageAlloc */
    method PageAlloc(order: nat) returns (p: Option<nat>)
      requires Valid()
      modifies pool.descs, pool.links`rings, pool.links.prev, pool.links.next
      ensures Valid() && p == AllocPage(old(pool.Lists()), order)
      ensures forall b: Piece :: old(Spent(b)) ==> Spent(b)
      ensures pool.descs[..] == AllocTags(old(pool.descs[..]), old(pool.Lists()), order)
      ensures pool.Lists() == AllocListsAfter(old(pool.Lists()), order)
    {
      hide PagePool.Valid, CacheInv, BigInv, AllocTags, AllocListsAfter, AllocPage, PoolInv;
      ghost var d := pool.descs[..];
      PoolInOrder(pool);
      AllocKeeps(d, pool.managed, pool.Lists(), order);
      p := pool.AllocPages(order);
      BigUnmoved(big, d, pool.descs[..], pool.managed);
      KeepCaches(d);
    }

    /** PageFree, of any page of a block that is in use but no piece of the heap. */
    method PageFree(p: Option<nat>)
      requires Valid()
      requires p.Some? ==> p.value in pool.managed && !pool.descs[p.value].isFree && LooseBlock(HeadOf(p.value, pool.descs[p.value].order))
      requires p.Some? ==>
               var h, k := HeadOf(p.value, pool.descs[p.value].order), pool.descs[p.value].order;
               && StaysInside(pool.descs[..], h, k, pool.orderChecked)
               && (pool.orderChecked || OrderGuard(pool.descs[..], h, k))
      modifies pool.descs, pool.links`rings, pool.links.prev, pool.links.next
      ensures Valid()
      ensures p.None? ==> pool.descs[..] == old(pool.descs[..]) && pool.Lists() == old(pool.Lists())
      ensures p.Some? ==>
              var d, k := old(pool.descs[..]), old(pool.descs[p.value].order);
              && pool.descs[..] == FreeTags(d, HeadOf(p.value, k), k, pool.orderChecked)
              && pool.Lists() == FreeListsAfter(d, old(pool.Lists()), HeadOf(p.value, k), k, pool.orderChecked)
              && forall b: Piece :: old(Spent(b)) && !InRun(HeadOf(p.value, k), k, b.g) ==> Spent(b)
    {
      hide CacheInv, BigInv, FreeTags, FreeListsAfter, OrderGuard, PoolInv;
      if p.Some? {
        ghost var d, m, lists := pool.descs[..], pool.managed, pool.Lists();
        PoolInOrder(pool);
        InUse(d, m, lists, p.value);
        ghost var h, k := HeadOf(p.value, d[p.value].order), d[p.value].order;
        HeadPageFound(d, m, h, k, false, p.value);
        var page := GetHeadPage(pool.descs[..], p.value);
        FreedElsewhere(d, m, lists, h, k, pool.orderChecked);
        assert pool.descs[page].pool == SELF;   // p->pool is this pool
        pool.FreePages(Some(page), pool.descs[page].order);
        BigBeside(big, d, pool.descs[..], m, h, k);
        forall i | 0 <= i < |caches|
          ensures caches[i].Valid()
        {
          assert old(caches[i].Valid());
          CacheBeside(caches[i].State(), caches[i].shape, d, pool.descs[..], m, ram.word, h, k);
        }
      }
    }

    /** Block h is no piece of the heap. */
    ghost predicate LooseBlock(h: nat)
      reads this, caches
    {
      h !in big && forall i :: 0 <= i < |caches| ==> h !in caches[i].live
    }

    /** Two pieces handed out at the same time never share a byte. */
    lemma PiecesDisjoint(a: Piece, b: Piece)
      requires Valid() && Live(a) && Live(b) && a != b
      ensures Start(a) + Size(a) <= Start(b) || Start(b) + Size(b) <= Start(a)
    {
      hide PagePool.Valid, CacheInv, BigInv, IsBlock, ObjAddr, PageToVirt;
      InBlock(a);
      InBlock(b);
      if a.Obj? && b.Obj? && a.i == b.i {
        var o := caches[a.i];
        assert o.Valid();
        LiveDisjoint(o.State(), o.shape, pool.descs[..], pool.managed, ram.word, a.g, a.k, b.g, b.k);
      } else {
        DifferentHeads(a, b);
        RangesApart(pool.descs[..], pool.managed, HeadOfPiece(a), OrderOfPiece(a), Start(a), Start(a) + Size(a),
          HeadOfPiece(b), OrderOfPiece(b), Start(b), Start(b) + Size(b));
      }
    }

    /** Whatever the holder of a piece does to its bytes, every cache stays in order: memory may
        change in all words that reach into the piece. */
    lemma PieceWriteKeeps(a: Piece, word': map<nat, nat>, i: nat)
      requires Valid() && Live(a) && i < |caches|
      requires forall b :: b in ram.word && (b + WORD <= Start(a) || Start(a) + Size(a) <= b) ==> b in word' && word'[b] == ram.word[b]
      ensures CacheInv(caches[i].State(), caches[i].shape, pool.descs[..], pool.managed, word')
    {
      hide PagePool.Valid, CacheInv, BigInv, IsBlock, ObjAddr, PageToVirt;
      var c, s, d, m := caches[i].State(), caches[i].shape, pool.descs[..], pool.managed;
      assert caches[i].Valid();
      if a.Obj? && a.i == i {
        ClientWriteKeeps(c, s, d, m, ram.word, word', a.g, a.k);
      } else {
        InBlock(a);
        forall g, k: nat | g in c.live && k < s.nr && ObjAddr(g, s.sz, k) in ram.word
          ensures var b := ObjAddr(g, s.sz, k); b in word' && word'[b] == ram.word[b]
        {
          BesidePiece(a, i, g, k);
        }
        CacheFrame(c, s, d, m, ram.word, d, word');
      }
    }

    /** An object of a cache, free or not, is no part of a piece of another owner. */
    lemma BesidePiece(a: Piece, i: nat, g: nat, k: nat)
      requires Valid() && Live(a) && i < |caches| && !(a.Obj? && a.i == i) && g in caches[i].live && k < caches[i].shape.nr
      ensures var b := ObjAddr(g, caches[i].shape.sz, k); b + WORD <= Start(a) || Start(a) + Size(a) <= b
    {
      hide *;
      var s, b := caches[i].shape, ObjAddr(g, caches[i].shape.sz, k);
      InBlock(a);
      OtherHead(a, i, g);
      ObjectInBlock(i, g, k);
      RangesApart(pool.descs[..], pool.managed, HeadOfPiece(a), OrderOfPiece(a), Start(a), Start(a) + Size(a), g, s.order, b, b + WORD);
    }

    /** The word at the start of an object lies in the object's block. */
    lemma ObjectInBlock(i: nat, g: nat, k: nat)
      requires Valid() && i < |caches| && g in caches[i].live && k < caches[i].shape.nr
      ensures var s := caches[i].shape; var b := ObjAddr(g, s.sz, k);
              && IsBlock(pool.descs[..], pool.managed, g, s.order, false)
              && PageToVirt(g) <= b && b + WORD <= PageToVirt(g + Pow2(s.order))
    {
      hide PagePool.Valid, CacheInv, BigInv, IsBlock, ObjAddr, PageToVirt;
      var s, d, m := caches[i].shape, pool.descs[..], pool.managed;
      assert caches[i].Valid();
      CacheShape(caches[i].State(), s, d, m, ram.word);
      OwnedHead(caches[i].State(), s, d, m, ram.word, g);
      ObjectInside(g, k, s.sz, s.nr, s.order);
    }

    /** A block of a cache is not the block of a piece of another owner. */
    lemma OtherHead(a: Piece, i: nat, g: nat)
      requires Valid() && Live(a) && i < |caches| && !(a.Obj? && a.i == i) && g in caches[i].live
      ensures HeadOfPiece(a) != g
    {
      hide PagePool.Valid, CacheInv, BigInv, IsBlock, ObjAddr, PageToVirt;
      Owner(a);
      assert caches[i].Valid();
      OwnedHead(caches[i].State(), caches[i].shape, pool.descs[..], pool.managed, ram.word, g);
    }

    ghost function HeadOfPiece(a: Piece): nat { if a.Obj? then a.g else a.h }

    ghost function OrderOfPiece(a: Piece): nat
      reads this
      requires a.Obj? ==> a.i < |caches|
      requires a.Block? ==> a.h in big
    {
      if a.Obj? then caches[a.i].shape.order else big[a.h]
    }

    /** A piece lies inside its block. */
    lemma InBlock(a: Piece)
      requires Valid() && Live(a)
      ensures (a.Obj? ==> a.i < |caches|) && (a.Block? ==> a.h in big)
      ensures IsBlock(pool.descs[..], pool.managed, HeadOfPiece(a), OrderOfPiece(a), false)
      ensures PageToVirt(HeadOfPiece(a)) <= Start(a) && Start(a) + Size(a) <= PageToVirt(HeadOfPiece(a) + Pow2(OrderOfPiece(a)))
    {
      var d, m := pool.descs[..], pool.managed;
      match a
      case Obj(i, g, k) =>
        var s := caches[i].shape;
        assert caches[i].Valid() && Owned(d, m, s, caches[i].live, g);
        ObjectInside(g, k, s.sz, s.nr, s.order);
      case Block(h) =>
        assert BigBlock(big, d, m, h);
    }

    /** Pieces of different owners lie in different blocks. */
    lemma DifferentHeads(a: Piece, b: Piece)
      requires Valid() && Live(a) && Live(b) && a != b && !(a.Obj? && b.Obj? && a.i == b.i)
      ensures HeadOfPiece(a) != HeadOfPiece(b)
    {
      Owner(a);
      Owner(b);
    }
  }

  lemma CacheShape(c: Cache, s: Shape, d: seq<Page>, m: set<nat>, w: map<nat, nat>)
    requires CacheInv(c, s, d, m, w)
    ensures s.Ok()
  {
  }

  lemma BigUnmoved(big: map<nat, nat>, d: seq<Page>, d': seq<Page>, m: set<nat>)
    requires BigInv(big, d, m) && |d'| == |d|
    requires forall x: nat :: x < |d| && !d[x].isFree ==> d'[x] == d[x]
    ensures BigInv(big, d', m)
  {
    forall h | h in big
      ensures BigBlock(big, d', m, h)
    {
      assert BigBlock(big, d, m, h) && InRun(h, big[h], h);
      BlockMoved(d, d', m, h, big[h]);
    }
  }

  lemma InUse(d: seq<Page>, m: set<nat>, lists: FreeLists, i: nat)
    requires PoolInv(d, m, lists) && i in m && (i < |d| ==> !d[i].isFree)
    ensures i < |d| && IsBlock(d, m, HeadOf(i, d[i].order), d[i].order, false) && HeadOf(i, d[i].order) in m
    ensures HeadOf(i, d[i].order) < |d| && d[HeadOf(i, d[i].order)].order == d[i].order
  {
    SameBlock(d, m, i, HeadOf(i, d[i].order));
  }

  /** Freeing a block in use leaves all other blocks in use as they are. */
  lemma FreedElsewhere(d: seq<Page>, m: set<nat>, lists: FreeLists, h: nat, k: nat, checked: bool)
    requires PoolInv(d, m, lists) && IsBlock(d, m, h, k, false) && (checked || OrderGuard(d, h, k))
    ensures forall x: nat :: x < |d| && !InRun(h, k, x) && !d[x].isFree ==> FreeTags(d, h, k, checked)[x] == d[x]
  {
    UsedFreeable(d, m, lists, h, k);
    FreeKeeps(d, m - Run(h, k), lists, h, k);
    LiteralFreeExact(d, m - Run(h, k), lists, h, k);
  }

  lemma BigBeside(big: map<nat, nat>, d: seq<Page>, d': seq<Page>, m: set<nat>, p: nat, k: nat)
    requires BigInv(big, d, m) && |d'| == |d| && p !in big && IsBlock(d, m, p, k, false)
    requires forall x: nat :: x < |d| && !InRun(p, k, x) && !d[x].isFree ==> d'[x] == d[x]
    ensures BigInv(big, d', m)
  {
    forall h | h in big
      ensures BigBlock(big, d', m, h)
    {
      assert BigBlock(big, d, m, h) && InRun(h, big[h], h);
      HeadsApart(d, m, p, k, h, big[h]);
      BlockMoved(d, d', m, h, big[h]);
    }
  }

  lemma CacheBeside(o: Cache, t: Shape, d: seq<Page>, d': seq<Page>, m: set<nat>, w: map<nat, nat>, p: nat, k: nat)
    requires CacheInv(o, t, d, m, w) && |d'| == |d| && p !in o.live && IsBlock(d, m, p, k, false)
    requires forall x: nat :: x < |d| && !InRun(p, k, x) && !d[x].isFree ==> d'[x] == d[x]
    ensures CacheInv(o, t, d', m, w)
  {
    forall h, x | h in o.live && InRun(h, t.order, x) && x < |d|
      ensures d'[x] == d[x]
    {
      assert Owned(d, m, t, o.live, h);
      HeadsApart(d, m, p, k, h, t.order);
    }
    CacheFrame(o, t, d, m, w, d', w);
  }

  lemma BigFacts(big: map<nat, nat>, d: seq<Page>, m: set<nat>, h: nat)
    requires BigInv(big, d, m) && h in big
    ensures h in m && h < |d| && !d[h].isFree && d[h].refCount == 0 && HeadOf(h, d[h].order) == h
  {
    assert BigBlock(big, d, m, h);
    BlockHead(d, m, h, big[h]);
  }

  /** A whole block leaves; the others stay. */
  lemma BigMinus(big: map<nat, nat>, d: seq<Page>, d': seq<Page>, m: set<nat>, p: nat)
    requires BigInv(big, d, m) && p in big && p < |d| && d' == d[p := d[p].(refCount := -1)]
    ensures BigInv(big - {p}, d', m) && SameShape(d, d')
  {
    forall h | h in big - {p}
      ensures BigBlock(big - {p}, d', m, h)
    {
      assert BigBlock(big, d, m, h);
      BlockShape(d, d', m, h, big[h], false);
    }
  }

  lemma CacheBesideBlock(o: Cache, t: Shape, big: map<nat, nat>, d: seq<Page>, d': seq<Page>, m: set<nat>, w: map<nat, nat>, p: nat)
    requires CacheInv(o, t, d, m, w) && BigInv(big, d, m) && p in big && p < |d| && d' == d[p := d[p].(refCount := -1)]
    ensures CacheInv(o, t, d', m, w)
  {
    assert BigBlock(big, d, m, p) && InRun(p, big[p], p);
    forall h, x | h in o.live && InRun(h, t.order, x) && x < |d|
      ensures d'[x] == d[x]
    {
      assert Owned(d, m, t, o.live, h) && InRun(h, t.order, h);
    }
    CacheFrame(o, t, d, m, w, d', w);
  }

  /** One cache's Free does not disturb another. */
  lemma OtherFreeKept(c: Cache, s: Shape, o: Cache, t: Shape, d: seq<Page>, d': seq<Page>, m: set<nat>, w: map<nat, nat>, w': map<nat, nat>, g: nat, i: nat)
    requires CacheInv(c, s, d, m, w) && CacheInv(o, t, d, m, w) && s.self != t.self && |d'| == |d|
    requires g in c.live && i in c.live[g]
    requires forall x: nat :: x < |d| && x != g ==> d'[x] == d[x]
    requires forall a :: a in w && Apart(a, ObjAddr(g, s.sz, i)) ==> a in w' && w'[a] == w[a]
    ensures CacheInv(o, t, d', m, w')
  {
    assert Owned(d, m, s, c.live, g) && InRun(g, s.order, g);
    forall h, x | h in o.live && InRun(h, t.order, x) && x < |d|
      ensures d'[x] == d[x]
    {
      assert Owned(d, m, t, o.live, h) && InRun(h, t.order, h);
    }
    forall h, j: nat | h in o.live && j < t.nr
      ensures Apart(ObjAddr(h, t.sz, j), ObjAddr(g, s.sz, i))
    {
      assert Owned(d, m, t, o.live, h) && InRun(h, t.order, h);
      ForeignAddress(d, m, s, t, g, i, h, j);
    }
    CacheFrame(o, t, d, m, w, d', w');
  }

  lemma PoolInOrder(p: PagePool)
    requires p.Valid()
    ensures PoolInv(p.descs[..], p.managed, p.Lists()) && |p.Lists()| == MAX_PAGE_ORDER
  {
  }

  /** If the least sufficient order fails, so does every sufficient one. */
  lemma NoneLeft(d: seq<Page>, m: set<nat>, lists: FreeLists, size: nat, order: nat)
    requires PoolInv(d, m, lists) && AllocPage(lists, order).None?
    requires forall k: nat :: size <= PAGE_SIZE * Pow2(k) ==> order <= k
    ensures forall k: nat :: size <= PAGE_SIZE * Pow2(k) && k < MAX_PAGE_ORDER ==> !exists p: nat :: FreeRun(d, m, p, k)
  {
    forall k: nat, p: nat | size <= PAGE_SIZE * Pow2(k) && k < MAX_PAGE_ORDER && FreeRun(d, m, p, k)
      ensures false
    {
      AlignedWeaken(p, order, k);
      Pow2Mono(order, k);
      assert forall i: nat :: InRun(p, order, i) ==> InRun(p, k, i);
      assert FreeRun(d, m, p, order);
      AllocComplete(d, m, lists, order);
    }
  }

  /** The block just handed out: its head was free and has no reference yet. */
  lemma AllocatedBlock(d: seq<Page>, m: set<nat>, lists: FreeLists, k: nat)
    requires PoolInv(d, m, lists) && AllocPage(lists, k).Some?
    ensures var p := AllocPage(lists, k).value; var e := AllocTags(d, lists, k);
            p < |d| && d[p].isFree && IsBlock(e, m, p, k, false) && e[p].refCount == -1 && e[p].kc == 0
  {
    var p := AllocPage(lists, k).value;
    AllocKeeps(d, m, lists, k);
    assert InRun(p, k, p);
    AllocHead(d, lists, k);
  }

  /** The new block joins those handed out whole. */
  lemma GotBlock(big: map<nat, nat>, d: seq<Page>, e: seq<Page>, f: seq<Page>, m: set<nat>, p: nat, k: nat)
    requires BigInv(big, d, m) && |d| == |e| && p < |d| && d[p].isFree
    requires forall x: nat :: x < |d| && !d[x].isFree ==> e[x] == d[x]
    requires IsBlock(e, m, p, k, false) && e[p].refCount == -1 && e[p].kc == 0
    requires f == e[p := e[p].(refCount := 0)]
    ensures p !in big && BigInv(big[p := k], f, m) && BigInv(big, d, m)
    ensures forall x: nat :: x < |d| && !d[x].isFree ==> f[x] == d[x]
  {
    forall h | h in big
      ensures BigBlock(big[p := k], f, m, h) && h != p
    {
      assert BigBlock(big, d, m, h) && InRun(h, big[h], h);
      BlockMoved(d, f, m, h, big[h]);
    }
    BlockShape(e, f, m, p, k, false);
    assert BigBlock(big[p := k], f, m, p);
  }

  lemma CacheUnmoved(c: Cache, s: Shape, d: seq<Page>, d': seq<Page>, m: set<nat>, w: map<nat, nat>)
    requires CacheInv(c, s, d, m, w) && |d'| == |d|
    requires forall x: nat :: x < |d| && !d[x].isFree ==> d'[x] == d[x]
    ensures CacheInv(c, s, d', m, w)
  {
    forall h, x | h in c.live && InRun(h, s.order, x) && x < |d|
      ensures d'[x] == d[x]
    {
      assert Owned(d, m, s, c.live, h);
    }
    CacheFrame(c, s, d, m, w, d', w);
  }

  // -------------------------------------------------------------- set-up

  /** kheap_pool_init: one cache for each default size, all on the one page pool. */
  method KheapPoolInit(pool: PagePool, ram: Ram) returns (heap: KHeapPool)
    requires pool.Valid() && pool.descs.Length <= DIRECT_PAGES
    ensures fresh(heap) && heap.Valid() && heap.pool == pool && heap.ram == ram
    ensures |heap.caches| == |KOBJ_DEFAULT_SIZE|
    ensures forall i :: 0 <= i < |heap.caches| ==> fresh(heap.caches[i]) && heap.caches[i].shape.sz == KOBJ_DEFAULT_SIZE[i]
    ensures forall a: Piece :: !heap.Live(a)
  {
    hide PagePool.Valid, CacheInv, BigInv, KMemCache.Valid, KHeapPool.Valid, KHeapPool.Wired;
    var caches: seq<KMemCache>, i := [], 0;
    while i < |KOBJ_DEFAULT_SIZE|
      invariant |caches| == i <= |KOBJ_DEFAULT_SIZE|
      invariant forall j, k :: 0 <= j < k < i ==> caches[j] != caches[k]
      invariant forall j :: 0 <= j < i ==> fresh(caches[j]) && caches[j].Valid() && caches[j].pool == pool && caches[j].ram == ram
      invariant forall j :: 0 <= j < i ==> caches[j].shape.self == j + 1 && caches[j].shape.sz == KOBJ_DEFAULT_SIZE[j] && caches[j].live == map[]
    {
      var cache := new KMemCache(pool, ram, i + 1, KOBJ_DEFAULT_SIZE[i]);
      caches := caches + [cache];
      i := i + 1;
    }
    heap := new KHeapPool(pool, ram, caches);
  }

  /** mm_core_init: from the page database to a heap that has handed out nothing
      and whose pool has exactly the pages marked for it, all free. */
  method MmCoreInit(pgdb: array<Page>, nr: nat, checked: bool, ram: Ram) returns (heap: KHeapPool)
    requires HandOff.FreshDatabase(pgdb[..]) && nr <= pgdb.Length <= DIRECT_PAGES
    requires Walled(pgdb.Length, HandOff.WantedBelow(pgdb[..], nr)) && (checked || HandOff.SafeHoles(pgdb[..], nr))
    modifies pgdb
    ensures fresh(heap) && heap.Valid() && heap.pool.descs == pgdb && heap.ram == ram && heap.pool.orderChecked == checked
    ensures forall a: Piece :: !heap.Live(a)
    ensures heap.pool.managed == HandOff.WantedBelow(old(pgdb[..]), nr)
    ensures forall i :: 0 <= i < pgdb.Length ==> (pgdb[i].isFree <==> i < nr && HandOff.Wanted(old(pgdb[i])))
  {
    hide PagePool.Valid, HandOff.SafeHoles, HandOff.FreshDatabase, HandOff.WantedBelow;
    var pool := HandOff.PagesPoolInit(pgdb, nr, checked);
    heap := KheapPoolInit(pool, ram);
  }
}
