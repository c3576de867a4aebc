/** From the boot source to a working heap: the boot stages and mm_core_init one after the other. */
module Startup {
  import opened Bits
  import opened Options
  import opened Buddy
  import opened BuddyEdge
  import opened Addresses
  import opened BootSource
  import opened BootMap
  import opened HandOff
  import opened PageDatabase
  import opened Slab
  import opened Heap

  /** mm_core_init on the database of the boot stages: an empty heap in order, whose pool has, all free,
      exactly the frames that the source had left, and no page that boot took for its tables or descriptors. */
  method CoreInit(ghost m: Mapper, ghost frames: seq<nat>, pgdb: array<Page>, nr: nat, checked: bool, ram: Ram) returns (heap: KHeapPool)
    requires m.Valid() && DatabaseReady(m, nr, frames) && AlignedMap(m.source.entries) && SortedMap(m.source.entries)
    requires nr <= pgdb.Length <= DIRECT_PAGES && pgdb[..] == Database(m.source, pgdb.Length)
    requires forall i :: 0 <= i < |m.source.entries| ==> m.source.entries[i].addr + m.source.entries[i].len <= nr * PAGE_SIZE
    requires Walled(pgdb.Length, LeftOver(m.source, nr)) && (checked || SafeHoles(pgdb[..], nr))
    modifies pgdb
    ensures fresh(heap) && heap.Valid() && heap.ram == ram && heap.pool.descs == pgdb && heap.pool.orderChecked == checked
    ensures forall a: Piece :: !heap.Live(a)
    ensures heap.pool.managed == LeftOver(m.source, nr)
    ensures forall p: nat :: p < pgdb.Length ==> (pgdb[p].isFree <==> p in heap.pool.managed)
    ensures forall x :: x in m.source.taken ==> x / PAGE_SIZE !in heap.pool.managed
  {
    hide Mapper.Valid, DatabaseReady, AlignedMap, SortedMap, Walled, SafeHoles, Database, LeftOver;
    var pool := BootToPool(m, frames, pgdb, nr, checked);
    heap := KheapPoolInit(pool, ram);
  }

  /** Descriptors that the boot stages map for a memory map. */
  function DescriptorCount(es: seq<MmapEntry>): nat {
    (TopOf(es, |es|) / PAGE_SIZE + PGDB_PG_PAGE_NR - 1) / PGDB_PG_PAGE_NR * PGDB_PG_PAGE_NR
  }

  /** Frames that lie wholly in an available entry. */
  ghost function AvailableFrames(es: seq<MmapEntry>): set<nat> {
    set p: nat | p < TopOf(es, |es|) / PAGE_SIZE && Available(es, p)
  }

  ghost predicate Available(es: seq<MmapEntry>, p: nat) { exists j :: 0 <= j < |es| && PageInEntry(es[j], p * PAGE_SIZE) }

  lemma LeftOverAvailable(s: PageSource)
    requires s.Valid()
    ensures LeftOver(s, TopOf(s.entries, |s.entries|) / PAGE_SIZE) <= AvailableFrames(s.entries)
  {
    hide InUsedRange, PageInEntry, TopOf, PagesFrom, PagesOf;
    PagesFromContents(s.entries, 0);
    forall p: nat | p * PAGE_SIZE in s.Remaining()
      ensures Available(s.entries, p)
    {
      MarkedContents(s.Remaining(), PagesFrom(s.entries, 0), s.currAvail, p * PAGE_SIZE);
    }
  }

  lemma WalledLess(n: nat, all: set<nat>, m: set<nat>)
    requires Walled(n, all) && m <= all
    ensures Walled(n, m)
  {
    forall p: nat, t: nat | t < MAX_PAGE_ORDER - 1 && Aligned(p, t) && RunIn(m, p, t)
      ensures BuddyPfn(p, t) < n
    {
      assert RunIn(all, p, t);
    }
  }

  /** The whole way, with the order test: from a memory map whose available runs have their buddies among
      the descriptors either an error, or a heap in order over all that boot left. */
  method Start(source: PageSource, ram: Ram) returns (status: BootStatus, m: Option<Mapper>, heap: Option<KHeapPool>)
    requires source.Valid() && AlignedMap(source.entries) && SortedMap(source.entries) && GoodRanges(source.used)
    requires forall i :: 0 <= i < |source.entries| ==> source.entries[i].addr + source.entries[i].len < WORD_LIMIT
    requires DescriptorCount(source.entries) <= DIRECT_PAGES && Walled(DescriptorCount(source.entries), AvailableFrames(source.entries))
    modifies source
    ensures source.Valid() && FailureMeans(status, source)
    ensures (status == Done ==> m.Some? && heap.Some? && m.value.source == source && m.value.Valid())
    ensures status == Done ==> DirectMapReady(m.value)
    ensures status == Done ==> heap.value.Valid() && heap.value.ram == ram && forall a: Piece :: !heap.value.Live(a)
    ensures status == Done ==> heap.value.pool.managed == LeftOver(source, TopOf(source.entries, |source.entries|) / PAGE_SIZE)
    ensures status == Done ==> forall x :: x in source.taken ==> x / PAGE_SIZE !in heap.value.pool.managed
  {
    hide PageSource.Valid, Mapper.Valid, AlignedMap, SortedMap, GoodRanges, DirectMapReady, Walled, LeftOver, Database, TopOf, AvailableFrames;
    heap := None;
    var pgdb, nr;
    ghost var frames;
    status, m, pgdb, nr, frames := BootMmInit(source);
    if status != Done {
      return;
    }
    LeftOverAvailable(source);
    WalledLess(pgdb.Length, AvailableFrames(source.entries), LeftOver(source, nr));
    var h := CoreInit(m.value, frames, pgdb, nr, true, ram);
    heap := Some(h);
  }
}
