/** boot_mm_page_database_init, and what it means for the hand-over: the free
    pages of the pool are the pages the boot source had left and nobody uses. */
module PageDatabase {
  import opened Options
  import opened Buddy
  import opened BuddyEdge
  import opened Addresses
  import opened BootSource
  import opened BootMap
  import opened HandOff

  /** Frame p starts inside the entry. */
  predicate EntryHas(e: MmapEntry, p: nat) { e.addr <= p * PAGE_SIZE < e.addr + e.len }

  function TypeOf(kind: nat): PageType {
    if kind == MEMORY_AVAILABLE then NormalMem
    else if kind == MEMORY_RESERVED then Reserved
    else if kind == MEMORY_ACPI_RECLAIMABLE then AcpiReclaimable
    else if kind == MEMORY_NVS then Nvs
    else if kind == MEMORY_BADRAM then BadRam
    else Unknown
  }

  /** What the loop body writes into the descriptor of frame p. */
  ghost function Classified(e: MmapEntry, avail: nat, u: UsedRanges, p: nat, pg: Page): Page {
    pg.(kc := 0, pool := 0, freelist := 0, objNr := 0, typ := TypeOf(e.kind),
        refCount := if e.kind == MEMORY_AVAILABLE && !(p * PAGE_SIZE < avail || InUsedRange(u, p * PAGE_SIZE)) then -1 else 0)
  }

  /** Descriptor of frame p after the first n entries. */
  ghost function DbPage(es: seq<MmapEntry>, n: nat, avail: nat, u: UsedRanges, p: nat, pg: Page): Page
    requires n <= |es|
  {
    if n == 0 then pg
    else if EntryHas(es[n - 1], p) then Classified(es[n - 1], avail, u, p, DbPage(es, n - 1, avail, u, p, pg))
    else DbPage(es, n - 1, avail, u, p, pg)
  }

  /** The loop over the frames of one entry. */
  method ClassifyEntry(e: MmapEntry, avail: nat, u: UsedRanges, pgdb: array<Page>)
    requires e.addr % PAGE_SIZE == 0 && e.addr + e.len <= pgdb.Length * PAGE_SIZE
    modifies pgdb
    ensures forall p: nat :: p < pgdb.Length ==>
      pgdb[p] == if EntryHas(e, p) then Classified(e, avail, u, p, old(pgdb[p])) else old(pgdb[p])
  {
    var base, end := e.addr, e.addr + e.len;
    while base < end
      invariant base % PAGE_SIZE == 0 && e.addr <= base
      invariant forall p: nat :: p < pgdb.Length ==>
        pgdb[p] == if EntryHas(e, p) && p * PAGE_SIZE < base then Classified(e, avail, u, p, old(pgdb[p])) else old(pgdb[p])
    {
      var pfn := base / PAGE_SIZE;
      var pg := pgdb[pfn].(kc := 0, pool := 0, freelist := 0, objNr := 0, typ := TypeOf(e.kind));
      if e.kind == MEMORY_AVAILABLE {
        var used := AddrIsInUsedRange(u, base);
        pg := pg.(refCount := if base < avail || used then 0 else -1);
      } else {
        pg := pg.(refCount := 0);
      }
      pgdb[pfn] := pg;
      base := base + PAGE_SIZE;
    }
  }

  method PageDatabaseInit(es: seq<MmapEntry>, avail: nat, u: UsedRanges, pgdb: array<Page>)
    requires forall i :: 0 <= i < |es| ==> es[i].addr % PAGE_SIZE == 0 && es[i].addr + es[i].len <= pgdb.Length * PAGE_SIZE
    modifies pgdb
    ensures forall p: nat :: p < pgdb.Length ==> pgdb[p] == DbPage(es, |es|, avail, u, p, old(pgdb[p]))
  {
    var i := 0;
    while i < |es|
      invariant i <= |es|
      invariant forall p: nat :: p < pgdb.Length ==> pgdb[p] == DbPage(es, i, avail, u, p, old(pgdb[p]))
    {
      ClassifyEntry(es[i], avail, u, pgdb);
      i := i + 1;
    }
  }

  // ---------------------------------------------------------- meaning

  /** A descriptor as boot_memset leaves it. */
  function ZeroDesc(): Page { Page(NonExisted, false, false, 0, 0, 0, 0, 0, 0, 0) }

  /** Entries are page-aligned and do not overlap. */
  ghost predicate AlignedMap(es: seq<MmapEntry>) {
    && (forall i :: 0 <= i < |es| ==> es[i].addr % PAGE_SIZE == 0 && es[i].len % PAGE_SIZE == 0)
    && (forall i, j :: 0 <= i < |es| && 0 <= j < |es| && i != j ==>
          es[i].addr + es[i].len <= es[j].addr || es[j].addr + es[j].len <= es[i].addr)
  }

  /** Available entries come in the order of their addresses. */
  ghost predicate SortedMap(es: seq<MmapEntry>) {
    forall i, j :: 0 <= i < j < |es| && es[i].kind == es[j].kind == MEMORY_AVAILABLE ==> es[i].addr + es[i].len <= es[j].addr
  }

  ghost predicate FreeAt(e: MmapEntry, avail: nat, u: UsedRanges, p: nat) {
    e.kind == MEMORY_AVAILABLE && EntryHas(e, p) && p * PAGE_SIZE >= avail && !InUsedRange(u, p * PAGE_SIZE)
  }

  /** A zeroed descriptor becomes wanted when an available entry has its frame,
      at or after the mark, out of use; it is not marked free. */
  lemma {:induction false} DbWanted(es: seq<MmapEntry>, n: nat, avail: nat, u: UsedRanges, p: nat)
    requires AlignedMap(es) && n <= |es|
    ensures var pg := DbPage(es, n, avail, u, p, ZeroDesc());
            && (Wanted(pg) <==> exists j :: 0 <= j < n && FreeAt(es[j], avail, u, p)) && !pg.isFree
  {
    if n > 0 {
      DbWanted(es, n - 1, avail, u, p);
      if EntryHas(es[n - 1], p) {
        assert forall j :: 0 <= j < n - 1 ==> !EntryHas(es[j], p);
      }
    }
  }

  /** Memory types of the Multiboot2 Specification, section 3.6.8, and what the kernel calls them. */
  predicate TypeMatches(kind: nat, t: PageType) {
    match t
    case NormalMem => kind == 1
    case Reserved => kind == 2
    case AcpiReclaimable => kind == 3
    case Nvs => kind == 4
    case BadRam => kind == 5
    case Unknown => kind == 0 || kind > 5
    case NonExisted => false
  }

  /** The descriptor of a frame: by the one entry that holds it, or as it was cleared if none does. */
  lemma {:induction false} DbMeaning(es: seq<MmapEntry>, n: nat, avail: nat, u: UsedRanges, p: nat)
    requires AlignedMap(es) && n <= |es|
    ensures var pg := DbPage(es, n, avail, u, p, ZeroDesc());
            && (forall j {:trigger es[j]} :: 0 <= j < n && es[j].addr <= p * 4096 < es[j].addr + es[j].len ==>
                && TypeMatches(es[j].kind, pg.typ)
                && pg.refCount == (if es[j].kind == 1 && avail <= p * 4096 && !InUsedRange(u, p * 4096) then -1 else 0)
                && pg.kc == pg.pool == pg.freelist == pg.objNr == 0 && !pg.isFree && !pg.isHead)
            && ((forall j {:trigger es[j]} :: 0 <= j < n ==> !(es[j].addr <= p * 4096 < es[j].addr + es[j].len)) ==> pg == ZeroDesc())
  {
    hide InUsedRange;
    if n > 0 {
      DbMeaning(es, n - 1, avail, u, p);
      DbShape(es, n - 1, avail, u, p);
    }
  }

  /** No entry touches the head and free marks. */
  lemma {:induction false} DbShape(es: seq<MmapEntry>, n: nat, avail: nat, u: UsedRanges, p: nat)
    requires n <= |es|
    ensures var pg := DbPage(es, n, avail, u, p, ZeroDesc()); !pg.isFree && !pg.isHead
  {
    if n > 0 { DbShape(es, n - 1, avail, u, p); }
  }

  lemma {:induction false} PagesOfAscend(a: nat, e: nat)
    ensures forall i, j :: 0 <= i < j < |PagesOf(a, e)| ==> PagesOf(a, e)[i] + PAGE_SIZE <= PagesOf(a, e)[j]
    ensures forall i :: 0 <= i < |PagesOf(a, e)| ==> a <= PagesOf(a, e)[i]
    decreases if e > a then e - a else 0
  {
    if a < e { PagesOfAscend(a + PAGE_SIZE, e); }
  }

  /** On a sorted map the source draws pages in ascending order. */
  lemma {:induction false} PagesAscend(es: seq<MmapEntry>, i: nat)
    requires NoOverflow(es) && RegionsDisjoint(es) && SortedMap(es)
    ensures forall j, k :: 0 <= j < k < |PagesFrom(es, i)| ==> PagesFrom(es, i)[j] + PAGE_SIZE <= PagesFrom(es, i)[k]
    decreases |es| - i
  {
    if i < |es| {
      var first, rest := EntryPages(es[i]), PagesFrom(es, i + 1);
      PagesAscend(es, i + 1);
      PagesFromContents(es, i + 1);
      EntryPagesContents(es[i]);
      if es[i].kind == MEMORY_AVAILABLE { PagesOfAscend(PageUp(es[i].addr), PageDown(es[i].addr + es[i].len)); }
      forall x, y | x in first && y in rest
        ensures x + PAGE_SIZE <= y
      {
        assert PageInEntry(es[i], x);
        var j :| i + 1 <= j < |es| && PageInEntry(es[j], y);
      }
      forall j, k | 0 <= j < k < |first + rest|
        ensures (first + rest)[j] + PAGE_SIZE <= (first + rest)[k]
      {
        if j < |first| <= k { assert first[j] in first && rest[k - |first|] in rest; }
      }
    }
  }

  /** Pages not yet drawn are those from the mark on. */
  lemma MarkSplits(all: seq<nat>, r: seq<nat>, mark: nat, x: nat)
    requires Marked(r, all, mark) && x in all
    requires forall j, k :: 0 <= j < k < |all| ==> all[j] + PAGE_SIZE <= all[k]
    ensures x in r <==> x >= mark
  {
    var i :| 0 <= i < |all| && all[i] == x;
    var k := |all| - |r|;
    if i >= k {
      assert r[i - k] == x;
    }
  }

  /** End to end: the database marks a frame for the pool exactly when the boot
      source had it left and nothing uses it; no page that the source handed out
      is among them. */
  lemma HandOffExact(s: PageSource, p: nat)
    requires s.Valid() && AlignedMap(s.entries) && SortedMap(s.entries)
    ensures var pg := DbPage(s.entries, |s.entries|, s.currAvail, s.used, p, ZeroDesc());
            && (Wanted(pg) <==> p * PAGE_SIZE in s.Remaining() && !InUsedRange(s.used, p * PAGE_SIZE))
            && (Wanted(pg) ==> p * PAGE_SIZE !in s.taken)
  {
    hide DbPage, Wanted, FreeAt, PagesFrom, InUsedRange, AlignedMap, SortedMap, NoOverflow, RegionsDisjoint, Marked;
    var es, x, all := s.entries, p * PAGE_SIZE, PagesFrom(s.entries, 0);
    DbWanted(es, |es|, s.currAvail, s.used, p);
    FreeAtIsPage(es, s.currAvail, s.used, p);
    PagesAscend(es, 0);
    MarkedContents(s.Remaining(), all, s.currAvail, x);
    if x in all {
      MarkSplits(all, s.Remaining(), s.currAvail, x);
    }
  }

  lemma MarkedContents(r: seq<nat>, all: seq<nat>, mark: nat, x: nat)
    requires Marked(r, all, mark)
    ensures x in r ==> x in all
  {
  }

  lemma FreeAtIsPage(es: seq<MmapEntry>, avail: nat, u: UsedRanges, p: nat)
    requires AlignedMap(es) && NoOverflow(es) && RegionsDisjoint(es)
    ensures var x := p * PAGE_SIZE;
            (exists j :: 0 <= j < |es| && FreeAt(es[j], avail, u, p)) <==> x in PagesFrom(es, 0) && x >= avail && !InUsedRange(u, x)
  {
    hide InUsedRange, PagesFrom;
    PagesFromContents(es, 0);
    forall j | 0 <= j < |es| && es[j].kind == MEMORY_AVAILABLE
      ensures EntryHas(es[j], p) <==> PageInEntry(es[j], p * PAGE_SIZE)
    {
      MultipleBelow(p, es[j].addr + es[j].len);
    }
    if p * PAGE_SIZE in PagesFrom(es, 0) && p * PAGE_SIZE >= avail && !InUsedRange(u, p * PAGE_SIZE) {
      var j :| 0 <= j < |es| && PageInEntry(es[j], p * PAGE_SIZE);
      assert FreeAt(es[j], avail, u, p);
    }
  }

  lemma MultipleBelow(p: nat, e: nat)
    requires e % PAGE_SIZE == 0
    ensures p * PAGE_SIZE < e <==> p * PAGE_SIZE + PAGE_SIZE <= e
  {
  }

  /** The database on top of zeroed descriptors is one the pool can start from. */
  lemma DatabaseFresh(es: seq<MmapEntry>, avail: nat, u: UsedRanges, d: seq<Page>)
    requires AlignedMap(es)
    requires forall p: nat :: p < |d| ==> d[p] == DbPage(es, |es|, avail, u, p, ZeroDesc())
    ensures FreshDatabase(d)
  {
    forall p: nat | p < |d|
      ensures !d[p].isFree
    {
      DbWanted(es, |es|, avail, u, p);
    }
  }

  /** The page database that the source's state leads to. */
  ghost function Database(s: PageSource, n: nat): (d: seq<Page>)
    reads s
    ensures |d| == n
    ensures forall p :: 0 <= p < n ==> d[p] == DbPage(s.entries, |s.entries|, s.currAvail, s.used, p, ZeroDesc())
  {
    seq(n, p requires 0 <= p < n reads s => DbPage(s.entries, |s.entries|, s.currAvail, s.used, p, ZeroDesc()))
  }

  /** Frames that the source has left and nothing uses. */
  ghost function LeftOver(s: PageSource, nr: nat): set<nat>
    reads s
  {
    set p: nat | p < nr && p * PAGE_SIZE in s.Remaining() && !InUsedRange(s.used, p * PAGE_SIZE)
  }

  lemma {:induction false} TopBounds(es: seq<MmapEntry>, n: nat)
    requires AlignedMap(es) && n <= |es| && forall i :: 0 <= i < |es| ==> es[i].addr + es[i].len < WORD_LIMIT
    ensures TopOf(es, n) % PAGE_SIZE == 0
    ensures forall i :: 0 <= i < n ==> es[i].addr + es[i].len <= TopOf(es, n)
  {
    hide EntryEnd;
    if n > 0 {
      TopBounds(es, n - 1);
      EndBounds(es[n - 1]);
    }
  }

  lemma EndBounds(e: MmapEntry)
    requires e.addr % PAGE_SIZE == 0 && e.len % PAGE_SIZE == 0 && e.addr < WORD_LIMIT
    ensures EntryEnd(e) % PAGE_SIZE == 0 && e.addr + e.len == EntryEnd(e)
  {
    PageDownIs(e.addr);
  }

  lemma FramesCover(nr: nat, frames: nat)
    requires frames == (nr + PGDB_PG_PAGE_NR - 1) / PGDB_PG_PAGE_NR
    ensures nr <= frames * PGDB_PG_PAGE_NR < nr + PGDB_PG_PAGE_NR
  {
  }

  /** The two stages of boot_mm_init: tables and mappings, then the page database on the descriptors
      that the mapped zeroed frames hold. */
  method BootMmInit(source: PageSource)
    returns (status: BootStatus, m: Option<Mapper>, pgdb: array<Page>, nr: nat, ghost frames: seq<nat>)
    requires source.Valid() && AlignedMap(source.entries)
    requires forall i :: 0 <= i < |source.entries| ==> source.entries[i].addr + source.entries[i].len < WORD_LIMIT
    requires TopOf(source.entries, |source.entries|) / PAGE_SIZE * 64 <= PAGE_DATABASE_END + 1 - PAGE_DATABASE_BASE
    requires GoodRanges(source.used)
    modifies source
    ensures source.Valid() && fresh(pgdb) && FailureMeans(status, source)
    ensures status == Done ==> m.Some? && m.value.source == source && m.value.Valid() && DirectMapReady(m.value)
    ensures status == Done ==> nr == TopOf(source.entries, |source.entries|) / PAGE_SIZE
    ensures status == Done ==> DatabaseReady(m.value, nr, frames) && pgdb.Length == |frames| * PGDB_PG_PAGE_NR
    ensures status == Done ==> nr <= pgdb.Length && pgdb[..] == Database(source, pgdb.Length)
    ensures status == Done ==> forall i :: 0 <= i < |source.entries| ==> source.entries[i].addr + source.entries[i].len <= nr * PAGE_SIZE
  {
    hide DbPage, PageSource.Valid, Mapper.Valid, DirectMapReady, ImageReady, BssReady, TopOf, AlignedMap;
    ghost var image, bss;
    status, m, nr, frames, image, bss := PgtableInit(source);
    if status != Done {
      pgdb := new Page[0];
      return;
    }
    FramesCover(nr, |frames|);
    pgdb := new Page[(nr + PGDB_PG_PAGE_NR - 1) / PGDB_PG_PAGE_NR * PGDB_PG_PAGE_NR](i => ZeroDesc());
    FirstAligned(source.entries);
    TopBounds(source.entries, |source.entries|);
    PageDatabaseInit(source.entries, source.currAvail, source.used, pgdb);
  }

  /** The pool made from the page database after boot manages, all free, exactly the frames that the
      source had left and nothing uses: no page that was handed out, and so no page table and no frame
      of descriptors. The kernel has as many descriptors as fill whole pages; each run of frames that
      becomes free must have its buddy among them. */
  method BootToPool(ghost m: Mapper, ghost frames: seq<nat>, pgdb: array<Page>, nr: nat, checked: bool)
    returns (pool: PagePools.PagePool)
    requires m.Valid() && DatabaseReady(m, nr, frames) && AlignedMap(m.source.entries) && SortedMap(m.source.entries)
    requires nr <= pgdb.Length && pgdb[..] == Database(m.source, pgdb.Length)
    requires forall i :: 0 <= i < |m.source.entries| ==> m.source.entries[i].addr + m.source.entries[i].len <= nr * PAGE_SIZE
    requires Walled(pgdb.Length, LeftOver(m.source, nr)) && (checked || SafeHoles(pgdb[..], nr))
    modifies pgdb
    ensures fresh(pool) && pool.descs == pgdb && pool.Valid() && pool.orderChecked == checked
    ensures pool.managed == LeftOver(m.source, nr)
    ensures forall p: nat :: p < pgdb.Length ==> (pgdb[p].isFree <==> p in pool.managed)
    ensures forall x :: x in m.source.taken ==> x / PAGE_SIZE !in pool.managed
    ensures forall t :: t in m.labels ==> t / PAGE_SIZE !in pool.managed
    ensures forall i :: 0 <= i < |frames| ==> frames[i] / PAGE_SIZE !in pool.managed
    ensures forall p: nat :: p in pool.managed ==> PageClear(m.source.used, p * PAGE_SIZE)
  {
    hide DbPage, Wanted, InUsedRange, AlignedMap, SortedMap, PageSource.Valid, PageSource.Remaining;
    hide FreshDatabase, SafeHoles, Database, HandOver, PagePools.PagePool.Valid, Walled, PageClear;
    ghost var d, s := pgdb[..], m.source;
    DatabaseFresh(s.entries, s.currAvail, s.used, d);
    WantedLeft(s, d, nr);
    forall x | x in s.taken
      ensures x / PAGE_SIZE !in LeftOver(s, nr)
    {
      TakenPage(s, x);
      TakenGone(s, x, nr);
    }
    forall p: nat | p in LeftOver(s, nr)
      ensures PageClear(s.used, p * PAGE_SIZE)
    {
      LeftOverClear(s, nr, p);
    }
    pool := PagesPoolInit(pgdb, nr, checked);
  }

  lemma LeftOverClear(s: PageSource, nr: nat, p: nat)
    requires p in LeftOver(s, nr)
    ensures PageClear(s.used, p * PAGE_SIZE)
  {
    UnusedClear(s.used, p * PAGE_SIZE);
  }

  /** What the database marks is what the source has left. */
  lemma WantedLeft(s: PageSource, d: seq<Page>, nr: nat)
    requires s.Valid() && AlignedMap(s.entries) && SortedMap(s.entries) && d == Database(s, |d|) && nr <= |d|
    ensures WantedBelow(d, nr) == LeftOver(s, nr)
    ensures forall p: nat :: p in LeftOver(s, nr) ==> p * PAGE_SIZE !in s.taken
  {
    hide DbPage, Wanted, InUsedRange, AlignedMap, SortedMap, PageSource.Valid, PageSource.Remaining;
    forall p: nat { HandOffExact(s, p); }
  }

  lemma TakenGone(s: PageSource, x: nat, nr: nat)
    requires s.Valid() && AlignedMap(s.entries) && SortedMap(s.entries) && x in s.taken && x % PAGE_SIZE == 0
    ensures x / PAGE_SIZE !in LeftOver(s, nr)
  {
    hide DbPage, Wanted, InUsedRange, AlignedMap, SortedMap, PageSource.Valid, PageSource.Remaining;
    HandOffExact(s, x / PAGE_SIZE);
  }

  lemma FirstAligned(es: seq<MmapEntry>)
    requires AlignedMap(es)
    ensures forall i :: 0 <= i < |es| ==> es[i].addr % PAGE_SIZE == 0
  {
  }
}
