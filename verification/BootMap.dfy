/** The boot page tables: mapping one page, the direct map of physical memory,
    and the mapping of the page database. Before paging is on, physical
    addresses are used as they are. */
module BootMap {
  import opened Bits
  import opened Options
  import opened Addresses
  import opened BootSource
  import opened PageTables

  /** PTE_ATTR_P | PTE_ATTR_RW */
  const PTE_DEFAULT: nat := 3
  /** First slot of the direct map: that of DIRECT_MAP_BASE. */
  const DIRECT_SLOT: nat := 0x8_0000_0000
  /** First slot of the page database. */
  const DATABASE_SLOT: nat := 0xF_0000_0000
  /** Descriptors in one page. */
  const PGDB_PG_PAGE_NR: nat := 64

  /** Where the boot code stops: done, out of memory, at a hlt, or at a segment of no known kind. */
  datatype BootStatus = Done | NoMemory | Halted | BadSegment

  lemma {:induction false} OrBound(a: nat, b: nat, w: nat)
    requires a < Pow2(w) && b < Pow2(w)
    ensures Or(a, b) < Pow2(w)
    decreases w
  {
    if w > 0 { OrBound(a / 2, b / 2, w - 1); }
  }

  lemma OrAttr(pa: nat, attr: nat)
    requires pa % PAGE_SIZE == 0 && attr < PAGE_SIZE
    ensures Or(pa, attr) == pa + attr
  {
    Pow2Values();
    AlignedMul(pa / PAGE_SIZE, 12);
    OrDisjoint(pa, attr, 12);
  }

  lemma SlotDirect(p: nat)
    requires p < DIRECT_PAGES
    ensures Slot(DIRECT_MAP_BASE + p * PAGE_SIZE) == DIRECT_SLOT + p
  {
    assert (DIRECT_MAP_BASE + p * PAGE_SIZE) / PAGE_SIZE == DIRECT_MAP_BASE / PAGE_SIZE + p;
  }

  lemma SlotDatabase(i: nat)
    requires i * 64 < 0x800_0000_0000
    ensures Slot(DescAddr(i)) == DATABASE_SLOT + i / PGDB_PG_PAGE_NR
  {
    assert DescAddr(i) / PAGE_SIZE == PAGE_DATABASE_BASE / PAGE_SIZE + i / PGDB_PG_PAGE_NR;
  }

  /** Slot s maps a frame whose address lies in [base, end) and below 64 TB. */
  predicate InRegion(base: nat, end: nat, s: nat)
    ensures InRegion(base, end, s) ==> s >= DIRECT_SLOT && base < end
  {
    DIRECT_SLOT <= s < DIRECT_SLOT + DIRECT_PAGES && base <= (s - DIRECT_SLOT) * PAGE_SIZE < end
  }

  /** The leaf that the direct map puts in slot s: its frame, present and writable. */
  function DirectWord(s: nat): nat
    requires s >= DIRECT_SLOT
  {
    (s - DIRECT_SLOT) * PAGE_SIZE + PTE_DEFAULT
  }

  function EntryEnd(e: MmapEntry): nat { PageDown(e.addr) + e.len }

  /** Some of the first n entries covers the frame of slot s. */
  ghost predicate DirectMapped(es: seq<MmapEntry>, n: nat, s: nat)
    requires n <= |es|
    ensures DirectMapped(es, n, s) ==> s >= DIRECT_SLOT
  {
    exists j :: 0 <= j < n && InRegion(PageDown(es[j].addr), EntryEnd(es[j]), s)
  }

  /** End of physical memory as the loop computes it. */
  function TopOf(es: seq<MmapEntry>, n: nat): nat
    requires n <= |es|
  {
    if n == 0 then 0 else
    var before := TopOf(es, n - 1);
    if EntryEnd(es[n - 1]) > before then EntryEnd(es[n - 1]) else before
  }

  /** The end is the largest entry end, counted from the entry's rounded start, and 0 for an empty map. */
  lemma {:induction false} TopIsMax(es: seq<MmapEntry>, n: nat)
    requires n <= |es| && forall i :: 0 <= i < n ==> es[i].addr < WORD_LIMIT
    ensures forall i :: 0 <= i < n ==> es[i].addr / 4096 * 4096 + es[i].len <= TopOf(es, n)
    ensures TopOf(es, n) == 0 || exists i :: 0 <= i < n && TopOf(es, n) == es[i].addr / 4096 * 4096 + es[i].len
  {
    if n > 0 {
      TopIsMax(es, n - 1);
      PageDownIs(es[n - 1].addr);
    }
  }

  /** Mapping the page at pa extends the mapped region by one slot. */
  lemma RegionStep(base: nat, pa: nat, s: nat)
    requires base % PAGE_SIZE == 0 && pa % PAGE_SIZE == 0 && base <= pa && pa + DIRECT_MAP_BASE <= DIRECT_MAP_END
    ensures Slot(pa + DIRECT_MAP_BASE) == DIRECT_SLOT + pa / PAGE_SIZE
    ensures InRegion(base, pa + PAGE_SIZE, s) <==> InRegion(base, pa, s) || s == DIRECT_SLOT + pa / PAGE_SIZE
    ensures DirectWord(DIRECT_SLOT + pa / PAGE_SIZE) == pa + PTE_DEFAULT
  {
    SlotDirect(pa / PAGE_SIZE);
  }

  lemma NextPageAligned(pa: nat)
    requires pa % PAGE_SIZE == 0
    ensures (pa + PAGE_SIZE) % PAGE_SIZE == 0
  {
  }

  /** Past the end of the entry, or of the region, everything is mapped. */
  lemma RegionEnds(base: nat, pa: nat, end: nat, s: nat)
    requires base % PAGE_SIZE == 0 && pa % PAGE_SIZE == 0 && base <= pa
    requires pa >= end || pa + DIRECT_MAP_BASE > DIRECT_MAP_END
    requires pa < end + PAGE_SIZE || pa == base
    ensures InRegion(base, pa, s) <==> InRegion(base, end, s)
  {
  }

  // -------------------------------------------------- the kernel's own pages

  /** Leaf words written in order: slot and word. */
  type Writes = seq<(nat, nat)>

  /** What slot s holds after the writes if it held w before. */
  function After(ws: Writes, s: nat, w: nat): nat {
    if ws == [] then w
    else if ws[|ws| - 1].0 == s then ws[|ws| - 1].1
    else After(ws[..|ws| - 1], s, w)
  }

  lemma {:induction false} AfterBoth(ws: Writes, vs: Writes, s: nat, w: nat)
    ensures After(ws + vs, s, w) == After(vs, s, After(ws, s, w))
    decreases |vs|
  {
    if vs == [] {
      assert ws + vs == ws;
    } else {
      assert (ws + vs)[..|ws + vs| - 1] == ws + vs[..|vs| - 1];
      AfterBoth(ws, vs[..|vs| - 1], s, w);
    }
  }

  lemma AfterOne(ws: Writes, x: (nat, nat), s: nat, w: nat)
    ensures After(ws + [x], s, w) == if x.0 == s then x.1 else After(ws, s, w)
  {
    assert (ws + [x])[..|ws|] == ws;
  }

  /** The last write to a slot decides; a slot that is not written keeps its word. */
  lemma {:induction false} AfterLast(ws: Writes, s: nat, w: nat)
    ensures forall q :: 0 <= q < |ws| && ws[q].0 == s && (forall r :: q < r < |ws| ==> ws[r].0 != s) ==> After(ws, s, w) == ws[q].1
    ensures (forall q :: 0 <= q < |ws| ==> ws[q].0 != s) ==> After(ws, s, w) == w
    decreases |ws|
  {
    if ws != [] && ws[|ws| - 1].0 != s { AfterLast(ws[..|ws| - 1], s, w); }
  }

  /** Pages of a range that the loops step through. */
  function PageCount(start: nat, end: nat): nat { if start < end then (end - start + 4095) / PAGE_SIZE else 0 }

  /** n pages from virt on, mapped to the n pages from phys on. */
  function ImageWrites(virt: nat, phys: nat, attr: nat, n: nat): (ws: Writes)
    ensures |ws| == n
  {
    seq(n, i requires 0 <= i < n => (Slot(virt + i * PAGE_SIZE), Or(phys + i * PAGE_SIZE, attr)))
  }

  /** Pages from virt on, mapped to the given frames. */
  function FrameWrites(virt: nat, frames: seq<nat>, attr: nat): (ws: Writes)
    ensures |ws| == |frames|
  {
    seq(|frames|, i requires 0 <= i < |frames| => (Slot(virt + i * PAGE_SIZE), Or(frames[i], attr)))
  }

  lemma ImageNext(virt: nat, phys: nat, attr: nat, n: nat)
    ensures ImageWrites(virt, phys, attr, n + 1) ==
            ImageWrites(virt, phys, attr, n) + [(Slot(virt + n * PAGE_SIZE), Or(phys + n * PAGE_SIZE, attr))]
  {
  }

  lemma FrameNext(virt: nat, frames: seq<nat>, page: nat, attr: nat)
    ensures FrameWrites(virt, frames + [page], attr) ==
            FrameWrites(virt, frames, attr) + [(Slot(virt + |frames| * PAGE_SIZE), Or(page, attr))]
  {
  }

  function SectionAttr(s: Section): nat { if And(s.flags, SHF_WRITE) != 0 then 3 else 1 }

  function ImageStart(s: Section): nat { 0x100000 + s.offset - PAGE_SIZE }

  /** A section is mapped from one page below the range that addr_is_in_used_range keeps for it:
      exactly its first frame is outside that range. */
  lemma ImageBelowRange(s: Section, i: nat)
    requires Loaded(s) && ImageStart(s) + s.size <= WORD_LIMIT - 2 * PAGE_SIZE
    requires i < PageCount(ImageStart(s), PageUp(ImageStart(s) + s.size))
    ensures InSection(s, ImageStart(s) + i * PAGE_SIZE) <==> i >= 1
  {
    hide And, PageUp;
    PageUpIs(ImageStart(s) + s.size);
    PageUpIs(SegStart(s) + s.size);
  }

  /** A section to be loaded (flag 2, SHF_ALLOC) that is neither from the image nor zeros: its type has
      neither bit 0 (SHT_PROGBITS) nor bit 3 (SHT_NOBITS). */
  predicate UnknownKind(s: Section) { s.flags / 2 % 2 == 1 && s.kind % 2 == 0 && s.kind / 8 % 2 == 0 }

  /** The section's addresses do not run into the end of the address space. */
  predicate InSpace(s: Section) {
    ImageStart(s) + s.size <= WORD_LIMIT - PAGE_SIZE && s.addr + s.size <= WORD_LIMIT - PAGE_SIZE
  }

  /** The writes that mapping a section makes; a section of zeros takes one frame a page. */
  ghost predicate SectionMapped(s: Section, ws: Writes, frames: seq<nat>) {
    if And(s.flags, SHF_ALLOC) == 0 then ws == [] && frames == []
    else if And(s.kind, SHT_PROGBITS) != 0 then
      && frames == []
      && ws == ImageWrites(s.addr, ImageStart(s), SectionAttr(s), PageCount(ImageStart(s), PageUp(ImageStart(s) + s.size)))
    else
      && And(s.kind, SHT_NOBITS) != 0 && |frames| == PageCount(s.addr, PageUp(s.addr + s.size))
      && ws == FrameWrites(s.addr, frames, SectionAttr(s))
  }

  /** The writes for the first n sections, one after the other. */
  ghost predicate SectionsMapped(ss: seq<Section>, n: nat, ws: Writes, frames: seq<nat>)
    requires n <= |ss|
  {
    if n == 0 then ws == [] && frames == []
    else exists k: nat, f: nat {:trigger ws[..k], frames[..f]} ::
           k <= |ws| && f <= |frames| && SectionsMapped(ss, n - 1, ws[..k], frames[..f]) && SectionMapped(ss[n - 1], ws[k..], frames[f..])
  }

  lemma SectionsNext(ss: seq<Section>, n: nat, ws: Writes, frames: seq<nat>, vs: Writes, more: seq<nat>)
    requires n < |ss| && SectionsMapped(ss, n, ws, frames) && SectionMapped(ss[n], vs, more)
    ensures SectionsMapped(ss, n + 1, ws + vs, frames + more)
  {
    assert (ws + vs)[..|ws|] == ws && (ws + vs)[|ws|..] == vs;
    assert (frames + more)[..|frames|] == frames && (frames + more)[|frames|..] == more;
  }

  /** As a linker script lays sections out: page-aligned in the file and in the address space. */
  predicate Paged(s: Section) { s.offset % 4096 == 0 && s.addr % 4096 == 0 }

  /** Pages of a section that is loaded. */
  function Pages(s: Section): nat { if s.flags / 2 % 2 == 1 then (s.size + 4095) / 4096 else 0 }

  /** Pages of a loaded section of zeros; each takes a frame of its own. */
  function ZeroPages(s: Section): nat { if s.kind % 2 == 1 then 0 else Pages(s) }

  function ZeroPagesBefore(ss: seq<Section>, n: nat): nat
    requires n <= |ss|
  {
    if n == 0 then 0 else ZeroPagesBefore(ss, n - 1) + ZeroPages(ss[n - 1])
  }

  /** What the processor finds at page k of a section of either kind: the frame beside it in the image, which
      begins one page early, or the k-th frame from f on; writable if flag 1 (SHF_WRITE) is set. */
  ghost predicate SectionAccess(s: Section, frames: seq<nat>, f: nat, k: nat, a: Option<Access>) {
    if s.kind % 2 == 1 then a == Some(Access(0x100000 + s.offset - 4096 + k * 4096, s.flags % 2 == 1))
    else f + k < |frames| && a == Some(Access(frames[f + k], s.flags % 2 == 1))
  }

  /** The writes for a section go to its pages in order. */
  lemma SectionWords(s: Section, ws: Writes, frames: seq<nat>)
    requires SectionMapped(s, ws, frames) && InSpace(s) && Paged(s) && forall j :: 0 <= j < |frames| ==> frames[j] % 4096 == 0
    ensures |ws| == Pages(s) && |frames| == ZeroPages(s)
    ensures forall k :: 0 <= k < |ws| ==> ws[k].0 == Slot(s.addr + k * 4096) && SectionAccess(s, frames, 0, k, Leaf(ws[k].1))
  {
    hide *;
    SectionCases(s, ws, frames);
    if s.flags / 2 % 2 == 1 {
      if s.kind % 2 == 1 {
        PagesOfRange(ImageStart(s), s.size);
      } else {
        PagesOfRange(s.addr, s.size);
      }
      forall k | 0 <= k < |ws|
        ensures ws[k].0 == Slot(s.addr + k * 4096) && SectionAccess(s, frames, 0, k, Leaf(ws[k].1))
      {
        if s.kind % 2 == 1 { ImageWord(s, frames, k); } else { ZeroWord(s, frames, k); }
      }
    }
  }

  /** What was written for a section, by its flag and type bits. */
  lemma SectionCases(s: Section, ws: Writes, frames: seq<nat>)
    requires SectionMapped(s, ws, frames) && InSpace(s) && Paged(s)
    ensures ImageStart(s) % 4096 == 0 && ImageStart(s) + s.size <= WORD_LIMIT - PAGE_SIZE && s.addr % 4096 == 0 && s.addr + s.size <= WORD_LIMIT - PAGE_SIZE
    ensures Pages(s) == (if s.flags / 2 % 2 == 1 then (s.size + 4095) / 4096 else 0) && ZeroPages(s) == (if s.kind % 2 == 1 then 0 else Pages(s))
    ensures s.flags / 2 % 2 == 0 ==> ws == [] && frames == []
    ensures s.flags / 2 % 2 == 1 && s.kind % 2 == 1 ==>
            && frames == [] && |ws| == PageCount(ImageStart(s), PageUp(ImageStart(s) + s.size))
            && forall k :: 0 <= k < |ws| ==> ws[k] == (Slot(s.addr + k * 4096), Or(ImageStart(s) + k * 4096, SectionAttr(s)))
    ensures s.flags / 2 % 2 == 1 && s.kind % 2 == 0 ==>
            && |frames| == |ws| == PageCount(s.addr, PageUp(s.addr + s.size))
            && forall k :: 0 <= k < |ws| ==> ws[k] == (Slot(s.addr + k * 4096), Or(frames[k], SectionAttr(s)))
  {
    hide And, PageUp, Slot, Or, SectionAttr, PageCount;
    FlagBits(s.flags);
    FlagBits(s.kind);
  }

  lemma PagesOfRange(start: nat, size: nat)
    requires start % 4096 == 0 && start + size <= WORD_LIMIT - PAGE_SIZE
    ensures PageCount(start, PageUp(start + size)) == (size + 4095) / 4096
  {
    hide PageUp;
    PageUpIs(start + size);
  }

  lemma ImageWord(s: Section, frames: seq<nat>, k: nat)
    requires ImageStart(s) % 4096 == 0 && s.kind % 2 == 1
    ensures SectionAccess(s, frames, 0, k, Leaf(Or(ImageStart(s) + k * 4096, SectionAttr(s))))
  {
    hide And, Or, Leaf;
    FlagBits(s.flags);
    OrAttr(ImageStart(s) + k * 4096, SectionAttr(s));
    LeafOf(ImageStart(s) + k * 4096, SectionAttr(s));
  }

  lemma ZeroWord(s: Section, frames: seq<nat>, k: nat)
    requires s.kind % 2 == 0 && k < |frames| && frames[k] % 4096 == 0
    ensures SectionAccess(s, frames, 0, k, Leaf(Or(frames[k], SectionAttr(s))))
  {
    hide And, Or, Leaf;
    FlagBits(s.flags);
    OrAttr(frames[k], SectionAttr(s));
    LeafOf(frames[k], SectionAttr(s));
  }

  lemma {:induction false} SectionFrames(ss: seq<Section>, n: nat, ws: Writes, frames: seq<nat>)
    requires n <= |ss| && SectionsMapped(ss, n, ws, frames) && forall j :: 0 <= j < n ==> InSpace(ss[j]) && Paged(ss[j])
    requires forall j :: 0 <= j < |frames| ==> frames[j] % 4096 == 0
    ensures |frames| == ZeroPagesBefore(ss, n)
    decreases n
  {
    hide SectionMapped, ZeroPages, Paged, InSpace;
    if n > 0 {
      var a, f := LastSection(ss, n, ws, frames);
      SectionFrames(ss, n - 1, ws[..a], frames[..f]);
      SectionWords(ss[n - 1], ws[a..], frames[f..]);
    }
  }

  /** Page x of section j is written after page k of section i. */
  predicate Later(j: nat, x: nat, i: nat, k: nat) { j > i || (j == i && x > k) }

  /** In the end each page of a loaded section reaches the frame its kind gives it, each page of zeros one of
      its own, if no page written later has the same slot. */
  lemma {:induction false} SectionsAfter(ss: seq<Section>, n: nat, ws: Writes, frames: seq<nat>, i: nat, k: nat, w: nat)
    requires n <= |ss| && SectionsMapped(ss, n, ws, frames) && i < n && k < Pages(ss[i])
    requires forall j :: 0 <= j < n ==> InSpace(ss[j]) && Paged(ss[j])
    requires forall j :: 0 <= j < |frames| ==> frames[j] % 4096 == 0
    requires forall j: nat, x: nat {:trigger Later(j, x, i, k)} :: j < n && x < Pages(ss[j]) && Later(j, x, i, k) ==>
               Slot(ss[j].addr + x * 4096) != Slot(ss[i].addr + k * 4096)
    ensures SectionAccess(ss[i], frames, ZeroPagesBefore(ss, i), k, Leaf(After(ws, Slot(ss[i].addr + k * 4096), w)))
    decreases n
  {
    hide SectionsMapped, SectionMapped, SectionAccess, Leaf, After, Slot, Pages, Paged, InSpace, ZeroPages, ZeroPagesBefore;
    var slot := Slot(ss[i].addr + k * 4096);
    var a, f := LastSection(ss, n, ws, frames);
    var vs := ws[a..];
    assert ws == ws[..a] + vs;
    SectionFrames(ss, n - 1, ws[..a], frames[..f]);
    SectionWords(ss[n - 1], vs, frames[f..]);
    AfterBoth(ws[..a], vs, slot, w);
    AfterLast(vs, slot, After(ws[..a], slot, w));
    forall x | 0 <= x < |vs| && (i < n - 1 || x > k)
      ensures vs[x].0 != slot
    {
      assert Later(n - 1, x, i, k);
    }
    if i == n - 1 {
      FramesFrom(ss[i], frames, f, k, Leaf(vs[k].1));
    } else {
      SectionsAfter(ss, n - 1, ws[..a], frames[..f], i, k, w);
      FramesUpTo(ss[i], frames, f, ZeroPagesBefore(ss, i), k, Leaf(After(ws[..a], slot, w)));
    }
  }

  lemma LastSection(ss: seq<Section>, n: nat, ws: Writes, frames: seq<nat>) returns (a: nat, f: nat)
    requires 0 < n <= |ss| && SectionsMapped(ss, n, ws, frames)
    ensures a <= |ws| && f <= |frames| && SectionsMapped(ss, n - 1, ws[..a], frames[..f]) && SectionMapped(ss[n - 1], ws[a..], frames[f..])
  {
    hide SectionMapped;
    a, f :| a <= |ws| && f <= |frames| && SectionsMapped(ss, n - 1, ws[..a], frames[..f]) && SectionMapped(ss[n - 1], ws[a..], frames[f..]);
  }

  lemma FramesFrom(s: Section, frames: seq<nat>, f: nat, k: nat, a: Option<Access>)
    requires f <= |frames| && SectionAccess(s, frames[f..], 0, k, a)
    ensures SectionAccess(s, frames, f, k, a)
  {
  }

  lemma FramesUpTo(s: Section, frames: seq<nat>, n: nat, f: nat, k: nat, a: Option<Access>)
    requires n <= |frames| && SectionAccess(s, frames[..n], f, k, a)
    ensures SectionAccess(s, frames, f, k, a)
  {
  }

  class Mapper {
    const source: PageSource
    const root: nat
    var mem: Memory
    /** The tables in use and their places. */
    ghost var labels: map<nat, Label>

    ghost predicate Valid()
      reads this, source
    {
      source.Valid() && Tree(mem, labels, root) && labels.Keys <= mem.Keys <= source.taken
    }

    /** The leaf word for slot s. */
    ghost function Translate(s: nat): nat
      reads this
    {
      Walk(mem, root, 4, s)
    }

    /** What the processor finds at a virtual address. */
    ghost function At(va: nat): Option<Access>
      reads this
    {
      Reach(mem, root, 4, Slot(va))
    }

    /** That is what the leaf word says. */
    lemma AtLeaf(va: nat)
      requires Valid()
      ensures At(va) == Leaf(Translate(Slot(va)))
    {
      PrefixTop(Slot(va));
      ReachIsLeaf(mem, labels, root, root, 4, Slot(va));
    }

    lemma TakenAligned(page: nat)
      requires Valid() && page in source.taken
      ensures page % 4096 == 0
    {
      TakenPage(source, page);
    }

    /** Every directory word in use is present and writable, names no large page and no address bits are lost. */
    lemma DirectoryWords(t: nat, i: nat)
      requires Valid() && t in labels && labels[t].level > 1 && i < ENTRIES
      ensures t in mem && |mem[t]| == ENTRIES
      ensures mem[t][i] != 0 ==> mem[t][i] % 4096 == 3 && mem[t][i] - 3 in labels
    {
      assert TableOk(mem, labels, t);
    }

    /** What every step keeps: tables stay in place, frames that are no table are not written. */
    twostate predicate Grown()
      reads this, source
    {
      && old(source.taken) <= source.taken
      && (forall t :: t in old(labels) ==> t in labels && labels[t] == old(labels)[t])
      && (forall t :: t in labels && t !in old(labels) ==> t !in old(source.taken))
      && (forall x :: x in old(mem) && x !in labels ==> x in mem && mem[x] == old(mem)[x])
    }

    constructor (s: PageSource, frame: nat)
      requires s.Valid() && frame in s.taken
      ensures Valid() && source == s && root == frame && mem == map[frame := ZeroPage()]
      ensures forall t: nat :: t < SLOTS ==> Translate(t) == 0
    {
      source := s;
      root := frame;
      mem := map[frame := ZeroPage()];
      labels := map[frame := Label(4, 0, 0)];
      new;
      TakenPage(s, frame);
      assert TableOk(mem, labels, frame);
    }

    /** One level of boot_mm_pgtable_map: the table that entry i of table points
        to, made if there is none. */
    method Descend(table: nat, i: nat) returns (next: Option<nat>)
      requires Valid() && table in labels && labels[table].level > 1 && i < ENTRIES
      modifies this`mem, this`labels, source
      ensures Valid() && Grown()
      ensures forall s: nat :: s < SLOTS ==> Translate(s) == old(Translate(s))
      ensures next.None? ==> source.Remaining() == []
      ensures next.Some? ==>
              && next.value in labels
              && labels[next.value] == Label(labels[table].level - 1, labels[table].prefix * ENTRIES + i, table)
    {
      hide PageSource.Valid, PageSource.Remaining, SkipUsed, Tree, Walk, TableOk;
      TableHere(table);
      if mem[table][i] == 0 {
        var made := MakeTable(table, i);
        if !made {
          return None;
        }
      }
      TableHere(table);
      PageDownIs(mem[table][i]);
      next := Some(And(mem[table][i], PAGE_MASK));
    }

    /** The branch for an empty entry: a zeroed page from the source becomes a table. */
    method MakeTable(table: nat, i: nat) returns (made: bool)
      requires Valid() && table in labels && labels[table].level > 1
      requires table in mem && |mem[table]| == ENTRIES && i < ENTRIES && mem[table][i] == 0
      modifies this`mem, this`labels, source
      ensures Valid() && Grown() && table in labels && labels[table] == old(labels)[table]
      ensures forall s: nat :: s < SLOTS ==> Translate(s) == old(Translate(s))
      ensures !made ==> source.Remaining() == []
      ensures made ==> table in mem && |mem[table]| == ENTRIES && mem[table][i] != 0
    {
      hide PageSource.Valid, PageSource.Remaining, SkipUsed, Tree, Walk;
      ghost var m, l := mem, labels;
      var page := source.PageAlloc();
      mem := Stored(mem, table, i, page);
      if IsErrPtr(page) {
        mem := Stored(mem, table, i, 0);
        StoreUndone(m, table, i, page);
        return false;
      }
      TakenPage(source, page);
      mem := mem[page := ZeroPage()];
      OrAttr(page, PDE_DEFAULT);
      mem := Stored(mem, table, i, Or(page, PDE_DEFAULT));
      StoredTwice(m, table, i, page);
      HangKeepsTree(m, l, root, table, i, page);
      HangTranslates(m, l, root, table, i, page);
      labels := l[page := Label(l[table].level - 1, l[table].prefix * ENTRIES + i, table)];
      return true;
    }

    /** boot_mm_pgtable_map: 0, or -ENOMEM. */
    method Map(va: nat, pa: nat, attr: nat) returns (err: int)
      requires Valid() && pa < WORD_LIMIT && attr < WORD_LIMIT
      modifies this`mem, this`labels, source
      ensures Valid() && Grown()
      ensures err == 0 || (err == -12 && source.Remaining() == [])
      ensures err == 0 ==> forall v: nat {:trigger At(v)} :: At(v) == if Slot(v) == Slot(va) then Leaf(Or(pa, attr)) else old(At(v))
      ensures err == 0 && pa % 4096 == 0 && attr < 4096 && attr % 2 == 1 ==> At(va) == Some(Access(pa, attr / 2 % 2 == 1))
      ensures err < 0 ==> forall v: nat {:trigger At(v)} :: At(v) == old(At(v))
      ensures err == 0 ==> forall s: nat :: s < SLOTS ==>
              Translate(s) == if s == Slot(va) then Or(pa, attr) else old(Translate(s))
      ensures err < 0 ==> forall s: nat :: s < SLOTS ==> Translate(s) == old(Translate(s))
    {
      hide PageSource.Valid, PageSource.Remaining, PteEntry, Tree, Walk, Valid, Translate, Or, At, Leaf, Reach, Slot;
      forall v: nat { AtLeaf(v); }
      if pa % 4096 == 0 && attr < 4096 {
        OrAttr(pa, attr);
        LeafOf(pa, attr);
      }
      var pte := LastTable(va);
      err := if pte.None? then -(ENOMEM as int) else 0;
      if pte.Some? {
        SetLeaf(pte.value, PteEntry(va), Or(pa, attr), pa, attr);
      }
      forall v: nat { AtLeaf(v); }
    }

    /** The three directory levels: the lowest table on the way to the address. */
    method LastTable(va: nat) returns (pte: Option<nat>)
      requires Valid()
      modifies this`mem, this`labels, source
      ensures Valid() && Grown() && PteEntry(va) < ENTRIES
      ensures pte.None? ==> source.Remaining() == []
      ensures pte.Some? ==> pte.value in labels && labels[pte.value].level == 1
                            && labels[pte.value].prefix * ENTRIES + PteEntry(va) == Slot(va)
      ensures forall s: nat :: s < SLOTS ==> Translate(s) == old(Translate(s))
    {
      hide PageSource.Valid, PageSource.Remaining, PgdEntry, PudEntry, PmdEntry, PteEntry, Tree, Walk, Index, Prefix, Valid, Translate;
      EntryMacros(va);
      SlotPath(Slot(va));
      RootLabel();
      var pud := Descend(root, PgdEntry(va));
      if pud.None? {
        return None;
      }
      var pmd := Descend(pud.value, PudEntry(va));
      if pmd.None? {
        return None;
      }
      pte := Descend(pmd.value, PmdEntry(va));
    }

    lemma TableHere(t: nat)
      requires Valid() && t in labels
      ensures t in mem && |mem[t]| == ENTRIES && forall i :: 0 <= i < ENTRIES ==> mem[t][i] < WORD_LIMIT
      ensures labels[t].level > 1 ==> forall i :: 0 <= i < ENTRIES && mem[t][i] != 0 ==>
          && mem[t][i] % 4096 == 3 && Target(mem[t][i]) in labels
          && labels[Target(mem[t][i])] == Label(labels[t].level - 1, labels[t].prefix * ENTRIES + i, t)
    {
      assert TableOk(mem, labels, t);
    }

    lemma RootLabel()
      requires Valid()
      ensures root in labels && labels[root].level == 4 && labels[root].prefix == 0
    {
    }

    /** pte[pte_i] = pa | attr */
    method SetLeaf(table: nat, i: nat, w: nat, ghost pa: nat, ghost attr: nat)
      requires Valid() && table in labels && labels[table].level == 1 && i < ENTRIES
      requires w == Or(pa, attr) && pa < WORD_LIMIT && attr < WORD_LIMIT
      modifies this`mem
      ensures Valid() && Grown()
      ensures forall s: nat :: s < SLOTS ==>
              Translate(s) == if s == labels[table].prefix * ENTRIES + i then w else old(Translate(s))
    {
      Pow2Values();
      OrBound(pa, attr, 64);
      assert TableOk(mem, labels, table);
      LeafKeepsTree(mem, labels, root, table, i, w);
      LeafTranslates(mem, labels, root, table, i, w);
      mem := Stored(mem, table, i, w);
    }

    /** The direct-map loop for one entry: frames from base up to end, as far as
        the region reaches. */
    method MapRegion(base: nat, end: nat) returns (err: int)
      requires Valid() && base % PAGE_SIZE == 0 && base + DIRECT_MAP_BASE < WORD_LIMIT && end < WORD_LIMIT
      modifies this`mem, this`labels, source
      ensures Valid() && Grown() && err <= 0
      ensures err < 0 ==> source.Remaining() == []
      ensures err == 0 ==> forall s: nat :: s < SLOTS ==>
              Translate(s) == if InRegion(base, end, s) then DirectWord(s) else old(Translate(s))
    {
      hide PageSource.Valid, PageSource.Remaining, At, Leaf, Reach, SkipUsed, Tree, Walk, Slot, DirectWord, InRegion, Valid, Translate, Or;
      var pa, va := base, base + DIRECT_MAP_BASE;
      while pa < end
        invariant Valid() && Grown() && pa % PAGE_SIZE == 0 && pa >= base && va == pa + DIRECT_MAP_BASE
        invariant pa < end + PAGE_SIZE || pa == base
        invariant forall s: nat :: s < SLOTS ==>
          Translate(s) == if InRegion(base, pa, s) then DirectWord(s) else old(Translate(s))
        decreases end - pa
      {
        if va > DIRECT_MAP_END {
          break;
        }
        forall s { RegionStep(base, pa, s); }
        NextPageAligned(pa);
        OrAttr(pa, PTE_DEFAULT);
        err := Map(va, pa, PTE_DEFAULT);
        if err < 0 {
          return;
        }
        pa := pa + PAGE_SIZE;
        va := va + PAGE_SIZE;
      }
      forall s { RegionEnds(base, pa, end, s); }
      return 0;
    }

    /** The direct mapping area: all entries of the memory map, whatever their type. */
    method MapDirect() returns (status: BootStatus, physmemEnd: nat)
      requires Valid() && forall i :: 0 <= i < |source.entries| ==> source.entries[i].addr + source.entries[i].len < WORD_LIMIT
      modifies this`mem, this`labels, source
      ensures Valid() && Grown()
      ensures status == NoMemory ==> source.Remaining() == []
      ensures status == Halted ==> exists i :: 0 <= i < |source.entries| && source.entries[i].addr / 4096 * 4096 + 0xFFFF_8000_0000_0000 >= WORD_LIMIT
      ensures status != BadSegment
      ensures status == Done ==> physmemEnd == TopOf(source.entries, |source.entries|)
      ensures status == Done ==> forall i :: 0 <= i < |source.entries| ==> PageDown(source.entries[i].addr) + DIRECT_MAP_BASE < WORD_LIMIT
      ensures status == Done ==> forall s: nat :: s < SLOTS ==>
                Translate(s) == if DirectMapped(source.entries, |source.entries|, s) then DirectWord(s) else old(Translate(s))
    {
      hide PageSource.Valid, PageSource.Remaining, At, Leaf, Reach, SkipUsed, Tree, Walk, DirectWord, InRegion, PageDown;
      physmemEnd := 0;
      var i := 0;
      while i < |source.entries|
        invariant i <= |source.entries| && Valid() && Grown()
        invariant physmemEnd == TopOf(source.entries, i)
        invariant forall j :: 0 <= j < i ==> PageDown(source.entries[j].addr) + DIRECT_MAP_BASE < WORD_LIMIT
        invariant forall s: nat :: s < SLOTS ==>
          Translate(s) == if DirectMapped(source.entries, i, s) then DirectWord(s) else old(Translate(s))
      {
        PageDownIs(source.entries[i].addr);
        var base := PageDown(source.entries[i].addr);
        var end := base + source.entries[i].len;
        var vaddr := (base + DIRECT_MAP_BASE) % WORD_LIMIT;
        if end > physmemEnd {
          physmemEnd := end;
        }
        if vaddr < base {
          return Halted, physmemEnd;
        }
        var err := MapRegion(base, end);
        if err < 0 {
          return NoMemory, physmemEnd;
        }
        i := i + 1;
        assert forall s: nat :: DirectMapped(source.entries, i, s) <==> DirectMapped(source.entries, i - 1, s) || InRegion(base, end, s);
      }
      return Done, physmemEnd;
    }

    /** A zeroed page that is no table. */
    method ZeroFrame() returns (page: nat)
      requires Valid()
      modifies this`mem, source
      ensures Valid() && Grown()
      ensures forall s: nat :: s < SLOTS ==> Translate(s) == old(Translate(s))
      ensures IsErrPtr(page) ==> source.Remaining() == []
      ensures !IsErrPtr(page) ==>
              && page % PAGE_SIZE == 0 && page < WORD_LIMIT && page in source.taken && page !in old(source.taken) && page !in labels
              && mem == old(mem)[page := ZeroPage()]
    {
      hide PageSource.Valid, PageSource.Remaining, At, Leaf, Reach, SkipUsed, Tree, Walk;
      page := source.PageAlloc();
      if !IsErrPtr(page) {
        TakenPage(source, page);
        OutsideKeeps(mem, labels, root, page, ZeroPage());
        mem := mem[page := ZeroPage()];
      }
    }

    /** What the loops below do for one slot: a zeroed frame of the source is mapped there. */
    method MapFrame(va: nat, attr: nat) returns (err: int, page: nat)
      requires Valid() && attr < WORD_LIMIT
      modifies this`mem, this`labels, source
      ensures Valid() && Grown() && err <= 0
      ensures err < 0 ==> source.Remaining() == []
      ensures err == 0 ==> page % PAGE_SIZE == 0 && page < WORD_LIMIT
      ensures err == 0 ==> page in source.taken && page !in old(source.taken) && page !in labels && page in mem && mem[page] == ZeroPage()
      ensures err == 0 ==> forall s: nat :: s < SLOTS ==> Translate(s) == if s == Slot(va) then Or(page, attr) else old(Translate(s))
    {
      hide PageSource.Valid, PageSource.Remaining, At, Leaf, Reach, SkipUsed, Tree, Walk, Slot, Or, Translate, ZeroPage;
      page := ZeroFrame();
      if IsErrPtr(page) {
        return -(ENOMEM as int), page;
      }
      err := Map(va, page, attr);
    }

    /** The page-database loop: one zeroed frame for each page of descriptors. */
    method MapDatabase(nr: nat) returns (status: BootStatus, ghost frames: seq<nat>)
      requires Valid() && nr * 64 <= PAGE_DATABASE_END + 1 - PAGE_DATABASE_BASE
      modifies this`mem, this`labels, source
      ensures Valid() && Grown() && (status == Done || status == NoMemory)
      ensures status == NoMemory ==> source.Remaining() == []
      ensures status == Done ==> |frames| == (nr + PGDB_PG_PAGE_NR - 1) / PGDB_PG_PAGE_NR
      ensures status == Done ==> FramesFresh(frames)
      ensures status == Done ==> forall s: nat :: s < SLOTS ==>
                Translate(s) == if DATABASE_SLOT <= s < DATABASE_SLOT + |frames| then frames[s - DATABASE_SLOT] + PTE_DEFAULT else old(Translate(s))
    {
      hide PageSource.Valid, PageSource.Remaining, At, Leaf, Reach, SkipUsed, Tree, Walk, Slot, Translate;
      frames := [];
      var i := 0;
      while i < nr
        invariant i == |frames| * PGDB_PG_PAGE_NR && i < nr + PGDB_PG_PAGE_NR
        invariant Valid() && Grown() && FramesFresh(frames)
        invariant forall s: nat :: s < SLOTS ==>
                Translate(s) == if DATABASE_SLOT <= s < DATABASE_SLOT + |frames| then frames[s - DATABASE_SLOT] + PTE_DEFAULT else old(Translate(s))
      {
        var err, page := MapFrame(DescAddr(i), PTE_DEFAULT);
        if err < 0 {
          return NoMemory, frames;
        }
        SlotDatabase(i);
        OrAttr(page, PTE_DEFAULT);
        frames := frames + [page];
        i := i + PGDB_PG_PAGE_NR;
      }
      return Done, frames;
    }

    // ------------------------------------------------ image and screen

    /** The loops that map a range of pages to the frames beside it, in order. */
    method MapImage(virt: nat, phys: nat, end: nat, attr: nat) returns (err: int, ghost ws: Writes)
      requires Valid() && end < WORD_LIMIT && attr < WORD_LIMIT
      modifies this`mem, this`labels, source
      ensures Valid() && Grown() && err <= 0
      ensures err < 0 ==> source.Remaining() == []
      ensures err == 0 ==> ws == ImageWrites(virt, phys, attr, PageCount(phys, end))
      ensures err == 0 ==> forall s: nat :: s < SLOTS ==> Translate(s) == After(ws, s, old(Translate(s)))
    {
      hide PageSource.Valid, PageSource.Remaining, At, Leaf, Reach, SkipUsed, Tree, Walk, Slot, After, Or, Translate;
      ws := [];
      NoWrites();
      var pa, va, n := phys, virt, 0;
      assert ImageWrites(virt, phys, attr, 0) == [];
      while pa < end
        invariant Valid() && Grown() && pa == phys + n * PAGE_SIZE && va == virt + n * PAGE_SIZE && ws == ImageWrites(virt, phys, attr, n)
        invariant n == 0 || pa < end + PAGE_SIZE
        invariant forall s: nat :: s < SLOTS ==> Translate(s) == After(ws, s, old(Translate(s)))
        decreases end - pa
      {
        err := Map(va, pa, attr);
        if err < 0 {
          return;
        }
        ImageNext(virt, phys, attr, n);
        forall s: nat | s < SLOTS
          ensures Translate(s) == After(ws + [(Slot(va), Or(pa, attr))], s, old(Translate(s)))
        {
          AfterOne(ws, (Slot(va), Or(pa, attr)), s, old(Translate(s)));
        }
        ws := ws + [(Slot(va), Or(pa, attr))];
        pa, va, n := pa + PAGE_SIZE, va + PAGE_SIZE, n + 1;
      }
      CountSteps(phys, end, n);
      return 0, ws;
    }

    /** The loop that maps a range of pages to zeroed frames of the source. */
    method MapBss(virt: nat, end: nat, attr: nat) returns (err: int, ghost ws: Writes, ghost frames: seq<nat>)
      requires Valid() && end < WORD_LIMIT && attr < WORD_LIMIT
      modifies this`mem, this`labels, source
      ensures Valid() && Grown() && err <= 0
      ensures err < 0 ==> source.Remaining() == []
      ensures err == 0 ==> |frames| == PageCount(virt, end) && ws == FrameWrites(virt, frames, attr) && FramesFresh(frames)
      ensures err == 0 ==> forall s: nat :: s < SLOTS ==> Translate(s) == After(ws, s, old(Translate(s)))
    {
      hide PageSource.Valid, PageSource.Remaining, At, Leaf, Reach, SkipUsed, Tree, Walk, Slot, After, Or, Translate;
      ws, frames := [], [];
      NoWrites();
      var va := virt;
      while va < end
        invariant Valid() && Grown() && va == virt + |frames| * PAGE_SIZE && ws == FrameWrites(virt, frames, attr) && FramesFresh(frames)
        invariant frames == [] || va < end + PAGE_SIZE
        invariant forall s: nat :: s < SLOTS ==> Translate(s) == After(ws, s, old(Translate(s)))
        decreases end - va
      {
        var page;
        err, page := MapFrame(va, attr);
        if err < 0 {
          return;
        }
        FrameNext(virt, frames, page, attr);
        forall s: nat | s < SLOTS
          ensures Translate(s) == After(ws + [(Slot(va), Or(page, attr))], s, old(Translate(s)))
        {
          AfterOne(ws, (Slot(va), Or(page, attr)), s, old(Translate(s)));
        }
        ws := ws + [(Slot(va), Or(page, attr))];
        frames := frames + [page];
        va := va + PAGE_SIZE;
      }
      CountSteps(virt, end, |frames|);
      return 0, ws, frames;
    }

    /** The loop over the sections of the kernel image. */
    method MapSections() returns (status: BootStatus, ghost ws: Writes, ghost frames: seq<nat>)
      requires Valid() && forall i :: 0 <= i < |source.used.sections| ==> InSpace(source.used.sections[i])
      modifies this`mem, this`labels, source
      ensures Valid() && Grown() && status != Halted
      ensures status == NoMemory ==> source.Remaining() == []
      ensures status == BadSegment ==> exists i :: 0 <= i < |source.used.sections| && UnknownKind(source.used.sections[i])
      ensures status == Done ==> SectionsMapped(source.used.sections, |source.used.sections|, ws, frames) && FramesFresh(frames)
      ensures status == Done ==> forall s: nat :: s < SLOTS ==> Translate(s) == After(ws, s, old(Translate(s)))
    {
      hide PageSource.Valid, PageSource.Remaining, At, Leaf, Reach, SkipUsed, Tree, Walk, Slot, After, And, SectionMapped, PageUp, ImageWrites, FrameWrites;
      ws, frames := [], [];
      NoWrites();
      var ss, i := source.used.sections, 0;
      while i < |ss|
        invariant i <= |ss| && Valid() && Grown() && SectionsMapped(ss, i, ws, frames) && FramesFresh(frames)
        invariant forall s: nat :: s < SLOTS ==> Translate(s) == After(ws, s, old(Translate(s)))
      {
        ghost var vs: Writes, more: seq<nat> := [], [];
        status, vs, more := MapSection(ss[i]);
        if status != Done {
          return;
        }
        SectionsNext(ss, i, ws, frames, vs, more);
        forall s: nat | s < SLOTS
          ensures Translate(s) == After(ws + vs, s, old(Translate(s)))
        {
          AfterBoth(ws, vs, s, old(Translate(s)));
        }
        ws, frames := ws + vs, frames + more;
        i := i + 1;
      }
      return Done, ws, frames;
    }

    /** One section: from the image, or zeros, or not at all. */
    method MapSection(s: Section) returns (status: BootStatus, ghost ws: Writes, ghost frames: seq<nat>)
      requires Valid() && InSpace(s)
      modifies this`mem, this`labels, source
      ensures Valid() && Grown() && status != Halted
      ensures status == NoMemory ==> source.Remaining() == []
      ensures status == Done ==> SectionMapped(s, ws, frames) && FramesFresh(frames)
      ensures status == Done ==> forall t: nat :: t < SLOTS ==> Translate(t) == After(ws, t, old(Translate(t)))
      ensures status == BadSegment ==> UnknownKind(s)
    {
      hide PageSource.Valid, PageSource.Remaining, At, Leaf, Reach, SkipUsed, Tree, Walk, Slot, And, PageUp, ImageWrites, FrameWrites;
      FlagBits(s.flags);
      FlagBits(s.kind);
      ws, frames := [], [];
      var err: int := 0;
      if And(s.flags, SHF_ALLOC) == 0 {
        return Done, ws, frames;
      }
      if And(s.kind, SHT_PROGBITS) != 0 {
        PageUpFits(ImageStart(s) + s.size);
        err, ws := MapImage(s.addr, ImageStart(s), PageUp(ImageStart(s) + s.size), SectionAttr(s));
      } else if And(s.kind, SHT_NOBITS) != 0 {
        PageUpFits(s.addr + s.size);
        err, ws, frames := MapBss(s.addr, PageUp(s.addr + s.size), SectionAttr(s));
      } else {
        return BadSegment, ws, frames;
      }
      status := if err < 0 then NoMemory else Done;
    }

    /** Distinct zeroed frames drawn since the old state, none of them a table. */
    twostate predicate FramesFresh(frames: seq<nat>)
      reads this, source
    {
      && (forall i, j :: 0 <= i < j < |frames| ==> frames[i] != frames[j])
      && forall i :: 0 <= i < |frames| ==>
        && frames[i] in source.taken && frames[i] !in old(source.taken) && frames[i] !in labels
        && frames[i] in mem && mem[frames[i]] == ZeroPage()
    }
  }

  lemma NoWrites()
    ensures forall s, w :: After([], s, w) == w
  {
  }

  lemma PageUpFits(a: nat)
    requires a <= WORD_LIMIT - PAGE_SIZE
    ensures PageUp(a) < WORD_LIMIT
  {
    PageUpIs(a);
  }

  /** The number of turns of a loop that steps through a range. */
  lemma CountSteps(start: nat, end: nat, n: nat)
    requires start + n * PAGE_SIZE >= end && (n == 0 || start + n * PAGE_SIZE < end + PAGE_SIZE)
    ensures n == PageCount(start, end)
  {
  }

  lemma StoreUndone(mem: Memory, t: nat, i: nat, page: nat)
    requires t in mem && i < |mem[t]| && mem[t][i] == 0
    ensures Stored(Stored(mem, t, i, page), t, i, 0) == mem
  {
    var row: seq<nat> := mem[t];
    assert row[i := page][i := 0] == row;
  }

  lemma StoredTwice(mem: Memory, t: nat, i: nat, page: nat)
    requires t in mem && i < |mem[t]| && t != page
    ensures Stored(Stored(mem, t, i, page)[page := ZeroPage()], t, i, page + PDE_DEFAULT) == Hung(mem, t, i, page)
  {
    var row: seq<nat> := mem[t];
    assert row[i := page][i := page + PDE_DEFAULT] == row[i := page + PDE_DEFAULT];
  }

  /** The four indices lead from the root to the slot. */
  lemma SlotPath(s: nat)
    requires s < SLOTS
    ensures ((Index(s, 4) * ENTRIES + Index(s, 3)) * ENTRIES + Index(s, 2)) * ENTRIES + Index(s, 1) == s
  {
    PrefixTop(s);
    PrefixStep(s, 0);
    PrefixStep(s, 1);
    PrefixStep(s, 2);
    PrefixStep(s, 3);
  }

  /** A page from the source is aligned and ends below the top of the address space. */
  lemma TakenPage(s: PageSource, page: nat)
    requires s.Valid() && page in s.taken
    ensures page % PAGE_SIZE == 0 && page + PAGE_SIZE <= WORD_LIMIT
  {
    PagesFromContents(s.entries, 0);
  }

  /** Every frame of the memory map below 64 TB translates from where phys_to_virt puts it. */
  ghost predicate DirectMapReady(m: Mapper)
    reads m
  {
    forall j, p: nat :: 0 <= j < |m.source.entries| && InEntry(m.source.entries[j], p) ==>
      m.At(0xFFFF_8000_0000_0000 + p * 4096) == Some(Access(p * 4096, true))
  }

  /** Frame p lies in the entry, counted from its rounded start, and below 64 TB. */
  predicate InEntry(e: MmapEntry, p: nat) {
    e.addr / 4096 * 4096 <= p * 4096 < e.addr / 4096 * 4096 + e.len && p < 0x4_0000_0000
  }

  lemma InEntryRegion(e: MmapEntry, p: nat)
    requires e.addr < WORD_LIMIT
    ensures InEntry(e, p) <==> InRegion(PageDown(e.addr), EntryEnd(e), DIRECT_SLOT + p)
  {
    hide PageDown;
    PageDownIs(e.addr);
  }

  /** Every descriptor translates to a frame that holds descriptors and nothing else. */
  ghost predicate DatabaseReady(m: Mapper, nr: nat, frames: seq<nat>)
    reads m, m.source
  {
    && |frames| == (nr + PGDB_PG_PAGE_NR - 1) / PGDB_PG_PAGE_NR
    && (forall i, j :: 0 <= i < j < |frames| ==> frames[i] != frames[j])
    && (forall i :: 0 <= i < |frames| ==> frames[i] in m.source.taken && frames[i] !in m.labels)
    && (forall pfn: nat {:trigger DescAddr(pfn)} :: pfn < nr ==> m.At(0xFFFF_F000_0000_0000 + 64 * pfn) == Some(Access(frames[pfn / 64], true)))
  }

  /** The direct-map slots were set before and the database slots lie elsewhere. */
  lemma SlotsReady(es: seq<MmapEntry>, nr: nat, frames: seq<nat>, j: nat, p: nat)
    requires nr * 64 <= 0x800_0000_0000 && |frames| == (nr + PGDB_PG_PAGE_NR - 1) / PGDB_PG_PAGE_NR && j < |es|
    requires InRegion(PageDown(es[j].addr), EntryEnd(es[j]), DIRECT_SLOT + p)
    ensures DirectMapped(es, |es|, DIRECT_SLOT + p) && Slot(PageToVirt(p)) == DIRECT_SLOT + p
    ensures !(DATABASE_SLOT <= DIRECT_SLOT + p < DATABASE_SLOT + |frames|)
    ensures Leaf(DirectWord(DIRECT_SLOT + p)) == Some(Access(p * 4096, true))
  {
    SlotDirect(p);
  }

  lemma SlotsOfDatabase(nr: nat, frames: seq<nat>, pfn: nat)
    requires nr * 64 <= 0x800_0000_0000 && |frames| == (nr + PGDB_PG_PAGE_NR - 1) / PGDB_PG_PAGE_NR && pfn < nr
    ensures Slot(DescAddr(pfn)) == DATABASE_SLOT + pfn / PGDB_PG_PAGE_NR && pfn / PGDB_PG_PAGE_NR < |frames|
  {
    SlotDatabase(pfn);
  }

  /** The frame buffer's pages, mapped to themselves. */
  function ScreenWrites(fb: Option<(nat, nat)>): Writes
    requires fb.Some? ==> fb.value.0 <= fb.value.1
  {
    if fb.None? then [] else
    var base := PageDown(fb.value.0);
    ImageWrites(base, base, PTE_DEFAULT, PageCount(base, PageUp((base + (fb.value.1 - fb.value.0)) % WORD_LIMIT)))
  }

  /** The loop maps the page of the byte at x to its own frame, present and writable. */
  predicate OnScreen(fb: (nat, nat), x: nat)
    requires fb.0 <= fb.1
  {
    (Slot(x), x / 4096 * 4096 + 3) in ScreenWrites(Some(fb))
  }

  lemma OnScreenIs(fb: (nat, nat), x: nat)
    requires fb.0 <= fb.1 <= WORD_LIMIT - PAGE_SIZE
    ensures var base := fb.0 / 4096 * 4096; OnScreen(fb, x) <==> base <= x < base + (fb.1 - fb.0 + 4095) / 4096 * 4096
  {
    hide PageDown, PageUp, Or, Slot, ImageWrites, ScreenWrites;
    var base := fb.0 / 4096 * 4096;
    ScreenWords(fb, base);
    var n := (fb.1 - fb.0 + 4095) / 4096;
    if base <= x < base + n * 4096 {
      var i := (x - base) / 4096;
      SameSlot(x, base + i * 4096);
      assert ScreenWrites(Some(fb))[i] == (Slot(x), x / 4096 * 4096 + 3);
    }
  }

  lemma ScreenWords(fb: (nat, nat), base: nat)
    requires fb.0 <= fb.1 <= WORD_LIMIT - PAGE_SIZE && base == fb.0 / 4096 * 4096
    ensures |ScreenWrites(Some(fb))| == (fb.1 - fb.0 + 4095) / 4096
    ensures forall i :: 0 <= i < |ScreenWrites(Some(fb))| ==> ScreenWrites(Some(fb))[i] == (Slot(base + i * 4096), base + i * 4096 + 3)
  {
    hide PageDown, PageUp, Or, Slot;
    PageDownIs(fb.0);
    PageUpIs(base + (fb.1 - fb.0));
    forall i: nat ensures Or(base + i * 4096, PTE_DEFAULT) == base + i * 4096 + 3 { OrAttr(base + i * 4096, PTE_DEFAULT); }
  }

  lemma SameSlot(x: nat, y: nat)
    requires x / PAGE_SIZE == y / PAGE_SIZE
    ensures Slot(x) == Slot(y)
  {
  }

  /** The end of the loop is computed from the rounded base: all of a frame buffer is mapped exactly if
      the odd bytes before it and those of its last page fit one page together. */
  lemma ScreenCovered(fb: (nat, nat))
    requires fb.0 < fb.1 <= WORD_LIMIT - PAGE_SIZE
    ensures (forall x: nat :: fb.0 <= x < fb.1 ==> OnScreen(fb, x)) <==> fb.0 % PAGE_SIZE + (fb.1 - fb.0 - 1) % PAGE_SIZE < PAGE_SIZE
  {
    hide OnScreen;
    forall x: nat { OnScreenIs(fb, x); }
    assert (forall x: nat :: fb.0 <= x < fb.1 ==> OnScreen(fb, x)) <==> OnScreen(fb, (fb.1 - 1) as nat);
  }

  /** A page of pixels from 0x1800 on: one page is mapped, and the byte at 0x2000 is not in it. */
  lemma ScreenCutOff()
    ensures ScreenWrites(Some((0x1800, 0x2800))) == [(1, 0x1003)] && !OnScreen((0x1800, 0x2800), 0x2000)
  {
    hide PageDown, PageUp, Or;
    PageDownIs(0x1800);
    PageUpIs(0x2000);
    OrAttr(0x1000, PTE_DEFAULT);
  }

  /** Outside the direct map and the page database every page translates as the image and the screen were mapped. */
  ghost predicate ImageReady(m: Mapper, frames: seq<nat>, ws: Writes)
    reads m
  {
    forall v: nat :: Elsewhere(m.source.entries, frames, Slot(v)) ==> m.At(v) == Leaf(After(ws, Slot(v), 0))
  }

  ghost predicate Elsewhere(es: seq<MmapEntry>, frames: seq<nat>, s: nat) {
    !DirectMapped(es, |es|, s) && !(DATABASE_SLOT <= s < DATABASE_SLOT + |frames|)
  }

  /** What each slot holds in the end. */
  ghost predicate Mapped(m: Mapper, frames: seq<nat>, ws: Writes)
    reads m
  {
    var es := m.source.entries;
    forall s: nat :: s < SLOTS ==>
      m.Translate(s) == if DATABASE_SLOT <= s < DATABASE_SLOT + |frames| then frames[s - DATABASE_SLOT] + PTE_DEFAULT
                        else if DirectMapped(es, |es|, s) then DirectWord(s) else After(ws, s, 0)
  }

  lemma MapsReady(m: Mapper, nr: nat, frames: seq<nat>, ws: Writes)
    requires m.Valid() && Mapped(m, frames, ws) && nr * 64 <= 0x800_0000_0000 && |frames| == (nr + PGDB_PG_PAGE_NR - 1) / PGDB_PG_PAGE_NR
    requires forall i :: 0 <= i < |m.source.entries| ==> m.source.entries[i].addr < WORD_LIMIT
    requires forall i :: 0 <= i < |frames| ==> frames[i] in m.source.taken
    ensures DirectMapReady(m) && ImageReady(m, frames, ws)
    ensures forall pfn: nat :: pfn < nr ==> m.At(DescAddr(pfn)) == Some(Access(frames[pfn / 64], true))
  {
    hide Walk, Slot, InRegion, InEntry, PageDown, EntryEnd, DirectMapped, DirectWord, After, Reach, Leaf, Tree, PageSource.Valid, Mapper.At, Mapper.Translate;
    var es := m.source.entries;
    forall j, p: nat | 0 <= j < |es| && InEntry(es[j], p)
      ensures m.At(0xFFFF_8000_0000_0000 + p * 4096) == Some(Access(p * 4096, true))
    {
      InEntryRegion(es[j], p);
      SlotsReady(es, nr, frames, j, p);
      m.AtLeaf(PageToVirt(p));
    }
    forall pfn: nat | pfn < nr
      ensures m.At(DescAddr(pfn)) == Some(Access(frames[pfn / 64], true))
    {
      SlotsOfDatabase(nr, frames, pfn);
      m.AtLeaf(DescAddr(pfn));
      TakenPage(m.source, frames[pfn / 64]);
      LeafOf(frames[pfn / 64], 3);
    }
    forall v: nat | Elsewhere(es, frames, Slot(v))
      ensures m.At(v) == Leaf(After(ws, Slot(v), 0))
    {
      m.AtLeaf(v);
    }
  }

  /** The zeroed frames of the image hold nothing else. */
  ghost predicate BssReady(m: Mapper, frames: seq<nat>, bss: seq<nat>)
    reads m, m.source
  {
    && (forall i, j :: 0 <= i < j < |bss| ==> bss[i] != bss[j])
    && (forall i :: 0 <= i < |bss| ==> bss[i] in m.source.taken && bss[i] !in m.labels && bss[i] !in frames)
  }

  /** The kernel's own pages in the finished tables: a page of a loaded section that is neither written over
      later nor lies in the direct map or the page database. */
  lemma KernelAt(m: Mapper, frames: seq<nat>, image: Writes, bss: seq<nat>, i: nat, k: nat)
    requires m.Valid() && GoodRanges(m.source.used) && BssReady(m, frames, bss)
    requires ImageReady(m, frames, image + ScreenWrites(m.source.used.frameBuffer))
    requires SectionsMapped(m.source.used.sections, |m.source.used.sections|, image, bss)
    requires forall j :: 0 <= j < |m.source.used.sections| ==> Paged(m.source.used.sections[j])
    requires i < |m.source.used.sections| && k < Pages(m.source.used.sections[i])
    requires var ss := m.source.used.sections; var slot := Slot(ss[i].addr + k * 4096);
             && Elsewhere(m.source.entries, frames, slot)
             && (forall j: nat, x: nat {:trigger Later(j, x, i, k)} :: j < |ss| && x < Pages(ss[j]) && Later(j, x, i, k) ==> Slot(ss[j].addr + x * 4096) != slot)
             && (forall q :: 0 <= q < |ScreenWrites(m.source.used.frameBuffer)| ==> ScreenWrites(m.source.used.frameBuffer)[q].0 != slot)
    ensures var ss := m.source.used.sections;
            SectionAccess(ss[i], bss, ZeroPagesBefore(ss, i), k, m.At(ss[i].addr + k * 4096))
  {
    hide Mapper.Valid, Mapper.At, PageSource.Valid, SectionsMapped, SectionAccess, Leaf, After, Slot, Pages, Paged, InSpace, ZeroPages, ScreenWrites, Elsewhere;
    var ss, screen := m.source.used.sections, ScreenWrites(m.source.used.frameBuffer);
    var slot := Slot(ss[i].addr + k * 4096);
    forall j | 0 <= j < |bss|
      ensures bss[j] % 4096 == 0
    {
      m.TakenAligned(bss[j]);
    }
    AfterBoth(image, screen, slot, 0);
    AfterLast(screen, slot, After(image, slot, 0));
    SectionsAfter(ss, |ss|, image, bss, i, k, 0);
  }

  /** What the boot code needs of its tables: the image and the screen lie in the address space. */
  predicate GoodRanges(u: UsedRanges) {
    && (forall i :: 0 <= i < |u.sections| ==> InSpace(u.sections[i]))
    && (u.frameBuffer.Some? ==> u.frameBuffer.value.0 <= u.frameBuffer.value.1 <= WORD_LIMIT - PAGE_SIZE)
  }

  /** What a failure of the boot stage says: no page is left, a region that the direct map cannot take, or
      a section of no known kind. */
  ghost predicate FailureMeans(status: BootStatus, s: PageSource)
    reads s
  {
    match status
    case Done => true
    case NoMemory => s.Remaining() == []
    case Halted => exists i :: 0 <= i < |s.entries| && s.entries[i].addr / 4096 * 4096 + 0xFFFF_8000_0000_0000 >= WORD_LIMIT
    case BadSegment => exists i :: 0 <= i < |s.used.sections| && UnknownKind(s.used.sections[i])
  }

  /** boot_mm_pgtable_init up to the load of the new table. */
  method PgtableInit(source: PageSource)
    returns (status: BootStatus, m: Option<Mapper>, pgdbPageNr: nat, ghost frames: seq<nat>, ghost image: Writes, ghost bss: seq<nat>)
    requires source.Valid() && forall i :: 0 <= i < |source.entries| ==> source.entries[i].addr + source.entries[i].len < WORD_LIMIT
    requires TopOf(source.entries, |source.entries|) / PAGE_SIZE * 64 <= PAGE_DATABASE_END + 1 - PAGE_DATABASE_BASE
    requires GoodRanges(source.used)
    modifies source
    ensures source.Valid() && FailureMeans(status, source)
    ensures status == Done ==> m.Some? && fresh(m.value) && m.value.source == source && m.value.Valid()
    ensures status == Done ==> pgdbPageNr == TopOf(source.entries, |source.entries|) / PAGE_SIZE
    ensures status == Done ==> DirectMapReady(m.value) && DatabaseReady(m.value, pgdbPageNr, frames)
    ensures status == Done ==> SectionsMapped(source.used.sections, |source.used.sections|, image, bss)
    ensures status == Done ==> ImageReady(m.value, frames, image + ScreenWrites(source.used.frameBuffer)) && BssReady(m.value, frames, bss)
  {
    hide PageSource.Valid, PageSource.Remaining, SkipUsed, Tree, Walk, Slot, TopOf, InRegion, PageDown, PageUp, EntryEnd, DirectMapped, DirectWord;
    hide After, SectionsMapped, ImageWrites, InSpace, DirectMapReady, ImageReady, ScreenWrites, Mapper.Translate, Mapper.At;
    m, pgdbPageNr, frames, image, bss := None, 0, [], [], [];
    var root := source.PageAlloc();
    if IsErrPtr(root) {
      return NoMemory, m, pgdbPageNr, frames, image, bss;
    }
    var mapper := new Mapper(source, root);
    m := Some(mapper);
    status, image, bss := mapper.MapSections();
    if status != Done {
      return;
    }
    var done := MapScreen(mapper, image);
    if !done {
      status := NoMemory;
      return;
    }
    status, pgdbPageNr, frames := MapMemory(mapper, image + ScreenWrites(source.used.frameBuffer));
  }

  /** The loops for the direct mapping area and the page database, after those for the image and the screen. */
  method MapMemory(m: Mapper, ghost ws: Writes) returns (status: BootStatus, pgdbPageNr: nat, ghost frames: seq<nat>)
    requires m.Valid() && forall i :: 0 <= i < |m.source.entries| ==> m.source.entries[i].addr + m.source.entries[i].len < WORD_LIMIT
    requires TopOf(m.source.entries, |m.source.entries|) / PAGE_SIZE * 64 <= PAGE_DATABASE_END + 1 - PAGE_DATABASE_BASE
    requires forall s: nat :: s < SLOTS ==> m.Translate(s) == After(ws, s, 0)
    modifies m`mem, m`labels, m.source
    ensures m.Valid() && m.Grown() && FailureMeans(status, m.source)
    ensures status == Done ==> pgdbPageNr == TopOf(m.source.entries, |m.source.entries|) / PAGE_SIZE
    ensures status == Done ==> DirectMapReady(m) && DatabaseReady(m, pgdbPageNr, frames) && ImageReady(m, frames, ws)
    ensures status == Done ==> forall i :: 0 <= i < |frames| ==> frames[i] !in old(m.source.taken)
  {
    hide PageSource.Valid, PageSource.Remaining, SkipUsed, Tree, Walk, Slot, TopOf, InRegion, PageDown, EntryEnd, DirectMapped, DirectWord;
    hide After, DirectMapReady, ImageReady, Mapper.Translate, Mapper.At, Mapper.Valid;
    pgdbPageNr, frames := 0, [];
    var physmemEnd;
    status, physmemEnd := m.MapDirect();
    if status != Done {
      return;
    }
    pgdbPageNr := physmemEnd / PAGE_SIZE;
    status, frames := m.MapDatabase(pgdbPageNr);
    if status != Done {
      return;
    }
    MapsReady(m, pgdbPageNr, frames, ws);
  }

  /** The loop for the frame buffer, if there is one. */
  method MapScreen(m: Mapper, ghost image: Writes) returns (done: bool)
    requires m.Valid() && GoodRanges(m.source.used)
    modifies m`mem, m`labels, m.source
    ensures m.Valid() && m.Grown() && (!done ==> m.source.Remaining() == [])
    ensures done ==> forall s: nat :: s < SLOTS ==>
              m.Translate(s) == After(ScreenWrites(m.source.used.frameBuffer), s, old(m.Translate(s)))
    ensures done ==> forall s: nat, w: nat :: s < SLOTS && old(m.Translate(s)) == After(image, s, w) ==>
              m.Translate(s) == After(image + ScreenWrites(m.source.used.frameBuffer), s, w)
  {
    hide PageSource.Valid, PageSource.Remaining, SkipUsed, Tree, Walk, Slot, PageDown, PageUp, After, ImageWrites, InSpace;
    NoWrites();
    ghost var ws: Writes := [];
    if m.source.used.frameBuffer.Some? {
      var fb := m.source.used.frameBuffer.value;
      PageDownIs(fb.0);
      var base := PageDown(fb.0);
      var end := (base + (fb.1 - fb.0)) % WORD_LIMIT;
      PageUpFits(end);
      var err;
      err, ws := m.MapImage(base, base, PageUp(end), PTE_DEFAULT);
      if err < 0 {
        return false;
      }
    }
    forall s: nat, w: nat | s < SLOTS && old(m.Translate(s)) == After(image, s, w)
      ensures m.Translate(s) == After(image + ws, s, w)
    {
      AfterBoth(image, ws, s, w);
    }
    assert ws == ScreenWrites(m.source.used.frameBuffer);
    return true;
  }
}
