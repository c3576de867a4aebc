/** The boot-time page source: a linear walk over the available regions of the
    memory map, one page at a time, that skips pages in use. */
module BootSource {
  import opened Bits
  import opened Options
  import opened ListLinks
  import opened Addresses

  // ------------------------------------------------------- error pointers

  const MAX_ERRNO: nat := 4095
  const ENOMEM: nat := 12

  /** ERR_PTR(-errno) */
  function ErrPtr(errno: nat): nat
    requires 0 < errno < WORD_LIMIT
  {
    WORD_LIMIT - errno
  }

  /** IS_ERR_PTR */
  predicate IsErrPtr(ptr: nat) { ptr > WORD_LIMIT - MAX_ERRNO }

  /** The test knows exactly the error numbers below MAX_ERRNO: the comparison is
      strict, so MAX_ERRNO itself passes for an address. */
  lemma IsErrExact(errno: nat)
    requires 0 < errno < WORD_LIMIT
    ensures IsErrPtr(ErrPtr(errno)) <==> errno < 4095
  {
  }

  // ------------------------------------------------------------ memory map

  /** Memory-map entry types of the Multiboot2 Specification, section 3.6.8. */
  const MEMORY_AVAILABLE: nat := 1
  const MEMORY_RESERVED: nat := 2
  const MEMORY_ACPI_RECLAIMABLE: nat := 3
  const MEMORY_NVS: nat := 4
  const MEMORY_BADRAM: nat := 5

  datatype MmapEntry = MmapEntry(addr: nat, len: nat, kind: nat)

  function PageDown(a: nat): nat { And(a, PAGE_MASK) }

  /** PAGE_ALIGN */
  function PageUp(a: nat): nat { And((a + (PAGE_SIZE - 1)) % WORD_LIMIT, PAGE_MASK) }

  lemma PageDownIs(a: nat)
    requires a < WORD_LIMIT
    ensures PageDown(a) == a / PAGE_SIZE * PAGE_SIZE
  {
    Pow2Values();
    AndHighMask(a, 64, 12);
    HeadOfIsMod(a, 12);
  }

  lemma PageUpIs(a: nat)
    requires a <= WORD_LIMIT - PAGE_SIZE
    ensures PageUp(a) == (a + 4095) / PAGE_SIZE * PAGE_SIZE
  {
    PageDownIs(a + 4095);
  }

  /** No available entry runs into the end of the address space. */
  ghost predicate NoOverflow(es: seq<MmapEntry>) {
    forall i :: 0 <= i < |es| && es[i].kind == MEMORY_AVAILABLE ==> es[i].addr <= WORD_LIMIT - PAGE_SIZE && es[i].addr + es[i].len < WORD_LIMIT
  }

  /** Available entries do not overlap. */
  ghost predicate RegionsDisjoint(es: seq<MmapEntry>) {
    forall i, j :: 0 <= i < |es| && 0 <= j < |es| && i != j && es[i].kind == es[j].kind == MEMORY_AVAILABLE ==>
      es[i].addr + es[i].len <= es[j].addr || es[j].addr + es[j].len <= es[i].addr
  }

  /** The pages of [a, e), both page-aligned. */
  function PagesOf(a: nat, e: nat): seq<nat>
    decreases if e > a then e - a else 0
  {
    if a < e then [a] + PagesOf(a + PAGE_SIZE, e) else []
  }

  /** Whole pages of an entry that can be handed out. */
  function EntryPages(e: MmapEntry): seq<nat> {
    if e.kind == MEMORY_AVAILABLE then PagesOf(PageUp(e.addr), PageDown(e.addr + e.len)) else []
  }

  function PagesFrom(es: seq<MmapEntry>, i: nat): seq<nat>
    decreases |es| - i
  {
    if i >= |es| then [] else EntryPages(es[i]) + PagesFrom(es, i + 1)
  }

  lemma {:induction false} PagesOfContents(a: nat, e: nat)
    requires a % PAGE_SIZE == 0
    ensures Distinct(PagesOf(a, e))
    ensures forall x :: x in PagesOf(a, e) <==> a <= x < e && x % PAGE_SIZE == 0
    decreases if e > a then e - a else 0
  {
    if a < e {
      PagesOfContents(a + PAGE_SIZE, e);
      assert PagesOf(a, e)[1..] == PagesOf(a + PAGE_SIZE, e);
      assert forall x :: x in PagesOf(a, e) <==> x == a || x in PagesOf(a + PAGE_SIZE, e);
      assert forall i :: 1 <= i < |PagesOf(a, e)| ==> PagesOf(a, e)[i] in PagesOf(a + PAGE_SIZE, e);
    }
  }

  /** Page x lies wholly inside an available entry, one of type 1. */
  predicate PageInEntry(e: MmapEntry, x: nat) {
    e.kind == 1 && x % PAGE_SIZE == 0 && e.addr <= x && x + PAGE_SIZE <= e.addr + e.len
  }

  lemma EntryPagesContents(e: MmapEntry)
    requires e.kind == MEMORY_AVAILABLE ==> e.addr <= WORD_LIMIT - PAGE_SIZE && e.addr + e.len < WORD_LIMIT
    ensures Distinct(EntryPages(e))
    ensures forall x :: x in EntryPages(e) <==> PageInEntry(e, x)
  {
    hide PagesOf, PageUp, PageDown;
    if e.kind == MEMORY_AVAILABLE {
      PageUpIs(e.addr);
      PageDownIs(e.addr + e.len);
      PagesOfContents(PageUp(e.addr), PageDown(e.addr + e.len));
    }
  }

  /** The source's pages: each whole available page, once. */
  lemma {:induction false} PagesFromContents(es: seq<MmapEntry>, i: nat)
    requires NoOverflow(es) && RegionsDisjoint(es)
    ensures Distinct(PagesFrom(es, i))
    ensures forall x :: x in PagesFrom(es, i) <==> exists j :: i <= j < |es| && PageInEntry(es[j], x)
    decreases |es| - i
  {
    if i < |es| {
      var first, rest := EntryPages(es[i]), PagesFrom(es, i + 1);
      EntryPagesContents(es[i]);
      PagesFromContents(es, i + 1);
      assert forall x :: x in first + rest <==> x in first || x in rest;
      forall x | x in first
        ensures x !in rest
      {
        assert PageInEntry(es[i], x);
      }
      assert forall k :: 0 <= k < |first| ==> (first + rest)[k] in first;
      assert forall k :: |first| <= k < |first| + |rest| ==> (first + rest)[k] in rest;
    }
  }

  /** The bounds the source computes for a region. */
  lemma RegionBounds(e: MmapEntry)
    requires e.kind == MEMORY_AVAILABLE ==> e.addr <= WORD_LIMIT - PAGE_SIZE && e.addr + e.len < WORD_LIMIT
    ensures e.kind != MEMORY_AVAILABLE ==> EntryPages(e) == []
    ensures e.kind == MEMORY_AVAILABLE ==>
            var base, end := PageUp(e.addr), PageDown(e.addr + e.len);
            && base % PAGE_SIZE == 0 && end % PAGE_SIZE == 0 && end < WORD_LIMIT
            && EntryPages(e) == PagesOf(base, end)
            && (PagesOf(base, end) == [] <==> end < base || end - base < PAGE_SIZE)
  {
    if e.kind == MEMORY_AVAILABLE {
      PageUpIs(e.addr);
      PageDownIs(e.addr + e.len);
    }
  }

  lemma MultipleGap(a: nat, e: nat)
    requires a < e && a % PAGE_SIZE == 0 && e % PAGE_SIZE == 0
    ensures a + PAGE_SIZE <= e
  {
  }

  lemma PagesOfFirst(a: nat, e: nat)
    ensures PagesOf(a, e) == if a < e then [a] + PagesOf(a + PAGE_SIZE, e) else []
  {
  }

  /** Drawing the first of a list of pages. */
  lemma FirstPage(a: nat, e: nat, rest: seq<nat>)
    requires a < e && a % PAGE_SIZE == 0 && e % PAGE_SIZE == 0
    ensures a + PAGE_SIZE <= e
    ensures var r := PagesOf(a, e) + rest;
            && r != [] && r[0] == a
            && r[1..] == (if a + PAGE_SIZE == e then [] else PagesOf(a + PAGE_SIZE, e)) + rest
  {
    hide PagesOf;
    MultipleGap(a, e);
    PagesOfFirst(a, e);
    PagesOfFirst(a + PAGE_SIZE, e);
    assert (PagesOf(a, e) + rest)[1..] == PagesOf(a, e)[1..] + rest;
  }

  // ------------------------------------------------------------ used ranges

  const SHT_PROGBITS: nat := 1
  const SHT_NOBITS: nat := 8
  const SHF_WRITE: nat := 1
  const SHF_ALLOC: nat := 2

  datatype Section = Section(kind: nat, flags: nat, addr: nat, offset: nat, size: nat)

  /** What the kernel image, the frame buffer and the boot information occupy. */
  datatype UsedRanges = UsedRanges(sections: seq<Section>, frameBuffer: Option<(nat, nat)>, tagStart: nat, tagEnd: nat)

  function SegStart(s: Section): nat { (0x100000 + s.offset) % WORD_LIMIT }

  function SegEnd(s: Section): nat { PageUp((SegStart(s) + s.size) % WORD_LIMIT) }

  predicate InSection(s: Section, addr: nat) {
    s.kind == SHT_PROGBITS && And(s.flags, SHF_ALLOC) != 0 && SegStart(s) <= addr < SegEnd(s)
  }

  ghost predicate InUsedRange(u: UsedRanges, addr: nat) {
    || (exists i :: 0 <= i < |u.sections| && InSection(u.sections[i], addr))
    || (u.frameBuffer.Some? && u.frameBuffer.value.0 <= addr <= u.frameBuffer.value.1)
    || u.tagStart <= addr <= u.tagEnd
  }

  /** The section is one that the range test looks at. */
  predicate Loaded(s: Section) { s.kind == SHT_PROGBITS && And(s.flags, SHF_ALLOC) != 0 }

  /** The byte at b belongs to a section that is loaded with the image: of type 1 (SHT_PROGBITS) with
      flag 2 (SHF_ALLOC), its bytes lying from 1 MB on as they do in the file. */
  predicate InImage(s: Section, b: nat) {
    s.kind == 1 && s.flags / 2 % 2 == 1 && 0x100000 + s.offset <= b < 0x100000 + s.offset + s.size
  }

  /** The section's bytes lie in the address space. */
  predicate InMemory(s: Section) { 0x100000 + s.offset + s.size <= WORD_LIMIT - PAGE_SIZE }

  /** The range test on one section, for one in the address space: from its first byte to the end of its last page. */
  lemma SectionKept(s: Section, a: nat)
    requires InMemory(s)
    ensures InSection(s, a) <==>
            && s.kind == 1 && s.flags / 2 % 2 == 1
            && 0x100000 + s.offset <= a < (0x100000 + s.offset + s.size + 4095) / 4096 * 4096
    ensures InImage(s, a) ==> InSection(s, a)
  {
    FlagBits(s.flags);
    PageUpIs(0x100000 + s.offset + s.size);
  }

  /** A page that passes the test holds no byte of the image, unless a section begins inside it, and begins
      neither in the frame buffer nor in the boot information. */
  ghost predicate PageClear(u: UsedRanges, x: nat) {
    && (forall i, b: nat :: 0 <= i < |u.sections| && InMemory(u.sections[i]) && InImage(u.sections[i], b) && x <= b < x + 4096 ==>
        x < 0x100000 + u.sections[i].offset)
    && (u.frameBuffer.Some? ==> x < u.frameBuffer.value.0 || u.frameBuffer.value.1 < x)
    && (x < u.tagStart || u.tagEnd < x)
  }

  lemma UnusedClear(u: UsedRanges, x: nat)
    requires !InUsedRange(u, x) && x % PAGE_SIZE == 0
    ensures PageClear(u, x)
  {
    hide InSection;
    forall i, b: nat | 0 <= i < |u.sections| && InMemory(u.sections[i]) && InImage(u.sections[i], b) && x <= b < x + 4096
      ensures x < 0x100000 + u.sections[i].offset
    {
      SectionKept(u.sections[i], x);
      assert !InSection(u.sections[i], x);
    }
  }

  /** Some range that is not empty begins inside the page at x, after its first byte. */
  ghost predicate RangeBegins(u: UsedRanges, x: nat) {
    || (exists i :: 0 <= i < |u.sections| && Loaded(u.sections[i]) && SegStart(u.sections[i]) < SegEnd(u.sections[i])
                    && x < SegStart(u.sections[i]) < x + PAGE_SIZE)
    || (u.frameBuffer.Some? && u.frameBuffer.value.0 <= u.frameBuffer.value.1 && x < u.frameBuffer.value.0 < x + PAGE_SIZE)
    || (u.tagStart <= u.tagEnd && x < u.tagStart < x + PAGE_SIZE)
  }

  /** The source tests a page by its first byte. A page that passes has a byte in use exactly if
      some range begins inside it. */
  lemma PageBytesExact(u: UsedRanges, x: nat)
    requires !InUsedRange(u, x)
    ensures (exists b: nat :: x <= b < x + PAGE_SIZE && InUsedRange(u, b)) <==> RangeBegins(u, x)
  {
    hide And, PageUp;
    if b: nat :| x <= b < x + PAGE_SIZE && InUsedRange(u, b) {
      assert forall i :: 0 <= i < |u.sections| ==> !InSection(u.sections[i], x);
    }
    if RangeBegins(u, x) {
      if i :| 0 <= i < |u.sections| && Loaded(u.sections[i]) && SegStart(u.sections[i]) < SegEnd(u.sections[i])
              && x < SegStart(u.sections[i]) < x + PAGE_SIZE {
        assert InSection(u.sections[i], SegStart(u.sections[i]));
        assert InUsedRange(u, SegStart(u.sections[i]));
      } else if u.frameBuffer.Some? && u.frameBuffer.value.0 <= u.frameBuffer.value.1 && x < u.frameBuffer.value.0 < x + PAGE_SIZE {
        assert InUsedRange(u, u.frameBuffer.value.0);
      } else {
        assert InUsedRange(u, u.tagStart);
      }
    }
  }

  /** addr_is_in_used_range, where the sections lie in the address space: whether the address is in the pages of a
      loaded section from its first byte on, in the frame buffer or in the boot information, both ends included. */
  lemma UsedMeans(u: UsedRanges, a: nat)
    requires forall i :: 0 <= i < |u.sections| ==> InMemory(u.sections[i])
    ensures InUsedRange(u, a) <==>
            || (exists i :: 0 <= i < |u.sections| && u.sections[i].kind == 1 && u.sections[i].flags / 2 % 2 == 1
                  && 0x100000 + u.sections[i].offset <= a < (0x100000 + u.sections[i].offset + u.sections[i].size + 4095) / 4096 * 4096)
            || (u.frameBuffer.Some? && u.frameBuffer.value.0 <= a <= u.frameBuffer.value.1)
            || u.tagStart <= a <= u.tagEnd
  {
    hide InSection;
    forall i | 0 <= i < |u.sections| { SectionKept(u.sections[i], a); }
  }

  /** addr_is_in_used_range */
  method AddrIsInUsedRange(u: UsedRanges, addr: nat) returns (used: bool)
    ensures used <==> InUsedRange(u, addr)
    ensures !used && addr % 4096 == 0 ==> PageClear(u, addr)
  {
    hide PageClear;
    if addr % 4096 == 0 && !InUsedRange(u, addr) { UnusedClear(u, addr); }
    var i := 0;
    while i < |u.sections|
      invariant i <= |u.sections|
      invariant forall j :: 0 <= j < i ==> !InSection(u.sections[j], addr)
    {
      var s := u.sections[i];
      if s.kind == SHT_PROGBITS && And(s.flags, SHF_ALLOC) != 0 {
        if addr >= SegStart(s) && addr < SegEnd(s) {
          assert InSection(s, addr);
          return true;
        }
      }
      i := i + 1;
    }
    if u.frameBuffer.Some? {
      if addr >= u.frameBuffer.value.0 && addr <= u.frameBuffer.value.1 {
        return true;
      }
    }
    if addr >= u.tagStart && addr <= u.tagEnd {
      return true;
    }
    return false;
  }

  /** r from its first page that is not in use. */
  ghost function SkipUsed(u: UsedRanges, r: seq<nat>): seq<nat> {
    if r == [] || !InUsedRange(u, r[0]) then r else SkipUsed(u, r[1..])
  }

  lemma {:induction false} SkipUsedSuffix(u: UsedRanges, r: seq<nat>)
    ensures SkipUsed(u, r) != [] ==> !InUsedRange(u, SkipUsed(u, r)[0])
    ensures Suffix(SkipUsed(u, r), r)
    ensures forall i :: 0 <= i < |r| - |SkipUsed(u, r)| ==> InUsedRange(u, r[i])
  {
    if r != [] && InUsedRange(u, r[0]) {
      SkipUsedSuffix(u, r[1..]);
      assert forall i :: 1 <= i < |r| ==> r[i] == r[1..][i - 1];
    }
  }

  // ----------------------------------------------------------------- source

  class PageSource {
    const entries: seq<MmapEntry>
    const used: UsedRanges
    var currEntry: bool     // curr_entry is not null
    var currIdx: int
    var currAvail: nat
    var currEnd: nat
    /** Pages that PageAlloc has returned. */
    ghost var taken: set<nat>

    /** Pages the source can still draw, in order. */
    ghost function Remaining(): seq<nat>
      reads this
    {
      (if currEntry then PagesOf(currAvail, currEnd) else []) + (if currIdx < -1 then [] else PagesFrom(entries, currIdx + 1))
    }

    /** The cursor is in order. */
    ghost predicate Cursor()
      reads this
    {
      && NoOverflow(entries) && -1 <= currIdx < |entries|
      && (currEntry ==> currAvail < currEnd < WORD_LIMIT && currAvail % PAGE_SIZE == 0 && currEnd % PAGE_SIZE == 0)
    }

    ghost predicate Valid()
      reads this
    {
      && Cursor() && RegionsDisjoint(entries) && !InUsedRange(used, ErrPtr(ENOMEM))
      && Marked(Remaining(), PagesFrom(entries, 0), currAvail)
      && (forall x :: x in taken ==> x in PagesFrom(entries, 0) && x !in Remaining() && !InUsedRange(used, x))
    }

    constructor (es: seq<MmapEntry>, u: UsedRanges)
      requires NoOverflow(es) && RegionsDisjoint(es) && !InUsedRange(u, ErrPtr(ENOMEM))
      ensures Valid() && entries == es && used == u && taken == {}
      ensures Remaining() == PagesFrom(es, 0) && currAvail == 0 && !currEntry
    {
      entries := es;
      used := u;
      currEntry, currIdx, currAvail, currEnd := false, -1, 0, 0;
      taken := {};
    }

    /** Look for the next region with a whole page in it. */
    method NextRegion()
      requires Cursor() && !currEntry
      modifies this`currEntry, this`currIdx, this`currAvail, this`currEnd
      ensures Cursor() && Remaining() == old(Remaining())
      ensures currEntry <==> Remaining() != []
      ensures !currEntry ==> currAvail == old(currAvail)
    {
      hide PageUp, PageDown, PagesOf, EntryPages, And;
      var i := currIdx + 1;
      while i < |entries|
        invariant currIdx < i <= |entries| && !currEntry && Cursor()
        invariant currIdx == old(currIdx) && currAvail == old(currAvail)
        invariant PagesFrom(entries, i) == old(Remaining())
      {
        RegionBounds(entries[i]);
        if entries[i].kind == MEMORY_AVAILABLE {
          var base := entries[i].addr;
          var end := (base + entries[i].len) % WORD_LIMIT;
          assert base <= end;   // the overflow check cannot fire
          base := PageUp(base);
          end := PageDown(end);
          if !(end < base || end - base < PAGE_SIZE) {
            currAvail, currEnd, currEntry, currIdx := base, end, true, i;
            return;
          }
        }
        i := i + 1;
      }
    }

    /** boot_mm_page_alloc_internal */
    method PageAllocInternal() returns (res: nat)
      requires Cursor()
      modifies this`currEntry, this`currIdx, this`currAvail, this`currEnd
      ensures Cursor()
      ensures old(Remaining()) == [] ==> res == ErrPtr(ENOMEM) && Remaining() == [] && currAvail == old(currAvail)
      ensures old(Remaining()) != [] ==>
              res == old(Remaining())[0] && Remaining() == old(Remaining())[1..] && currAvail == res + PAGE_SIZE
    {
      hide PagesOf, PagesFrom, NoOverflow;
      if !currEntry {
        NextRegion();
      }
      if !currEntry {
        return ErrPtr(ENOMEM);
      }
      FirstPage(currAvail, currEnd, PagesFrom(entries, currIdx + 1));
      res := currAvail;
      currAvail := currAvail + PAGE_SIZE;
      if currAvail == currEnd {
        currEntry := false;
      }
    }

    /** What one draw does to the pages that are left. */
    ghost predicate Drawn(r: seq<nat>, res: nat)
      reads this
    {
      if r == [] then res == ErrPtr(ENOMEM) && Remaining() == [] else res == r[0] && Remaining() == r[1..]
    }

    /** The loop of boot_mm_page_alloc. */
    method DrawUnused() returns (res: nat)
      requires Cursor() && !InUsedRange(used, ErrPtr(ENOMEM))
      modifies this`currEntry, this`currIdx, this`currAvail, this`currEnd
      requires Marked(Remaining(), PagesFrom(entries, 0), currAvail)
      ensures Cursor() && Drawn(SkipUsed(used, old(Remaining())), res)
      ensures Marked(Remaining(), PagesFrom(entries, 0), currAvail)
    {
      hide NoOverflow, InUsedRange, PagesOf, PagesFrom, Marked;
      ghost var r := Remaining();
      MarkNext(r, PagesFrom(entries, 0), currAvail);
      res := PageAllocInternal();
      var again := AddrIsInUsedRange(used, res);
      while again
        invariant Cursor() && Drawn(r, res) && Marked(Remaining(), PagesFrom(entries, 0), currAvail)
        invariant again == InUsedRange(used, res)
        invariant SkipUsed(used, r) == SkipUsed(used, old(Remaining()))
        decreases |r|
      {
        r := Remaining();
        MarkNext(r, PagesFrom(entries, 0), currAvail);
        res := PageAllocInternal();
        again := AddrIsInUsedRange(used, res);
      }
    }

    /** boot_mm_page_alloc */
    method PageAlloc() returns (res: nat)
      requires Valid()
      modifies this
      ensures Valid()
      ensures var r := SkipUsed(used, old(Remaining())); Drawn(r, res) && taken == old(taken) + (if r == [] then {} else {res})
      ensures IsErrPtr(res) <==> SkipUsed(used, old(Remaining())) == []
      ensures IsErrPtr(res) ==> Remaining() == [] && taken == old(taken)
      ensures !IsErrPtr(res) ==> taken == old(taken) + {res}
      ensures !IsErrPtr(res) ==> res !in old(taken) && !InUsedRange(used, res) && exists j :: 0 <= j < |entries| && PageInEntry(entries[j], res)
      ensures !IsErrPtr(res) ==> PageClear(used, res)
    {
      hide NoOverflow, RegionsDisjoint, InUsedRange, PagesOf, PagesFrom, PageInEntry, Suffix, SkipUsed, Marked, IsErrPtr, ErrPtr, PageClear;
      ghost var before := Remaining();
      ghost var r := SkipUsed(used, before);
      res := DrawUnused();
      SkipUsedSuffix(used, before);
      MarkedSuffix(before, PagesFrom(entries, 0), old(currAvail));
      DrawnPage(entries, before, r);
      if r != [] {
        UnusedClear(used, res);
        taken := taken + {res};
      }
    }
  }

  ghost predicate Suffix(r: seq<nat>, all: seq<nat>) {
    |r| <= |all| && r == all[|all| - |r|..]
  }

  /** r is what is left of all, and mark is where the last drawn page ended. */
  ghost predicate Marked(r: seq<nat>, all: seq<nat>, mark: nat) {
    Suffix(r, all) && mark == if |r| == |all| then 0 else all[|all| - |r| - 1] + PAGE_SIZE
  }

  lemma MarkedSuffix(r: seq<nat>, all: seq<nat>, mark: nat)
    requires Marked(r, all, mark)
    ensures Suffix(r, all)
  {
  }

  lemma MarkNext(r: seq<nat>, all: seq<nat>, mark: nat)
    requires Marked(r, all, mark)
    ensures r != [] ==> Marked(r[1..], all, r[0] + PAGE_SIZE)
  {
  }

  /** The head of a suffix of a sequence without repeats. */
  lemma SuffixHead(all: seq<nat>, before: seq<nat>, r: seq<nat>)
    requires Distinct(all) && Suffix(before, all) && Suffix(r, before) && r != []
    ensures Suffix(r[1..], all) && r[0] in all && r[0] in before && r[0] !in r[1..]
    ensures forall x :: x in r[1..] ==> x in before
  {
    var k := |all| - |r|;
    assert forall i :: 0 <= i < |r| ==> r[i] == all[k + i] && r[i] == before[|before| - |r| + i];
  }

  /** The first page of a shorter suffix: where it is from, and what is left. */
  lemma DrawnPage(es: seq<MmapEntry>, before: seq<nat>, r: seq<nat>)
    requires NoOverflow(es) && RegionsDisjoint(es)
    requires Suffix(before, PagesFrom(es, 0)) && Suffix(r, before)
    ensures IsErrPtr(ErrPtr(ENOMEM)) && Suffix([], PagesFrom(es, 0))
    ensures r != [] ==>
            && Suffix(r[1..], PagesFrom(es, 0)) && r[0] in before && r[0] !in r[1..] && !IsErrPtr(r[0])
            && r[0] % PAGE_SIZE == 0 && r[0] in PagesFrom(es, 0) && (exists j :: 0 <= j < |es| && PageInEntry(es[j], r[0]))
            && forall x :: x in r[1..] ==> x in before
  {
    hide PagesFrom, RegionsDisjoint;
    PagesFromContents(es, 0);
    if r != [] {
      SuffixHead(PagesFrom(es, 0), before, r);
    }
  }
}
