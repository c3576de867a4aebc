/** Page frame numbers, physical and virtual addresses, and the way back from a
    bare address to the head page of the block that holds it. Addresses are
    64-bit words written as natural numbers. */
module Addresses {
  import opened Bits
  import opened Buddy

  const PAGE_SHIFT: nat := 12
  const PAGE_SIZE: nat := 4096
  const WORD_LIMIT: nat := 0x1_0000_0000_0000_0000
  const PAGE_MASK: nat := WORD_LIMIT - 4096
  const DIRECT_MAP_BASE: nat := 0xFFFF_8000_0000_0000
  const DIRECT_MAP_END: nat := 0xFFFF_BFFF_FFFF_FFFF
  const PAGE_DATABASE_BASE: nat := 0xFFFF_F000_0000_0000
  const PAGE_DATABASE_END: nat := 0xFFFF_F7FF_FFFF_FFFF
  const DESC_SHIFT: nat := 6
  /** Frames below the 64 TB that the direct map covers. */
  const DIRECT_PAGES: nat := 0x4_0000_0000

  function Complement(a: nat): nat
    requires a < WORD_LIMIT
  {
    WORD_LIMIT - 1 - a
  }

  function PageToVirt(pfn: nat): nat { DIRECT_MAP_BASE + pfn * PAGE_SIZE }

  function VirtToPhys(addr: nat): nat
    requires addr >= DIRECT_MAP_BASE
  {
    addr - DIRECT_MAP_BASE
  }

  function PhysToPfn(addr: nat): nat { And(addr, PAGE_MASK) / PAGE_SIZE }

  function VirtToPfn(addr: nat): nat
    requires addr >= DIRECT_MAP_BASE
  {
    PhysToPfn(VirtToPhys(addr))
  }

  /** &pgdb_base[pfn]; a descriptor takes 64 bytes. */
  function DescAddr(pfn: nat): nat { PAGE_DATABASE_BASE + 64 * pfn }

  /** get_head_page, on frame numbers. The mask works on the descriptor's address. */
  function GetHeadPage(d: seq<Page>, i: nat): int
    requires i < |d| <= DIRECT_PAGES && d[i].order < MAX_PAGE_ORDER
  {
    if d[i].isHead then i
    else
      DescSizeFits(d[i].order);
      (And(DescAddr(i), Complement(64 * Pow2(d[i].order) - 1)) - PAGE_DATABASE_BASE) / 64
  }

  lemma DescSizeFits(k: nat)
    requires k < MAX_PAGE_ORDER
    ensures 64 * Pow2(k) == Pow2(DESC_SHIFT + k) <= 65536
  {
    Pow2Values();
    Pow2Add(DESC_SHIFT, k);
    Pow2Mono(k, 10);
  }

  lemma {:induction false} HeadOfShift(base: nat, x: nat, k: nat)
    requires Aligned(base, k)
    ensures HeadOf(base + x, k) == base + HeadOf(x, k)
  {
    if k > 0 {
      HeadOfShift(base / 2, x / 2, k - 1);
      assert (base + x) / 2 == base / 2 + x / 2;
    }
  }

  lemma HeadOfDouble(x: nat, k: nat)
    ensures HeadOf(2 * x, k + 1) == 2 * HeadOf(x, k)
  {
    assert 2 * x / 2 == x;
  }

  lemma HeadOf64(x: nat, k: nat)
    ensures HeadOf(64 * x, 6 + k) == 64 * HeadOf(x, k)
  {
    hide HeadOf;
    HeadOfDouble(x, k);
    HeadOfDouble(2 * x, k + 1);
    HeadOfDouble(4 * x, k + 2);
    HeadOfDouble(8 * x, k + 3);
    HeadOfDouble(16 * x, k + 4);
    HeadOfDouble(32 * x, k + 5);
  }

  lemma {:induction false} AlignedMul(q: nat, k: nat)
    ensures Aligned(q * Pow2(k), k)
  {
    if k > 0 {
      assert q * Pow2(k) == 2 * (q * Pow2(k - 1));
      AlignedMul(q, k - 1);
    }
  }

  lemma DatabaseAligned(k: nat)
    requires k <= 44
    ensures Aligned(PAGE_DATABASE_BASE, k)
  {
    Pow2Values();
    Pow2Add(11, 11);
    Pow2Add(22, 22);
    assert PAGE_DATABASE_BASE == 0xFFFFF * Pow2(44);
    AlignedMul(0xFFFFF, 44);
    AlignedWeaken(PAGE_DATABASE_BASE, k, 44);
  }

  /** The mask rounds a descriptor's address down to its block's first descriptor. */
  lemma DescMask(i: nat, k: nat)
    requires k < MAX_PAGE_ORDER && i < DIRECT_PAGES
    ensures 64 * Pow2(k) <= WORD_LIMIT
    ensures And(DescAddr(i), Complement(64 * Pow2(k) - 1)) == DescAddr(HeadOf(i, k))
  {
    hide HeadOf, Pow2, And, Aligned;
    DescSizeFits(k);
    assert WORD_LIMIT == Pow2(64) by { Pow2Values(); }
    AndHighMask(DescAddr(i), 64, DESC_SHIFT + k);
    DatabaseAligned(DESC_SHIFT + k);
    HeadOf64(i, k);
    HeadOfShift(PAGE_DATABASE_BASE, 64 * i, DESC_SHIFT + k);
  }

  lemma PhysToPfnIsDiv(addr: nat)
    requires addr < WORD_LIMIT
    ensures PhysToPfn(addr) == addr / PAGE_SIZE
  {
    Pow2Values();
    AndHighMask(addr, 64, 12);
    HeadOfIsMod(addr, 12);
  }

  /** From any page of a block, get_head_page finds the block's head. */
  lemma HeadPageFound(d: seq<Page>, m: set<nat>, h: nat, k: nat, free: bool, i: nat)
    requires IsBlock(d, m, h, k, free) && InRun(h, k, i) && |d| <= DIRECT_PAGES
    ensures i < |d| && d[i].order < MAX_PAGE_ORDER && GetHeadPage(d, i) == h
  {
    if !d[i].isHead {
      DescMask(i, k);
      HeadUnique(i, k, h);
    }
  }

  /** From any byte inside a block, virt_to_page and get_head_page find the block's head. */
  lemma OwnerRecovered(d: seq<Page>, m: set<nat>, h: nat, k: nat, free: bool, addr: nat)
    requires IsBlock(d, m, h, k, free) && |d| <= DIRECT_PAGES
    requires PageToVirt(h) <= addr < PageToVirt(h) + PAGE_SIZE * Pow2(k)
    ensures var i := VirtToPfn(addr);
            i < |d| && d[i].order < MAX_PAGE_ORDER && GetHeadPage(d, i) == h
  {
    var phys := VirtToPhys(addr);
    assert h * PAGE_SIZE <= phys < (h + Pow2(k)) * PAGE_SIZE;
    PhysToPfnIsDiv(phys);
    HeadPageFound(d, m, h, k, free, phys / PAGE_SIZE);
  }
}
