# ClosureOS memory management: model and proofs

This project models the memory-management stack of ClosureOS, a small x86-64 kernel, and proves what it is
meant to guarantee, from the first page that the boot code hands out to the pieces that `operator new` returns.
It also covers the smaller heap and protocol cores beside that stack: the frame-buffer console, the exit-time
destructor list, the spinlocks with their order, and page reference counts.

Physical pages are named by page frame number and descriptors live in an array indexed by it. Intrusive list
links are arrays of indices with ghost sequences that say which circles they form. Page tables live in a map
from frame address to 512 words, free objects in a map from address to word. Every operation that the kernel
does step by step is a class method with the same branches and loops, proved equal to a function on sequences;
the theorems are lemmas about those functions and invariants that the methods keep.

| file | what it holds |
|---|---|
| Bits.dfy, Option.dfy | shifts, masks and exclusive-or as arithmetic; missing values |
| ListLinks.dfy | circular intrusive lists over a family of disjoint circles |
| Buddy.dfy, BuddyFree.dfy, BuddyAlloc.dfy | tags, free lists and invariant of the buddy system; freeing; allocating |
| BuddyEdge.dfy | the end of the descriptor array: exactly when a free stays inside it |
| BuddyLiteral.dfy | the merge test as written, and exactly when it is harmless |
| BuddyRuns.dfy | whole runs of allocations and frees |
| PagePool.dfy | the class `PagePool` and `get_page`/`put_page` over descriptors and links |
| Address.dfy | addresses, and the way from a bare address to the head of its block |
| BootSource.dfy, PageTable.dfy, BootMap.dfy | boot page source, four-level tables, the direct map and the page database mapping |
| HandOff.dfy, PageDatabase.dfy | the hand-over of the page database to the buddy pool; the page database and the way from boot to the pool |
| Slab.dfy, Heap.dfy | `KMemCache`, and `KHeapPool` with its set-up |
| Startup.dfy | from the boot page source to a heap in order |
| Console.dfy | the frame-buffer console |
| Dtors.dfy | `__cxa_atexit` and `__cxa_finalize` |
| Atomics.dfy, Locks.dfy, RefCount.dfy | atomic 32-bit steps; interleavings of threads: spinlocks and their order, page reference counts |

## Where the code departs from its intent

The model follows the code. In these places the code does something else than it evidently means to, and each
difference is stated and its effect proved:

- The merge test of `__free_pages` (src/kernel/mm/page_mm.cppm:303) does not look at the buddy's order. The flag
  `orderChecked` selects the test as written or the one with that look. The invariant holds for the second;
  for the first there is a counterexample (`LiteralCounterexample`), an exact condition for one call
  (`LiteralFreeExact`), for a whole run (`LiteralRunsExact`) and for the boot-time hand-over
  (`LiteralHandOverExact`).
- The merge loop reads the buddy's descriptor without asking whether there is one (src/kernel/mm/page_mm.cppm:302-303).
  The page database ends with the last page of descriptors, so a free can look past it: with 16448 descriptors the
  hand-over itself does when the last 64 frames are left over (`ShortDatabase`). A free stays inside exactly if every aligned run around it that is then wholly
  free has a buddy (`FreeInsideExact`); all frees of a pool do exactly if every aligned run of managed pages below the top
  order has one (`AllRunsInside`), and so do all turns of the hand-over (`TurnsFitExact`).
- `put_page` (src/kernel/mm/page_mm.cppm:187) tests the value that the atomic decrement returns, which is the one
  before it. A block whose references are all put back is therefore not freed. `FreedExactly` says when a free does
  happen, `BalancedLeaks` that balanced use never frees, `RepairedFreesOnce` what testing the new value would give. The
  counter has 32 bits: with more than 2^31 references a put frees although others are held (`TooManyReferences`). A free
  sets the counter back to -1 and so forgets references that are still held (`CountAfterFree`); if a lower buddy becomes
  the head, it is that page's counter from then on (`CountAfterMerge`).
- `__internal_obj_free` (src/kernel/mm/heap_mm.cppm:284-287) puts a block with its first freed object back on `full`
  and not on `partial`, and leaves the object off every chain. An object is given out again, its block staying with the
  cache, if and only if the block is current when it is freed (`ReuseExact`); then it is the very next one
  (`NextMallocGives`). In the heap no such object is ever given again: it is spent, and every call keeps it so
  (`Heap.KHeapPool.Malloc`, `Heap.KHeapPool.Free`). `FreedButRefused` is a run after which Malloc fails although an object
  came back.
- `__page_obj_slicing` (src/kernel/mm/heap_mm.cppm:223-228) stores 8-byte links at any object size. Objects smaller than a
  word would break their own chain (`LinkSurvives`); the caches are for sizes from 8 up.
- `__reinit_page` (src/kernel/mm/page_mm.cppm:210-211) sets the two counts of the block's first page only, over and
  over, and `AddPages` (src/kernel/mm/page_mm.cppm:350-352) does the same with the pool pointer, through which `put_page`
  and `PageFree` find the pool. Every managed page points to it after `AddPages` if and only if single pages are added
  (`AddNamesExact`), as the boot code does.
- `addr_is_in_used_range` (src/arch/x86/boot/boot_mm.cpp:92-133) is asked about the first byte of a page. A page that
  passes has a byte in use exactly if a range begins inside it (`PageBytesExact`).
- The frames mapped for a section (src/arch/x86/boot/boot_mm.cpp:253-254) begin one page below the range kept for it
  (src/arch/x86/boot/boot_mm.cpp:111-112), so its first frame is outside that range (`ImageBelowRange`).
- The end of the frame buffer's pages (src/arch/x86/boot/boot_mm.cpp:308-310) is computed from the rounded base and not
  from the base. A buffer that begins inside a page can lose its last page (`ScreenCutOff`); `ScreenCovered` says exactly
  when all of it is mapped.
- `IS_ERR_PTR` (src/include/closureos/err.h:8-11) compares strictly, so the largest error number is not recognised (`IsErrExact`).
- `boot_putchar_fb` (src/arch/x86/boot/boot_tty.c:93-95) resets the bit mask one column late, so only the leftmost
  column tests the bit that a first-bit-first glyph has there (`ColumnBits`). The console's cells are rendered with
  the code's own bits.
- With a serial port in use a carriage return goes to the port only (src/arch/x86/boot/boot_tty.c:321-326), and the
  screen's cursor stays.

## Model

| member | source | states |
|---|---|---|
| ListLinks.Links.HeadInit | src/kernel/lib/list/list_main.cppm:14-19 | a loose node becomes a new empty circle; every other circle stays |
| ListLinks.Links.AddNext | src/kernel/lib/list/list_main.cppm:40-46 | in a family of disjoint circles the node is inserted right after the entry and all other circles stay |
| ListLinks.Links.AddPrev | src/kernel/lib/list/list_main.cppm:31-37 | the node is inserted right before the entry, at the tail when the entry is the sentinel; all other circles stay |
| ListLinks.Links.Del | src/kernel/lib/list/list_main.cppm:48-53 | the node is removed at any position, is on no circle afterwards, and all other circles stay |
| ListLinks.Links.Empty | src/kernel/lib/list/list_main.cppm:55-59 | true exactly when the circle is its sentinel alone |
| Bits.XorPow2 | src/kernel/mm/page_mm.cppm:127-130 | flipping bit k adds or subtracts 2^k, by whether it was set |
| Buddy.BuddyFacts | src/kernel/mm/page_mm.cppm:127-135 | the buddy relation is symmetric and keeps alignment; the lower of two buddies starts a run of the next order |
| BuddyFree.MergeEnds | src/kernel/mm/page_mm.cppm:298-317 | the merge loop ends with an aligned run of freed pages and whole free blocks that cannot merge further |
| BuddyFree.FreeKeeps | src/kernel/mm/page_mm.cppm:286-322 | with the order test, freeing keeps partition, coalescing and lists; exactly the freed run joins the free pages, and pages in use are not touched |
| BuddyFree.FreeCoalesced | src/kernel/mm/page_mm.cppm:298-317 | after a free no two buddies of one order below the top are both free |
| BuddyAlloc.SplitEnds | src/kernel/mm/page_mm.cppm:240-248 | the split loop leaves a pool in order whose block at the run's start has the order asked for and is in use |
| BuddyAlloc.SplitFrees | src/kernel/mm/page_mm.cppm:240-248 | splitting frees all of the run but its first 2^order pages |
| BuddyAlloc.AllocKeeps | src/kernel/mm/page_mm.cppm:217-253 | allocation keeps the invariant and takes exactly one aligned, wholly free run out of the free pages; all else in use is as before |
| BuddyAlloc.AllocHead | src/kernel/mm/page_mm.cppm:202-215 | the block handed out starts without references and without an owning cache |
| BuddyAlloc.AllocBlock | src/kernel/mm/page_mm.cppm:202-253 | every page of the block handed out: in use, of its order, of no cache, the first one its head with both counts -1, nothing else changed |
| BuddyAlloc.FreeRunInBlock | src/kernel/mm/page_mm.cppm:217-322 | in a coalesced pool an aligned run of free pages lies inside one block |
| BuddyAlloc.AllocComplete | src/kernel/mm/page_mm.cppm:217-284 | allocation fails if and only if no aligned run of 2^order free managed pages exists |
| BuddyAlloc.AllocBestFit | src/kernel/mm/page_mm.cppm:217-238 | the run is cut from a free block of the smallest order that suffices |
| BuddyAlloc.FreeBlocksDetermined | src/kernel/mm/page_mm.cppm:217-322 | two pools with the same free pages have the same free blocks |
| BuddyEdge.FreeInsideExact | src/kernel/mm/page_mm.cppm:298-317 | a free reads and writes existing descriptors only, if and only if each aligned run around it that is then wholly free, below the top order, has a buddy with a descriptor |
| BuddyEdge.AlignedWalled | src/kernel/mm/page_mm.cppm:298-317 | with an array that ends at a top-order run every managed run has its buddy |
| BuddyLiteral.LiteralCounterexample | src/kernel/mm/page_mm.cppm:298-317 | pages 0 and 2 free, 1 in use: freeing 3 with the test as written, well inside the array, marks page 1 free |
| BuddyLiteral.LiteralSwallows | src/kernel/mm/page_mm.cppm:298-317 | whenever merging of equal orders stops at a free head of another order, the written test marks free a page that was neither free nor being freed, or reaches past the array |
| BuddyLiteral.LiteralFreeExact | src/kernel/mm/page_mm.cppm:298-317 | the written test stays inside the array and adds exactly the freed run to the free pages if and only if no free head of another order stops the merge and the test with the order stays inside; then tags and lists are those of that test |
| BuddyRuns.AllocThenFree | src/kernel/mm/page_mm.cppm:217-322 | allocating a block and freeing it restores every block's tags and every free list as a set |
| BuddyRuns.FreedNext | src/kernel/mm/page_mm.cppm:217-322 | the block that a free ends with is the first its order gives again, and it is the freed block itself unless its buddy was a free block of the same order |
| BuddyRuns.StepGood | src/kernel/mm/page_mm.cppm:217-322 | each call keeps the pool in order and the ledger equal to the blocks in use |
| BuddyRuns.RunsGood | src/kernel/mm/page_mm.cppm:202-322 | every run of calls that stays inside the array keeps the invariant; blocks handed out never overlap, and a managed page is free exactly when no block handed out holds it |
| BuddyRuns.AllRunsInside | src/kernel/mm/page_mm.cppm:202-322 | all runs stay inside the array if and only if every aligned run of managed pages below the top order has a buddy with a descriptor |
| BuddyRuns.RunsCanonical | src/kernel/mm/page_mm.cppm:217-322 | runs that end with the same blocks handed out end with the same block structure: history does not fragment the pool |
| BuddyRuns.LiteralStepExact | src/kernel/mm/page_mm.cppm:286-322 | one call with the written test stays inside and keeps the pool in order if and only if the guard holds and the call with the order test stays inside |
| BuddyRuns.LiteralRunsExact | src/kernel/mm/page_mm.cppm:286-322 | a run of the code as written is in order and inside at every step if and only if at every free the guard holds and the free with the order test stays inside; then it equals the run with that test |
| PagePools.PagePool.constructor | src/kernel/mm/page_mm.cppm:339-346 | eleven empty circles over a database without free pages: an empty pool in order |
| PagePools.PagePool.ReinitPage | src/kernel/mm/page_mm.cppm:202-215 | the loop leaves the tags that `Reinit` gives: all pages retagged, one head, counts of the head reset |
| PagePools.PagePool.TakeFirst | src/kernel/mm/page_mm.cppm:223-233 | finds the least order from the one asked for whose list is not empty, and takes that list's first page |
| PagePools.PagePool.Split | src/kernel/mm/page_mm.cppm:240-250 | the loop over descriptors and links equals the split functions on tags and lists |
| PagePools.PagePool.AllocPages | src/kernel/mm/page_mm.cppm:217-284 | page, tags and lists are those of the allocation functions, the links stay circles of exactly the free heads, and orders from 11 up give null |
| PagePools.PagePool.MergeLoop | src/kernel/mm/page_mm.cppm:298-317 | the loop over descriptors and links equals the merge functions, with and without the order test |
| PagePools.PagePool.FreePages | src/kernel/mm/page_mm.cppm:286-322 | tags and lists are those of the freeing functions, and each descriptor looked at exists; null pages and orders from 11 up change nothing; the invariant holds with the order test or under the guard |
| PagePools.PagePool.AddPages | src/kernel/mm/page_mm.cppm:348-355 | a run joins the managed pages as freed pages; the pool pointer is set on its first page |
| PagePools.AddNamesExact | src/kernel/mm/page_mm.cppm:348-355 | adding pages without a pool pointer leaves every managed page with one if and only if it is a single page |
| PagePools.PagePool.GetPage | src/kernel/mm/page_mm.cppm:178-181 | one more reference on the head of the page's block, in 32 bits, nothing else |
| PagePools.PagePool.PutPage | src/kernel/mm/page_mm.cppm:183-190 | one reference less on the head, in 32 bits; the block goes back to its pool, with the tags and lists of the freeing functions, if and only if the count before was negative |
| Addresses.DescMask | src/kernel/mm/page_mm.cppm:116-121 | the mask on a descriptor's address gives the address of the first descriptor of the aligned run around it |
| Addresses.HeadPageFound | src/kernel/mm/page_mm.cppm:116-121 | from any page of a block `get_head_page` gives the block's head |
| Addresses.OwnerRecovered | src/kernel/mm/page_mm.cppm:96-121 | from any byte address inside a block the head is recovered |
| BootSource.IsErrExact | src/include/closureos/err.h:8-16 | the pointer made from an error number is recognised exactly for numbers below 4095 |
| BootSource.PagesFromContents | src/arch/x86/boot/boot_mm.cpp:41-70 | the pages of the regions are the whole available pages, each once |
| BootSource.SectionKept | src/arch/x86/boot/boot_mm.cpp:104-118 | a loaded section (type 1 with flag 2) in the address space keeps exactly the addresses from 0x100000 + offset to the end of the page of its last byte |
| BootSource.UsedMeans | src/arch/x86/boot/boot_mm.cpp:92-133 | over all ranges, by offsets and sizes: in use is what lies in such a section, in the frame buffer or in the boot tags |
| BootSource.AddrIsInUsedRange | src/arch/x86/boot/boot_mm.cpp:92-133 | true exactly for addresses in a loaded section, the frame buffer or the boot tags; a page that passes holds no byte of the image unless a section begins inside it |
| BootSource.PageBytesExact | src/arch/x86/boot/boot_mm.cpp:92-144 | a page whose first byte is free has a byte in use if and only if some range begins inside it |
| BootSource.PageSource.NextRegion | src/arch/x86/boot/boot_mm.cpp:41-70 | finds the next region with a whole page and loses no page |
| BootSource.PageSource.PageAllocInternal | src/arch/x86/boot/boot_mm.cpp:36-86 | returns the first page left, or the error for ever once none is |
| BootSource.PageSource.PageAlloc | src/arch/x86/boot/boot_mm.cpp:135-144 | the skip loop ends; a page is returned at most once, lies wholly in an available region, is not in use and no error pointer, and holds no byte of the kernel image unless a section begins inside it; an error means that nothing is left |
| PageTables.EntryMacros | src/arch/x86/include/asm/page_types.h:29-43 | the four macros take the four nine-bit digits of the page number |
| PageTables.NoSharing | src/arch/x86/boot/boot_mm.cpp:150-205 | in the tree of tables no two tables serve the same place |
| PageTables.ReachIsLeaf | src/arch/x86/boot/boot_mm.cpp:150-205 | in the tree the processor's walk, which follows present directory words only and takes the right to write from every level, ends at the leaf word and loses nothing on the way |
| PageTables.LeafTranslates | src/arch/x86/boot/boot_mm.cpp:201-202 | writing a leaf sets the translation of one virtual page and of no other |
| PageTables.HangTranslates | src/arch/x86/boot/boot_mm.cpp:165-199 | hanging a zeroed fresh table under an empty entry changes no translation |
| PageTables.HangKeepsTree | src/arch/x86/boot/boot_mm.cpp:165-199 | and keeps the tables a tree |
| PageTables.OutsideKeeps | src/arch/x86/boot/boot_mm.cpp:366-373 | clearing a frame that is no table changes no translation |
| BootMap.Mapper.Descend | src/arch/x86/boot/boot_mm.cpp:165-199 | the next table for the index exists and serves its place, translations unchanged; or nothing is left to allocate |
| BootMap.Mapper.DirectoryWords | src/arch/x86/boot/boot_mm.cpp:165-199 | every directory word in use is a table of the tree with bits 0 and 1 set and no other low bit, so present, writable and no large page |
| BootMap.Mapper.Map | src/arch/x86/boot/boot_mm.cpp:150-205 | afterwards the processor reaches frame `pa` from the address, writable if bit 1 of the attributes is set, and every other page is as before; on -ENOMEM every page is |
| BootMap.Mapper.MapRegion | src/arch/x86/boot/boot_mm.cpp:342-357 | each frame of the entry below 64 TB is mapped at its direct address and nothing else changes |
| BootMap.Mapper.MapDirect | src/arch/x86/boot/boot_mm.cpp:325-358 | after the loop exactly the frames of the memory map below 64 TB are mapped directly; the end of memory is the largest entry end |
| BootMap.TopIsMax | src/arch/x86/boot/boot_mm.cpp:326-336 | the end of memory is the largest end of an entry, counted from its rounded start, or 0 |
| BootMap.Mapper.MapDatabase | src/arch/x86/boot/boot_mm.cpp:362-381 | descriptor pages go to distinct, zeroed, fresh frames that are no tables; all other translations stay |
| BootMap.Mapper.MapImage | src/arch/x86/boot/boot_mm.cpp:253-273 | page after page of the range goes to the frame beside it, in order, and nothing else changes |
| BootMap.Mapper.MapBss | src/arch/x86/boot/boot_mm.cpp:274-299 | page after page of the range goes to a distinct, zeroed, fresh frame, and nothing else changes |
| BootMap.Mapper.MapSections | src/arch/x86/boot/boot_mm.cpp:240-304 | the sections' writes one after the other, by kind, and nothing else; it stops at a section only if that is to be loaded and of neither kind |
| BootMap.SectionsAfter | src/arch/x86/boot/boot_mm.cpp:240-304 | after the loop each page of a loaded section reaches the frame beside it in the image, or for zeros a frame of its own, writable if and only if flag 1 is set, unless a later page has the same slot |
| BootMap.KernelAt | src/arch/x86/boot/boot_mm.cpp:221-381 | and so it is in the finished tables, outside the direct map, the page database and the screen |
| BootMap.ImageBelowRange | src/arch/x86/boot/boot_mm.cpp:253-254 | of the frames mapped for a section exactly the first is outside the range kept for it |
| BootMap.MapScreen | src/arch/x86/boot/boot_mm.cpp:306-323 | the pages from the rounded base on, as many as the size takes, are mapped to themselves and nothing else changes |
| BootMap.ScreenCovered | src/arch/x86/boot/boot_mm.cpp:306-323 | every byte of the frame buffer lies in a mapped page if and only if base % 4096 + (size - 1) % 4096 < 4096 |
| BootMap.ScreenCutOff | src/arch/x86/boot/boot_mm.cpp:306-323 | base 0x1800 and size 0x1000: one page is mapped and the byte at 0x2000 is outside it |
| BootMap.PgtableInit | src/arch/x86/boot/boot_mm.cpp:221-381 | every frame of the map below 64 TB is reached from its direct address and every descriptor in a frame that holds only descriptors, both writable, and every other page as the image and the screen were mapped; a failure means that no page is left, a region is too high or a section of no known kind |
| PageDatabase.ClassifyEntry | src/arch/x86/boot/boot_mm.cpp:413-464 | exactly the descriptors of the entry's frames are set, with type and count by kind, mark and use |
| PageDatabase.PageDatabaseInit | src/arch/x86/boot/boot_mm.cpp:400-470 | each descriptor is what the entries that hold its frame make of it, in order |
| PageDatabase.DbWanted | src/arch/x86/boot/boot_mm.cpp:427-436 | a descriptor is marked free exactly when an available entry has its frame at or after the mark and nothing uses it |
| PageDatabase.DbMeaning | src/arch/x86/boot/boot_mm.cpp:404-464 | the descriptor of every frame: its type by the memory type of the entry that holds it, count -1 exactly for available frames from the mark on that nothing uses, all zero where no entry is |
| PageDatabase.HandOffExact | src/arch/x86/boot/boot_mm.cpp:400-470 | a frame is marked for the pool if and only if the boot source still had it and nothing uses it; no page handed out before is |
| PageDatabase.BootMmInit | src/arch/x86/boot/boot_mm.cpp:511-521 | after both boot stages the mappings stand and every descriptor that is mapped says what the map and the source make of its frame |
| PageDatabase.BootToPool | src/kernel/mm/mm_main.cppm:12-21 | end to end: the pool manages, all free, exactly the frames the boot source had left and nothing uses; none that it gave away, so no page table and no frame of descriptors; none with a byte of the image unless a section begins inside it; each knows its pool |
| HandOff.CheckedHandOver | src/kernel/mm/mm_main.cppm:16-20 | with the order test the loop leaves a pool in order whose free pages are the wanted ones |
| HandOff.TurnsFitExact | src/kernel/mm/mm_main.cppm:16-20 | every turn stays inside the descriptor array if and only if every aligned run of wanted pages below the top order has a buddy with a descriptor |
| HandOff.ShortDatabase | src/kernel/mm/mm_main.cppm:16-20 | with 16448 descriptors and the last 64 wanted, some turn looks past the array |
| HandOff.LiteralHandOverExact | src/kernel/mm/mm_main.cppm:16-20 | with the test as written it stays inside and marks exactly the wanted pages free if and only if no wanted page heads a run with a hole next to a wholly wanted upper buddy and every wanted run has a buddy |
| HandOff.PagesPoolInit | src/kernel/mm/mm_main.cppm:12-21 | the loop equals the hand-over function, exactly the wanted pages end up managed and free, and each knows its pool |
| Slab.GeometryFits | src/kernel/mm/heap_mm.cppm:181-187 | the order is 0 below a page and one more than the whole pages of the size from a page up; a block holds as many objects as fit it, at least one, and two or more exactly when the size is not between half a page and a page |
| Slab.DefaultSizes | src/kernel/mm/heap_mm.cppm:29-41 | the default sizes and how many objects of each a block holds, from 256 of 16 bytes to four of 8192 |
| Slab.LinkSurvives | src/kernel/mm/heap_mm.cppm:223-228 | storing the next object's link spares an object's own if and only if objects hold a word |
| Slab.LiveDisjoint | src/kernel/mm/heap_mm.cppm:213-292 | live objects of one cache never share a byte |
| Slab.ClientWriteKeeps | src/kernel/mm/heap_mm.cppm:213-292 | whatever happens to the bytes of a live object, in every word that reaches into it, chains and counts stay right |
| Slab.PopKeeps | src/kernel/mm/heap_mm.cppm:242-247 | taking the first object of the chain keeps the accounting, and nobody holds that object |
| Slab.SliceKeeps | src/kernel/mm/heap_mm.cppm:213-235 | a sliced block joins with all its objects on the chain |
| Slab.BlockGivesAll | src/kernel/mm/heap_mm.cppm:213-247 | a block just added gives all its objects, the last first, one a Malloc, and then no more |
| Slab.FreeCurrentKeeps | src/kernel/mm/heap_mm.cppm:280-282 | an object put back on the current chain keeps it free of cycles and as long as the count |
| Slab.FreeRetiredKeeps | src/kernel/mm/heap_mm.cppm:283-291 | an object of a retired block keeps the accounting, and the all-freed count is reached exactly with its last live object |
| Slab.KMemCache.constructor | src/kernel/mm/heap_mm.cppm:174-195 | an empty cache in order, with the order for its size and as many objects a block as fit |
| Slab.KMemCache.WriteChain | src/kernel/mm/heap_mm.cppm:219-228 | the loop writes a null-ended chain through all objects of the block, last first, and changes no word apart from their links |
| Slab.KMemCache.Slice | src/kernel/mm/heap_mm.cppm:213-235 | the block is chained, counted, owned and referenced once; other descriptors and words stay |
| Slab.KMemCache.Refill | src/kernel/mm/heap_mm.cppm:249-270 | the used-up block goes to `full` and a block from the pool becomes current, or the pool has none and stays as it was |
| Slab.KMemCache.Malloc | src/kernel/mm/heap_mm.cppm:112-123 | an object that nobody holds becomes live: the chain's first while the current block has one, else one of a block that the pool had free; null only when the pool has no block |
| Slab.KMemCache.Free | src/kernel/mm/heap_mm.cppm:125-132 | the object stops being live and no other; by block it goes on the chain, to the front of `full`, or the block leaves the cache exactly when it was its last live object |
| Slab.NextMallocGives | src/kernel/mm/heap_mm.cppm:237-282 | an object freed into the current block is what the next Malloc gives, and the cache is then as before |
| Slab.RetiredNeverGiven | src/kernel/mm/heap_mm.cppm:237-292 | over every run of calls no object of a block that is not current is given, the pool not handing the block out anew |
| Slab.ReuseExact | src/kernel/mm/heap_mm.cppm:237-292 | a freed object can be given again, its block staying with the cache, if and only if the block is current when it is freed |
| Slab.FreedButRefused | src/kernel/mm/heap_mm.cppm:276-292 | a run from the empty cache: two objects given, the pool empty, one object freed, and Malloc fails with it back |
| Heap.PoolOrder | src/kernel/mm/heap_mm.cppm:366-377 | the shift loop and its correction give the least order whose block holds the size |
| Heap.KHeapPool.MallocCaches | src/kernel/mm/heap_mm.cppm:348-362 | the object comes from the first cache that fits and can get one; null only when none can |
| Heap.KHeapPool.MallocPools | src/kernel/mm/heap_mm.cppm:364-389 | a whole block of the least sufficient order, new and referenced once; null only when no sufficient run is free |
| Heap.KHeapPool.Malloc | src/kernel/mm/heap_mm.cppm:336-346 | a non-null result is a new piece of at least the size, from the first cache that fits and can get an object, or whole pages if none can; all other pieces stay; null only when neither caches nor pages can serve; no spent object is given, and spent ones stay spent |
| Heap.KHeapPool.Owner | src/kernel/mm/heap_mm.cppm:391-402 | the head page found from a piece's address names the very cache that carved it, or none for a whole block |
| Heap.KHeapPool.Free | src/kernel/mm/heap_mm.cppm:391-402 | exactly the piece at the address stops being live, and no page goes back to the pool; an object of a block that is not current is spent from then on |
| Heap.KHeapPool.PageAlloc | src/kernel/mm/heap_mm.cppm:404-417 | the pool's allocation, without disturbing any piece; spent objects stay spent |
| Heap.KHeapPool.PageFree | src/kernel/mm/heap_mm.cppm:419-428 | the block of the page goes back whole, through its own pool pointer, without disturbing any piece; spent objects of other blocks stay spent |
| Heap.KHeapPool.PiecesDisjoint | src/kernel/mm/heap_mm.cppm:336-402 | two pieces handed out at the same time, from caches or as whole blocks, never share a byte |
| Heap.KHeapPool.PieceWriteKeeps | src/kernel/mm/heap_mm.cppm:336-402 | whatever happens to the bytes of a piece, every cache stays in order |
| Heap.KheapPoolInit | src/kernel/mm/mm_main.cppm:23-33 | a heap in order with one cache for each default size and no piece handed out |
| Heap.MmCoreInit | src/kernel/mm/mm_main.cppm:35-39 | from the page database to a heap in order whose pool has exactly the wanted pages, all free |
| Startup.CoreInit | src/kernel/mm/mm_main.cppm:35-39 | on the database that the boot stages leave: an empty heap in order over exactly the frames the boot source had left, none that it gave away |
| Startup.Start | src/arch/x86/boot/boot_mm.cpp:511-521 | both boot stages and the set-up of the heap: an error, or the direct map and a heap in order over all that boot left, if available runs have their buddies among the descriptors |
| Console.FeedAllAppend | src/arch/x86/boot/boot_tty.c:415-441 | no sequence of characters moves the cursor out of the grid, and printing in two parts is printing at once |
| Console.GridSize | src/arch/x86/boot/boot_tty.c:178-193 | as many whole characters as fit the screen each way |
| Console.PutManyInLine | src/arch/x86/boot/boot_tty.c:164-176 | repeated characters that fit the line, as those of a tab always do, appear at the cursor and nowhere else |
| Console.TabStays | src/arch/x86/boot/boot_tty.c:164-176 | a tab goes eight places on or to the last column, over spaces, and changes nothing else |
| Console.Controls | src/arch/x86/boot/boot_tty.c:152-162 | back-space and carriage return move the cursor inside its line and change no place |
| Console.LineFeed | src/arch/x86/boot/boot_tty.c:42-66 | to the start of the next line; on the last line each line moves up by one, and the last is blank |
| Console.CStringChars | src/arch/x86/boot/boot_tty.c:435-441 | the characters printed are the bytes before the first zero, sign-extended to 16 bits |
| Console.PlainText | src/arch/x86/boot/boot_tty.c:42-108 | text of any length fills the places from the cursor on, the lines moving up just so far that the cursor stays on the screen; all else is what stood there, or blank lines from below |
| Console.BackSpaceOverwrites | src/arch/x86/boot/boot_tty.c:157-162 | a character, a back-space and a character leave what the last one alone leaves |
| Console.BackSpaceReturns | src/arch/x86/boot/boot_tty.c:157-162 | back-space returns the cursor exactly if the character before it did not wrap |
| Console.ColumnBits | src/arch/x86/boot/boot_tty.c:84-96 | the mask is the first-bit-first one in the leftmost column only |
| Console.ScrollShows | src/arch/x86/boot/boot_tty.c:47-65 | moving pixel rows up and clearing the last line shows the grid moved up by a line |
| Console.EveryPixel | src/arch/x86/boot/boot_tty.c:68-108 | every word of the frame buffer is white where the glyph of the cell there has a dot, by the glyph's own bytes, and black elsewhere |
| Console.Console.ClearScreen | src/arch/x86/boot/boot_tty.c:110-117 | every pixel becomes background and the grid empty; the cursor stays |
| Console.Console.Draw | src/arch/x86/boot/boot_tty.c:74-99 | every store is inside the buffer and exactly the cell's pixels change, to the glyph's |
| Console.Console.MoveUp | src/arch/x86/boot/boot_tty.c:48-53 | the in-place loop moves rows up by a line without reading a row already overwritten |
| Console.Console.PutCharFb | src/arch/x86/boot/boot_tty.c:68-108 | the pixels show the grid with the character put at the cursor, which moves on, wraps and scrolls |
| Console.Console.NewLineFb | src/arch/x86/boot/boot_tty.c:42-66 | the pixels show the grid after a line feed, moved up at the bottom |
| Console.Console.TabFb | src/arch/x86/boot/boot_tty.c:164-176 | the pixels show eight spaces more, or as many as reach the last column |
| Console.Console.BackSpaceFb | src/arch/x86/boot/boot_tty.c:157-162 | the cursor moves back inside its line and the pixels stay |
| Console.Console.PutChar | src/arch/x86/boot/boot_tty.c:415-433 | for every character the pixels are the rendering of the grid after it |
| Console.Console.PrintStr | src/arch/x86/boot/boot_tty.c:435-441 | for every string the pixels are the rendering of the grid after all its characters up to the zero byte |
| Console.Console.Puts | src/arch/x86/boot/boot_tty.c:443-447 | the same, and a line feed |
| Dtors.DtorList.AtExit | src/kernel/cxx_base_abi.cpp:12-29 | a new first node, or -ENOMEM and nothing changed |
| Dtors.DtorList.Unlink | src/kernel/cxx_base_abi.cpp:42-44 | writing through the pointer to pointer takes out exactly that node |
| Dtors.DtorList.Finalize | src/kernel/cxx_base_abi.cpp:33-52 | calls the selected destructors in list order and deletes their nodes; the others stay linked in their order; each record called has the handle or the handle is null, and none left has it |
| Dtors.DividedAt | src/kernel/cxx_base_abi.cpp:42-48 | selected are exactly the records with the handle, or all for a null handle; they and the rest keep their order |
| Dtors.LatestFirst | src/kernel/cxx_base_abi.cpp:12-52 | after any run a finalization calls the selected registrations still owed in reverse order of registration, and the others keep their order |
| Dtors.FinalizeRun | src/kernel/cxx_base_abi.cpp:12-52 | event by event, over any run: a finalization calls exactly the registrations with its handle that no later finalization took, or all for a null handle, the latest first, and leaves the other ones listed |
| Dtors.CalledOnce | src/kernel/cxx_base_abi.cpp:12-52 | in every run each registration was called once or is still listed, never both |
| Dtors.AllCalled | src/kernel/cxx_base_abi.cpp:33-52 | after a finalization with a null handle the list is empty and each registration was called exactly once |
| Dtors.FinalizeTwice | src/kernel/cxx_base_abi.cpp:33-52 | repeating a finalization does nothing |
| Atomics.Atomic.CompareAndSwap | src/kernel/lib/atomic/atomic_main.cppm:11-15 | the cell changes exactly when it held the expected value, and that is the result |
| Atomics.Atomic.Inc | src/kernel/lib/atomic/atomic_main.cppm:23-27 | adds one, with 32-bit wrap-around, and returns the value before |
| Atomics.Atomic.Dec | src/kernel/lib/atomic/atomic_main.cppm:29-33 | subtracts one, with 32-bit wrap-around, and returns the value before |
| Locks.SpinLock.TryLock | src/kernel/lib/atomic/lock.cpp:25-28 | succeeds exactly on a free lock; the lock is held afterwards either way |
| Locks.SpinLock.UnLock | src/kernel/lib/atomic/lock.cpp:30-33 | the lock is free |
| Locks.CallsNested | src/kernel/mm/heap_mm.cppm:112-132 | every path of the kernel, finalizations with cache calls with pool calls inside, takes locks in the order destructor list, cache, pool and releases them last in, first out |
| Locks.LockedAround | src/kernel/mm/heap_mm.cppm:112-132 | the lock steps of each call: a cache call holds its lock around all its pool calls, a finalization the lock of the list around all inside it |
| Locks.InnerSteps | src/kernel/cxx_base_abi.cpp:33-52 | the calls inside a finalization do their lock steps one after the other |
| Locks.StepGood | src/kernel/lib/atomic/lock.cpp:18-33 | each step of each thread keeps one holder a lock and the counter LOCKED exactly while held |
| Locks.MutualExclusion | src/kernel/lib/atomic/lock.cpp:18-33 | the same for every interleaving of any number of threads |
| Locks.NoDeadlock | src/kernel/lib/atomic/lock.cpp:18-33 | in every reachable state with work left some thread can do its next step without spinning |
| Locks.AllFinish | src/kernel/lib/atomic/lock.cpp:18-33 | from every state in order all started calls can be finished in as many steps as there are lock steps left, and then all locks are free |
| RefCount.CountFollows | src/kernel/mm/page_mm.cppm:178-190 | over any stretch without a free the counter moves by the gets and puts of all threads, in 32 bits, whatever their order |
| RefCount.CountAccurate | src/kernel/mm/page_mm.cppm:178-190 | under every interleaving, until a free, the counter is the number of references less one |
| RefCount.CountAfterFree | src/kernel/mm/page_mm.cppm:183-215 | after a free the counter starts anew from -1 |
| RefCount.CountAfterMerge | src/kernel/mm/page_mm.cppm:286-322 | after a free `get_head_page` leads from the page to the merged block's head, whose count is -1; below a lower head the old cell keeps its value |
| RefCount.PutTooMany | src/kernel/mm/page_mm.cppm:183-215 | a put without a get frees the page and leaves the counter at -1 |
| RefCount.PutPageIsPut | src/kernel/mm/page_mm.cppm:183-190 | `put_page` on the descriptors frees exactly when the two steps of a put do and leaves their count where `get_head_page` leads |
| RefCount.BackedExact | src/kernel/mm/page_mm.cppm:183-190 | a put leaves the page alone if and only if there is a reference and there are at most 2^31 |
| RefCount.FreedExactly | src/kernel/mm/page_mm.cppm:183-190 | a block is freed through its count if and only if some put of the run comes with no counted reference left, or with too many |
| RefCount.NeverFreedEarly | src/kernel/mm/page_mm.cppm:178-190 | if each reference is put at most once, and there are never more than 2^31, the block is not freed while one is outstanding, from the -1 that `__reinit_page` sets |
| RefCount.CoveredMeans | src/kernel/mm/page_mm.cppm:178-190 | a run is covered if and only if there is a reference before each of its puts |
| RefCount.TooManyReferences | src/kernel/mm/page_mm.cppm:183-190 | with one reference more a put frees while 2^31 are outstanding |
| RefCount.BalancedLeaks | src/kernel/mm/page_mm.cppm:183-190 | after balanced use the count is back at its start and the block was not freed |
| RefCount.RepairedFreesOnce | src/kernel/mm/page_mm.cppm:183-190 | with the test on the new value the block is freed once, after its last reference and never before |

## Left out

Assumptions about callers and the machine:

- Memory maps whose entries are not page-aligned, overlap or run into the end of the address space: the boot code is not right for them. `PageSource` needs available entries apart and no overflow; the page database needs all entries aligned and apart; the hand-over needs them in ascending order.
- A used range that covers the error pointer itself: the skip loop of `boot_mm_page_alloc` would not end.
- Frees that look past the end of the descriptor array: what the machine finds there is not modelled. The theorems above say exactly when that does not happen.
- Sections and a frame buffer that run into the end of the address space.
- Double frees, frees of foreign addresses and writes outside a piece: preconditions.
- Destructors that register or finalize while the list is walked: `Finalize` records each call and assumes that the destructor leaves the list alone.
- `__cxa_atexit` takes no lock; its list is modelled for one thread.
- A page's `list` field is set to a self-loop by the page database; here such a node is simply on no circle.

Left out of the model:

- PagePools.PagePool.PutPage: without the order test and outside the guard its contract does not promise that a pool which got a block back is in order, because it need not be.
- PagePools.PagePool.FreePages: likewise without the order test and outside the guard; and a free that looks past the descriptor array is excluded.
- Heap.KHeapPool.Malloc: sizes from 2^43 up, where the shift of an `int` is undefined, are excluded.
- Heap.KHeapPool.PageFree: without the order test the caller must bring the guard, and in either case that the free stays inside the descriptor array.
- Heap.KHeapPool.Free: whole blocks are not given back to the pool, because their one reference is put with the test on the old value.
- Slab.KMemCache.Refill: the branch for a non-empty `partial` list is dead, as nothing is ever put there; the lists of blocks are sequences and not links.
- Slab.KMemCache.constructor: object sizes below 8 are excluded, because their links overlap; one pool a cache, which is all that the kernel sets up; `AddPool` and `RemovePool` are left out.
- Startup.Start: takes the order test, and asks for a buddy of every aligned run of available frames, not only of those left over; `CoreInit` states both conditions on what is left over. `boot_main` and `main` between the two set-ups are not part of this model.
- Locks.NoDeadlock: says that some thread can go on, not that a given thread gets its turn; the spinlock is not fair.
- BootMap.PgtableInit: loading CR3, and the halting itself; a failure is only reported by `boot_mm_init`, which then goes on, and nothing is said about what follows.
- BootMap.Mapper.Map: the processor's walk is modelled with its present and write bits; user mode, caching, the no-execute bit and the width of physical addresses are not.
- Console.Console.PutChar: the serial port's share of the output, the printing of numbers, the reading of the font file and the search for the frame buffer.
- Console.ColumnBits: whether glyphs look right; the glyph bytes are data.
- Walking the boot tags, the boot assembly, the linker script, segments and port input and output.
- `__reclaim_memory` is an empty stub, so the retry of an allocation finds what the first try found.
- `migrate_type`, the per-page lock and the unused fields of a descriptor.
