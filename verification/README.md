# Verified model of the hypervisor core

Dafny models of the parts of the hypervisor that are hard to get right by reading: the TLSF heap, the page
allocator and the two page-table writers, demand paging, the scheduler and its ready list, RISC-V inter-processor
interrupts and virtual interrupts, the vGIC list registers, the device-tree writer and scanners, and the number
printer and parser. Code that changes state in place is a class or a method over arrays with the source's loops;
what each operation promises is proved about those, and the concurrent parts are state machines over the steps that
other pCPUs can see between.

| files | what they model |
|---|---|
| `Bits`, `Masks` | bitwise operations on machine words as integers; what masking rounds to |
| `TlsfMapping`, `TlsfAlign` | request rounding, size classes, good fit; the gap arithmetic of aligned allocation |
| `TlsfBlocks`, `TlsfLists`, `TlsfState`, `TlsfShape` | blocks as views on the words of the pool, the free lists and bitmaps, and what each step keeps of both |
| `TlsfHeap` | the allocator: one class over the array of words, every operation of the C file |
| `TlsfRuns` | a client making any sequence of requests and writing any words of its blocks |
| `Bitmap`, `PageAlloc` | word-at-a-time bitmap scans, and the page allocator on them |
| `Stage2Tree`, `Stage2` | AArch64 stage-2 tables: map and unmap with on-demand and pruned table pages (VMSAv8-64, section D5 of Arm ARM DDI 0487) |
| `GuestFault` | faults, demand paging and MMIO emulation on top of `Stage2` |
| `Sv48` | the RISC-V table writer and the independent walker that reads guest tables (sections 4.3.2, 4.4 and 4.5 of the RISC-V privileged specification) |
| `ReadyQueue`, `ReadyList` | the ready queue as a sequence, and the intrusive doubly linked list that represents it |
| `SchedProtocol` | yields on all pCPUs, one step per lock-protected section and per context save or restore |
| `IpiProtocol` | IPI mailbox, doorbell, completion counters, and HVIP as a projection of pending interrupts |
| `Vgic` | pending queue, flush to list registers, save and restore across switches |
| `FdtFormat`, `FdtScan`, `FdtWriter`, `FdtParse` | the flattened device tree (Devicetree Specification sections 5.2 to 5.5), its two scanners, its writer, and the standard's own reading of the tokens |
| `Numbers` | printing integers and parsing them back |

## Main results

* Heap. Any run of malloc, memalign, realloc, free and client writes answers every request as stated, keeps the heap
  well formed, and keeps in every block a client still holds the value last written to each word, the word shared with
  the next header included; freeing what is left, in any order, restores the one initial block. Allocation is good fit
  and fails only for lack of a large enough block up to a stated slack.
* Stage 2. Mapping changes exactly the pages asked for, unmapping undoes it down to the words of the allocator's
  bitmap, no reachable table is ever empty and none leaks.
* Demand paging. Over any run of accesses that can be served there is exactly one fault per page that had no leaf,
  reported at the level where its walk ended, and one per device access, and the program counter is moved past exactly the latter.
* Sv48. Whatever the address, the walker reads back what the writer stored; 2 MB and 4 KB mappings of the same range
  cannot be told apart.
* Scheduler. In every interleaving a pinned task is on one pCPU only and resumes with the context the guest last left
  it in; a strictly better task keeps its pCPU; a task with i others ahead runs at its pCPU's (i+1)-th yield.
* Interrupts. Over any interleaving exactly the interrupts asserted and not cleared since are pending, exactly the IPIs
  posted and not taken since are in a mailbox, and when all is quiet HVIP holds every one of the former; a synchronous
  send that returns 0 was handled. Over any run of guest activity, injections, flushes and switches between any vCPUs, each resumes with
  precisely the vGIC registers it was switched away with, plus what the flush puts into empty list registers.
* Round trips. Printed numbers parse back; an emitted device tree parses back token by token as the standard reads it,
  and on every token stream that parses the two scanners find what its tokens say.

## What the code does not do

Each of these is a proved statement about the code as it is, with the exact condition.

* `TlsfMapping.AdjustCoversRequest`: requests above 2^64 - 8 wrap to the 24-byte minimum; all others are covered.
* `TlsfHeap.Heap.GrantCoversExactly`: `realloc` of a live block to more than 2^32 - 8 bytes has a grant smaller than the
  request, so it takes the shrink branch.
* `TlsfAlign.PaddedCoversExactly`: `memalign` pads correctly for every power of two except 2^63.
* `TlsfMapping.PoolClassInRange`: of the pool sizes `tlsf_add_pool` accepts, exactly those below 2^32 have a size class.
* `PageAlloc.PageAllocator.AllocPagesCnt`: the search result is narrowed to `int`; for counts near 2^31 it turns negative,
  and bits before the bitmap are written, exactly when the first aligned free page plus the count reaches 2^31.
* `Stage2.SeenExact`, `Stage2.OutOfRangeAliases`: an address the start level does not cover is mapped as another one.
* `Stage2.Stage2Mm.MapThenUnmap`: unmapping a freshly mapped range is fatal exactly when a frame number in it is zero.
* `Sv48.GuestTables.Map4k`: a 4 KB page is mapped, and nothing else changes, exactly when no 2 MB leaf covers it; under
  one the leaf goes into the wrong table (unless the page went to that frame already).
* `Sv48.GuestTables.Map2m`: a table page is leaked exactly when a 4 KB table hung where the 2 MB leaf goes.
* `Sv48.MapHugeThenWalk`: `pg_map_huge` maps the pages asked for exactly when both addresses lie alike within 2 MB and
  the rounded size still reaches the last page.
* `GuestFault.FaultIpaExact`: the reconstructed fault address is right exactly below 2^48.
* `SchedProtocol.SoundExactlyWhenPinned`: whatever affinities are in use, every interleaving is sound exactly when -1 is
  not among them; with it a task can be resumed elsewhere before its registers are saved.
* `IpiProtocol.HandledExactlyWhenExclusive`: every synchronous send that returns 0 was handled after its bit was set
  exactly when at most one request per target and vector may be outstanding.
* `Vgic.FlushDuplicates`: a flush puts an interrupt into a second list register exactly when it was queued while still
  in a first one.
* `Numbers.DigitsFitBuffer`: binary digits fit the 32-byte buffer exactly below 2^32; all other bases always do.
* `Numbers.PrecisionKept`: a precision is honoured exactly when the text is not left-aligned or has as many digits anyway.
* `Numbers.DigitsKept`: without a precision, sign, prefix and all digits are printed exactly when `#` is not combined
  with a width the digits just fill (for zero-padded hexadecimal, also one more), and zero padding leaves them room.

## Model

| member | source | states |
|---|---|---|
| `Bits.FfsLowest` | src/core/tlsf.c:62-65 | `ffs` is the position of the lowest set bit, -1 for 0 |
| `Bits.FlsHighest` | src/core/tlsf.c:69-73 | `fls` is the position of the highest set bit, -1 for 0 |
| `TlsfMapping.FlsSizeTIsFls` | src/core/tlsf.c:179-193 | `fls` of a 64-bit size, put together from its two halves, is the position of its highest bit |
| `Masks.AlignUpRounds` | src/core/tlsf.c:468-472 | the mask formula rounds up to the next multiple of a power of two, up to 2^64 minus the alignment |
| `TlsfMapping.AdjustCoversRequest` | src/core/tlsf.c:492-505 | when a request is covered by its rounded size, when it is refused, and which last seven sizes wrap |
| `TlsfMapping.InsertClass` | src/core/tlsf.c:513-531 | every size below 2^32 has an in-range class and lies in that class's interval |
| `TlsfMapping.ClassesOrdered` | src/core/tlsf.c:513-531 | intervals of different classes are disjoint and ordered as the classes are |
| `TlsfMapping.PoolClassInRange` | src/core/tlsf.c:980-1003 | of the pool sizes that pass the check, exactly those below 2^32 bytes have an in-range class |
| `TlsfMapping.SearchClassMin` | src/core/tlsf.c:533-541 | the searched class starts at or above the request, less than one rounding step above |
| `TlsfMapping.SearchFits` | src/core/tlsf.c:533-573 | good fit upwards: every block of a class not below the searched one is large enough |
| `TlsfMapping.SearchMissesOnlySmall` | src/core/tlsf.c:533-573 | good fit downwards: a block below the searched class is smaller than request plus rounding |
| `TlsfMapping.RoundingIsSmall` | src/core/tlsf.c:533-541 | the rounding is zero below 256 bytes and less than a 32nd of the request above |
| `TlsfBlocks.SizeWordUpdates` | src/core/tlsf.c:365-409 | setting the size or a flag of a size word changes that field and keeps the other two |
| `TlsfState.PayloadWritePhysical` | src/core/tlsf.c:292-313 | writing any word of a used block, the one shared with the next header included, leaves all boundary tags, links and other payloads alone |
| `TlsfShape.Canonical` | src/core/tlsf.c:679-708 | two eagerly coalesced heaps with the same used blocks are the same heap |
| `TlsfShape.AllFreeIsInitial` | src/core/tlsf.c:679-708 | a heap with nothing in use is the one initial block |
| `TlsfAlign.GapIsLegal` | src/core/tlsf.c:1145-1171 | the leading gap is 0 or at least a block header's 32 bytes, ends at an aligned address and fits the padding |
| `TlsfAlign.GapIsLeast` | src/core/tlsf.c:1145-1171 | and no smaller gap would do: the skip ends at the first aligned address that leaves no gap or one a block fits in |
| `TlsfAlign.PaddedCovers` | src/core/tlsf.c:1123-1144 | up to an alignment of 2^62 the padded size is the least multiple of the alignment with room for request, alignment and header, 0 exactly when that is no size |
| `TlsfAlign.PaddedCoversExactly` | src/core/tlsf.c:1123-1144 | it is that for every power of two but the last |
| `TlsfHeap.Heap.WithPool` | src/core/tlsf.c:980-1027 | a new pool is one free block of all its bytes but two words, rounded down, listed, with the zero-size sentinel behind it |
| `TlsfHeap.Heap.InsertFreeBlock` | src/core/tlsf.c:605-624 | the block joins the list of its class, bitmaps and links still agree with the lists, no payload changes |
| `TlsfHeap.Heap.RemoveFreeBlock` | src/core/tlsf.c:576-603 | the block leaves its list, bitmaps and links still agree with the lists, no payload changes |
| `TlsfHeap.Heap.BlockRemove` | src/core/tlsf.c:626-632 | the class computed from the size word is the list the block is in |
| `TlsfHeap.Heap.BlockInsert` | src/core/tlsf.c:634-639 | the block is filed under the class of its size word |
| `TlsfHeap.Heap.BlockMarkAsFree` | src/core/tlsf.c:453-459 | exactly the block's free bit and its successor's prev-free bit and back link change |
| `TlsfHeap.Heap.BlockMarkAsUsed` | src/core/tlsf.c:461-466 | exactly the block's free bit and its successor's prev-free bit change |
| `TlsfHeap.Heap.BlockMergePrev` | src/core/tlsf.c:679-692 | a free predecessor absorbs the block, otherwise nothing happens |
| `TlsfHeap.Heap.BlockMergeNext` | src/core/tlsf.c:694-708 | the block absorbs a free successor, otherwise nothing happens |
| `TlsfHeap.Heap.BlockSplit` | src/core/tlsf.c:647-667 | the words a split writes |
| `TlsfHeap.Heap.BlockTrimFree` | src/core/tlsf.c:710-721 | a free block is cut to size when the rest can be a block, and the rest is listed |
| `TlsfHeap.Heap.BlockTrimUsed` | src/core/tlsf.c:723-735 | a used block is cut to size, less than 32 bytes to spare; the rest is merged and listed |
| `TlsfHeap.Heap.BlockTrimFreeLeading` | src/core/tlsf.c:737-751 | the leading gap becomes a listed free block, the block after it is held |
| `TlsfHeap.Heap.SearchSuitableBlock` | src/core/tlsf.c:543-573 | finds the lowest populated class not below the given one, and fails only when there is none |
| `TlsfHeap.Heap.BlockLocateFree` | src/core/tlsf.c:753-781 | takes a large enough free block of the lowest suitable class; null exactly when there is none |
| `TlsfHeap.Heap.BlockPrepareUsed` | src/core/tlsf.c:783-794 | the located block becomes used with less than 32 bytes to spare, the heap is whole again |
| `TlsfHeap.Heap.Malloc` | src/core/tlsf.c:1115-1121 | null and no change exactly when nothing suitable is populated, otherwise a good-fit block that holds the request; a free block of the rounded request and a 32nd suffices, one of the request is needed; every other used block keeps its contents |
| `TlsfHeap.Heap.FailureMeansSmall` | src/core/tlsf.c:753-781 | an allocation fails only if every free block is smaller than the rounded request plus a slack below a 32nd of it |
| `TlsfHeap.Heap.Memalign` | src/core/tlsf.c:1123-1178 | as malloc, with an address divisible by any power of two up to 2^62; succeeds whenever some free block has room for request, twice the alignment, header and a 32nd, and only if one has room for request, alignment and header |
| `TlsfHeap.Heap.Free` | src/core/tlsf.c:1180-1206 | exactly that block leaves the used ones, neighbours are merged, every other used block keeps its contents |
| `TlsfHeap.Heap.GrantCoversExactly` | src/core/tlsf.c:1238-1258 | the grant of a `realloc` covers the request exactly up to 2^32 - 8 |
| `TlsfHeap.Heap.Realloc` | src/core/tlsf.c:1208-1264 | null pointer, zero size, in place and moved, each exactly when: the result keeps the first min(old, new) bytes, all other blocks keep theirs; null and no change exactly when the block must move and nothing is suitable |
| `TlsfHeap.Heap.MoveTo` | src/core/tlsf.c:1240-1249 | the moving branch: allocate, copy, free |
| `TlsfHeap.Heap.ResizeInPlace` | src/core/tlsf.c:1250-1258 | the in-place branch: grow over the free successor when needed, then trim |
| `TlsfHeap.Heap.FreeAll` | src/core/tlsf.c:1180-1206 | freeing every live block, in any order, leaves the one initial block |
| `TlsfHeap.Heap.Check` | src/core/tlsf.c:844-894 | on a well-formed heap none of the checks counts a failure |
| `TlsfRuns.Client.Do` | src/core/tlsf.c:1115-1264 | what one request comes to: which pointer appears or goes, what is logged of it, and that all known words are still there |
| `TlsfRuns.Client.Run` | src/core/tlsf.c:1115-1264 | every request of any run is answered so, the log is what they came to, and every word it knows is in memory |
| `TlsfRuns.LastWritten` | src/core/tlsf.c:1115-1264 | a word written, not overwritten and still held is known, at its block's present address with the value last written |
| `TlsfRuns.KnownWasWritten` | src/core/tlsf.c:1115-1264 | nothing else is known: each known value is the one last written to that word |
| `TlsfRuns.Client.RunAndFree` | src/core/tlsf.c:1180-1206 | after any run, freeing what is left gives the one initial block |
| `Bitmap.FindNextBit` | src/core/bitmap.c:79-101 | the word-at-a-time scan finds what a bit-by-bit scan finds |
| `Bitmap.FindNextZeroArea` | src/core/bitmap.c:111-137 | the least aligned start of a clear run, past the end exactly when there is none |
| `Bitmap.SetBits` | src/core/bitmap.c:13-29 | exactly the bits of the run become set |
| `Bitmap.ClearBits` | src/core/bitmap.c:18-42 | exactly the bits of the run become clear |
| `PageAlloc.PageAllocator.AllocPagesCnt` | src/core/page_alloc.c:18-31 | the lowest even-aligned free run, now taken; TOTAL_PAGES and no change exactly when there is none, but for counts near 2^31 whose search result narrows to a negative one, exactly described |
| `PageAlloc.PageAllocator.FreePagesCnt` | src/core/page_alloc.c:33-37 | exactly the run is free again |
| `PageAlloc.PageAllocator.AllocPages` | src/core/page_alloc.c:39 | a run of 2^order pages |
| `PageAlloc.PageAllocator.AllocOnePage` | src/core/page_alloc.c:41 | an even page; TOTAL_PAGES exactly when every even page is taken |
| `PageAlloc.PageAllocator.FreeOnePage` | src/core/page_alloc.c:43 | exactly that page is free again |
| `PageAlloc.PageAllocator.AllocThenFree` | src/core/page_alloc.c:18-37 | allocating and freeing restores the bitmap word for word, for every count whose search result fits an int |
| `PageAlloc.ConversionsInvert` | src/core/page_alloc.c:52-64 | page number, physical and virtual address conversions invert each other on every byte of a page |
| `Stage2Tree.AddTree` | src/arch/aarch64/page_table_s2.c:65-107 | hooking a fresh page keeps the tables a tree of pairwise distinct pages |
| `Stage2Tree.LeafTree` | src/arch/aarch64/page_table_s2.c:114-135 | writing a last-level entry keeps the tree |
| `Stage2Tree.LeafKeeps` | src/arch/aarch64/page_table_s2.c:114-135 | writing a last-level entry changes exactly one page's translation |
| `Stage2Tree.DropTree` | src/arch/aarch64/page_table_s2.c:165-178 | unhooking an empty table keeps the tree |
| `Stage2Tree.DropKeeps` | src/arch/aarch64/page_table_s2.c:165-178 | unhooking an empty table changes no translation and leaves at most its parent empty |
| `Stage2Tree.TablesDetermined` | src/arch/aarch64/page_table_s2.c:137-182 | without empty tables, the mapped pages determine which tables exist |
| `Stage2Tree.EntryFields` | src/arch/aarch64/lpae.c:75-129 | every field of a leaf by memory type and access: attributes, shareability, access flag, execute-never, frame |
| `Stage2Tree.WalkFindsTrans` | src/arch/aarch64/page_table.c:114-137 | the lookup walk finds exactly what the tables say |
| `Stage2.TableEntryPoints` | src/arch/aarch64/page_table_s2.c:87-95 | the entry written for a new table is valid and points to it |
| `Stage2.PagesHold` | src/arch/aarch64/page_table_s2.c:190 | the pages of a range hold its size with less than one to spare; the last 4095 sizes wrap to none |
| `Stage2.SeenExact` | src/arch/aarch64/page_table.c:15-19 | a walk resolves a page number to itself exactly when the start level covers it |
| `Stage2.OutOfRangeAliases` | src/arch/aarch64/page_table.c:15-19 | a page number the start level does not cover is taken for another one |
| `Stage2.LookupSeen` | src/arch/aarch64/page_table.c:114-137 | the lookup of any address is decided by the page number the walk sees |
| `Stage2.AllocTable` | src/arch/aarch64/page_table_s2.c:76-86 | within the budget a page for a missing table is always found |
| `Stage2.BudgetMeans` | src/arch/aarch64/page_table_s2.c:76-86 | the budget holds exactly when the tables still missing are no more than the even pages left; half of all pages suffice for tables wanted and pages in use together |
| `Stage2.Stage2Mm.constructor` | src/arch/aarch64/page_table_s2.c:48-63 | a zeroed root table without translations |
| `Stage2.Stage2Mm.NextLevelMap` | src/arch/aarch64/page_table_s2.c:65-107 | the child table, made if it was missing; no translation changes, no used page is written but the tables |
| `Stage2.Stage2Mm.WalkDown` | src/arch/aarch64/page_table_s2.c:118-127 | the table that holds the page's entry, with exactly the missing tables of its path made |
| `Stage2.Stage2Mm.Map4k` | src/arch/aarch64/page_table_s2.c:114-135 | exactly one page's translation changes, to the entry built from address, type and access |
| `Stage2.Stage2Mm.AllInvalid` | src/arch/aarch64/page_table_s2.c:165-169 | whether a table has no valid entry |
| `Stage2.Stage2Mm.Collapse` | src/arch/aarch64/page_table_s2.c:162-180 | a table is freed exactly when its last valid entry went |
| `Stage2.Stage2Mm.UnmapPage` | src/arch/aarch64/page_table_s2.c:137-182 | exactly one page's translation goes, with every table this empties; fatal and unchanged exactly when it was not set |
| `Stage2.Stage2Mm.MapRange` | src/arch/aarch64/page_table_s2.c:184-202 | exactly the pages of the range are mapped: every byte goes to its frame, no page at or past the end changes |
| `Stage2.Stage2Mm.UnmapRange` | src/arch/aarch64/page_table_s2.c:204-218 | exactly the pages of the range are unmapped, byte by byte; fatal exactly when the page of some byte was not set |
| `Stage2.Stage2Mm.MapThenUnmap` | src/arch/aarch64/page_table_s2.c:184-218 | mapping and unmapping restores translations, tables and bitmap; fatal exactly when a frame number in the range is zero |
| `GuestFault.OverlapIsSharing` | src/core/guest_memory.c:10-14 | non-wrapping regions overlap exactly when they share an address |
| `GuestFault.FindRegion` | src/core/guest_memory.c:56-68 | the first region that holds the address |
| `GuestFault.HolderUnique` | src/core/guest_memory.c:16-54 | of non-overlapping regions at most one holds an address, so the order of the list does not matter |
| `GuestFault.WantedMeans` | src/arch/aarch64/lpae.c:75-129 | an installed leaf sends each address to hpa + (ipa - gpa) with the region's access |
| `GuestFault.FaultIpaExact` | src/arch/aarch64/aarch64_guest_fault_manager.c:22-29 | the reconstructed fault address is the one that faulted, exactly below 2^48 |
| `GuestFault.ServableMeans` | src/arch/aarch64/aarch64_guest_fault_manager.c:39-87 | an access within a region is served exactly when its attribute and, for a device, its handler allow it |
| `GuestFault.HardwareWalkEnds` | src/arch/aarch64/page_table.c:114-137 | a hardware walk ends at the page's translation, or at the first table of its path without a next one |
| `GuestFault.AgreesInstalled` | src/arch/aarch64/aarch64_guest_fault_manager.c:39-56 | installing a page's wanted leaf keeps the table in agreement with the regions |
| `GuestFault.GuestMm.MapStage2Page` | src/arch/aarch64/aarch64_guest_fault_manager.c:39-56 | installs exactly the faulting page's wanted leaf, or reports why not and changes nothing |
| `GuestFault.GuestMm.EmulateMmioAccess` | src/arch/aarch64/aarch64_guest_fault_manager.c:58-87 | resumes, and moves the pc by one instruction, exactly when the access can be emulated |
| `GuestFault.GuestMm.HandleAbort` | src/arch/aarch64/aarch64_guest_fault_manager.c:121-147 | status codes 4 to 7 map, 8 to 11 of data emulate, every other one is reported and changes nothing |
| `GuestFault.GuestMm.Try` | src/arch/aarch64/aarch64_guest_fault_manager.c:121-147 | one walk and its fault: 4 plus the level where the page's path ends, or the last-level code of its leaf, and what the handler makes of it |
| `GuestFault.GuestMm.GuestAccess` | src/arch/aarch64/aarch64_guest_fault_manager.c:121-147 | one access: RAM takes at most one fault and a device at most two, with these status codes, then it is served |
| `GuestFault.GuestMm.Run` | src/arch/aarch64/aarch64_guest_fault_manager.c:39-147 | any run of servable accesses: faults equal missing pages plus device accesses, leaves stay as wanted, pc moved once per device access |
| `Sv48.PointerFields` | src/arch/riscv64/mmu.c:29-39 | a table entry is valid, without permissions, and names its frame |
| `Sv48.LeafFields` | src/arch/riscv64/mmu.c:41-64 | a leaf has the permissions asked for, read with write, user as asked, accessed and dirty set, and names its frame |
| `Sv48.AddWordTree` | src/arch/riscv64/mmu.c:69-96 | hooking a fresh page keeps the tables a tree of pairwise distinct pages |
| `Sv48.AddWordFrames` | src/arch/riscv64/mmu.c:69-96 | hooking a fresh page changes no mapping |
| `Sv48.SmallTree` | src/arch/riscv64/mmu.c:128-134 | writing a 4 KB leaf keeps the tree and maps exactly one page |
| `Sv48.LargeTree` | src/arch/riscv64/mmu.c:128-134 | writing an aligned 2 MB leaf keeps the tree and maps exactly 512 pages |
| `Sv48.GuestTables.NextLevel` | src/arch/riscv64/mmu.c:69-114 | the child table, made if it was missing; at a 2 MB leaf the table stays where it is; no mapping changes |
| `Sv48.GuestTables.WalkDown` | src/arch/riscv64/mmu.c:116-127 | the table of the leaf's level on the page's path, or the level-2 table when a 2 MB leaf covers the page; no mapping changes |
| `Sv48.GuestTables.Map4k` | src/arch/riscv64/mmu.c:183-185 | exactly one page is mapped, to its frame and permissions, if and only if no 2 MB leaf covers it |
| `Sv48.FramedMapsOnly` | src/arch/riscv64/mmu.c:183-185 | a range of one page framed as the tables say is one page mapped as the walker says |
| `Sv48.MisplacedFails` | src/arch/riscv64/mmu.c:97-114 | the leaf written into the level-2 table maps the page wrongly or its neighbours too |
| `Sv48.GuestTables.Map2m` | src/arch/riscv64/mmu.c:187-189 | exactly 512 pages are mapped, to consecutive frames with the permissions; a page is leaked if and only if a 4 KB table hung there |
| `Sv48.GuestTables.MapRange` | src/arch/riscv64/mmu.c:195-208 | exactly the pages of the range are mapped: every byte goes to its frame, no page at or past the end changes |
| `Sv48.GuestTables.MapHuge` | src/arch/riscv64/mmu.c:226-240 | exactly the 2 MB pages that hold the range are mapped, every byte of an aligned range to its frame; nothing leaks where no 4 KB table hung |
| `Sv48.HugePagesHold` | src/arch/riscv64/mmu.c:229-231 | the 2 MB pages hold the size with less than one to spare; the largest sizes wrap to none |
| `Sv48.DownExact` | src/arch/riscv64/mmu.c:226-229 | the addresses are brought to the 2 MB boundary below |
| `Sv48.HugeHonours` | src/arch/riscv64/mmu.c:229-231 | in the tables it leaves, every page asked for has its frame exactly when both addresses lie alike within 2 MB and the size reaches the last page |
| `Sv48.ReadBack` | src/arch/riscv64/riscv_sbi_manager.c:49-67 | from any level on, the walker returns what the tables say |
| `Sv48.LeafReads` | src/arch/riscv64/riscv_sbi_manager.c:49-67 | an aligned leaf at any level, 4 KB to 512 GB, ends the walk with the address's low bits under its frame |
| `Sv48.FaultReads` | src/arch/riscv64/riscv_sbi_manager.c:49-67 | an invalid entry, a writable one that is not readable, and a pointer at the last level give no address |
| `Sv48.GuestVaToPa` | src/arch/riscv64/riscv_sbi_manager.c:33-69 | the walk loop, for the three address modes and every other one |
| `Sv48.SatpNames` | src/arch/riscv64/riscv_sbi_manager.c:33-49 | mode, any address space number and root frame put together name the tree whose root and start level they give |
| `Sv48.TranslateExact` | src/arch/riscv64/riscv_sbi_manager.c:33-69 | for every 64-bit address the walk through the root the register names returns what the tables say |
| `Sv48.MappedReads` | src/arch/riscv64/riscv_sbi_manager.c:33-69 | after a range is mapped its addresses read back at their frames plus offset and all others as before |
| `Sv48.MapThenWalk` | src/arch/riscv64/mmu.c:195-208 | `pg_map` and then the walk: frame plus offset inside the range, as before outside |
| `Sv48.MapHugeThenWalk` | src/arch/riscv64/mmu.c:226-240 | `pg_map_huge` and then the walk, and when the request is honoured |
| `Sv48.HugeLikeSmall` | src/arch/riscv64/mmu.c:195-240 | 4 KB and 2 MB mappings of one range give the same address and permissions everywhere |
| `ReadyQueue.InsertSorted` | src/core/sched_simple.c:29-41 | insertion keeps the queue sorted and adds exactly the new element |
| `ReadyQueue.InsertFifo` | src/core/sched_simple.c:29-41 | first in, first out among equal priorities |
| `ReadyQueue.MineInsert` | src/core/sched_simple.c:29-41 | insertion seen by one pCPU is insertion into its own queue |
| `ReadyQueue.MineTake` | src/core/sched_simple.c:45-75 | taking the first eligible one takes the head of the pCPU's own queue and nothing of another's |
| `ReadyList.ListAdd` | include/list.h:64-99 | links the node in between its neighbours and keeps the ring well formed |
| `ReadyList.ListDel` | include/list.h:168-188 | links the neighbours to each other, keeps the ring well formed, clears the node |
| `ReadyList.ReadyList.constructor` | include/list.h:47-51 | an empty well-formed ring |
| `ReadyList.ReadyList.InsertTaskSorted` | src/core/sched_simple.c:29-41 | the list represents the queue with the new one inserted by priority behind its equals |
| `ReadyList.ReadyList.Next` | src/core/sched_simple.c:45-75 | takes the first eligible one off the list, or nothing when there is none or the current one is strictly better |
| `SchedProtocol.StepInv` | src/core/sched.c:142-208 | every step of every pCPU keeps the scheduler invariant |
| `SchedProtocol.Safety` | src/core/sched.c:142-208 | after any interleaving a pinned one is dispatched on its own pCPU only, with the context it last ran with, and none is lost |
| `SchedProtocol.ContextHistory` | src/core/sched.c:142-208 | over any interleaving exactly the created ones are known, each with the context its creation or the guest that ran it last gave it |
| `SchedProtocol.SwitchCompletes` | src/core/sched.c:142-208 | pick, requeue, save, restore: the one taken runs with its saved context, the old one is queued with the one it left |
| `SchedProtocol.YieldExactly` | src/core/sched_simple.c:45-75 | a yield switches exactly when some eligible one is no worse than the current one, and takes the first of the best |
| `SchedProtocol.BetterKeeps` | src/core/sched_simple.c:66-69 | a strictly better current one keeps its pCPU |
| `SchedProtocol.SoundExactlyWhenPinned` | src/core/sched_simple.c:85-95 | for every set of affinities in use, all interleavings are sound if and only if -1 is not in it |
| `SchedProtocol.UnpinnedLosesContext` | src/core/sched_simple.c:85-95 | with affinity -1 a second pCPU can resume it before its context is saved |
| `SchedProtocol.DueSwitches` | src/core/sched_simple.c:45-83 | the pCPU of a waiting one that nothing better blocks always has one to switch to |
| `SchedProtocol.MovesUp` | src/core/sched_simple.c:45-95 | it moves up by one at each yield of its pCPU, whatever the others do |
| `SchedProtocol.Fairness` | src/core/sched.c:187-208 | with i ahead it is dispatched at the (i+1)-th yield of its pCPU |
| `IpiProtocol.StepMail` | src/arch/riscv64/ipi.c:35-64 | every step keeps: a posted bit has its doorbell set, about to be, or its handler about to take it |
| `IpiProtocol.StepStranded` | src/arch/riscv64/riscv_virt_irq_manager.c:23-65 | every step keeps: a pending interrupt missing from HVIP has an IPI outstanding, owed, or its pCPU before materializing |
| `IpiProtocol.Delivery` | src/arch/riscv64/exception.c:141-156 | both hold after every interleaving of sends, handlers, asserts, clears and switches |
| `IpiProtocol.PendingExactly` | src/arch/riscv64/riscv_virt_irq_manager.c:23-51 | over any run an interrupt is pending exactly when it was asserted and not cleared since |
| `IpiProtocol.AssertReaches` | src/arch/riscv64/riscv_virt_irq_manager.c:23-36 | an assert for the running vCPU is in HVIP at once, any other leaves an IPI owed to the vCPU's pCPU |
| `IpiProtocol.ClearReaches` | src/arch/riscv64/riscv_virt_irq_manager.c:38-51 | a clear leaves the pending image, and HVIP of the pCPU that runs the vCPU, at once |
| `IpiProtocol.MailExactly` | src/arch/riscv64/ipi.c:35-64 | over any run a vector is in a mailbox exactly when it was posted and not taken since |
| `IpiProtocol.DoneCounts` | src/arch/riscv64/ipi.c:109-129 | over any run the completion counter counts the times its vector was handled |
| `IpiProtocol.SendCompletes` | src/arch/riscv64/ipi.c:35-64 | a send that is rung has posted its vector and set the doorbell, and its pCPU is free again |
| `IpiProtocol.HandlerStarts` | src/arch/riscv64/exception.c:141-156 | the handler clears the doorbell and takes all its mail |
| `IpiProtocol.HandlerStep` | src/arch/riscv64/ipi.c:109-129 | it handles each vector once and counts it |
| `IpiProtocol.HandlerEnds` | src/arch/riscv64/exception.c:141-156 | it ends by writing the running vCPU's pending interrupts to HVIP |
| `IpiProtocol.QuietMeansDelivered` | src/arch/riscv64/sched_riscv.c:137-161 | over any run, with nothing under way and no doorbell set, HVIP holds every interrupt of the running vCPU asserted and not cleared since |
| `IpiProtocol.SwitchCompletes` | src/arch/riscv64/sched_riscv.c:137-161 | a switch ends with the vCPU current and HVIP its pending interrupts, empty in between |
| `IpiProtocol.SyncStarts` | src/arch/riscv64/ipi.c:66-95 | a synchronous send posts, rings and waits with the count it read first |
| `IpiProtocol.SyncEnds` | src/arch/riscv64/ipi.c:66-95 | it ends at the first look that finds another count, or when it gives up |
| `IpiProtocol.ReturnMeansHandled` | src/arch/riscv64/ipi.c:66-95 | with one request at a time, a return of 0 means the vector was handled after the bit was set |
| `IpiProtocol.SyncSend` | src/arch/riscv64/ipi.c:66-129 | the same over every run with at most one outstanding request for the vector |
| `IpiProtocol.HandledExactlyWhenExclusive` | src/arch/riscv64/ipi.c:66-129 | for every bound on outstanding requests per target and vector, all sends that return 0 were handled if and only if it is at most one |
| `IpiProtocol.SharedVectorReturnsEarly` | src/arch/riscv64/ipi.c:66-95 | with two outstanding requests one returns 0 while its own bit is still posted |
| `Vgic.MakeLrFields` | src/core/emul_gic.c:10-16 | a list register entry is pending, group 1, not hardware-linked, at the default priority, for its interrupt |
| `Vgic.EmptyExactly` | src/core/emul_gic.c:281-309 | a register is empty exactly when its two state bits are clear |
| `Vgic.EnabledBits` | src/core/emul_gic.c:180 | bit 0 of ICH_HCR_EL2 is set, the bits above it stay |
| `Vgic.FlushedCount` | src/core/emul_gic.c:281-309 | a flush moves the smaller of queue length and empty registers, and fills exactly those |
| `Vgic.CpuInterface.constructor` | src/core/emul_gic.c:247-258 | the number of list registers, at most 16, and the reset state |
| `Vgic.VcpuGic.Inject` | src/core/emul_gic.c:260-279 | queued once, at the end; dropped when already queued or the queue is full |
| `Vgic.VcpuGic.Flush` | src/core/emul_gic.c:281-309 | moves the first queued ones into distinct empty registers in order, keeps the rest in order, touches no other register |
| `Vgic.VcpuGic.Save` | src/core/emul_gic.c:149-163 | the saved image is the interface's state |
| `Vgic.VcpuGic.Restore` | src/core/emul_gic.c:165-190 | register by register: the saved image with the enable bit set, cut or padded with empty list registers, or the reset state |
| `Vgic.Pcpu.SwitchTo` | src/core/sched.c:142-185 | save the old vCPU, restore the new one, flush its queue: what each leaves in registers, saved images and queues |
| `Vgic.Pcpu.Run` | src/core/emul_gic.c:149-309 | any run of guest activity, injections, flushes and switches takes the stated steps |
| `Vgic.ResumesWhereLeft` | src/core/sched.c:142-185 | over any run, a vCPU switched to again resumes with the registers it was switched away with, bit 0 of ICH_HCR_EL2 set, the flush applied |
| `Vgic.StartsReset` | src/core/emul_gic.c:165-190 | over any run, a vCPU switched to for the first time has ICH_HCR_EL2 1, group 1, split EOI and priority mask 0xff, nothing active, and only flushed interrupts held |
| `Vgic.QueuedOnce` | src/core/emul_gic.c:260-279 | over any run, a queued interrupt waits once, at the end, unless eight wait already |
| `Vgic.FlushDuplicates` | src/core/emul_gic.c:281-309 | interrupts stay in one register each exactly when none of those moved was still in one |
| `Numbers.OutRev` | src/utils/printf.c:201-225 | the buffer backwards, filled with spaces to the width |
| `Numbers.FillSides` | src/utils/printf.c:201-225 | left-aligned text stands at the front, other text at the end, spaces up to the width, none with zero padding |
| `Numbers.FrontParts` | src/utils/printf.c:247-276 | the sign and prefix characters for each flag and base |
| `Numbers.NtoaFormat` | src/utils/printf.c:229-279 | the text for any digits, precision, width and flags |
| `Numbers.DigitsKept` | src/utils/printf.c:229-279 | sign, prefix and every digit are printed if and only if `#` does not write over digits and zeros do not fill the buffer |
| `Numbers.PrecisionKept` | src/utils/printf.c:231-241 | at least as many digits as the precision says, exactly when not left-aligned or there are as many anyway |
| `Numbers.WriteDigits` | src/utils/printf.c:291-299 | the digits, least significant first, cut off by the end of the buffer |
| `Numbers.TextHasValue` | src/utils/printf.c:291-299 | the digits of a number, read by position, have its value in every base |
| `Numbers.DigitsFitBuffer` | src/utils/printf.c:291-299 | the buffer holds all digits, prefix and sign, except in base 2 exactly from 2^32 on |
| `Numbers.NtoaLong` | src/utils/printf.c:283-303 | the text of any 64-bit value in any base, precision, width and flags |
| `Numbers.ShownPlain` | src/utils/printf.c:283-303 | without width and precision the text is sign, prefix and the number in the base |
| `Numbers.ParseNum` | src/arch/riscv64/guest_dtb.c:77-107 | the parser's loop computes the value of the leading number |
| `Numbers.ParsedRefuses` | src/arch/riscv64/guest_dtb.c:77-107 | a text is refused exactly when it is empty, only a prefix, or has a bad digit before the first space |
| `Numbers.ParseDecimal` | src/arch/riscv64/guest_dtb.c:77-107 | parsing a decimal text gives the number modulo 2^64, whatever follows after a space |
| `Numbers.ParseHex` | src/arch/riscv64/guest_dtb.c:77-107 | parsing a prefixed hexadecimal text gives the number modulo 2^64 |
| `Numbers.DecimalSurvives` | src/utils/printf.c:283-303 | printing with %lu and parsing gives back every 64-bit value |
| `Numbers.HexSurvives` | src/utils/printf.c:283-303 | printing with %#lx or %#lX and parsing gives back every 64-bit value |
| `FdtFormat.NextBegin` | src/arch/riscv64/guest_dtb.c:139-146 | a scanner steps over an emitted begin-node token |
| `FdtFormat.NextProp` | src/arch/riscv64/guest_dtb.c:147-161 | a scanner reads an emitted property's name offset, value and length |
| `FdtFormat.ScanEncoded` | src/arch/riscv64/guest_dtb.c:123-164 | a scanner meets exactly the emitted properties, in order |
| `FdtScan.FindBootargs` | src/arch/riscv64/guest_dtb.c:123-164 | the loop returns what the scan of the properties defines |
| `FdtScan.FeaturesInit` | src/arch/riscv64/riscv_features.c:109-155 | the loop ends with the frequency the scan of the properties defines |
| `FdtScan.NamedExactly` | src/arch/riscv64/guest_dtb.c:224-239 | a stored offset names its own string and no other |
| `FdtScan.PastTable` | src/arch/riscv64/guest_dtb.c:150-153 | a property whose name lies past the strings block is passed over |
| `FdtScan.FindsFirst` | src/arch/riscv64/guest_dtb.c:123-164 | of any token stream the first non-empty boot arguments are found |
| `FdtScan.FindsLast` | src/arch/riscv64/riscv_features.c:109-155 | of any token stream the last timer frequency is kept |
| `FdtWriter.RoundTrip` | src/arch/riscv64/guest_dtb.c:390-406 | both scanners read back the blob of any well-formed token stream |
| `FdtWriter.LayoutFields` | src/arch/riscv64/guest_dtb.c:390-406 | all ten header fields and the empty memory reservation block are those of the standard |
| `FdtWriter.DtbWriter.EmitBytes` | src/arch/riscv64/guest_dtb.c:215-222 | the bytes, padded to a multiple of four |
| `FdtWriter.DtbWriter.FindName` | src/arch/riscv64/guest_dtb.c:224-233 | the offset of a stored name, or the end of the table |
| `FdtWriter.DtbWriter.StringOffset` | src/arch/riscv64/guest_dtb.c:224-239 | the offset at which the table holds the name, added once; -1 exactly when it is new and does not fit |
| `FdtWriter.DtbWriter.BeginNode` | src/arch/riscv64/guest_dtb.c:241-244 | one begin-node token is appended |
| `FdtWriter.DtbWriter.EndNode` | src/arch/riscv64/guest_dtb.c:246-248 | one end-node token is appended |
| `FdtWriter.DtbWriter.PropRaw` | src/arch/riscv64/guest_dtb.c:250-259 | one property token is appended, unless its name does not fit the table |
| `FdtWriter.DtbWriter.Finish` | src/arch/riscv64/guest_dtb.c:390-406 | the finished blob reads back in both scanners |
| `FdtParse.ParseEncoded` | src/arch/riscv64/guest_dtb.c:241-259 | an emitted stream parses back to exactly its tokens, node begins and ends included |
| `FdtParse.BlobParses` | src/arch/riscv64/guest_dtb.c:390-406 | the blob of any token stream has the standard's header and parses back to these tokens |
| `FdtParse.ScannersAgree` | src/arch/riscv64/guest_dtb.c:123-164 | on every stream that parses, the two scanners find the first non-empty boot arguments and the last timer frequency |

## Left out

- TlsfHeap.Heap.Check: states that a well-formed heap passes; that a broken one fails is not stated, since on one the list walks need not end.
- TlsfHeap.Heap.Realloc: asks for at most 2^32 - 8 bytes when it resizes a live block; `GrantCoversExactly` says what larger sizes do.
- TlsfHeap.Heap.Memalign: asks for an alignment of at most 2^62; `PaddedCoversExactly` says what 2^63 does.
- TlsfHeap.Heap.WithPool: asks for a pool strictly below 2^32 bytes; `PoolClassInRange` says what exactly 2^32 does.
- TlsfRuns.Client.Run: contents are tracked by 8-byte word; the part of a word a `realloc` cuts through is covered byte by byte by `Realloc` only.
- PageAlloc.PageAllocator.AllocPagesCnt: what the bits written before the bitmap hit, when the result is negative, is not modelled.
- Stage2.AllocTable: asks for a spare page; the code also takes the TOTAL_PAGES of an exhausted allocator (`AllocOnePage`) for a page, and what it then writes is not modelled.
- Stage2.Stage2Mm.NextLevelMap: asks for a spare page when the table is missing, as `AllocTable` does.
- Stage2.Stage2Mm.WalkDown: asks for a spare page per missing table, as `AllocTable` does.
- Stage2.Stage2Mm.Map4k: asks for a spare page per missing table, as `AllocTable` does.
- Stage2.Stage2Mm.MapRange: asks for a spare page per missing table, as `AllocTable` does.
- Stage2.Stage2Mm.constructor: the root is one page; the further pages of a concatenated root are never indexed by `pte_offset`.
- GuestFault.GuestMm.MapStage2Page: asks for a spare page per missing table, as `AllocTable` does.
- GuestFault.GuestMm.EmulateMmioAccess: whether the device's own operation succeeds is a parameter.
- Sv48.GuestTables.NextLevel: asks for a spare page when the table is missing, as `AllocTable` does.
- Sv48.GuestTables.WalkDown: asks for a spare page per missing table, as `AllocTable` does.
- Sv48.GuestTables.MapRange: asks that no 2 MB leaf covers a page of the range, and for the spare pages; `Map4k` says what one such page does.
- Numbers.PrecisionKept: asks for no zero padding, which the caller clears when there is a precision, and for a precision the digit buffer has room for.
- FdtParse.ScannersAgree: asks that the structure block lies within the blob.
- Numbers.ParseNum: text is a sequence that ends where the C string has its NUL.
- FdtWriter.DtbWriter.Finish: asks that the offsets and sizes fit their 32-bit header fields; that the blob stays within the guest memory set aside for it is not checked in the code either.
- TLSF: more than one pool per control structure, `tlsf_remove_pool`, `tlsf_walk_pool`. The control structure's bitmaps and list heads are fields, not words of the pool; the words of the null block that list operations scribble on are arbitrary.
- Page tables: table pages are a sequence of pages held in a field, apart from the RAM they live in; TLB maintenance, barriers and locks; concatenated root pages, which `pte_offset` never indexes; block descriptors under stage 2 and 1 GB leaves; `pg_unmap` and the stage-1 writers; `stage2_map` of the RISC-V file, whose size and attribute arguments are swapped.
- Sv48: reads of guest tables outside the modelled pages give no translation; `guest_read_u64_va` is eight such translations and would be an easy member.
- Scheduler: block and unblock, `sink_task`, `sched_yield2`, FPU and system register contents (a context is one opaque value), and the RISC-V lookup of a task that is picked but not yet published.
- Interrupts: guest writes to its own pending bits, interrupt priorities, SGI routing, the vPLIC, host GIC and PLIC drivers; atomics are sequentially consistent steps and a timed-out synchronous send is a step that may happen at any time.
- Demand paging: instruction decode and device behaviour are parameters (whether a device's operation succeeds); sysreg and hypercall traps.
- Device tree: which nodes and properties the hypervisor emits, boot argument keys, ISA strings and extension lists; bytes past the end of the blob read as zero.
- `printf`: format string parsing and floating point.
