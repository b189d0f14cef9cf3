# Memory stack of a small 32-bit kernel: model and proofs

The project models how the kernel gets from the firmware's memory map to `alloc`/`free`:

1. `Multiboot.dfy` parses the Multiboot2 memory map from raw bytes; `MemoryRegions.dfy` keeps the
   region books (stages 5A, 5B).
2. `FrameRanges.dfy` turns regions into ranges of whole 4 KiB frames (stage 5C).
3. `FrameCursor.dfy`, `FrameLedger.dfy` and `FrameAllocator.dfy` hand frames out and take them back
   (stages 6A to 6D).
4. `PageTables.dfy` and `VirtualMemory.dfy` map pages in a two-level table (stages 7A to 8B).
5. `HeapBlocks.dfy`, `HeapRuns.dfy`, `HeapMemory.dfy`, `KernelHeap.dfy` and `HeapLimits.dfy` are the first-fit heap
   whose only data structure is a chain of headers in the managed memory (stages 8C to 9C).
6. `Boot.dfy` and `MemoryStack.dfy` put the layers together, and `Clients.dfy` runs any program of client
   calls on the booted stack; `KObjects.dfy` is the linked list of kernel objects (stage 11);
   `Words.dfy` holds word arithmetic.

Objects the kernel updates in place are classes over arrays and fields. Each method is proved against
a machine on values (`AllocStep`, `L.AllocFrame`, `P.Step`, `Parse`, ...), and the properties of whole
runs are lemmas about those machines. Cross-layer facts live in the `Valid()` predicates of `KernelHeap`
and `MemoryStack`, which every call keeps.

## Hypotheses

- Clients write only inside their own live payloads, do not free frames the heap holds, and map or
  unmap no page of the heap window (`MemoryStack.ClientWrite`, `ClientFreeFrame`, `ClientMapPage`;
  `Clients.Allowed` states it on what a client knows).
- Boot runs once: regions, ranges and the identity mapping are built once and the allocator is seeded
  once. Page tables are changed by this code only.
- The kernel image is any pair of addresses; page-table addresses are page-aligned and distinct.
- A list of kernel objects is shorter than 2^32 (its nodes are 12 bytes each in a 32-bit space).

## Where the code and its documentation or natural expectation part

- `kernel/init/stage0_main.c:146` says the remaining count never increases; `free` increments it at
  line 904. The model follows the code.
- `docs/milestones/stage-8c.md` lists a first heap allocation at 0x00400000 and
  `docs/milestones/stage-9a.md` says freed blocks are not reused; with the 16-byte header and stage 9C neither holds. The model follows the code.
- The check whether a frame was already issued (`stage6d_pmm_was_frame_issued`) agrees with the frames
  really held if and only if the ranges are covered: no frame lies below the end of a range stored
  before the first range holding it. Sorted disjoint ranges are covered. Otherwise a frame that was
  never handed out is accepted back (`LedgerFreeCheckExactIffCovered`, and `Boot.OutOfOrderMemoryMap` for
  a memory map that leads there).
- `remaining_frame_count` tells whether an allocation will succeed if and only if the ranges are sorted
  and disjoint and none was dropped (`RemainingExactIffSortedAndComplete`; with the memory map of
  `OutOfOrderMemoryMap` a run ends with the count positive and an allocation failing, `OutOfOrderMiscount`).
- Heap growth takes a frame before it looks at the address. A frame at or above 4 GiB is not mapped; it
  is held and the heap never frees it. Each further call that reaches such a frame loses one more
  (`FrameLostIffUnaddressable`, `LossyExample`; `Boot.LossyMemoryMap` is a memory map that leads there). Only such
  frames are ever held by nobody (`Clients.BootAndRun`).
- The memory-map entry loop adds the entry size to the entry cursor in 32 bits. The parser recovers the
  entries of a well-formed structure with a memory-map tag if and only if from each such tag's end one
  entry further is still below 4 GiB (`ParseInvertsSerializer`). Otherwise the guard passes at the tag's end
  (`GuardPassesIffWraps`) and every parse that returns has accounted for too many entries
  (`WrappedGuardMisreads`): with an empty map 40 bytes below 4 GiB it is 178956970 of them
  (`EmptyMapMisread`).
- For a memory map sorted and disjoint where usable, the allocator starts with exactly the free frames
  unless an entry behind the first 128 has a free frame, or the first 128 have one each and one of them
  has free frames on both sides of the kernel image, so that a frame range is dropped
  (`BootSuppliesExactlyFreeFrames`; `DroppedRangeMemoryMap` is such a memory map).
- Appending checks only that the node's `next` is null. That excludes every listed node except the
  tail; appending the tail links it to itself and no sequence describes the list any more
  (`KObjectList.Append`).

## Model

| member | source | states |
|---|---|---|
| Words.AlignUp | kernel/mm/kheap.c:108-131 | the result is the least multiple of a power-of-two alignment at or above the value; failure for a power of two only where that multiple would exceed 32 bits |
| Words.AddClamp64 | kernel/init/stage0_main.c:376-385 | the wrapped-sum test saturates exactly at 2^64 - 1 |
| Words.CheckedAdd64 | kernel/init/stage0_main.c:387-391 | the overflow verdict holds exactly when the true sum leaves 64 bits |
| HeapBlocks.PayloadsDisjoint | kernel/mm/kheap.c:48-103 | payloads are 8-aligned, inside the used heap, and share no byte with another block or header |
| HeapBlocks.AllocWellFormed | kernel/mm/kheap.c:182-244 | an allocation keeps the blocks tiling the used heap without gaps, sizes positive multiples of 8, and never lowers `current` |
| HeapBlocks.FreeWellFormed | kernel/mm/kheap.c:246-308 | a free is accepted exactly for payload starts of allocated blocks and keeps the tiling and `current` |
| HeapRuns.RunWellFormed | kernel/mm/kheap.c:182-308 | in every run the blocks tile the used heap and `current` never falls |
| HeapRuns.AllocOutcome | kernel/mm/kheap.c:74-96 | exactly when an allocation fails; a reused block is the lowest-addressed freed block that fits; `current` moves only if none fits; the payload exceeds the request by at most 23 |
| HeapRuns.Conservation | kernel/mm/kheap.c:211-243 | after any run headers and payloads add up to `current - start` |
| HeapRuns.RunKeepsLive | kernel/mm/kheap.c:74-96 | a live block keeps its address and size through any run that does not free it |
| HeapRuns.RunKeepsStart | kernel/mm/kheap.c:77-92 | block starts are never given up; nothing coalesces |
| HeapRuns.StepLive | kernel/mm/kheap.c:182-308 | a call changes the set of live payloads exactly by what it hands out or takes back, and hands out no live payload |
| HeapRuns.AllocationsAndFreesAlternate | kernel/mm/kheap.c:246-308 | in every run, for every address, allocations returning it and accepted frees of it strictly alternate |
| HeapRuns.ReallocationStable | kernel/init/stage0_main.c:1795-1860 | if alloc(n) returned p then after any further allocations free(p) succeeds and alloc(n) returns p with all blocks as before the free |
| HeapMemory.ReuseTiled | kernel/mm/kheap.c:74-96 | rewriting the header of a freed block, with or without a split header in its payload, leaves in memory the headers of the reused list and no live payload word changed |
| HeapMemory.AppendTiled | kernel/mm/kheap.c:235-242 | a header written at `current` extends the tiling and touches no live payload |
| HeapMemory.FreeTiled | kernel/mm/kheap.c:277-284 | storing the freed state leaves the headers of the list with that block freed |
| HeapMemory.ClientWriteTiled | kernel/mm/kheap.c:48-103 | whatever a client stores in its payload, header look-alikes included, the headers found by the walk are unchanged |
| HeapMemory.FrameLostIffUnaddressable | kernel/mm/kheap.c:133-161 | growth maps every frame it takes if and only if no frame among those wanted is at or above 4 GiB; otherwise exactly one taken frame is lost |
| HeapMemory.LossyExample | kernel/mm/kheap.c:148-150 | a concrete supply with which a frame is taken and not mapped |
| Boot.LossyMemoryMap | kernel/mm/kheap.c:148-150 | a memory map of one usable page at 4 GiB: the first heap page takes the only frame and maps nothing |
| HeapMemory.GrowStep | kernel/mm/kheap.c:152-157 | mapping a held frame behind the last heap page succeeds, and the backing stays injective |
| HeapMemory.TranslationInjective | kernel/mm/kheap.c:133-161 | different heap addresses are different physical bytes, in held frames below 4 GiB |
| KernelHeaps.KernelHeap.TryReuse | kernel/mm/kheap.c:35-106 | for any memory contents the walk ends within (current - start)/24 steps and stays in [start, current), reuses only behind a header with magic 0x39414C48, state 2 and a size that is large enough, and reports an error only over a broken header; over the headers of a block list it is first fit and leaves the headers of the reused list, live payloads untouched |
| KernelHeaps.KernelHeap.EnsureMappedUntil | kernel/mm/kheap.c:133-161 | growth maps next frames in order, none at or above 4 GiB; it succeeds if and only if some number of them reaches the address, and then maps no page too many; otherwise the next frame is missing, or unaddressable and lost; no page outside the heap window changes |
| KernelHeaps.KernelHeap.BootstrapInit | kernel/mm/kheap.c:163-180 | initialises the empty heap once; later calls change nothing |
| KernelHeaps.KernelHeap.Alloc | kernel/mm/kheap.c:182-244 | blocks and result are those of the block machine; with no freed block fitting, `end = current + 16 + rounded size` and room in the window it succeeds if and only if some number of next frames below 4 GiB reaches `end`, and then maps less than a page beyond it with exactly those frames; any other call takes no frame; live payloads keep every word; all layers stay consistent |
| KernelHeaps.KernelHeap.FreeWalk | kernel/mm/kheap.c:246-308 | for any memory contents the walk ends within (current - start)/24 steps; an accepted free finds a sound header with state 1 in front of the pointer and sets that state word to 2, nothing else; a refused one has a broken header, another state, or a block the pointer lies inside; over the headers of a block list it accepts exactly payload starts of allocated blocks |
| KernelHeaps.KernelHeap.Free | kernel/mm/kheap.c:246-308 | accepts exactly live payload starts; refusals change nothing; live payloads keep every word |
| HeapLimits.AllocationFailsExactly | kernel/mm/kheap.c:182-244 | an allocation fails exactly when the request is empty or within 8 of 2^32, or no freed block takes it and the window is used up or no number of next frames below 4 GiB maps the heap to the end of the block |
| HeapLimits.FirstAllocation | kernel/mm/kheap.c:211-243 | the empty heap hands out 0x00400010 for every request of at most 0x3FFFF0 bytes and fails for larger ones |
| KernelHeaps.KernelHeap.Take | kernel/mm/kheap.c:74-96 | handing out the freed block under the cursor, split or whole, writes only inside that block and leaves the headers of the reused list |
| KernelHeaps.KernelHeap.GrowOnePage | kernel/mm/kheap.c:135-158 | one page of growth takes the head of the supply and maps it behind the last heap page, unless its address does not fit 32 bits |
| FrameCursor.UpcomingIncreasing | kernel/init/stage0_main.c:663-739 | frames still to be issued are strictly increasing and lie in the ranges, whatever the order of the ranges |
| FrameCursor.IssuedExactly | kernel/init/stage0_main.c:663-739 | for ranges in any order: a frame is still to be issued if and only if some range from the cursor on holds it and all ranges before that one end at or below it |
| FrameCursor.AdvanceFindsNext | kernel/init/stage0_main.c:663-688 | advancing the cursor reaches the next frame to be issued, or finds none left |
| FrameCursor.IssuesAllIffCovered | kernel/init/stage0_main.c:663-739 | the cursor issues every eligible frame if and only if the ranges are covered |
| FrameCursor.TotalExactIffSorted | kernel/init/stage0_main.c:580-581 | the reported eligible count is the number of frames issued if and only if the ranges are sorted and disjoint; otherwise it is larger |
| FrameLedger.RunGood | kernel/init/stage0_main.c:690-906 | the allocator invariant holds in every run: cursor behind what it issued, pending frames distinct and not held, remaining count off by a constant |
| FrameLedger.AllocTakesHead | kernel/init/stage0_main.c:741-748 | an allocation returns the head of pending frees followed by upcoming frames, or nothing when both are used up |
| FrameLedger.AllocationsFollowSupply | kernel/init/stage0_main.c:755-802 | n allocations return the pending frees oldest first, then fresh frames in cursor order |
| FrameLedger.FreeJoinsQueue | kernel/init/stage0_main.c:902-905 | an accepted free queues behind all pending frees and ahead of every fresh frame |
| FrameLedger.AcceptsExactlyLegal | kernel/init/stage0_main.c:867-906 | over covered ranges a free is accepted exactly for the page address of a held frame while fewer than 64 frees are pending |
| FrameLedger.LedgerFreeCheckExactIffCovered | kernel/init/stage0_main.c:840-865 | the ledger-free check agrees with the ledger in every reachable state if and only if the ranges are covered |
| FrameLedger.NeverIssuedAccepted | kernel/init/stage0_main.c:852-854 | over any uncovered ranges some run ends with a never-issued frame being accepted |
| Boot.OutOfOrderMemoryMap | kernel/init/stage0_main.c:529-652 | a memory map of two usable pages, the higher one first, gives ranges that are not covered, and a run in which a frame never handed out is accepted |
| Boot.OutOfOrderMiscount | kernel/init/stage0_main.c:690-738 | over those ranges a run ends with a positive remaining count and an allocation that fails |
| FrameLedger.OutOfOrderExample | kernel/init/stage0_main.c:529-652 | two concrete ranges in falling order are not covered |
| FrameLedger.FramesPartitioned | kernel/init/stage0_main.c:690-906 | in every run held, pending and unissued frames are disjoint, and over covered ranges they are the eligible frames |
| FrameLedger.NeverHandsOutHeld | kernel/init/stage0_main.c:741-748 | no run hands out a frame that is held |
| FrameLedger.RemainingExactIffSortedAndComplete | kernel/init/stage0_main.c:690-738 | allocation succeeds exactly while remaining > 0, in every run, if and only if the ranges are sorted, disjoint and complete; then held + remaining is the eligible count |
| FrameAllocation.FrameAllocator.AdvanceToNextEligible | kernel/init/stage0_main.c:663-688 | the loop over the ranges is the cursor's advance |
| FrameAllocation.FrameAllocator.PopPendingFifo | kernel/init/stage0_main.c:755-776 | takes the oldest pending frame and keeps the others in order |
| FrameAllocation.FrameAllocator.SeedFromFrames | kernel/init/stage0_main.c:690-704 | the seeded state is the one the machine starts from |
| FrameAllocation.FrameAllocator.TryAllocateReused | kernel/init/stage0_main.c:778-802 | takes the oldest pending frame as the machine does, or changes nothing |
| FrameAllocation.FrameAllocator.TryAllocateFresh | kernel/init/stage0_main.c:706-739 | with no pending frame to take, the cursor's step of the machine |
| FrameAllocation.FrameAllocator.AllocFrame | kernel/init/stage0_main.c:741-748 | returns the head of the supply, which nobody holds, and moves it to the ledger; seeds lazily; the shift-overflow exits are unreachable |
| FrameAllocation.FrameAllocator.GetRemainingFrames | kernel/init/stage0_main.c:750-753 | the machine's remaining count, but 0 before the lazy seeding |
| FrameAllocation.FrameAllocator.FindFrameRange | kernel/init/stage0_main.c:804-833 | finds the first range holding the frame, exactly if there is one |
| FrameAllocation.FrameAllocator.WasFrameIssued | kernel/init/stage0_main.c:840-865 | decides "passed by the cursor" for the machine state |
| FrameAllocation.FrameAllocator.FreeFrame | kernel/init/stage0_main.c:867-906 | accepts what the machine accepts; over covered ranges exactly the legal frees; the count cannot saturate |
| MemoryRegions.PolicyUsableLength | kernel/init/stage0_main.c:421-442 | the bytes of an available, non-wrapping entry at or above 1 MiB, else 0 |
| MemoryRegions.RegionMeaning | kernel/init/stage0_main.c:453-481 | base, length and kind are stored as reported; which entries are flagged raw-usable and policy-usable, and the saturated end of wrapping ones |
| MemoryRegions.PolicyBytesAdd | kernel/init/stage0_main.c:453-481 | the policy total is additive over entries and one entry contributes its bytes at or above 1 MiB |
| MemoryRegions.BooksAreExact | kernel/init/stage0_main.c:403-481 | the first 128 entries are stored in order, the rest counted as dropped; the policy total is the true sum capped at 2^64 - 1; the highest end is the greatest end of a usable entry |
| MemoryRegions.MemoryBookkeeping.AccountEntry | kernel/init/stage0_main.c:453-481 | the structure updated in place is the books after one more entry |
| MemoryRegions.MemoryBookkeeping.RecordRegion | kernel/init/stage0_main.c:403-419 | stores the region behind the others while there is room, else counts it as dropped |
| FrameRanges.RangesExact | kernel/init/stage0_main.c:529-652 | a frame is in some range if and only if all its bytes lie in a usable, non-wrapping region at or above 1 MiB and outside the page-rounded kernel image |
| FrameRanges.SortedRegionsGiveSortedRanges | kernel/init/stage0_main.c:610-649 | sorted disjoint regions give sorted disjoint ranges |
| FrameRanges.SortedRegionsCountFrames | kernel/init/stage0_main.c:575-587 | with sorted disjoint regions the eligible count is the number of usable frames, which are issued in increasing order |
| FrameRanges.KernelSpanOk | kernel/init/stage0_main.c:600-605 | the reserved span is the least page-aligned one that contains the image; the kernel panics exactly when rounding the end leaves 64 bits or nothing lies behind the rounded start |
| FrameRanges.FoundExact | kernel/init/stage0_main.c:600-649 | for a non-empty image, a frame is found if and only if its 4 KiB lie in a usable region at or above 1 MiB and share no byte with the image itself |
| FrameRanges.SpanRangeExact | kernel/init/stage0_main.c:552-587 | the range recorded for a span holds exactly the frames all of whose bytes lie in the span |
| FrameRanges.FrameBookkeeping.RecordEligibleSpan | kernel/init/stage0_main.c:552-587 | records that range and keeps stored ranges, dropped count and total those of all ranges found; the highest frame recorded is in some range, none is higher, and it is 0 without ranges |
| FrameRanges.FrameBookkeeping.Prepare | kernel/init/stage0_main.c:589-652 | the ranges found, stored and dropped, hold exactly the frames of usable regions that share no byte with the kernel image; the highest frame is the greatest of them; totals never saturate; false exactly where the kernel panics |
| FrameRanges.SortedRegionsRangeCount | kernel/init/stage0_main.c:610-649 | sorted disjoint regions give one range for each region with a usable frame, and one more exactly if some region has usable frames on both sides of the kernel image |
| Boot.BootSuppliesExactlyFreeFrames | kernel/init/stage0_main.c:3441-3443 | for any entries sorted and disjoint where usable, the allocator supplies exactly the free frames of the memory map in increasing order, with held + remaining their number in every run, if and only if no entry behind the first 128 has a free frame and not all of the first 128 have one with one of them split by the kernel image |
| Boot.DroppedRangeMemoryMap | kernel/init/stage0_main.c:514-527 | a memory map of 128 sorted entries from which a range is dropped and free frames are lost |
| Boot.RangesOutsideKernel | kernel/init/stage0_main.c:634-646 | no frame the allocator can issue holds a byte of the kernel image |
| Boot.FoundSeedsAllocator | kernel/init/stage0_main.c:690-704 | whatever stage 5C found, dropped ranges included, meets what the allocator needs |
| PageTables.AddressSplits | kernel/mm/paging.c:29-42 | directory index, table index and offset make up the address again |
| PageTables.EntryDecodes | kernel/mm/paging.c:44-60 | frame bits and flags come back out of an entry |
| PageTables.EntriesKernelWritable | kernel/mm/paging.c:62-78 | in every canonical state each entry is 0 or present, writable and for the kernel only, with no other flag; identity entry i is i * 4096 + 3 |
| PageTables.WalkIs | kernel/mm/vmm.c:117-146 | in a canonical state the walk through directory and table yields the identity below 4 MiB, the window mapping, and nothing from 16 MiB up |
| PageTables.StepMeansWalk | kernel/mm/vmm.c:148-234 | a map succeeds exactly for aligned addresses, a page in [4 MiB, 16 MiB) and a walk that finds nothing, and the walk then finds the frame; an unmap exactly where the walk finds a frame, and then it finds nothing; no other page changes, and a refusal changes no word |
| PageTables.MappingDeterminesWords | kernel/mm/vmm.c:170-231 | two canonical states with the same mapping agree in every word of every table |
| PageTables.StepRefines | kernel/mm/vmm.c:148-234 | a map or unmap refines a partial function on pages and keeps the state canonical (window PDE present iff its table has a present entry, absent entries zero) |
| PageTables.RunRefines | kernel/mm/vmm.c:148-234 | after any sequence of calls every page translates as the partial function says; pages below 4 MiB resolve to themselves, pages from 16 MiB up stay unmapped |
| PageTables.MapUnmapRestores | kernel/mm/vmm.c:148-234 | map followed by unmap of the page restores the directory and all tables word for word |
| PageTables.RunRestoresIffMappingDoes | kernel/mm/vmm.c:148-234 | a run restores all words if and only if it restores the mapping |
| VirtualMemory.PageTableManager.constructor | kernel/mm/paging.c:62-78 | setup yields the canonical state with the identity mapping and an empty window: identity entry i is i * 4096 + 3, the directory holds the identity table with flags 3 and nothing else |
| VirtualMemory.PageTableManager.SetupEarlyIdentityPaging | kernel/mm/paging.c:62-78 | clearing and filling the tables yields identity entries i * 4096 + 3, one directory entry, and the canonical state with an empty window mapping |
| VirtualMemory.PageTableManager.EntriesKernelWritable | kernel/mm/vmm.c:148-191 | in every consistent state each word of the directory and the tables is 0 or maps its page writable and for the kernel only |
| VirtualMemory.PageTableManager.PageTableFromEntry | kernel/mm/vmm.c:32-35 | the table whose address the entry's frame bits carry |
| VirtualMemory.PageTableManager.WalkFollowsMapping | kernel/mm/vmm.c:117-146 | in every consistent state the walk finds the identity below 4 MiB, the kept mapping in the window, nothing above |
| VirtualMemory.PageTableManager.TableIsEmpty | kernel/mm/vmm.c:47-60 | true exactly when no entry is present |
| VirtualMemory.PageTableManager.GetReservedMappingSlot | kernel/mm/vmm.c:62-95 | a slot exactly for addresses of the mutable window |
| VirtualMemory.PageTableManager.IsPageMapped | kernel/mm/vmm.c:97-115 | true exactly when the page address is aligned and the walk finds a frame |
| VirtualMemory.PageTableManager.ResolvePageFrame | kernel/mm/vmm.c:117-146 | the walk's frame for an aligned page address |
| VirtualMemory.PageTableManager.MapPage | kernel/mm/vmm.c:148-191 | succeeds exactly when both addresses are multiples of 4 KiB, the page lies in [4 MiB, 16 MiB) and the walk finds nothing there; then the walk finds the frame there and elsewhere what it found before; refusals change no word |
| VirtualMemory.PageTableManager.UnmapPage | kernel/mm/vmm.c:193-234 | succeeds exactly for an aligned window page the walk finds a frame at; then it finds none there and elsewhere what it found before; an emptied table leaves the directory |
| Multiboot.ParseMmap | kernel/init/stage0_main.c:3179-3275 | the two parser loops with every check, every panic and wrapping 32-bit address sums, for any contents of a 32-bit address space |
| Multiboot.ParseReadsBack | kernel/init/stage0_main.c:3201-3270 | from any serialized structure whose guards stay below 4 GiB the parser recovers the entries of all memory-map tags, or panics for want of such a tag |
| Multiboot.FollowingTagDecides | kernel/init/stage0_main.c:3201-3264 | after any well-formed tags the header of the next tag alone decides which panic follows, in the order of the checks, or that the parse ends |
| Multiboot.InfoPanics | kernel/init/stage0_main.c:3190-3196 | a total size below 8 or one that leaves 32 bits panics before any tag is read |
| Multiboot.LiteralBytes | kernel/init/stage0_main.c:3179-3275 | the bytes of a concrete structure the serializer writes |
| Multiboot.WrappedGuardMisreads | kernel/init/stage0_main.c:3238-3258 | if some guard leaves 32 bits, every parse that returns has accounted for more entries than the memory map has |
| Multiboot.ParseInvertsSerializer | kernel/init/stage0_main.c:3201-3270 | from a serialized structure the parser recovers exactly its entries if and only if there is a memory-map tag and each entry guard stays below 4 GiB |
| Multiboot.GuardPassesIffWraps | kernel/init/stage0_main.c:3238 | at the tag's end, where the entry loop should stop, the 32-bit guard passes if and only if the sum leaves 32 bits |
| Multiboot.EmptyMapMisread | kernel/init/stage0_main.c:3238-3258 | a concrete address space with an empty memory map from which the parser returns with 178956970 entries |
| Multiboot.OutcomeSettled | kernel/init/stage0_main.c:3201-3270 | once the loops end, more turns change nothing |
| Multiboot.ParsedTotals | kernel/init/stage0_main.c:3246-3256 | entry and region counts, and byte totals equal to the true sums capped at 2^64 - 1 |
| Multiboot.KindsAdd | kernel/init/stage0_main.c:3246-3252 | counts and byte sums are additive and one entry contributes itself and its length to those of its kind |
| MemoryStacks.MemoryStack.HeapBytesBacked | kernel/mm/kheap.c:133-161 | each byte below the mapped end resolves to a held frame outside the kernel image; different addresses never alias; with the directory and the page tables inside the image no heap byte is a byte of one |
| MemoryStacks.MemoryStack.HeapAlloc | kernel/mm/kheap.c:182-244 | an allocation on the whole stack: blocks and result of the block machine, growth to the end of the fresh block and no further, live payloads unchanged, all layers consistent |
| MemoryStacks.MemoryStack.HeapFree | kernel/mm/kheap.c:246-308 | accepts exactly live payload starts, and all layers stay consistent |
| MemoryStacks.MemoryStack.ClientWrite | kernel/mm/kheap.c:48-103 | a client store into its live payload keeps every layer consistent and every other payload unchanged |
| MemoryStacks.MemoryStack.ClientAllocFrame | kernel/init/stage0_main.c:741-748 | a client never gets a frame behind the heap, and all layers stay consistent |
| MemoryStacks.MemoryStack.ClientMapPage | kernel/mm/vmm.c:148-191 | a client maps an unmapped aligned page of the window outside the heap, exactly then, changing that page only, and all layers stay consistent |
| MemoryStacks.MemoryStack.ClientUnmapPage | kernel/mm/vmm.c:193-234 | a client unmaps a mapped aligned page outside the heap window, exactly then, changing that page only, and all layers stay consistent |
| MemoryStacks.MemoryStack.ClientFreeFrame | kernel/init/stage0_main.c:867-906 | a client freeing a frame that is not behind the heap keeps all layers consistent |
| MemoryStacks.BootStack | kernel/init/stage0_main.c:3421-3450 | boot succeeds exactly when there is a structure, it parses and the kernel bounds are valid, and leaves a new stack, consistent in all layers, with an empty heap and window, seeded with the ranges of the memory map, which hold exactly the usable frames that share no byte with the kernel image |
| Clients.BootAndRun | kernel/init/stage0_main.c:3421-3460 | after boot every answer of any program of client calls is one an ideal memory could give, all layers are consistent at the end, and every held frame below 4 GiB is behind the heap or the client's |
| Clients.RunProgram | kernel/mm/kheap.c:182-308 | the same for any program on a stack that agrees with empty books |
| Clients.CallAlloc | kernel/mm/kheap.c:182-244 | an allocation is aligned, in the heap window and apart from all live ones; it does not fail while one as big was freed and not handed out again |
| Clients.TookNoneLost | kernel/mm/kheap.c:133-161 | heap growth leaves no frame below 4 GiB held by nobody |
| Clients.CallFree | kernel/mm/kheap.c:246-308 | a free is accepted exactly for the client's own live pointers |
| Clients.CallFrame | kernel/init/stage0_main.c:741-906 | a frame handed out is none the client has, and frames given back leave the heap alone |
| Clients.CallPage | kernel/mm/vmm.c:148-234 | a map succeeds exactly for an aligned page and frame in [4 MiB, 16 MiB) that does not resolve, an unmap exactly for one that does; afterwards that page resolves to the frame or to nothing, and every other as before |
| Clients.CallResolve | kernel/mm/vmm.c:117-146 | a page outside the heap window resolves as the client last mapped it |
| Clients.AllocAgrees | kernel/mm/kheap.c:182-244 | in any block list an allocation handed out shares no byte with a live one |
| Clients.AllocSpare | kernel/mm/kheap.c:74-96 | freed blocks not handed out again keep their size, and any request one of them can hold succeeds |
| Clients.StoreAgrees | kernel/mm/kheap.c:48-103 | a store changes the word stored and no other word of a live allocation |
| Clients.AllocationsApart | kernel/mm/kheap.c:182-308 | at every point of every run live allocations share no byte |
| Clients.LoadReturnsLastStore | kernel/mm/kheap.c:182-308 | in every run a load returns the word stored last at that place unless the allocation was freed in between |
| Clients.ResolveReturnsLastMap | kernel/mm/vmm.c:117-234 | in every run a page resolves to the frame it was mapped to until it is unmapped |
| KObjects.KObjectList.Append | kernel/kernel/kobject.c:40-66 | on a node not in the list: concatenation; a node with a successor is refused; the tail itself is linked to itself and nothing describes the list any more |
| KObjects.KObjectList.FindById | kernel/kernel/kobject.c:68-87 | the first node with the id, or null |
| KObjects.KObjectList.Count | kernel/kernel/kobject.c:89-96 | the length of the list |
| KObjects.KObjectList.RemoveById | kernel/kernel/kobject.c:98-140 | deletes exactly the first node with the id and detaches it; list acyclic, tail last node, count the length |

## Left out

- Words.IsPowerOfTwo: masks and shifts are written as remainders and quotients by powers of two, not as bit vectors.
- Multiboot.ParseMmap: each loop is followed for at most `fuel` turns, since a wrapped cursor can run for ever; the theorems hold for every fuel. Memory does not change while it is parsed, and the entry counts are naturals where the kernel's are 32-bit words.
- MemoryStacks.BootStack: the check of the Multiboot2 magic number.
- Clients.RunProgram: when a frame request or a frame given back succeeds is stated by `ClientAllocFrame` and `ClientFreeFrame`, not on the client's books; stores through pages a client maps onto heap frames are excluded.
- KernelHeaps.KernelHeap: heap memory is an array of 32-bit words over the heap window; byte-wise client stores are stores of the containing word. Null out-pointers are not modelled.
- KObjects.KObjectList: null list pointers; node creation and destruction through kmalloc.
- FrameAllocation.FrameAllocator: the allocation statistic `allocation_count`; ranges are a sequence fixed when boot hands them over.
- Heap pages and physical memory: heap words are addressed virtually; that distinct words are distinct physical bytes is `TranslationInjective`.
- CR0, CR3, `invlpg`, accessed and dirty bits: outside the state the C code sees.
- `stage8c_kheap_get_state` and `stage8a_vmm_layout_validate_policy`: a copy of four fields, and a check of constants that always holds.
- Serial and VGA output, panic text, interrupts, PIC, PIT, boot assembly, build files: hardware effects and configuration.
- The self-check routines of stages 5D to 11E: they are instances of the properties proved.
- `kmalloc.c`, `kmemory.c` and the region predicates of `vmm_layout.c`: thin guards, textbook loops and constant range tests.
