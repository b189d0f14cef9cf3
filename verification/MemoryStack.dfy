/** The layers together: boot builds them, and every call a client can make keeps them consistent.
    Clients write only inside their own live payloads, do not free frames the heap holds, and leave
    the pages of the heap window to the heap. */
module MemoryStacks {
  import opened Words
  import MemoryRegions
  import opened FrameCursor
  import FrameRanges
  import L = FrameLedger
  import opened FrameAllocation
  import P = PageTables
  import opened VirtualMemory
  import opened HeapBlocks
  import opened HeapMemory
  import opened KernelHeaps
  import Multiboot
  import Boot

  class MemoryStack {
    const heap: KernelHeap
    /** The page-rounded kernel image, which holds code, static data and the page tables. */
    ghost const kernel: (u64, u64)

    ghost predicate Valid()
      reads heap, heap.memory, heap.pmm, heap.pmm.pendingFrames
      reads heap.vmm, heap.vmm.directory, heap.vmm.identityTable, heap.vmm.reservedTables
    {
      heap.Valid() && FramesOutsideKernel()
    }

    /** The state boot ends in: the allocator seeded with these ranges and this many frames, no page
        of the window mapped, and an empty heap. */
    ghost predicate Booted(ranges: seq<FrameRange>, eligible: int)
      reads heap, heap.memory, heap.pmm, heap.pmm.pendingFrames
      reads heap.vmm, heap.vmm.directory, heap.vmm.identityTable, heap.vmm.reservedTables
    {
      && Valid() && heap.isInitialized && heap.blocks == [] && heap.frames == [] && heap.vmm.mapping == map[]
      && heap.pmm.ranges == ranges && heap.pmm.eligibleFrames == eligible && heap.pmm.View() == L.Seed(ranges, eligible)
    }

    /** The objects the state is kept in. */
    ghost function Objects(): set<object> {
      {heap, heap.memory, heap.pmm, heap.pmm.pendingFrames, heap.vmm, heap.vmm.directory, heap.vmm.identityTable}
      + (set k | 0 <= k < |heap.vmm.reservedTables| :: heap.vmm.reservedTables[k])
    }

    ghost predicate FramesOutsideKernel() {
      forall f | Eligible(heap.pmm.ranges, f) :: FrameRanges.OutsideKernel(f, kernel)
    }

    constructor (heap: KernelHeap, ghost kernel: (u64, u64))
      requires heap.Valid()
      requires forall f | Eligible(heap.pmm.ranges, f) :: FrameRanges.OutsideKernel(f, kernel)
      ensures Valid() && this.heap == heap && this.kernel == kernel
    {
      this.heap, this.kernel := heap, kernel;
    }

    /** The directory and the tables the walk goes through are static data of the kernel. */
    ghost predicate TablesInKernel() {
      var layout := heap.vmm.layout;
      && kernel.0 <= layout.directory && layout.directory + PAGE <= kernel.1
      && kernel.0 <= layout.identity && layout.identity + PAGE <= kernel.1
      && kernel.0 <= layout.reserved && layout.reserved + P.TABLE_COUNT * PAGE <= kernel.1
    }

    /** In every consistent state each byte of the used heap is backed: its page is mapped to a held
        frame outside the kernel image, so no heap byte is a byte of the kernel, nor of the page
        directory or a page table when these lie in the image, and two different heap addresses are two different bytes of
        physical memory. */
    lemma HeapBytesBacked(a: int, b: int)
      requires Valid() && heap.isInitialized
      requires HEAP_START <= a < heap.mappedEndExclusive && HEAP_START <= b < heap.mappedEndExclusive
      ensures a / PAGE in heap.vmm.mapping && b / PAGE in heap.vmm.mapping
      ensures P.Walk(heap.vmm.layout, heap.vmm.View(), a / PAGE) == Some(heap.vmm.mapping[a / PAGE])
      ensures var phys := Translate(heap.vmm.mapping, a);
              && 0 <= phys < LIMIT32 && phys / PAGE in heap.pmm.held
              && (phys < kernel.0 || kernel.1 <= phys)
              && (phys == Translate(heap.vmm.mapping, b) ==> a == b)
      ensures var phys, layout := Translate(heap.vmm.mapping, a), heap.vmm.layout;
              TablesInKernel() ==>
                && !(layout.directory <= phys < layout.directory + PAGE)
                && !(layout.identity <= phys < layout.identity + PAGE)
                && !(layout.reserved <= phys < layout.reserved + P.TABLE_COUNT * PAGE)
      ensures HEAP_START <= EndOf(heap.blocks) == heap.current <= heap.mappedEndExclusive <= HEAP_END
    {
      hide FrameAllocator.View, L.Good, L.Accounted, PageTableManager.Valid;
      var mapping := heap.vmm.mapping;
      heap.vmm.WalkFollowsMapping(a / PAGE);
      TranslationInjective(mapping, heap.pmm.held, heap.frames, a, b);
      heap.pmm.HeldIsEligible(Translate(mapping, a) / PAGE);
    }

    /** A client allocates: the contract of KernelHeap.Alloc on the whole stack. */
    method HeapAlloc(size: u32) returns (r: Option<u32>)
      requires Valid() && heap.isInitialized
      modifies heap`current, heap`blocks, heap`mappedEndExclusive, heap`frames, heap.memory
      modifies heap.pmm, heap.pmm.pendingFrames
      modifies heap.vmm`mapping, heap.vmm.directory, heap.vmm.reservedTables
      ensures Valid()
      ensures var supply := old(heap.pmm.Supply());
              var n := PagesWanted(old(heap.blocks), old(heap.mappedEndExclusive), size);
              && (heap.blocks, r) == AllocStep(old(heap.blocks), size, Mappable(supply, n) == n)
              && Took(supply, n, old(heap.frames), heap.frames, heap.pmm.Supply(), old(heap.pmm.held), heap.pmm.held)
      ensures AllocGrew(old(heap.blocks), size, old(heap.pmm.Supply()), heap.pmm.Supply(), old(heap.frames), heap.frames,
                        old(heap.pmm.held), heap.pmm.held, old(heap.mappedEndExclusive), heap.mappedEndExclusive, r.Some?)
      ensures LivePayloadsKept(old(heap.memory[..]), heap.memory[..], old(heap.blocks))
      ensures SameOutsideHeap(old(heap.vmm.mapping), heap.vmm.mapping)
    {
      r := heap.Alloc(size);
    }

    /** A client gives a pointer back, any pointer: only the start of a live payload is accepted. */
    method HeapFree(ptr: u32) returns (ok: bool)
      requires Valid()
      modifies heap`blocks, heap.memory
      ensures Valid()
      ensures (heap.blocks, ok) == FreeStep(old(heap.blocks), ptr)
      ensures ok <==> Live(old(heap.blocks), ptr)
      ensures !ok ==> heap.memory[..] == old(heap.memory[..])
      ensures LivePayloadsKept(old(heap.memory[..]), heap.memory[..], old(heap.blocks))
    {
      ok := heap.Free(ptr);
    }

    /** A client stores a word into its live payload k. */
    method ClientWrite(address: u32, value: u32, ghost k: nat)
      requires Valid() && k < |heap.blocks| && !heap.blocks[k].free
      requires address % 4 == 0 && HEAP_START <= address && address + 4 <= HEAP_END
      requires heap.blocks[k].Payload() <= address && address + 4 <= heap.blocks[k].End()
      modifies heap.memory
      ensures Valid() && heap.memory[..] == old(heap.memory[..])[Ix(address) := value]
      ensures forall j | 0 <= j < |heap.blocks| && j != k :: SamePayload(old(heap.memory[..]), heap.memory[..], heap.blocks[j])
    {
      hide FrameAllocator.Valid, PageTableManager.Valid, BackedBy;
      ghost var m := heap.memory[..];
      PayloadsDisjoint(heap.blocks, k, k);
      heap.memory[Ix(address)] := value;
      ClientWriteTiled(m, heap.memory[..], heap.blocks, k);
    }

    /** A client takes a frame: never one that is held, so never one behind the heap. */
    method ClientAllocFrame() returns (r: Option<u64>)
      requires Valid()
      modifies heap.pmm, heap.pmm.pendingFrames
      ensures Valid()
      ensures r.Some? <==> old(heap.pmm.Supply()) != []
      ensures heap.pmm.held == if r.Some? then old(heap.pmm.held) + {r.value / PAGE} else old(heap.pmm.held)
      ensures r.Some? ==> r.value % PAGE == 0 && r.value / PAGE !in heap.frames && r.value / PAGE !in old(heap.pmm.held)
    {
      hide FrameAllocator.Valid, FrameAllocator.View, FrameAllocator.Supply, PageTableManager.Valid, Tiled, BackedBy;
      ghost var held := heap.pmm.held;
      r := heap.pmm.AllocFrame();
      BackingNeedsOnlyItsFrames(heap.vmm.mapping, held, heap.pmm.held, heap.frames);
    }

    /** A client gives back a frame that is not behind the heap. */
    method ClientFreeFrame(address: u64) returns (ok: bool)
      requires Valid() && address / PAGE !in heap.frames
      modifies heap.pmm, heap.pmm.pendingFrames
      ensures Valid()
      ensures heap.pmm.held == if ok then old(heap.pmm.held) - {address / PAGE} else old(heap.pmm.held)
      ensures Covered(heap.pmm.ranges) ==> (ok <==> L.LegalFree(old(heap.pmm.View()), address))
    {
      hide FrameAllocator.Valid, FrameAllocator.View, PageTableManager.Valid, Tiled, BackedBy;
      ghost var held := heap.pmm.held;
      ok := heap.pmm.FreeFrame(address);
      BackingNeedsOnlyItsFrames(heap.vmm.mapping, held, heap.pmm.held, heap.frames);
    }

    /** Clients map and unmap pages outside the heap window. */
    method ClientMapPage(page: u32, frame: u32) returns (ok: bool)
      requires Valid() && !(HEAP_START <= page < HEAP_END)
      modifies heap.vmm`mapping, heap.vmm.directory, heap.vmm.reservedTables
      ensures Valid()
      ensures (heap.vmm.mapping, ok) == P.Abstract(old(heap.vmm.mapping), P.Map(page, frame))
      ensures ok <==>
              && page % 0x1000 == 0 && frame % 0x1000 == 0 && 0x40_0000 <= page < 0x100_0000
              && page / 0x1000 !in old(heap.vmm.mapping)
      ensures heap.vmm.mapping == if ok then old(heap.vmm.mapping)[page / 0x1000 := frame] else old(heap.vmm.mapping)
    {
      hide FrameAllocator.Valid, PageTableManager.Valid, PageTableManager.View, Tiled, BackedBy, P.Walk;
      ghost var mapping := heap.vmm.mapping;
      ok := heap.vmm.MapPage(page, frame);
      BackingInWindow(mapping, heap.vmm.mapping, heap.pmm.held, heap.frames);
    }

    method ClientUnmapPage(page: u32) returns (ok: bool)
      requires Valid() && !(HEAP_START <= page < HEAP_END)
      modifies heap.vmm`mapping, heap.vmm.directory, heap.vmm.reservedTables
      ensures Valid()
      ensures (heap.vmm.mapping, ok) == P.Abstract(old(heap.vmm.mapping), P.Unmap(page))
      ensures ok <==>
              page % 0x1000 == 0 && 0x40_0000 <= page < 0x100_0000 && page / 0x1000 in old(heap.vmm.mapping)
      ensures heap.vmm.mapping == if ok then old(heap.vmm.mapping) - {page / 0x1000} else old(heap.vmm.mapping)
    {
      hide FrameAllocator.Valid, PageTableManager.Valid, PageTableManager.View, Tiled, BackedBy, P.Walk;
      ghost var mapping := heap.vmm.mapping;
      ok := heap.vmm.UnmapPage(page);
      BackingInWindow(mapping, heap.vmm.mapping, heap.pmm.held, heap.frames);
    }
  }

  /** Boot: parse the memory map, build the frame ranges, seed the allocator, set up paging and the
      heap. None stands for a panic, or for a parse that has not ended after `fuel` turns. */
  method BootStack(m: Multiboot.Ram, base: u32, fuel: nat, kernelStart: u64, kernelEnd: u64, layout: P.Layout)
    returns (r: Option<MemoryStack>)
    requires layout.Ok()
    ensures r.Some? <==>
            base != 0 && Multiboot.Parse(m, base, fuel).Parsed? && FrameRanges.KernelSpan(kernelStart, kernelEnd).Some?
    ensures r.Some? ==>
              var found := FrameRanges.AllRanges(Multiboot.Parse(m, base, fuel).acc.books.regions,
                                                 FrameRanges.KernelSpan(kernelStart, kernelEnd).value);
              && r.value.Booted(FrameRanges.CappedRanges(found), FrameTotal(found, 0))
              && r.value.kernel == FrameRanges.KernelSpan(kernelStart, kernelEnd).value
              && r.value.heap.vmm.layout == layout
              && (kernelStart < kernelEnd ==> forall f ::
                    Eligible(found, f) <==>
                    FrameRanges.FreeOfImage(Multiboot.Parse(m, base, fuel).acc.books.regions, kernelStart, kernelEnd, f))
    ensures r.Some? ==> fresh(r.value) && fresh(r.value.Objects())
  {
    hide MemoryStack.Objects, MemoryStack.Booted, FrameAllocator.Valid, FrameAllocator.View;
    if base == 0 {
      return None;
    }
    var memory := new MemoryRegions.MemoryBookkeeping();
    var parsed := Multiboot.ParseMmap(memory, m, base, fuel);
    if !parsed.Parsed? {
      return None;
    }
    var frames := new FrameRanges.FrameBookkeeping();
    var ok := frames.Prepare(memory, kernelStart, kernelEnd);
    if !ok {
      return None;
    }
    ghost var kernel := FrameRanges.KernelSpan(kernelStart, kernelEnd).value;
    FrameRanges.KernelSpanOk(kernelStart, kernelEnd);
    Boot.FoundSeedsAllocator(frames.found);
    Boot.RangesOutsideKernel(memory.View().regions, kernel);
    var stack := Assemble(frames.ranges[..frames.rangeCount], frames.eligibleFrames, layout, kernel);
    return Some(stack);
  }

  method Assemble(ranges: seq<FrameRange>, eligible: u64, layout: P.Layout, ghost kernel: (u64, u64))
    returns (stack: MemoryStack)
    requires L.SeedOk(ranges, eligible) && layout.Ok()
    requires forall f | Eligible(ranges, f) :: FrameRanges.OutsideKernel(f, kernel)
    ensures stack.Booted(ranges, eligible) && stack.kernel == kernel && stack.heap.vmm.layout == layout
    ensures fresh(stack) && fresh(stack.Objects())
  {
    hide FrameAllocator.Valid, FrameAllocator.View, PageTableManager.Valid, KernelHeap.Valid, L.SeedOk, L.Seed;
    var pmm := new FrameAllocator(ranges, eligible);
    var vmm := new PageTableManager(layout);
    var heap := new KernelHeap(pmm, vmm);
    heap.BootstrapInit();
    stack := new MemoryStack(heap, kernel);
  }
}
