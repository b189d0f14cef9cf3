/** Any program of client calls on the booted stack. The client keeps book of what it was told, and
    leaves out calls it must not make; the stack answers as an ideal memory would: allocations apart
    from each other, loads that return the last word stored, frames handed out once, pages that
    translate as last mapped. */
module Clients {
  import opened Words
  import opened FrameCursor
  import L = FrameLedger
  import P = PageTables
  import opened FrameAllocation
  import opened VirtualMemory
  import opened HeapBlocks
  import R = HeapRuns
  import opened HeapMemory
  import opened KernelHeaps
  import opened MemoryStacks
  import Multiboot
  import FrameRanges

  /** A live allocation: the size asked for, and the words stored so far, by offset. */
  datatype Allocation = Allocation(size: u32, words: map<int, u32>)

  /** A client's own books: live allocations, pointers given back and not handed out again with the
      size they had, frames, and pages. */
  datatype Client = Client(heap: map<int, Allocation>, spare: map<int, u32>, frames: set<int>, pages: map<int, int>)

  datatype Call = Alloc(size: u32) | Free(p: u32)
                | Store(p: u32, offset: u32, value: u32) | Load(p: u32, offset: u32)
                | AllocFrame | FreeFrame(address: u64) | Page(op: P.Op) | Resolve(page: u32)

  datatype Reply = Pointer(p: Option<u32>) | Verdict(ok: bool) | Word(value: u32)
                 | Frame(address: Option<u64>) | Translation(frame: Option<u32>) | NotMade

  function Start(): Client { Client(map[], map[], {}, map[]) }

  predicate InsideOwn(c: Client, p: int, offset: int) {
    p in c.heap && 0 <= offset && offset % 4 == 0 && offset + 4 <= c.heap[p].size
  }

  /** Loads and stores stay inside the client's own allocations, frames given back are its own, and
      pages of the heap window are the heap's. Any pointer may be freed. */
  predicate Allowed(c: Client, call: Call) {
    match call
    case Store(p, offset, _) => InsideOwn(c, p, offset)
    case Load(p, offset) => InsideOwn(c, p, offset)
    case FreeFrame(address) => address / PAGE in c.frames
    case Page(op) => !(HEAP_START <= op.page < HEAP_END)
    case Resolve(page) => !(HEAP_START <= page < HEAP_END)
    case _ => true
  }

  /** The books after a call. */
  function Next(c: Client, call: Call, reply: Reply): Client {
    match (call, reply)
    case (Alloc(size), Pointer(Some(p))) =>
      c.(heap := c.heap[p := Allocation(size, map[])], spare := c.spare - {p})
    case (Free(p), Verdict(true)) =>
      if p in c.heap then c.(heap := c.heap - {p}, spare := c.spare[p := c.heap[p].size]) else c
    case (Store(p, offset, value), Verdict(true)) =>
      if p in c.heap then c.(heap := Stored(c.heap, p, offset, value)) else c
    case (AllocFrame, Frame(Some(address))) => c.(frames := c.frames + {address / PAGE})
    case (FreeFrame(address), Verdict(true)) => c.(frames := c.frames - {address / PAGE})
    case (Page(op), Verdict(_)) => c.(pages := P.Abstract(c.pages, op).0)
    case _ => c
  }

  function Stored(h: map<int, Allocation>, p: int, offset: int, value: u32): map<int, Allocation>
    requires p in h
  {
    h[p := h[p].(words := h[p].words[offset := value])]
  }

  /** A new allocation lies in the heap window, aligned, and apart from every live one. */
  predicate Apart(h: map<int, Allocation>, p: int, size: int) {
    && size > 0 && p % 8 == 0 && HEAP_START + HEADER <= p && p + size <= HEAP_END && p !in h
    && forall q | q in h :: p + size <= q || q + h[q].size <= p
  }

  /** Some pointer given back and not handed out again had this size or a greater one. */
  predicate Fitting(spare: map<int, u32>, size: int) {
    exists q | q in spare :: size <= spare[q]
  }

  /** What a page resolves to: itself below 4 MiB, as mapped in the window, nothing above. */
  function Resolved(pages: map<int, int>, page: u32): Option<int> {
    var p := page / PAGE;
    if page % PAGE != 0 then None
    else if p < P.ENTRIES then Some(page)
    else if p in pages then Some(pages[p]) else None
  }

  /** The answers of an ideal memory. */
  predicate Ideal(c: Client, call: Call, reply: Reply) {
    if !Allowed(c, call) then reply == NotMade
    else match call
      case Alloc(size) =>
        && reply.Pointer? && (reply.p.Some? ==> Apart(c.heap, reply.p.value, size))
        && (size > 0 && Fitting(c.spare, size) ==> reply.p.Some?)
      case Free(p) => reply == Verdict(p in c.heap)
      case Store(_, _, _) => reply == Verdict(true)
      case Load(p, offset) =>
        reply.Word? && (offset in c.heap[p].words ==> reply.value == c.heap[p].words[offset])
      case AllocFrame =>
        reply.Frame? && (reply.address.Some? ==> reply.address.value % PAGE == 0 && reply.address.value / PAGE !in c.frames)
      case FreeFrame(_) => reply.Verdict?
      case Page(op) => reply == Verdict(P.Abstract(c.pages, op).1)
      case Resolve(page) => reply.Translation? && reply.frame == Resolved(c.pages, page)
  }

  // ---- How the books and the stack belong together ----

  /** p is the payload of an allocated block of at least this size. */
  ghost predicate Holds(bs: seq<Block>, p: int, size: int) {
    exists b :: b in bs && !b.free && b.Payload() == p && size <= b.size
  }

  ghost predicate HeapAgrees(h: map<int, Allocation>, bs: seq<Block>) {
    && (forall p :: Live(bs, p) ==> p in h)
    && forall p | p in h :: h[p].size > 0 && Holds(bs, p, h[p].size)
  }

  ghost predicate SpareAgrees(spare: map<int, u32>, bs: seq<Block>) {
    forall q | q in spare :: Vacant(bs, q, spare[q])
  }

  ghost predicate Vacant(bs: seq<Block>, q: int, size: int) {
    exists b :: b in bs && b.free && b.Payload() == q && size <= b.size
  }

  ghost predicate WordsAgree(h: map<int, Allocation>, m: seq<u32>) {
    |m| == WORDS && forall p, o | p in h && o in h[p].words :: WordAt(h[p].size, m, p, o, h[p].words[o])
  }

  ghost predicate WordAt(size: int, m: seq<u32>, p: int, o: int, value: u32)
    requires |m| == WORDS
  {
    && 0 <= o && o % 4 == 0 && o + 4 <= size && HEAP_START <= p && p + o + 4 <= HEAP_END
    && m[Ix(p + o)] == value
  }

  /** Every held frame a 32-bit address reaches is behind the heap or the client's. */
  ghost predicate NoneLost(held: set<int>, heapFrames: seq<int>, clientFrames: set<int>) {
    forall f | f in held && f < FRAMES_32BIT :: f in heapFrames || f in clientFrames
  }

  ghost predicate Agrees(c: Client, stack: MemoryStack)
    reads stack.heap, stack.heap.memory, stack.heap.pmm, stack.heap.pmm.pendingFrames
    reads stack.heap.vmm, stack.heap.vmm.directory, stack.heap.vmm.identityTable, stack.heap.vmm.reservedTables
  {
    && stack.Valid() && stack.heap.isInitialized
    && HeapAgrees(c.heap, stack.heap.blocks) && SpareAgrees(c.spare, stack.heap.blocks)
    && WordsAgree(c.heap, stack.heap.memory[..])
    && (forall f | f in c.frames :: f in stack.heap.pmm.held && f !in stack.heap.frames)
    && NoneLost(stack.heap.pmm.held, stack.heap.frames, c.frames)
    && SameOutsideHeap(c.pages, stack.heap.vmm.mapping)
  }

  lemma HeldBlock(bs: seq<Block>, p: int, size: int) returns (k: nat)
    requires WellFormed(bs) && Holds(bs, p, size)
    ensures k < |bs| && !bs[k].free && bs[k].Payload() == p && size <= bs[k].size && Live(bs, p)
    ensures p % 8 == 0 && HEAP_START + HEADER <= p && p + size <= bs[k].End() <= HEAP_END
  {
    var b :| b in bs && !b.free && b.Payload() == p && size <= b.size;
    k :| 0 <= k < |bs| && bs[k] == b;
    PayloadsDisjoint(bs, k, k);
  }

  lemma HeldApart(bs: seq<Block>, p: int, size: int, q: int, size': int)
    requires WellFormed(bs) && p != q && Holds(bs, p, size) && Holds(bs, q, size')
    ensures p + size <= q || q + size' <= p
  {
    var k := HeldBlock(bs, p, size);
    var j := HeldBlock(bs, q, size');
    PayloadsDisjoint(bs, k, j);
  }

  lemma StepKeepsHolds(bs: seq<Block>, op: R.Op, p: int, size: int)
    requires WellFormed(bs) && Holds(bs, p, size) && op != R.Free(p)
    ensures Holds(R.Step(bs, op), p, size)
  {
    var b :| b in bs && !b.free && b.Payload() == p && size <= b.size;
    R.StepKeepsLive(bs, op, b);
  }

  /** An allocation that succeeds is apart from the live ones and enters the books. */
  lemma AllocAgrees(h: map<int, Allocation>, bs: seq<Block>, size: u32, g: bool)
    requires WellFormed(bs) && HeapAgrees(h, bs)
    ensures var (cs, r) := AllocStep(bs, size, g);
            if r.None? then HeapAgrees(h, cs)
            else Apart(h, r.value, size) && HeapAgrees(h[r.value := Allocation(size, map[])], cs)
  {
    hide AllocStep, AlignUp, WellFormed, Live;
    R.AllocOutcome(bs, size, g);
    AllocWellFormed(bs, size, g);
    var (cs, r) := AllocStep(bs, size, g);
    assert cs == R.Step(bs, R.Alloc(size, g));
    if r.Some? {
      var p := r.value;
      assert Holds(cs, p, size);
      R.StepLive(bs, R.Alloc(size, g), p);
      assert R.Hands(bs, R.Alloc(size, g), p);
      forall q | q in h ensures q != p && Holds(cs, q, h[q].size) && (p + size <= q || q + h[q].size <= p) {
        var _ := HeldBlock(bs, q, h[q].size);
        StepKeepsHolds(bs, R.Alloc(size, g), q, h[q].size);
        HeldApart(cs, p, size, q, h[q].size);
      }
      forall q | Live(cs, q) ensures q == p || q in h {
        R.StepLive(bs, R.Alloc(size, g), q);
      }
      var _ := HeldBlock(cs, p, size);
    }
  }

  lemma FreeAgrees(h: map<int, Allocation>, bs: seq<Block>, p: int)
    requires WellFormed(bs) && HeapAgrees(h, bs)
    ensures var (cs, ok) := FreeStep(bs, p);
            (ok <==> p in h) && HeapAgrees(if ok then h - {p} else h, cs)
  {
    hide FreeStep, WellFormed, Live;
    FreeWellFormed(bs, p);
    var (cs, ok) := FreeStep(bs, p);
    assert cs == R.Step(bs, R.Free(p));
    if p in h {
      var _ := HeldBlock(bs, p, h[p].size);
    }
    forall q | q in h && q != p ensures Holds(cs, q, h[q].size) {
      StepKeepsHolds(bs, R.Free(p), q, h[q].size);
    }
    forall q | Live(cs, q) ensures q in h && (ok ==> q != p) {
      R.FreeLive(bs, p, q);
    }
  }

  /** A freed block stays as it is until it is the one handed out. */
  lemma AllocKeepsVacant(bs: seq<Block>, size: u32, g: bool, q: int, n: int)
    requires WellFormed(bs) && Vacant(bs, q, n)
    ensures var (cs, r) := AllocStep(bs, size, g);
            r == Some(q) || Vacant(cs, q, n)
  {
    hide AlignUp, WellFormed, Reuse;
    var b :| b in bs && b.free && b.Payload() == q && n <= b.size;
    var i :| 0 <= i < |bs| && bs[i] == b;
    if size > 0 && AlignUp(size, 8).Some? {
      var k := FirstFit(bs, AlignUp(size, 8).value);
      if k < |bs| && i != k {
        R.ReuseKeeps(bs, k, AlignUp(size, 8).value, i);
      }
    }
  }

  lemma FreeKeepsVacant(bs: seq<Block>, p: int, q: int, n: int)
    requires Vacant(bs, q, n)
    ensures Vacant(FreeStep(bs, p).0, q, n)
  {
    var b :| b in bs && b.free && b.Payload() == q && n <= b.size;
    var i :| 0 <= i < |bs| && bs[i] == b;
    assert FreeStep(bs, p).0[i] == b;
  }

  lemma FreeVacates(bs: seq<Block>, p: int, n: int)
    requires WellFormed(bs) && Holds(bs, p, n)
    ensures Vacant(FreeStep(bs, p).0, p, n)
  {
    var k := HeldBlock(bs, p, n);
    StartsDistinct(bs, k, Find(bs, p));
    assert FreeStep(bs, p).0[k] == bs[k].(free := true);
  }

  /** With a freed block big enough an allocation does not fail. */
  lemma VacantServes(bs: seq<Block>, q: int, n: int, size: u32, g: bool)
    requires WellFormed(bs) && Vacant(bs, q, n) && 0 < size <= n
    ensures AllocStep(bs, size, g).1.Some?
  {
    var b :| b in bs && b.free && b.Payload() == q && n <= b.size;
    var i :| 0 <= i < |bs| && bs[i] == b;
    HeapAlignments();
    PayloadsDisjoint(bs, i, i);
    assert bs[i].size % 8 == 0;
    FitsRounded(size, b.size);
  }

  lemma FitsRounded(size: u32, n: int)
    requires n % 8 == 0 && size <= n < LIMIT32
    ensures AlignUp(size, 8).Some? && AlignUp(size, 8).value <= n
  {
    HeapAlignments();
  }

  lemma AllocSpare(spare: map<int, u32>, bs: seq<Block>, size: u32, g: bool)
    requires WellFormed(bs) && SpareAgrees(spare, bs)
    ensures var (cs, r) := AllocStep(bs, size, g);
            && SpareAgrees(if r.Some? then spare - {r.value} else spare, cs)
            && (size > 0 && Fitting(spare, size) ==> r.Some?)
  {
    hide AllocStep, Vacant, WellFormed;
    forall q | q in spare ensures AllocStep(bs, size, g).1 == Some(q) || Vacant(AllocStep(bs, size, g).0, q, spare[q]) {
      AllocKeepsVacant(bs, size, g, q, spare[q]);
    }
    if size > 0 && Fitting(spare, size) {
      var q :| q in spare && size <= spare[q];
      VacantServes(bs, q, spare[q], size, g);
    }
  }

  lemma FreeSpare(spare: map<int, u32>, bs: seq<Block>, p: int, n: u32)
    requires WellFormed(bs) && SpareAgrees(spare, bs)
    ensures SpareAgrees(spare, FreeStep(bs, p).0)
    ensures Holds(bs, p, n) ==> SpareAgrees(spare[p := n], FreeStep(bs, p).0)
  {
    hide FreeStep, Vacant, WellFormed, Holds;
    forall q | q in spare ensures Vacant(FreeStep(bs, p).0, q, spare[q]) {
      FreeKeepsVacant(bs, p, q, spare[q]);
    }
    if Holds(bs, p, n) {
      FreeVacates(bs, p, n);
    }
  }

  /** Words of live allocations are in live payloads. */
  lemma WordsKept(h: map<int, Allocation>, bs: seq<Block>, m: seq<u32>, m': seq<u32>)
    requires WellFormed(bs) && HeapAgrees(h, bs) && WordsAgree(h, m)
    requires LivePayloadsKept(m, m', bs) && |m'| == |m|
    ensures WordsAgree(h, m')
  {
    hide WellFormed;
    forall p, o | p in h && o in h[p].words ensures WordAt(h[p].size, m', p, o, h[p].words[o]) {
      assert WordAt(h[p].size, m, p, o, h[p].words[o]);
      var k := HeldBlock(bs, p, h[p].size);
      assert SamePayload(m, m', bs[k]);
    }
  }

  /** A store changes the word stored and no other word of a live allocation. */
  lemma StoreAgrees(h: map<int, Allocation>, bs: seq<Block>, m: seq<u32>, p: int, o: int, value: u32)
    requires WellFormed(bs) && HeapAgrees(h, bs) && WordsAgree(h, m)
    requires p in h && 0 <= o && o % 4 == 0 && o + 4 <= h[p].size
    requires HEAP_START <= p && p + o + 4 <= HEAP_END
    ensures HeapAgrees(Stored(h, p, o, value), bs) && WordsAgree(Stored(h, p, o, value), m[Ix(p + o) := value])
  {
    hide WellFormed;
    var h', m' := Stored(h, p, o, value), m[Ix(p + o) := value];
    var _ := HeldBlock(bs, p, h[p].size);
    forall q, i | q in h' && i in h'[q].words ensures WordAt(h'[q].size, m', q, i, h'[q].words[i]) {
      if q != p || i != o {
        assert WordAt(h[q].size, m, q, i, h[q].words[i]);
        var _ := HeldBlock(bs, q, h[q].size);
        if q != p {
          HeldApart(bs, p, h[p].size, q, h[q].size);
        }
      }
    }
  }

  /** Frames the allocator is about to hand out are nobody's. */
  lemma SupplyNotHeld(pmm: FrameAllocator, f: int)
    requires pmm.Valid() && f in pmm.Supply()
    ensures f !in pmm.held
  {
    assert L.Accounted(pmm.ranges, pmm.View());
  }

  lemma TookOthers(supply: seq<int>, n: nat, frames: seq<int>, frames': seq<int>, supply': seq<int>,
                   held: set<int>, held': set<int>, f: int)
    requires Took(supply, n, frames, frames', supply', held, held')
    requires f in held && f !in frames && f !in supply
    ensures f in held' && f !in frames'
  {
  }

  /** Growth loses only frames no 32-bit address reaches. */
  lemma TookNoneLost(supply: seq<int>, n: nat, frames: seq<int>, frames': seq<int>, supply': seq<int>,
                     held: set<int>, held': set<int>, clientFrames: set<int>)
    requires Took(supply, n, frames, frames', supply', held, held') && NoneLost(held, frames, clientFrames)
    ensures NoneLost(held', frames', clientFrames)
  {
    var j := Mappable(supply, n);
    forall f | f in held' && f < FRAMES_32BIT ensures f in frames' || f in clientFrames {
      if f in supply[..Consumed(supply, n)] {
        var i :| 0 <= i < Consumed(supply, n) && supply[i] == f;
        assert i < j ==> f in supply[..j];
      }
    }
  }

  // ---- One call ----

  method CallAlloc(stack: MemoryStack, ghost c: Client, size: u32) returns (reply: Reply)
    requires Agrees(c, stack)
    modifies stack.Objects()
    ensures Agrees(Next(c, Alloc(size), reply), stack) && Ideal(c, Alloc(size), reply)
  {
    hide KernelHeap.Valid, FrameAllocator.Valid, FrameAllocator.View, PageTableManager.Valid;
    hide WordsAgree, HeapAgrees, LivePayloadsKept, Took, PagesWanted, AllocStep, Apart, SpareAgrees, Fitting, NoneLost;
    ghost var heap := stack.heap;
    StackBlocks(stack);
    ghost var bs, m, supply, held, frames := heap.blocks, heap.memory[..], heap.pmm.Supply(), heap.pmm.held, heap.frames;
    forall f | f in c.frames ensures f !in supply {
      if f in supply {
        SupplyNotHeld(heap.pmm, f);
      }
    }
    ghost var n := PagesWanted(bs, heap.mappedEndExclusive, size);
    ghost var g := Mappable(supply, n) == n;
    var r := stack.HeapAlloc(size);
    StackBlocks(stack);
    reply := Pointer(r);
    AllocAgrees(c.heap, bs, size, g);
    AllocSpare(c.spare, bs, size, g);
    WordsKept(c.heap, bs, m, heap.memory[..]);
    if r.Some? {
      NewIsEmpty(c.heap, r.value, size, heap.memory[..]);
    }
    forall f | f in c.frames ensures f in heap.pmm.held && f !in heap.frames {
      TookOthers(supply, n, frames, heap.frames, heap.pmm.Supply(), held, heap.pmm.held, f);
    }
    TookNoneLost(supply, n, frames, heap.frames, heap.pmm.Supply(), held, heap.pmm.held, c.frames);
  }

  method CallFree(stack: MemoryStack, ghost c: Client, p: u32) returns (reply: Reply)
    requires Agrees(c, stack)
    modifies stack.Objects()
    ensures Agrees(Next(c, Free(p), reply), stack) && Ideal(c, Free(p), reply)
  {
    hide KernelHeap.Valid, FrameAllocator.Valid, PageTableManager.Valid, LivePayloadsKept, FreeStep, SpareAgrees, Holds, WordsAgree;
    ghost var heap := stack.heap;
    ghost var bs, m := heap.blocks, heap.memory[..];
    StackBlocks(stack);
    FreeAgrees(c.heap, bs, p);
    FreeSpare(c.spare, bs, p, if p in c.heap then c.heap[p].size else 0);
    var ok := stack.HeapFree(p);
    reply := Verdict(ok);
    WordsKept(c.heap, bs, m, heap.memory[..]);
    WordsOfFewer(c.heap, p, heap.memory[..]);
  }

  method CallStore(stack: MemoryStack, ghost c: Client, p: u32, offset: u32, value: u32) returns (reply: Reply)
    requires Agrees(c, stack) && InsideOwn(c, p, offset)
    modifies stack.Objects()
    ensures Agrees(Next(c, Store(p, offset, value), reply), stack) && Ideal(c, Store(p, offset, value), reply)
  {
    hide KernelHeap.Valid, FrameAllocator.Valid, PageTableManager.Valid, WordsAgree, WellFormed, SpareAgrees, NoneLost, SameOutsideHeap, Stored;
    ghost var heap := stack.heap;
    StackBlocks(stack);
    ghost var k := HeldBlock(heap.blocks, p, c.heap[p].size);
    StoreAgrees(c.heap, heap.blocks, heap.memory[..], p, offset, value);
    stack.ClientWrite(p + offset, value, k);
    return Verdict(true);
  }

  method CallLoad(stack: MemoryStack, ghost c: Client, p: u32, offset: u32) returns (reply: Reply)
    requires Agrees(c, stack) && InsideOwn(c, p, offset)
    ensures Agrees(Next(c, Load(p, offset), reply), stack) && Ideal(c, Load(p, offset), reply)
  {
    hide KernelHeap.Valid, FrameAllocator.Valid, PageTableManager.Valid, WellFormed;
    StackBlocks(stack);
    ghost var _ := HeldBlock(stack.heap.blocks, p, c.heap[p].size);
    assert offset in c.heap[p].words ==>
        WordAt(c.heap[p].size, stack.heap.memory[..], p, offset, c.heap[p].words[offset]);
    return Word(stack.heap.memory[Ix(p + offset)]);
  }

  method CallFrame(stack: MemoryStack, ghost c: Client, call: Call) returns (reply: Reply)
    requires Agrees(c, stack) && (call.AllocFrame? || call.FreeFrame?) && Allowed(c, call)
    modifies stack.Objects()
    ensures Agrees(Next(c, call, reply), stack) && Ideal(c, call, reply)
  {
    hide KernelHeap.Valid, FrameAllocator.Valid, PageTableManager.Valid, WordsAgree, HeapAgrees;
    if call.AllocFrame? {
      var r := stack.ClientAllocFrame();
      return Frame(r);
    }
    var ok := stack.ClientFreeFrame(call.address);
    return Verdict(ok);
  }

  /** What a map or unmap changes, said through Resolve alone. */
  ghost predicate PageAnswered(pages: map<int, int>, op: P.Op, reply: Reply, after: map<int, int>) {
    && reply.Verdict?
    && (reply.ok <==>
        && op.page % 0x1000 == 0 && 0x40_0000 <= op.page < 0x100_0000
        && match op
           case Map(page, frame) => frame % 0x1000 == 0 && Resolved(pages, page) == None
           case Unmap(page) => Resolved(pages, page) != None)
    && (reply.ok ==> Resolved(after, op.page) == match op case Map(_, frame) => Some(frame) case Unmap(_) => None)
    && forall q: u32 | !reply.ok || q != op.page :: Resolved(after, q) == Resolved(pages, q)
  }

  lemma PageCallMeaning(c: Client, op: P.Op, reply: Reply)
    requires Allowed(c, Page(op)) && Ideal(c, Page(op), reply)
    ensures PageAnswered(c.pages, op, reply, Next(c, Page(op), reply).pages)
  {
    var after := P.Abstract(c.pages, op).0;
    forall q: u32 | !reply.ok || q != op.page ensures Resolved(after, q) == Resolved(c.pages, q) {
      if q % PAGE == 0 && op.page % PAGE == 0 && q != op.page {
        assert q / PAGE != op.page / PAGE;
      }
    }
  }

  method CallPage(stack: MemoryStack, ghost c: Client, op: P.Op) returns (reply: Reply)
    requires Agrees(c, stack) && Allowed(c, Page(op))
    modifies stack.Objects()
    ensures Agrees(Next(c, Page(op), reply), stack) && Ideal(c, Page(op), reply)
    ensures PageAnswered(c.pages, op, reply, Next(c, Page(op), reply).pages)
  {
    hide KernelHeap.Valid, FrameAllocator.Valid, PageTableManager.Valid, WordsAgree, HeapAgrees;
    StackBlocks(stack);
    AbstractOutsideHeap(c.pages, stack.heap.vmm.mapping, op);
    var ok;
    match op {
      case Map(page, frame) => ok := stack.ClientMapPage(page, frame);
      case Unmap(page) => ok := stack.ClientUnmapPage(page);
    }
    reply := Verdict(ok);
    PageCallMeaning(c, op, reply);
  }

  method CallResolve(stack: MemoryStack, ghost c: Client, page: u32) returns (reply: Reply)
    requires Agrees(c, stack) && Allowed(c, Resolve(page))
    ensures Agrees(Next(c, Resolve(page), reply), stack) && Ideal(c, Resolve(page), reply)
  {
    hide FrameAllocator.Valid, PageTableManager.Valid, WordsAgree, HeapAgrees;
    var frame := stack.heap.vmm.ResolvePageFrame(page);
    stack.heap.vmm.WalkFollowsMapping(page / PAGE);
    return Translation(frame);
  }

  /** The heap's own pages do not matter to a client's map or unmap. */
  lemma AbstractOutsideHeap(pages: map<int, int>, mapping: map<int, int>, op: P.Op)
    requires SameOutsideHeap(pages, mapping) && !(HEAP_START <= op.page < HEAP_END)
    ensures P.Abstract(pages, op).1 == P.Abstract(mapping, op).1
    ensures SameOutsideHeap(P.Abstract(pages, op).0, P.Abstract(mapping, op).0)
  {
  }

  lemma StackBlocks(stack: MemoryStack)
    requires stack.Valid()
    ensures WellFormed(stack.heap.blocks) && |stack.heap.memory[..]| == WORDS && stack.heap.pmm.Valid()
    ensures stack.heap.memory != stack.heap.vmm.directory
    ensures forall t | t in stack.heap.vmm.reservedTables :: t in stack.Objects() && t != stack.heap.memory
  {
  }

  lemma WordsOfFewer(h: map<int, Allocation>, p: int, m: seq<u32>)
    requires WordsAgree(h, m)
    ensures WordsAgree(h - {p}, m)
  {
    forall q, o | q in h - {p} && o in h[q].words ensures WordAt(h[q].size, m, q, o, h[q].words[o]) {
    }
  }

  lemma NewIsEmpty(h: map<int, Allocation>, p: int, size: u32, m: seq<u32>)
    requires WordsAgree(h, m)
    ensures WordsAgree(h[p := Allocation(size, map[])], m)
  {
    var h' := h[p := Allocation(size, map[])];
    forall q, o | q in h' && o in h'[q].words ensures WordAt(h'[q].size, m, q, o, h'[q].words[o]) {
      assert WordAt(h[q].size, m, q, o, h[q].words[o]);
    }
  }

  /** One call, or none if the client must leave it out. */
  method MakeCall(stack: MemoryStack, c: Client, call: Call) returns (reply: Reply)
    requires Agrees(c, stack)
    modifies stack.Objects()
    ensures Agrees(Next(c, call, reply), stack) && Ideal(c, call, reply)
  {
    hide Agrees, Next, Ideal;
    if !Allowed(c, call) {
      reply := NotMade;
      NotMadeChangesNothing(c, call);
      return;
    }
    match call {
      case Alloc(size) => reply := CallAlloc(stack, c, size);
      case Free(p) => reply := CallFree(stack, c, p);
      case Store(p, offset, value) => reply := CallStore(stack, c, p, offset, value);
      case Load(p, offset) => reply := CallLoad(stack, c, p, offset);
      case AllocFrame => reply := CallFrame(stack, c, call);
      case FreeFrame(_) => reply := CallFrame(stack, c, call);
      case Page(op) => reply := CallPage(stack, c, op);
      case Resolve(page) => reply := CallResolve(stack, c, page);
    }
  }

  lemma NotMadeChangesNothing(c: Client, call: Call)
    ensures Next(c, call, NotMade) == c
    ensures !Allowed(c, call) ==> Ideal(c, call, NotMade)
  {
  }

  // ---- Whole programs ----

  /** The books after the first n calls. */
  function After(program: seq<Call>, replies: seq<Reply>, n: nat): Client
    requires n <= |program| && n <= |replies|
  {
    if n == 0 then Start() else Next(After(program, replies, n - 1), program[n - 1], replies[n - 1])
  }

  /** Answer number n is one an ideal memory could give. */
  ghost predicate IdealReply(program: seq<Call>, replies: seq<Reply>, n: nat)
    requires n < |replies| <= |program|
  {
    Ideal(After(program, replies, n), program[n], replies[n])
  }

  /** Every answer so far is one an ideal memory could give. */
  ghost predicate IdealRun(program: seq<Call>, replies: seq<Reply>)
    requires |replies| <= |program|
  {
    forall n | 0 <= n < |replies| :: IdealReply(program, replies, n)
  }

  lemma {:induction false} AfterPrefix(program: seq<Call>, replies: seq<Reply>, more: seq<Reply>, n: nat)
    requires n <= |program| && n <= |replies|
    ensures After(program, replies + more, n) == After(program, replies, n)
  {
    if n > 0 {
      AfterPrefix(program, replies, more, n - 1);
    }
  }

  lemma NoCalls(program: seq<Call>)
    ensures IdealRun(program, []) && After(program, [], 0) == Start()
  {
  }

  lemma OneMoreCall(program: seq<Call>, replies: seq<Reply>, reply: Reply)
    requires |replies| < |program| && IdealRun(program, replies)
    requires Ideal(After(program, replies, |replies|), program[|replies|], reply)
    ensures IdealRun(program, replies + [reply])
    ensures After(program, replies + [reply], |replies| + 1)
            == Next(After(program, replies, |replies|), program[|replies|], reply)
  {
    hide Ideal, Next;
    forall n | 0 <= n <= |replies| ensures After(program, replies + [reply], n) == After(program, replies, n) {
      AfterPrefix(program, replies, [reply], n);
    }
    forall n | 0 <= n < |replies| ensures IdealReply(program, replies + [reply], n) {
      assert IdealReply(program, replies, n);
    }
  }

  /** Any program on a stack that agrees with empty books. */
  method RunProgram(stack: MemoryStack, program: seq<Call>) returns (replies: seq<Reply>)
    requires Agrees(Start(), stack)
    modifies stack.Objects()
    ensures |replies| == |program| && IdealRun(program, replies)
    ensures Agrees(After(program, replies, |program|), stack)
  {
    hide Agrees, Next, Ideal, IdealRun;
    replies := [];
    var c := Start();
    NoCalls(program);
    while |replies| < |program|
      invariant |replies| <= |program| && IdealRun(program, replies)
      invariant c == After(program, replies, |replies|) && Agrees(c, stack)
    {
      var call := program[|replies|];
      var reply := MakeCall(stack, c, call);
      OneMoreCall(program, replies, reply);
      c := Next(c, call, reply);
      replies := replies + [reply];
    }
  }

  lemma BootedAgrees(stack: MemoryStack, ranges: seq<FrameRange>, eligible: int)
    requires stack.Booted(ranges, eligible)
    ensures Agrees(Start(), stack)
  {
  }

  /** Boot, then any program: the kernel panics, or every answer is one an ideal memory could give, all
      layers are consistent at the end, and no frame below 4 GiB is held by nobody. */
  method BootAndRun(m: Multiboot.Ram, base: u32, fuel: nat, kernelStart: u64, kernelEnd: u64, layout: P.Layout,
                    program: seq<Call>)
    returns (r: Option<(MemoryStack, seq<Reply>)>)
    requires layout.Ok()
    ensures r.Some? <==>
            base != 0 && Multiboot.Parse(m, base, fuel).Parsed? && FrameRanges.KernelSpan(kernelStart, kernelEnd).Some?
    ensures r.Some? ==>
              var (stack, replies) := r.value;
              && |replies| == |program| && IdealRun(program, replies)
              && stack.Valid() && Agrees(After(program, replies, |program|), stack)
              && NoneLost(stack.heap.pmm.held, stack.heap.frames, After(program, replies, |program|).frames)
              && stack.kernel == FrameRanges.KernelSpan(kernelStart, kernelEnd).value
  {
    hide MemoryStack.Objects, Agrees, IdealRun, MemoryStack.Valid;
    var booted := BootStack(m, base, fuel, kernelStart, kernelEnd, layout);
    if booted.None? {
      return None;
    }
    var stack := booted.value;
    BootedAgrees(stack, stack.heap.pmm.ranges, stack.heap.pmm.eligibleFrames);
    var replies := RunProgram(stack, program);
    AgreesIsValid(After(program, replies, |program|), stack);
    return Some((stack, replies));
  }

  lemma AgreesIsValid(c: Client, stack: MemoryStack)
    requires Agrees(c, stack)
    ensures stack.Valid() && NoneLost(stack.heap.pmm.held, stack.heap.frames, c.frames)
  {
  }

  // ---- What an ideal run means ----

  lemma CallOfRun(program: seq<Call>, replies: seq<Reply>, n: nat)
    requires |replies| <= |program| && IdealRun(program, replies) && n < |replies|
    ensures Ideal(After(program, replies, n), program[n], replies[n])
    ensures After(program, replies, n + 1) == Next(After(program, replies, n), program[n], replies[n])
  {
    hide Ideal, Next;
    assert IdealReply(program, replies, n);
  }

  ghost predicate AllApart(h: map<int, Allocation>) {
    && (forall p | p in h :: h[p].size > 0)
    && forall p, q | p in h && q in h && p != q :: p + h[p].size <= q || q + h[q].size <= p
  }

  lemma NextApart(c: Client, call: Call, reply: Reply)
    requires AllApart(c.heap) && Ideal(c, call, reply)
    ensures AllApart(Next(c, call, reply).heap)
  {
    hide P.Abstract, Resolved;
  }

  /** At every point of a run live allocations share no byte. */
  lemma {:induction false} AllocationsApart(program: seq<Call>, replies: seq<Reply>, n: nat)
    requires |replies| <= |program| && IdealRun(program, replies) && n <= |replies|
    ensures AllApart(After(program, replies, n).heap)
  {
    hide IdealRun, Ideal, Next;
    if n > 0 {
      AllocationsApart(program, replies, n - 1);
      CallOfRun(program, replies, n - 1);
      NextApart(After(program, replies, n - 1), program[n - 1], replies[n - 1]);
    }
  }

  predicate Contains(c: Client, p: u32, offset: u32, value: u32) {
    InsideOwn(c, p, offset) && offset in c.heap[p].words && c.heap[p].words[offset] == value
  }

  /** The call stores another word at this place or frees the allocation. */
  predicate Touches(call: Call, p: u32, offset: u32) {
    call == Free(p) || (call.Store? && call.p == p && call.offset == offset)
  }

  lemma StoreContains(c: Client, p: u32, offset: u32, value: u32, reply: Reply)
    requires Ideal(c, Store(p, offset, value), reply) && reply.Verdict?
    ensures Contains(Next(c, Store(p, offset, value), reply), p, offset, value)
  {
  }

  lemma NextContains(c: Client, call: Call, reply: Reply, p: u32, offset: u32, value: u32)
    requires Contains(c, p, offset, value) && Ideal(c, call, reply) && !Touches(call, p, offset)
    ensures Contains(Next(c, call, reply), p, offset, value)
  {
    hide P.Abstract, Resolved;
  }

  lemma {:induction false} StoredWordStays(program: seq<Call>, replies: seq<Reply>, i: nat, n: nat,
                                           p: u32, offset: u32, value: u32)
    requires |replies| <= |program| && IdealRun(program, replies) && i < n <= |replies|
    requires program[i] == Store(p, offset, value) && replies[i].Verdict?
    requires forall k | i < k < n :: !Touches(program[k], p, offset)
    ensures Contains(After(program, replies, n), p, offset, value)
  {
    hide IdealRun, Ideal, Next, Contains, Touches, After;
    CallOfRun(program, replies, n - 1);
    var c := After(program, replies, n - 1);
    if i == n - 1 {
      StoreContains(c, p, offset, value, replies[i]);
    } else {
      StoredWordStays(program, replies, i, n - 1, p, offset, value);
      NextContains(c, program[n - 1], replies[n - 1], p, offset, value);
    }
  }

  /** A load returns the word stored last at that place, whatever other calls came between, unless
      the allocation was freed. */
  lemma LoadReturnsLastStore(program: seq<Call>, replies: seq<Reply>, i: nat, n: nat, p: u32, offset: u32, value: u32)
    requires |replies| <= |program| && IdealRun(program, replies) && i < n < |replies|
    requires program[i] == Store(p, offset, value) && replies[i].Verdict?
    requires program[n] == Load(p, offset)
    requires forall k | i < k < n :: !Touches(program[k], p, offset)
    ensures replies[n] == Word(value)
  {
    hide IdealRun, Next, Touches, After;
    StoredWordStays(program, replies, i, n, p, offset, value);
    CallOfRun(program, replies, n);
  }

  lemma NextResolves(c: Client, call: Call, reply: Reply, page: u32, frame: u32)
    requires Resolved(c.pages, page) == Some(frame) && page >= 0x40_0000 && Ideal(c, call, reply) && call != Page(P.Unmap(page))
    ensures Resolved(Next(c, call, reply).pages, page) == Some(frame)
  {
    hide P.Abstract, Resolved, Next, Apart, Fitting;
    if call.Page? && Allowed(c, call) {
      PageCallMeaning(c, call.op, reply);
    } else {
      OtherCallsKeepPages(c, call, reply);
    }
  }

  lemma OtherCallsKeepPages(c: Client, call: Call, reply: Reply)
    requires Ideal(c, call, reply) && !(call.Page? && Allowed(c, call))
    ensures Next(c, call, reply).pages == c.pages
  {
    hide P.Abstract, Resolved;
  }

  lemma {:induction false} MappedPageStays(program: seq<Call>, replies: seq<Reply>, i: nat, n: nat, page: u32, frame: u32)
    requires |replies| <= |program| && IdealRun(program, replies) && i < n <= |replies|
    requires program[i] == Page(P.Map(page, frame)) && replies[i] == Verdict(true)
    requires forall k | i < k < n :: program[k] != Page(P.Unmap(page))
    ensures Resolved(After(program, replies, n).pages, page) == Some(frame)
    ensures 0x40_0000 <= page && !(HEAP_START <= page < HEAP_END)
  {
    hide IdealRun, Next, After, Resolved;
    CallOfRun(program, replies, n - 1);
    var c := After(program, replies, n - 1);
    if i == n - 1 {
      PageCallMeaning(c, P.Map(page, frame), replies[i]);
    } else {
      MappedPageStays(program, replies, i, n - 1, page, frame);
      NextResolves(c, program[n - 1], replies[n - 1], page, frame);
    }
  }

  /** A page resolves to the frame mapped last, whatever other calls came between, until it is unmapped. */
  lemma ResolveReturnsLastMap(program: seq<Call>, replies: seq<Reply>, i: nat, n: nat, page: u32, frame: u32)
    requires |replies| <= |program| && IdealRun(program, replies) && i < n < |replies|
    requires program[i] == Page(P.Map(page, frame)) && replies[i] == Verdict(true)
    requires program[n] == Resolve(page)
    requires forall k | i < k < n :: program[k] != Page(P.Unmap(page))
    ensures replies[n] == Translation(Some(frame))
  {
    hide IdealRun, Next, After, Resolved;
    MappedPageStays(program, replies, i, n, page, frame);
    CallOfRun(program, replies, n);
  }
}
