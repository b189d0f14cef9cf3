/** The kernel heap of stages 8C to 9C: header walks and bump growth over raw words, on top of the
    frame allocator and the page tables. */
module KernelHeaps {
  import opened Words
  import opened HeapBlocks
  import opened HeapMemory
  import L = FrameLedger
  import opened FrameAllocation
  import P = PageTables
  import opened VirtualMemory

  /** Pages between the mapped end and a page-aligned address. */
  function PagesBetween(mapped: int, required: int): nat {
    if required > mapped then (required - mapped) / PAGE else 0
  }

  /** Pages an allocation of `size` bytes tries to map: none unless it needs a fresh block. */
  function PagesWanted(bs: seq<Block>, mapped: int, size: u32): nat {
    if size == 0 || AlignUp(size, 8).None? then 0
    else
      var n := AlignUp(size, 8).value;
      var end := EndOf(bs) + HEADER + n;
      if FirstFit(bs, n) < |bs| || end > HEAP_END then 0
      else PagesBetween(mapped, (end + (PAGE - 1)) / PAGE * PAGE)
  }

  /** Requests that never reach the end of the heap want no page. */
  lemma WantsNothing(bs: seq<Block>, mapped: int, size: u32)
    requires size == 0 || AlignUp(size, 8).None? || FirstFit(bs, AlignUp(size, 8).value) < |bs|
    ensures PagesWanted(bs, mapped, size) == 0
    ensures forall g :: AllocStep(bs, size, g) ==
              if size == 0 || AlignUp(size, 8).None? then (bs, None)
              else (Reuse(bs, FirstFit(bs, AlignUp(size, 8).value), AlignUp(size, 8).value),
                    Some(bs[FirstFit(bs, AlignUp(size, 8).value)].Payload()))
  {
  }

  /** Requests no freed block can take go to the end of the heap. */
  lemma WantsFreshBlock(bs: seq<Block>, mapped: int, size: u32, n: u32, g: bool)
    requires size > 0 && AlignUp(size, 8) == Some(n) && FirstFit(bs, n) == |bs|
    ensures var end := EndOf(bs) + HEADER + n;
            && AllocStep(bs, size, g) == (if end <= HEAP_END && g then (Append(bs, n), Some(EndOf(bs) + HEADER)) else (bs, None))
            && PagesWanted(bs, mapped, size) ==
               (if end <= HEAP_END then PagesBetween(mapped, (end + (PAGE - 1)) / PAGE * PAGE) else 0)
  {
  }

  /** The request goes to the end of the heap: no freed block takes it and the window has room. */
  ghost predicate NeedsFresh(bs: seq<Block>, size: u32) {
    && size > 0 && AlignUp(size, 8).Some?
    && (forall b | b in bs :: !Fits(b, AlignUp(size, 8).value))
    && EndOf(bs) + 16 + AlignUp(size, 8).value <= 0x80_0000
  }

  /** What an allocation does to the mapped heap and the frames: it grows the heap to the end of the
      fresh block it needs, and succeeds exactly when the frames suffice; otherwise it takes none. */
  ghost predicate AllocGrew(bs: seq<Block>, size: u32, supply: seq<int>, supply': seq<int>, frames: seq<int>,
                            frames': seq<int>, held: set<int>, held': set<int>, mapped: int, mapped': int, ok: bool)
  {
    if NeedsFresh(bs, size) then
      var end := EndOf(bs) + 16 + AlignUp(size, 8).value;
      Growth(supply, supply', frames, frames', held, held', mapped, mapped', end, ok)
    else supply' == supply && frames' == frames && held' == held && mapped' == mapped
  }

  lemma FitsNone(bs: seq<Block>, n: int)
    ensures FirstFit(bs, n) == |bs| <==> forall b | b in bs :: !Fits(b, n)
  {
  }

  /** A fresh block that does not fit the window takes no frame. */
  lemma WindowUsedUp(bs: seq<Block>, size: u32, n: u32, supply: seq<int>, frames: seq<int>, held: set<int>, mapped: int)
    requires AlignUp(size, 8) == Some(n)
    ensures EndOf(bs) + HEADER + n > HEAP_END ==>
              AllocGrew(bs, size, supply, supply, frames, frames, held, held, mapped, mapped, false)
  {
  }

  /** Growth to the page boundary behind the fresh block is the growth of the allocation. */
  lemma FreshGrowth(bs: seq<Block>, size: u32, n: u32, supply: seq<int>, supply': seq<int>, frames: seq<int>,
                    frames': seq<int>, held: set<int>, held': set<int>, mapped: int, mapped': int, ok: bool)
    requires size > 0 && AlignUp(size, 8) == Some(n) && FirstFit(bs, n) == |bs| && mapped % PAGE == 0
    requires var end := EndOf(bs) + HEADER + n;
             && end <= HEAP_END
             && Growth(supply, supply', frames, frames', held, held', mapped, mapped', (end + (PAGE - 1)) / PAGE * PAGE, ok)
    ensures AllocGrew(bs, size, supply, supply', frames, frames', held, held', mapped, mapped', ok)
  {
    hide Growth, AlignUp, EndOf;
    FitsNone(bs, n);
    GrowthAligned(supply, supply', frames, frames', held, held', mapped, mapped', EndOf(bs) + HEADER + n, ok);
  }

  // ---- The walks over any memory ----

  /** A header both walks refuse: it does not fit, has the wrong magic, a size that is 0 or no multiple
      of 8, or a payload that reaches beyond `current`. */
  ghost predicate BadHeader(m: seq<u32>, c: int, current: int)
    requires |m| == WORDS && HEAP_START <= c && current <= HEAP_END
  {
    c + 16 > current ||
    var w := (c - 0x40_0000) / 4;
    m[w] != 0x3941_4C48 || m[w + 1] == 0 || m[w + 1] % 8 != 0 || c + 16 + m[w + 1] > current
  }

  /** There is a sound header of this state in front of p, with at least n bytes behind it. */
  ghost predicate SoundHeader(m: seq<u32>, p: int, current: int, state: u32, n: int) {
    && |m| == WORDS && HEAP_START + 16 <= p && current <= HEAP_END
    && !BadHeader(m, p - 16, current)
    && var w := (p - 16 - 0x40_0000) / 4; m[w + 2] == state && m[w + 1] >= n
  }

  /** The state word in front of p, and no other word, was set to freed. */
  ghost predicate FreedStored(m: seq<u32>, m': seq<u32>, p: int) {
    |m| == WORDS && HEAP_START + 16 <= p <= HEAP_END && m' == m[(p - 16 - 0x40_0000) / 4 + 2 := 2]
  }

  /** What is at c keeps the walk from accepting a free of `target`: a bad header, a block of that
      payload that is not allocated, or a block `target` lies in without being its payload start. */
  ghost predicate Refuses(m: seq<u32>, c: int, current: int, target: int)
    requires |m| == WORDS && HEAP_START <= c && current <= HEAP_END
  {
    BadHeader(m, c, current) ||
    var w := (c - 0x40_0000) / 4;
    if target == c + 16 then m[w + 2] != 1 else c <= target < c + 16 + m[w + 1]
  }

  /** Somewhere in the used heap the walk is refused. */
  ghost predicate Refused(m: seq<u32>, current: int, target: int)
    requires |m| == WORDS && current <= HEAP_END
  {
    exists c :: HEAP_START <= c < current && c % 8 == 0 && Refuses(m, c, current, target)
  }

  /** What the checks on the header at c find out about it. */
  lemma HeaderAtCursor(m: seq<u32>, c: int, current: int, target: int)
    requires |m| == WORDS && HEAP_START <= c < current <= HEAP_END && c % 8 == 0
    ensures var h := HeaderUnder(m, c, current);
            && (h.None? <==> BadHeader(m, c, current))
            && (h.None? ==> Refused(m, current, target))
            && (h.Some? ==>
                  && SoundHeader(m, c + 16, current, h.value.1, h.value.0)
                  && (target == c + 16 && h.value.1 != 1 ==> Refused(m, current, target))
                  && (target != c + 16 && c <= target < c + 16 + h.value.0 ==> Refused(m, current, target)))
  {
    assert Refuses(m, c, current, target) ==> Refused(m, current, target);
  }

  lemma SoundForLess(m: seq<u32>, p: int, current: int, state: u32, n: int, less: int)
    requires SoundHeader(m, p, current, state, n) && less <= n
    ensures SoundHeader(m, p, current, state, less)
  {
  }

  lemma WithinWider(m: seq<u32>, m': seq<u32>, lo: int, hi: int, lo': int, hi': int)
    requires OnlyWithin(m, m', lo, hi) && lo' <= lo && hi <= hi'
    ensures OnlyWithin(m, m', lo', hi')
  {
  }

  lemma WithinReflexive(m: seq<u32>, lo: int, hi: int)
    ensures OnlyWithin(m, m, lo, hi)
  {
  }

  // ---- The walks over described memory ----

  /** The cursor stands at block k, or at the end, and no block before it can hold n bytes. */
  ghost predicate NoFitBefore(bs: seq<Block>, k: nat, cursor: int, n: int) {
    k <= |bs| && cursor == StartAt(bs, k) && forall i | 0 <= i < k :: !Fits(bs[i], n)
  }

  /** The cursor stands at block k, or at the end, and no block before it has its payload at `target`. */
  ghost predicate NotFoundBefore(bs: seq<Block>, k: nat, cursor: int, target: int) {
    k <= |bs| && cursor == StartAt(bs, k) && forall i | 0 <= i < k :: bs[i].Payload() != target
  }

  /** A cursor short of the end stands at a block, whose header it finds. */
  lemma CursorAtBlock(m: seq<u32>, bs: seq<Block>, k: nat, cursor: int)
    requires Tiled(m, bs) && k <= |bs| && cursor == StartAt(bs, k) && cursor < EndOf(bs)
    ensures k < |bs| && cursor == bs[k].start && HEAP_START <= cursor && EndOf(bs) <= HEAP_END
    ensures HeaderUnder(m, cursor, EndOf(bs)) ==
            Some((bs[k].size, if bs[k].free then STATE_FREED else STATE_ALLOCATED))
    ensures StartAt(bs, k + 1) == bs[k].End()
  {
    assert HeaderIs(m, bs[k]) && Linked(bs, k);
    Ordered(bs, k, |bs|);
  }

  lemma CursorAtEnd(bs: seq<Block>, k: nat)
    requires WellFormed(bs) && k <= |bs| && StartAt(bs, k) >= EndOf(bs)
    ensures k == |bs|
  {
    if k < |bs| {
      assert Linked(bs, k);
      Ordered(bs, k, |bs|);
    }
  }

  lemma TiledStart(m: seq<u32>, bs: seq<Block>)
    requires Tiled(m, bs)
    ensures bs == [] || bs[0].start == HEAP_START
  {
  }

  lemma NoFitAtStart(bs: seq<Block>, n: int)
    requires bs == [] || bs[0].start == HEAP_START
    ensures NoFitBefore(bs, 0, HEAP_START, n)
  {
  }

  lemma FitAtCursor(m: seq<u32>, bs: seq<Block>, k: nat, cursor: int, n: int)
    requires Tiled(m, bs) && NoFitBefore(bs, k, cursor, n) && cursor < EndOf(bs)
    ensures k < |bs| && cursor == bs[k].start && HEAP_START <= cursor && EndOf(bs) <= HEAP_END
    ensures HeaderUnder(m, cursor, EndOf(bs)) ==
            Some((bs[k].size, if bs[k].free then STATE_FREED else STATE_ALLOCATED))
    ensures if Fits(bs[k], n) then FirstFit(bs, n) == k else NoFitBefore(bs, k + 1, bs[k].End(), n)
  {
    hide Tiled, HeaderUnder;
    CursorAtBlock(m, bs, k, cursor);
    if Fits(bs[k], n) {
      FirstFitIs(bs, n, k);
    }
  }

  lemma NoFitAtEnd(bs: seq<Block>, k: nat, cursor: int, n: int)
    requires WellFormed(bs) && NoFitBefore(bs, k, cursor, n) && cursor >= EndOf(bs)
    ensures FirstFit(bs, n) == |bs|
  {
    CursorAtEnd(bs, k);
    FirstFitIs(bs, n, k);
  }

  lemma NotFoundAtStart(bs: seq<Block>, target: int)
    requires bs == [] || bs[0].start == HEAP_START
    ensures NotFoundBefore(bs, 0, HEAP_START, target)
  {
  }

  lemma TargetAtCursor(m: seq<u32>, bs: seq<Block>, k: nat, cursor: int, target: int)
    requires Tiled(m, bs) && NotFoundBefore(bs, k, cursor, target) && cursor < EndOf(bs)
    ensures k < |bs| && cursor == bs[k].start && HEAP_START <= cursor && EndOf(bs) <= HEAP_END
    ensures HeaderUnder(m, cursor, EndOf(bs)) ==
            Some((bs[k].size, if bs[k].free then STATE_FREED else STATE_ALLOCATED))
    ensures if target == bs[k].Payload() then
              FreeStep(bs, target) == (if bs[k].free then (bs, false) else (bs[k := bs[k].(free := true)], true))
            else
              && NotFoundBefore(bs, k + 1, bs[k].End(), target)
              && (bs[k].Payload() < target < bs[k].End() ==> FreeStep(bs, target) == (bs, false))
  {
    hide Tiled, HeaderUnder;
    TiledBlocks(m, bs);
    CursorAtBlock(m, bs, k, cursor);
    if target == bs[k].Payload() {
      FindIs(bs, target, k);
    } else if bs[k].Payload() < target < bs[k].End() {
      InteriorNotFound(bs, k, target);
    }
  }

  lemma NotFoundAtEnd(bs: seq<Block>, k: nat, cursor: int, target: int)
    requires WellFormed(bs) && NotFoundBefore(bs, k, cursor, target) && cursor >= EndOf(bs)
    ensures FreeStep(bs, target) == (bs, false)
  {
    CursorAtEnd(bs, k);
    FindIs(bs, target, k);
  }

  lemma EightMore(a: int, b: int)
    requires a % 8 == 0 && b % 8 == 0
    ensures (a + b) % 8 == 0
  {
  }

  class KernelHeap {
    var isInitialized: bool
    var start: u32
    var current: u32
    var endExclusive: u32
    var mappedEndExclusive: u32
    /** The words of the heap window; only mapped ones are ever accessed. */
    const memory: array<u32>
    const pmm: FrameAllocator
    const vmm: PageTableManager
    ghost var blocks: seq<Block>
    ghost var frames: seq<int>

    /** Static storage before boot: nothing is initialised and the heap window is unmapped. */
    constructor (pmm: FrameAllocator, vmm: PageTableManager)
      requires pmm.Valid() && vmm.Valid()
      requires forall p | FIRST_PAGE <= p < FIRST_PAGE + HEAP_PAGES :: p !in vmm.mapping
      ensures Valid() && !isInitialized && blocks == [] && frames == []
      ensures this.pmm == pmm && this.vmm == vmm && fresh(memory)
    {
      this.pmm, this.vmm := pmm, vmm;
      isInitialized := false;
      start, current, endExclusive, mappedEndExclusive := 0, 0, 0, 0;
      memory := new u32[WORDS](_ => 0);
      blocks, frames := [], [];
    }

    /** The heap state between calls. */
    ghost predicate Valid()
      reads this, memory, pmm, pmm.pendingFrames
      reads vmm, vmm.directory, vmm.identityTable, vmm.reservedTables
    {
      && Backing()
      && Tiled(memory[..], blocks)
      && (if isInitialized then
            Bounds() && current == EndOf(blocks) && mappedEndExclusive == HEAP_START + |frames| * PAGE
          else
            start == current == endExclusive == mappedEndExclusive == 0 && blocks == [] && frames == [])
    }

    /** The pages behind the heap, apart from what is in them. */
    ghost predicate Backing()
      reads this, pmm, pmm.pendingFrames
      reads vmm, vmm.directory, vmm.identityTable, vmm.reservedTables
    {
      Apart() && pmm.Valid() && vmm.Valid() && BackedBy(vmm.mapping, pmm.held, frames)
    }

    ghost predicate Backed()
      reads this, pmm, pmm.pendingFrames
      reads vmm, vmm.directory, vmm.identityTable, vmm.reservedTables
    {
      Backing() && mappedEndExclusive == HEAP_START + |frames| * PAGE
    }

    /** The parts are separate objects. */
    ghost predicate Apart()
      reads pmm, vmm
    {
      && memory.Length == WORDS && vmm.Shaped()
      && pmm.pendingFrames.Length == L.MAX_PENDING
      && memory != vmm.directory && memory != vmm.identityTable
      && (forall k | 0 <= k < |vmm.reservedTables| :: memory != vmm.reservedTables[k])
    }

    /** Facts about the state fields alone; nothing is said about the words in memory. */
    ghost predicate Bounds()
      reads this
    {
      && memory.Length == WORDS
      && start == HEAP_START && endExclusive == HEAP_END
      && start <= current <= mappedEndExclusive <= endExclusive
      && current % 8 == 0 && mappedEndExclusive % PAGE == 0
    }

    /** Field f of the header at `cursor`: magic, payload size, state, reserved. */
    method ReadField(cursor: u32, f: nat) returns (v: u32)
      requires memory.Length == WORDS && f < 4
      requires cursor % 8 == 0 && HEAP_START <= cursor && cursor + HEADER <= current <= HEAP_END
      ensures v == memory[Ix(cursor) + f]
    {
      v := memory[Ix(cursor) + f];
    }

    method WriteField(cursor: u32, f: nat, v: u32)
      requires memory.Length == WORDS && f < 4
      requires cursor % 8 == 0 && HEAP_START <= cursor && cursor + HEADER <= mappedEndExclusive <= HEAP_END
      modifies memory
      ensures memory[..] == old(memory[..])[Ix(cursor) + f := v]
    {
      memory[Ix(cursor) + f] := v;
    }

    method BootstrapInit()
      requires Valid()
      modifies this
      ensures Valid() && isInitialized
      ensures blocks == old(blocks) && frames == old(frames)
      ensures old(isInitialized) ==> current == old(current) && mappedEndExclusive == old(mappedEndExclusive)
    {
      if isInitialized {
        return;
      }
      start, current := HEAP_START, HEAP_START;
      endExclusive, mappedEndExclusive := HEAP_END, HEAP_START;
      isInitialized := true;
    }

    /** The checks both walks make on the header under the cursor, in memory of any contents. */
    method ReadHeader(cursor: u32) returns (header: Option<(u32, u32)>)
      requires Bounds() && start <= cursor < current && cursor % 8 == 0
      ensures header == HeaderUnder(memory[..], cursor, current)
    {
      if cursor > current - HEADER {
        return None;
      }
      var magic := ReadField(cursor, 0);
      if magic != MAGIC {
        return None;
      }
      var size := ReadField(cursor, 1);
      if size == 0 || size % 8 != 0 {
        return None;
      }
      var payloadStart: u32 := cursor + HEADER;
      if size > current - payloadStart {
        return None;
      }
      var state := ReadField(cursor, 2);
      return Some((size, state));
    }

    /** The blocks the headers in memory describe. */
    ghost predicate Described()
      reads this, memory
    {
      Tiled(memory[..], blocks) && current == EndOf(blocks)
    }

    /** First-fit reuse by walking the headers. Nothing is assumed about memory: the walk ends within
        (current - start) / 24 steps, stays inside [start, current), and no sum wraps. When the
        headers are those of `blocks`, it finds the first fit and leaves the headers of the reused list. */
    method TryReuse(alignedSize: u32) returns (result: int, payload: u32, ghost steps: nat)
      requires Bounds() && alignedSize % 8 == 0 && alignedSize > 0
      modifies memory
      ensures -1 <= result <= 1
      ensures 24 * steps <= current - start
      ensures OnlyWithin(old(memory[..]), memory[..], start, current)
      ensures result != 1 ==> memory[..] == old(memory[..])
      ensures result == 1 ==> SoundHeader(old(memory[..]), payload, current, 2, alignedSize)
      ensures result == -1 ==> exists c :: start <= c < current && c % 8 == 0 && BadHeader(memory[..], c, current)
      ensures old(Described()) ==>
                var k := FirstFit(blocks, alignedSize);
                && result == (if k < |blocks| then 1 else 0)
                && (result == 1 ==>
                      && payload == blocks[k].Payload()
                      && Tiled(memory[..], Reuse(blocks, k, alignedSize))
                      && LivePayloadsKept(old(memory[..]), memory[..], blocks))
    {
      hide Tiled, WellFormed, LivePayloadsKept, Reuse, FirstFit, HeaderUnder, NoFitBefore, EndOf, BadHeader, SoundHeader, Refused, OnlyWithin;
      ghost var m, k := memory[..], 0;
      WithinReflexive(m, start, current);
      if Described() {
        TiledStart(m, blocks);
        NoFitAtStart(blocks, alignedSize);
      }
      result, payload, steps := 0, 0, 0;
      var cursor: u32 := start;
      while cursor < current
        invariant Bounds() && start <= cursor <= current && cursor % 8 == 0
        invariant memory[..] == m && 24 * steps <= cursor - start
        invariant old(Described()) ==> NoFitBefore(blocks, k, cursor, alignedSize)
        decreases current - cursor
      {
        if Described() {
          FitAtCursor(m, blocks, k, cursor, alignedSize);
        }
        HeaderAtCursor(m, cursor, current, 0);
        var header := ReadHeader(cursor);
        if header.None? {
          return -1, 0, steps;
        }
        var (size, state) := header.value;
        var payloadStart: u32 := cursor + HEADER;
        var payloadEnd: u32 := payloadStart + size;
        steps := steps + 1;
        if state == STATE_FREED && size >= alignedSize {
          SoundForLess(m, payloadStart, current, state, size, alignedSize);
          Take(cursor, size, alignedSize, k);
          WithinWider(m, memory[..], cursor, payloadEnd, start, current);
          return 1, payloadStart, steps;
        }
        if payloadEnd <= cursor {
          assert false;
          result := -1;
          return;
        }
        EightMore(cursor, HEADER + size);
        cursor := payloadEnd;
        k := k + 1;
      }
      if Described() {
        TiledBlocks(m, blocks);
        NoFitAtEnd(blocks, k, cursor, alignedSize);
      }
    }

    /** Handing out the freed block under the cursor, split if the rest is big enough. */
    method Take(cursor: u32, size: u32, alignedSize: u32, ghost k: nat)
      requires Bounds() && cursor % 8 == 0 && size % 8 == 0 && alignedSize % 8 == 0 && 0 < alignedSize <= size
      requires start <= cursor && cursor + HEADER + size <= current
      requires Described() ==>
                 k < |blocks| && Fits(blocks[k], alignedSize) && cursor == blocks[k].start && size == blocks[k].size
      modifies memory
      ensures OnlyWithin(old(memory[..]), memory[..], cursor, cursor + HEADER + size)
      ensures old(Described()) ==>
                && Tiled(memory[..], Reuse(blocks, k, alignedSize))
                && LivePayloadsKept(old(memory[..]), memory[..], blocks)
    {
      ghost var m := memory[..];
      var remainder: u32 := size - alignedSize;
      if remainder >= MIN_SPLIT {
        WriteSplit(cursor, alignedSize, remainder - HEADER);
      } else {
        WriteState(cursor, size, false);
      }
      if old(Described()) {
        assert HeaderIs(m, blocks[k]);
        ReuseTiled(m, memory[..], blocks, k, alignedSize);
      }
    }

    method WriteSplit(cursor: u32, alignedSize: u32, rest: u32)
      requires Bounds() && cursor % 8 == 0 && alignedSize % 8 == 0 && rest >= 8
      requires start <= cursor && cursor + HEADER + alignedSize + HEADER + rest <= current
      modifies memory
      ensures OnlyWithin(old(memory[..]), memory[..], cursor, cursor + HEADER + alignedSize + HEADER + rest)
      ensures HeaderIs(memory[..], Block(cursor + HEADER + alignedSize, rest, true))
      ensures old(memory[Ix(cursor)]) == MAGIC && old(memory[Ix(cursor) + 3]) == 0 ==>
                HeaderIs(memory[..], Block(cursor, alignedSize, false))
    {
      ghost var m := memory[..];
      hide HeaderIs, OnlyWithin;
      var split: u32 := cursor + HEADER + alignedSize;
      WriteField(cursor, 1, alignedSize);
      WriteField(cursor, 2, STATE_ALLOCATED);
      WriteField(split, 0, MAGIC);
      WriteField(split, 1, rest);
      WriteField(split, 2, STATE_FREED);
      WriteField(split, 3, 0);
      SplitStores(m, memory[..], cursor, alignedSize, rest);
    }

    method WriteState(cursor: u32, size: u32, free: bool)
      requires Bounds() && cursor % 8 == 0 && size > 0
      requires start <= cursor && cursor + HEADER + size <= current
      modifies memory
      ensures memory[..] == old(memory[..])[Ix(cursor) + 2 := if free then STATE_FREED else STATE_ALLOCATED]
      ensures OnlyWithin(old(memory[..]), memory[..], cursor, cursor + HEADER)
      ensures forall f :: HeaderIs(old(memory[..]), Block(cursor, size, f)) ==> HeaderIs(memory[..], Block(cursor, size, free))
    {
      ghost var m := memory[..];
      WriteField(cursor, 2, if free then STATE_FREED else STATE_ALLOCATED);
      StateStore(m, memory[..], Block(cursor, size, false), free);
      StateStore(m, memory[..], Block(cursor, size, true), free);
    }

    /** One page of growth: a frame is taken, and mapped behind the last heap page unless its address
        does not fit 32 bits. */
    method GrowOnePage() returns (ok: bool)
      requires Backed() && mappedEndExclusive < HEAP_END
      modifies this`mappedEndExclusive, this`frames, pmm, pmm.pendingFrames, vmm`mapping, vmm.directory, vmm.reservedTables
      ensures Backed()
      ensures ok <==> old(pmm.Supply()) != [] && old(pmm.Supply())[0] < FRAMES_32BIT
      ensures old(pmm.Supply()) == [] ==> pmm.Supply() == [] && pmm.held == old(pmm.held)
      ensures old(pmm.Supply()) != [] ==>
                pmm.Supply() == old(pmm.Supply())[1..] && pmm.held == old(pmm.held) + {old(pmm.Supply())[0]}
      ensures frames == if ok then old(frames) + [old(pmm.Supply())[0]] else old(frames)
      ensures vmm.mapping ==
              if ok then old(vmm.mapping)[FIRST_PAGE + |old(frames)| := old(pmm.Supply())[0] * PAGE]
              else old(vmm.mapping)
    {
      hide FrameAllocator.Valid, FrameAllocator.View, FrameAllocator.Supply, PageTableManager.Valid, PageTableManager.View;
      var frame := TakeFrame();
      if frame.None? {
        return false;
      }
      if frame.value > LIMIT32 - 1 {
        return false;
      }
      MapNext(frame.value, old(pmm.Supply())[0]);
      return true;
    }

    method TakeFrame() returns (r: Option<u64>)
      requires Backed()
      modifies pmm, pmm.pendingFrames
      ensures Backed() && vmm.mapping == old(vmm.mapping)
      ensures r.Some? <==> old(pmm.Supply()) != []
      ensures r.None? ==> pmm.Supply() == [] && pmm.held == old(pmm.held)
      ensures r.Some? ==>
                var f := old(pmm.Supply())[0];
                && r.value == f * PAGE && f !in frames
                && pmm.Supply() == old(pmm.Supply())[1..] && pmm.held == old(pmm.held) + {f}
    {
      r := pmm.AllocFrame();
    }

    method MapNext(addr: u32, ghost f: int)
      requires Backed() && mappedEndExclusive < HEAP_END
      requires f in pmm.held && f !in frames && addr == f * PAGE
      modifies this`mappedEndExclusive, this`frames, vmm`mapping, vmm.directory, vmm.reservedTables
      ensures Backed() && frames == old(frames) + [f]
      ensures vmm.mapping == old(vmm.mapping)[FIRST_PAGE + |old(frames)| := f * PAGE]
    {
      hide FrameAllocator.Valid, FrameAllocator.View, FrameAllocator.Supply, PageTableManager.Valid, PageTableManager.View;
      hide BackedBy, P.Abstract;
      GrowStep(vmm.mapping, pmm.held, frames, f);
      var frameAddr := P.FrameAddr(addr);
      var mapped := vmm.MapPage(mappedEndExclusive, frameAddr);
      assert mapped;
      mappedEndExclusive := mappedEndExclusive + PAGE;
      frames := frames + [f];
    }

    lemma BackedBounds()
      requires Backed()
      ensures HEAP_START <= mappedEndExclusive <= HEAP_END && mappedEndExclusive % PAGE == 0
    {
    }

    /** Growth page by page up to a page boundary. It maps the longest run of addressable frames at
        the head of the supply, succeeds exactly when that is enough, and loses one more frame
        exactly when it stops at an unaddressable one. */
    method EnsureMappedUntil(required: u32) returns (ok: bool)
      requires Backed() && required <= HEAP_END && required % PAGE == 0
      modifies this`mappedEndExclusive, this`frames, pmm, pmm.pendingFrames, vmm`mapping, vmm.directory, vmm.reservedTables
      ensures Backed()
      ensures var n := PagesBetween(old(mappedEndExclusive), required);
              var j := Mappable(old(pmm.Supply()), n);
              && (ok <==> j == n)
              && (ok ==> required <= mappedEndExclusive)
              && old(mappedEndExclusive) <= mappedEndExclusive
              && Took(old(pmm.Supply()), n, old(frames), frames, pmm.Supply(), old(pmm.held), pmm.held)
      ensures Growth(old(pmm.Supply()), pmm.Supply(), old(frames), frames, old(pmm.held), pmm.held,
                     old(mappedEndExclusive), mappedEndExclusive, required, ok)
      ensures SameOutsideHeap(old(vmm.mapping), vmm.mapping)
    {
      hide FrameAllocator.Valid, FrameAllocator.View, FrameAllocator.Supply, PageTableManager.Valid, PageTableManager.View;
      hide SameOutsideHeap, BackedBy, MappedFirst, Took, Growth, PagesBetween;
      ghost var supply, n := pmm.Supply(), PagesBetween(mappedEndExclusive, required);
      ghost var frames0, held0, mapped0 := frames, pmm.held, mappedEndExclusive;
      BackedBounds();
      PagesBetweenIs(mapped0, required);
      SameReflexive(vmm.mapping);
      MappedNone(supply, frames, pmm.held);
      ghost var i := 0;
      while mappedEndExclusive < required
        invariant Backed() && i <= n
        invariant mappedEndExclusive == old(mappedEndExclusive) + i * PAGE
        invariant MappedFirst(supply, i, frames0, frames, pmm.Supply(), held0, pmm.held)
        invariant SameOutsideHeap(old(vmm.mapping), vmm.mapping)
        decreases HEAP_END - mappedEndExclusive
      {
        if mappedEndExclusive >= HEAP_END {
          assert false;
          return false;
        }
        assert i < n;
        ghost var before, p, left := vmm.mapping, FIRST_PAGE + |frames|, pmm.Supply();
        assert mappedEndExclusive == p * PAGE;
        MappedNext(supply, n, i, frames0, frames, left, held0, pmm.held, mapped0, required);
        var grown := GrowOnePage();
        if !grown {
          return false;
        }
        SameButHeapPage(old(vmm.mapping), before, p, left[0] * PAGE);
        i := i + 1;
      }
      assert i == n;
      MappedAll(supply, n, frames0, frames, pmm.Supply(), held0, pmm.held, mapped0, required);
      return true;
    }

    /** An allocation: first-fit reuse, else a fresh block behind `current` once its pages are mapped.
        The blocks and the result are those of the block machine, where growth succeeds exactly when
        every page wanted gets an addressable frame; no live payload changes; the frames taken are
        those growth takes. */
    method Alloc(size: u32) returns (r: Option<u32>)
      requires Valid()
      modifies this`current, this`blocks, this`mappedEndExclusive, this`frames, memory
      modifies pmm, pmm.pendingFrames, vmm`mapping, vmm.directory, vmm.reservedTables
      ensures Valid()
      ensures !isInitialized ==>
                r == None && blocks == old(blocks) && memory[..] == old(memory[..]) && frames == old(frames)
                && pmm.Supply() == old(pmm.Supply()) && pmm.held == old(pmm.held) && vmm.mapping == old(vmm.mapping)
      ensures isInitialized ==>
                var supply, n := old(pmm.Supply()), PagesWanted(old(blocks), old(mappedEndExclusive), size);
                && (blocks, r) == AllocStep(old(blocks), size, Mappable(supply, n) == n)
                && Took(supply, n, old(frames), frames, pmm.Supply(), old(pmm.held), pmm.held)
      ensures isInitialized ==>
                AllocGrew(old(blocks), size, old(pmm.Supply()), pmm.Supply(), old(frames), frames,
                          old(pmm.held), pmm.held, old(mappedEndExclusive), mappedEndExclusive, r.Some?)
      ensures LivePayloadsKept(old(memory[..]), memory[..], old(blocks))
      ensures SameOutsideHeap(old(vmm.mapping), vmm.mapping)
    {
      hide FrameAllocator.Valid, FrameAllocator.View, FrameAllocator.Supply, PageTableManager.Valid, PageTableManager.View;
      hide BackedBy, Took, AlignUp, AllocStep, PagesWanted, PagesBetween, LivePayloadsKept, Reuse, Tiled, HeaderIs, Growth, Fits;
      TiledBlocks(memory[..], blocks);
      KeptReflexive(memory[..], blocks);
      TookNothing(pmm.Supply(), frames, pmm.held);
      if !isInitialized {
        return None;
      }
      if size == 0 {
        WantsNothing(blocks, mappedEndExclusive, size);
        return None;
      }
      HeapAlignments();
      var aligned := AlignUp(size, 8);
      if aligned.None? {
        WantsNothing(blocks, mappedEndExclusive, size);
        return None;
      }
      var alignedSize := aligned.value;
      FitsNone(blocks, alignedSize);
      ghost var m := memory[..];
      var result, payload, _ := TryReuse(alignedSize);
      if result < 0 {
        assert false;
        return None;
      }
      if result > 0 {
        WantsNothing(blocks, mappedEndExclusive, size);
        ReuseChained(blocks, FirstFit(blocks, alignedSize), alignedSize);
        blocks := Reuse(blocks, FirstFit(blocks, alignedSize), alignedSize);
        return Some(payload);
      }
      r := Bump(size, alignedSize);
    }

    /** The part of an allocation after no freed block fitted. */
    method Bump(ghost size: u32, alignedSize: u32) returns (r: Option<u32>)
      requires Valid() && isInitialized && size > 0 && AlignUp(size, 8) == Some(alignedSize)
      requires alignedSize % 8 == 0 && alignedSize > 0 && FirstFit(blocks, alignedSize) == |blocks|
      modifies this`current, this`blocks, this`mappedEndExclusive, this`frames, memory
      modifies pmm, pmm.pendingFrames, vmm`mapping, vmm.directory, vmm.reservedTables
      ensures Valid()
      ensures var supply, n := old(pmm.Supply()), PagesWanted(old(blocks), old(mappedEndExclusive), size);
              && (blocks, r) == AllocStep(old(blocks), size, Mappable(supply, n) == n)
              && Took(supply, n, old(frames), frames, pmm.Supply(), old(pmm.held), pmm.held)
      ensures AllocGrew(old(blocks), size, old(pmm.Supply()), pmm.Supply(), old(frames), frames,
                        old(pmm.held), pmm.held, old(mappedEndExclusive), mappedEndExclusive, r.Some?)
      ensures LivePayloadsKept(old(memory[..]), memory[..], old(blocks))
      ensures SameOutsideHeap(old(vmm.mapping), vmm.mapping)
    {
      hide FrameAllocator.Valid, FrameAllocator.View, FrameAllocator.Supply, PageTableManager.Valid, PageTableManager.View;
      hide BackedBy, Took, AlignUp, AllocStep, PagesWanted, PagesBetween, LivePayloadsKept, Tiled, HeaderIs, Growth, AllocGrew;
      TiledBlocks(memory[..], blocks);
      TookNothing(pmm.Supply(), frames, pmm.held);
      WantsFreshBlock(blocks, mappedEndExclusive, size, alignedSize, true);
      WantsFreshBlock(blocks, mappedEndExclusive, size, alignedSize, false);
      KeptReflexive(memory[..], blocks);
      ghost var bs := blocks;
      WindowUsedUp(bs, size, alignedSize, pmm.Supply(), frames, pmm.held, mappedEndExclusive);
      var headerStart := current;
      if headerStart > endExclusive - HEADER {
        return None;
      }
      var payloadStart: u32 := headerStart + HEADER;
      if alignedSize > endExclusive - payloadStart {
        return None;
      }
      var end: u32 := payloadStart + alignedSize;
      HeapAlignments();
      var required := AlignUp(end, PAGE);
      if required.None? {
        assert false;
        return None;
      }
      assert required.value == (end + (PAGE - 1)) / PAGE * PAGE;
      ghost var supply, frames0, held0, mapped0 := pmm.Supply(), frames, pmm.held, mappedEndExclusive;
      var mapped := GrowAndPlace(required.value, alignedSize);
      FreshGrowth(bs, size, alignedSize, supply, pmm.Supply(), frames0, frames, held0, pmm.held,
                  mapped0, mappedEndExclusive, mapped);
      return if mapped then Some(payloadStart) else None;
    }

    /** Mapping up to a page boundary and, if that succeeds, a fresh block behind the used heap. */
    method GrowAndPlace(required: u32, size: u32) returns (ok: bool)
      requires Valid() && isInitialized && size % 8 == 0 && size > 0
      requires current + HEADER + size <= required <= HEAP_END && required % PAGE == 0
      modifies this`current, this`blocks, this`mappedEndExclusive, this`frames, memory
      modifies pmm, pmm.pendingFrames, vmm`mapping, vmm.directory, vmm.reservedTables
      ensures Valid()
      ensures var supply, n := old(pmm.Supply()), PagesBetween(old(mappedEndExclusive), required);
              && (ok <==> Mappable(supply, n) == n)
              && blocks == (if ok then Append(old(blocks), size) else old(blocks))
              && Took(supply, n, old(frames), frames, pmm.Supply(), old(pmm.held), pmm.held)
      ensures Growth(old(pmm.Supply()), pmm.Supply(), old(frames), frames, old(pmm.held), pmm.held,
                     old(mappedEndExclusive), mappedEndExclusive, required, ok)
      ensures LivePayloadsKept(old(memory[..]), memory[..], old(blocks))
      ensures SameOutsideHeap(old(vmm.mapping), vmm.mapping)
    {
      hide FrameAllocator.Valid, FrameAllocator.View, FrameAllocator.Supply, PageTableManager.Valid, PageTableManager.View;
      hide BackedBy, Took, PagesBetween, LivePayloadsKept, Tiled, HeaderIs, SameOutsideHeap, Growth;
      TiledBlocks(memory[..], blocks);
      KeptReflexive(memory[..], blocks);
      ok := EnsureMappedUntil(required);
      BackedBounds();
      if ok {
        PlaceBlock(size);
      }
    }

    /** A fresh block on mapped pages behind the used heap. */
    method PlaceBlock(size: u32)
      requires Bounds() && Described() && size % 8 == 0 && size > 0
      requires current + HEADER + size <= mappedEndExclusive
      modifies this`current, this`blocks, memory
      ensures Bounds() && Described() && blocks == Append(old(blocks), size)
      ensures LivePayloadsKept(old(memory[..]), memory[..], old(blocks))
    {
      hide HeaderIs, OnlyWithin, LivePayloadsKept, Tiled, WellFormed;
      ghost var m := memory[..];
      TiledBlocks(m, blocks);
      WriteHeader(current, size);
      AppendTiled(m, memory[..], blocks, size);
      AppendWellFormed(blocks, size);
      EightMore(current, HEADER + size);
      current := current + HEADER + size;
      blocks := Append(blocks, size);
    }

    method WriteHeader(cursor: u32, size: u32)
      requires memory.Length == WORDS && cursor % 8 == 0
      requires HEAP_START <= cursor && cursor + HEADER <= mappedEndExclusive <= HEAP_END
      modifies memory
      ensures OnlyWithin(old(memory[..]), memory[..], cursor, cursor + HEADER)
      ensures HeaderIs(memory[..], Block(cursor, size, false))
    {
      hide HeaderIs, OnlyWithin;
      ghost var m := memory[..];
      WriteField(cursor, 0, MAGIC);
      WriteField(cursor, 1, size);
      WriteField(cursor, 2, STATE_ALLOCATED);
      WriteField(cursor, 3, 0);
      HeaderStores(m, memory[..], cursor, size);
    }

    /** The validating walk of a free. Nothing is assumed about memory: it ends within
        (current - start) / 24 steps and writes at most one word inside [start, current). When the
        headers are those of `blocks`, it accepts exactly the payload starts of allocated blocks. */
    method FreeWalk(target: u32) returns (ok: bool, ghost steps: nat)
      requires Bounds() && start <= target < current
      modifies memory
      ensures 24 * steps <= current - start
      ensures OnlyWithin(old(memory[..]), memory[..], start, current)
      ensures !ok ==> memory[..] == old(memory[..])
      ensures ok ==> SoundHeader(old(memory[..]), target, current, 1, 0) && FreedStored(old(memory[..]), memory[..], target)
      ensures !ok ==> Refused(memory[..], current, target)
      ensures old(Described()) ==>
                && ok == FreeStep(blocks, target).1
                && Tiled(memory[..], FreeStep(blocks, target).0)
                && LivePayloadsKept(old(memory[..]), memory[..], blocks)
    {
      hide Tiled, WellFormed, LivePayloadsKept, FreeStep, HeaderUnder, NotFoundBefore, EndOf, BadHeader, SoundHeader, Refused, OnlyWithin, FreedStored;
      ghost var m, k := memory[..], 0;
      WithinReflexive(m, start, current);
      KeptReflexive(m, blocks);
      if Described() {
        TiledStart(m, blocks);
        NotFoundAtStart(blocks, target);
      }
      ok, steps := false, 0;
      var cursor: u32 := start;
      while cursor < current
        invariant Bounds() && start <= cursor <= current && cursor % 8 == 0
        invariant memory[..] == m && 24 * steps <= cursor - start
        invariant old(Described()) ==> NotFoundBefore(blocks, k, cursor, target)
        invariant cursor <= target || Refused(m, current, target)
        decreases current - cursor
      {
        if Described() {
          TargetAtCursor(m, blocks, k, cursor, target);
        }
        HeaderAtCursor(m, cursor, current, target);
        var header := ReadHeader(cursor);
        if header.None? {
          return false, steps;
        }
        var (size, state) := header.value;
        var payloadStart: u32 := cursor + HEADER;
        var payloadEnd: u32 := payloadStart + size;
        steps := steps + 1;
        if target == payloadStart {
          if state != STATE_ALLOCATED {
              return false, steps;
          }
          SoundForLess(m, payloadStart, current, state, size, 0);
          Release(cursor, size, k, target);
          return true, steps;
        }
        if target > payloadStart && target < payloadEnd {
          return false, steps;
        }
        if payloadEnd <= cursor {
          assert false;
          return false, steps;
        }
        EightMore(cursor, HEADER + size);
        cursor := payloadEnd;
        k := k + 1;
      }
      if Described() {
        TiledBlocks(m, blocks);
        NotFoundAtEnd(blocks, k, cursor, target);
      }
    }

    method Release(cursor: u32, size: u32, ghost k: nat, ghost target: u32)
      requires Bounds() && cursor % 8 == 0 && size > 0 && target == cursor + HEADER
      requires start <= cursor && cursor + HEADER + size <= current
      requires Described() ==>
                 k < |blocks| && !blocks[k].free && cursor == blocks[k].start && size == blocks[k].size
      modifies memory
      ensures FreedStored(old(memory[..]), memory[..], target)
      ensures OnlyWithin(old(memory[..]), memory[..], start, current)
      ensures old(Described()) ==>
                && Tiled(memory[..], blocks[k := blocks[k].(free := true)])
                && LivePayloadsKept(old(memory[..]), memory[..], blocks)
    {
      ghost var m := memory[..];
      WriteState(cursor, size, true);
      WithinWider(m, memory[..], cursor, cursor + HEADER, start, current);
      if old(Described()) {
        assert HeaderIs(m, blocks[k]);
        FreeTiled(m, memory[..], blocks, k);
      }
    }

    /** True iff `ptr` is the payload start of an allocated block, which is then freed; every other
        pointer, null, stale or interior, is refused and nothing changes. */
    method Free(ptr: u32) returns (ok: bool)
      requires Valid()
      modifies this`blocks, memory
      ensures Valid()
      ensures (blocks, ok) == FreeStep(old(blocks), ptr)
      ensures ok <==> Live(old(blocks), ptr)
      ensures !ok ==> memory[..] == old(memory[..])
      ensures LivePayloadsKept(old(memory[..]), memory[..], old(blocks))
    {
      hide FrameAllocator.Valid, PageTableManager.Valid, BackedBy, FrameAllocator.View, OnlyWithin;
      hide Tiled, LivePayloadsKept;
      TiledBlocks(memory[..], blocks);
      KeptReflexive(memory[..], blocks);
      FreeWellFormed(blocks, ptr);
      if !isInitialized || ptr == 0 {
        OutsideNotLive(blocks, ptr);
        return false;
      }
      if ptr < start || ptr >= current {
        OutsideNotLive(blocks, ptr);
        return false;
      }
      var accepted, _ := FreeWalk(ptr);
      blocks := FreeStep(blocks, ptr).0;
      return accepted;
    }
  }

  lemma KeptReflexive(m: seq<u32>, bs: seq<Block>)
    ensures LivePayloadsKept(m, m, bs)
  {
  }

  lemma OutsideNotLive(bs: seq<Block>, p: int)
    requires WellFormed(bs) && (p < HEAP_START || EndOf(bs) <= p)
    ensures Find(bs, p) == |bs|
  {
    var k := Find(bs, p);
    if k < |bs| {
      assert Linked(bs, k);
      Ordered(bs, k, |bs|);
    }
  }

  /** Only pages of the heap window are mapped differently. */
  ghost predicate SameOutsideHeap(m: map<int, int>, m': map<int, int>) {
    forall p | !(FIRST_PAGE <= p < FIRST_PAGE + HEAP_PAGES) ::
      (p in m <==> p in m') && (p in m ==> m[p] == m'[p])
  }

  lemma SameReflexive(m: map<int, int>)
    ensures SameOutsideHeap(m, m)
  {
  }

  lemma SameButHeapPage(m: map<int, int>, m': map<int, int>, p: int, frame: int)
    requires SameOutsideHeap(m, m') && FIRST_PAGE <= p < FIRST_PAGE + HEAP_PAGES
    ensures SameOutsideHeap(m, m'[p := frame])
  {
  }

  /** The first i frames of the supply are mapped. */
  ghost predicate MappedFirst(supply: seq<int>, i: nat, frames: seq<int>, frames': seq<int>, supply': seq<int>,
                              held: set<int>, held': set<int>)
  {
    && i <= |supply| && frames' == frames + supply[..i] && supply' == supply[i..]
    && held' == held + (set f | f in supply[..i])
    && forall k | 0 <= k < i :: supply[k] < FRAMES_32BIT
  }

  lemma MappedNone(supply: seq<int>, frames: seq<int>, held: set<int>)
    ensures MappedFirst(supply, 0, frames, frames, supply, held, held)
  {
    assert supply[0..] == supply && frames + supply[..0] == frames;
  }

  /** The next frame is mapped as well, or is taken and lost, or there is none. */
  lemma MappedNext(supply: seq<int>, n: nat, i: nat, frames: seq<int>, frames': seq<int>, supply': seq<int>,
                   held: set<int>, held': set<int>, mapped: int, end: int)
    requires MappedFirst(supply, i, frames, frames', supply', held, held') && i < n && mapped + i * PAGE < end
    ensures supply' != [] && supply'[0] < FRAMES_32BIT ==>
              MappedFirst(supply, i + 1, frames, frames' + [supply'[0]], supply'[1..], held, held' + {supply'[0]})
    ensures supply' != [] && supply'[0] >= FRAMES_32BIT ==>
              && Mappable(supply, n) == i && Took(supply, n, frames, frames', supply'[1..], held, held' + {supply'[0]})
              && Growth(supply, supply'[1..], frames, frames', held, held' + {supply'[0]}, mapped, mapped + i * PAGE, end, false)
    ensures supply' == [] ==>
              && Mappable(supply, n) == i && Took(supply, n, frames, frames', [], held, held')
              && Growth(supply, [], frames, frames', held, held', mapped, mapped + i * PAGE, end, false)
  {
    hide Growth, Took, MappedFirst;
    if supply' == [] || supply'[0] >= FRAMES_32BIT {
      TookStopped(supply, n, i, frames, frames', supply', held, held');
      GrewStopped(supply, i, frames, frames', supply', held, held', mapped, end);
    } else {
      MappedMore(supply, i, frames, frames', supply', held, held');
    }
  }

  lemma MappedMore(supply: seq<int>, i: nat, frames: seq<int>, frames': seq<int>, supply': seq<int>,
                   held: set<int>, held': set<int>)
    requires MappedFirst(supply, i, frames, frames', supply', held, held')
    requires supply' != [] && supply'[0] < FRAMES_32BIT
    ensures MappedFirst(supply, i + 1, frames, frames' + [supply'[0]], supply'[1..], held, held' + {supply'[0]})
  {
    var before, f := supply[..i], supply[i];
    assert supply[..i + 1] == before + [f] && supply'[1..] == supply[i + 1..];
    assert forall g :: g in before + [f] <==> g in before || g == f;
    assert frames + supply[..i + 1] == frames' + [f];
  }

  lemma TookStopped(supply: seq<int>, n: nat, i: nat, frames: seq<int>, frames': seq<int>, supply': seq<int>,
                    held: set<int>, held': set<int>)
    requires MappedFirst(supply, i, frames, frames', supply', held, held') && i < n
    requires supply' == [] || supply'[0] >= FRAMES_32BIT
    ensures Mappable(supply, n) == i
    ensures supply' != [] ==> Took(supply, n, frames, frames', supply'[1..], held, held' + {supply'[0]})
    ensures supply' == [] ==> Took(supply, n, frames, frames', [], held, held')
  {
    MappableIs(supply, n, i);
    if supply' != [] {
      var before, f := supply[..i], supply[i];
      assert supply[..i + 1] == before + [f] && supply'[1..] == supply[i + 1..];
      assert forall g :: g in before + [f] <==> g in before || g == f;
    }
  }

  lemma PagesBetweenIs(mapped: int, required: int)
    requires mapped % PAGE == 0 && required % PAGE == 0
    ensures PagesBetween(mapped, required) * PAGE == Max(0, required - mapped)
  {
  }

  lemma GrewStopped(supply: seq<int>, i: nat, frames: seq<int>, frames': seq<int>, left: seq<int>,
                    held: set<int>, held': set<int>, mapped: int, end: int)
    requires MappedFirst(supply, i, frames, frames', left, held, held') && mapped + i * PAGE < end
    ensures left == [] ==>
              Growth(supply, [], frames, frames', held, held', mapped, mapped + i * PAGE, end, false)
    ensures left != [] && left[0] >= FRAMES_32BIT ==>
              Growth(supply, left[1..], frames, frames', held, held' + {left[0]}, mapped, mapped + i * PAGE, end, false)
  {
    hide Growth;
    var mapped' := mapped + i * PAGE;
    assert (mapped' - mapped) / 0x1000 == i;
    if left == [] {
      assert supply[..i] == supply;
      GrewIsGrowth(supply, [], frames, frames', held, held', mapped, mapped', end, false);
    } else if left[0] >= FRAMES_32BIT {
      assert left[1..] == supply[i + 1..];
      GrewIsGrowth(supply, left[1..], frames, frames', held, held' + {left[0]}, mapped, mapped', end, false);
    }
  }

  lemma MappedAll(supply: seq<int>, n: nat, frames: seq<int>, frames': seq<int>, supply': seq<int>,
                  held: set<int>, held': set<int>, mapped: int, end: int)
    requires MappedFirst(supply, n, frames, frames', supply', held, held')
    requires if end <= mapped then n == 0 else end <= mapped + n * PAGE < end + PAGE
    ensures Mappable(supply, n) == n && Took(supply, n, frames, frames', supply', held, held')
    ensures Growth(supply, supply', frames, frames', held, held', mapped, mapped + n * PAGE, end, true)
  {
    hide Growth;
    MappableIs(supply, n, n);
    var mapped' := mapped + n * PAGE;
    assert (mapped' - mapped) / 0x1000 == n;
    GrewIsGrowth(supply, supply', frames, frames', held, held', mapped, mapped', end, true);
  }
}
