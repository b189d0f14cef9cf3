/** Block headers in the words of the heap window, and which words a change may touch. */
module HeapMemory {
  import opened Words
  import opened HeapBlocks
  import P = PageTables

  const WORDS := 0x10_0000
  const MAGIC := 0x3941_4C48
  const STATE_ALLOCATED := 1
  const STATE_FREED := 2
  const FIRST_PAGE := 0x400
  const HEAP_PAGES := 0x400

  /** Index of the word at address a. */
  function Ix(a: int): int { (a - HEAP_START) / 4 }

  /** The four words at the block's start are its header: magic, payload size, state, reserved. */
  ghost predicate HeaderIs(m: seq<u32>, b: Block) {
    var w := Ix(b.start);
    && 0 <= w && w + 3 < |m|
    && m[w] == MAGIC && m[w + 1] == b.size
    && m[w + 2] == (if b.free then STATE_FREED else STATE_ALLOCATED)
    && m[w + 3] == 0
  }

  /** Size and state of the header at `cursor`, if it passes the checks both walks make. */
  function HeaderUnder(m: seq<u32>, cursor: int, current: int): (h: Option<(u32, u32)>)
    requires |m| == WORDS && HEAP_START <= cursor && current <= HEAP_END
    ensures h.Some? ==> h.value.0 > 0 && h.value.0 % 8 == 0 && cursor + HEADER + h.value.0 <= current
  {
    if cursor + HEADER > current then None
    else
      var w := Ix(cursor);
      if m[w] == MAGIC && m[w + 1] != 0 && m[w + 1] % 8 == 0 && cursor + HEADER + m[w + 1] <= current
      then Some((m[w + 1], m[w + 2])) else None
  }

  /** The headers found in memory are those of the blocks, and the blocks tile the used heap. */
  ghost predicate Tiled(m: seq<u32>, bs: seq<Block>) {
    && WellFormed(bs) && |m| == WORDS
    && forall k {:trigger HeaderIs(m, bs[k])} {:trigger bs[k]} | 0 <= k < |bs| :: HeaderIs(m, bs[k])
  }

  lemma TiledBlocks(m: seq<u32>, bs: seq<Block>)
    requires Tiled(m, bs)
    ensures WellFormed(bs) && HEAP_START <= EndOf(bs) <= HEAP_END
  {
  }

  /** Only words with addresses in [lo, hi) differ. */
  ghost predicate OnlyWithin(m: seq<u32>, m': seq<u32>, lo: int, hi: int) {
    |m'| == |m| && forall w | 0 <= w < |m| && (w < Ix(lo) || Ix(hi) <= w) :: m'[w] == m[w]
  }

  ghost predicate SamePayload(m: seq<u32>, m': seq<u32>, b: Block) {
    |m'| == |m| && forall w | Ix(b.Payload()) <= w < Ix(b.End()) && 0 <= w < |m| :: m'[w] == m[w]
  }

  /** No word of a live payload differs. */
  ghost predicate LivePayloadsKept(m: seq<u32>, m': seq<u32>, bs: seq<Block>) {
    forall k {:trigger bs[k]} | 0 <= k < |bs| && !bs[k].free :: SamePayload(m, m', bs[k])
  }

  /** A change inside block k touches no header and no payload of another block. */
  lemma OtherBlockKept(m: seq<u32>, m': seq<u32>, bs: seq<Block>, k: nat, j: nat)
    requires Tiled(m, bs) && k < |bs| && j < |bs| && j != k
    requires OnlyWithin(m, m', bs[k].start, bs[k].End())
    ensures HeaderIs(m', bs[j]) && SamePayload(m, m', bs[j])
  {
    assert HeaderIs(m, bs[j]);
    assert Linked(bs, j) && Linked(bs, k);
    if j < k {
      Ordered(bs, j, k);
    } else {
      Ordered(bs, k, j);
    }
  }

  lemma LiveKept(m: seq<u32>, m': seq<u32>, bs: seq<Block>, k: nat)
    requires Tiled(m, bs) && k < |bs|
    requires OnlyWithin(m, m', bs[k].start, bs[k].End())
    requires bs[k].free || SamePayload(m, m', bs[k])
    ensures LivePayloadsKept(m, m', bs)
  {
    forall j | 0 <= j < |bs| && !bs[j].free ensures SamePayload(m, m', bs[j]) {
      if j != k {
        OtherBlockKept(m, m', bs, k, j);
      }
    }
  }

  /** Rewriting the header of a freed block, and writing a second header into its payload when it
      is split, gives the tiling of the reused list. */
  lemma ReuseTiled(m: seq<u32>, m': seq<u32>, bs: seq<Block>, k: nat, n: int)
    requires Tiled(m, bs) && k < |bs| && Fits(bs[k], n) && n > 0 && n % 8 == 0
    requires OnlyWithin(m, m', bs[k].start, bs[k].End())
    requires bs[k].size - n < MIN_SPLIT ==> HeaderIs(m', bs[k].(free := false))
    requires bs[k].size - n >= MIN_SPLIT ==>
               HeaderIs(m', Block(bs[k].start, n, false))
               && HeaderIs(m', Block(bs[k].Payload() + n, bs[k].size - n - HEADER, true))
    ensures Tiled(m', Reuse(bs, k, n)) && LivePayloadsKept(m, m', bs)
  {
    var cs := Reuse(bs, k, n);
    ReuseChained(bs, k, n);
    ReuseGranular(bs, k, n);
    LiveKept(m, m', bs, k);
    forall i | 0 <= i < |cs| ensures HeaderIs(m', cs[i]) {
      if bs[k].size - n >= MIN_SPLIT {
        SplitAt(bs, k, n, i);
        if i < k {
          OtherBlockKept(m, m', bs, k, i);
        } else if i > k + 1 {
          OtherBlockKept(m, m', bs, k, i - 1);
        }
      } else if i != k {
        OtherBlockKept(m, m', bs, k, i);
      }
    }
  }

  lemma AppendTiled(m: seq<u32>, m': seq<u32>, bs: seq<Block>, n: int)
    requires Tiled(m, bs) && n > 0 && n % 8 == 0 && EndOf(bs) + HEADER + n <= HEAP_END
    requires OnlyWithin(m, m', EndOf(bs), EndOf(bs) + HEADER)
    requires HeaderIs(m', Block(EndOf(bs), n, false))
    ensures Tiled(m', Append(bs, n)) && LivePayloadsKept(m, m', bs)
  {
    AppendWellFormed(bs, n);
    forall i | 0 <= i < |bs| ensures HeaderIs(m', bs[i]) && SamePayload(m, m', bs[i]) {
      assert HeaderIs(m, bs[i]) && Linked(bs, i);
      Ordered(bs, i, |bs|);
    }
  }

  lemma FreeTiled(m: seq<u32>, m': seq<u32>, bs: seq<Block>, k: nat)
    requires Tiled(m, bs) && k < |bs| && !bs[k].free
    requires OnlyWithin(m, m', bs[k].start, bs[k].Payload())
    requires HeaderIs(m', bs[k].(free := true))
    ensures Tiled(m', bs[k := bs[k].(free := true)]) && LivePayloadsKept(m, m', bs)
  {
    var cs := bs[k := bs[k].(free := true)];
    assert Linked(bs, k);
    assert OnlyWithin(m, m', bs[k].start, bs[k].End());
    SameExtentsChained(bs, cs);
    LiveKept(m, m', bs, k);
    forall i | 0 <= i < |cs| ensures HeaderIs(m', cs[i]) {
      if i != k {
        OtherBlockKept(m, m', bs, k, i);
      }
    }
  }

  /** Whatever a client writes into its own payload, header look-alikes included, the tiling stays. */
  lemma ClientWriteTiled(m: seq<u32>, m': seq<u32>, bs: seq<Block>, k: nat)
    requires Tiled(m, bs) && k < |bs|
    requires OnlyWithin(m, m', bs[k].Payload(), bs[k].End())
    ensures Tiled(m', bs)
    ensures forall j | 0 <= j < |bs| && j != k :: SamePayload(m, m', bs[j])
  {
    assert HeaderIs(m, bs[k]) && Linked(bs, k);
    forall j | 0 <= j < |bs| ensures HeaderIs(m', bs[j]) && (j != k ==> SamePayload(m, m', bs[j])) {
      if j != k {
        OtherBlockKept(m, m', bs, k, j);
      }
    }
  }

  /** The six stores of a split leave two headers inside the old block. */
  lemma SplitStores(m: seq<u32>, m': seq<u32>, a: int, n: u32, rest: u32)
    requires |m| == WORDS && HEAP_START <= a && rest >= 8 && a + HEADER + n + HEADER + rest <= HEAP_END
    requires var w, v := Ix(a), Ix(a + HEADER + n);
             m' == m[w + 1 := n][w + 2 := STATE_ALLOCATED][v := MAGIC][v + 1 := rest]
                    [v + 2 := STATE_FREED][v + 3 := 0]
    ensures OnlyWithin(m, m', a, a + HEADER + n + HEADER + rest)
    ensures HeaderIs(m', Block(a + HEADER + n, rest, true))
    ensures m[Ix(a)] == MAGIC && m[Ix(a) + 3] == 0 ==> HeaderIs(m', Block(a, n, false))
  {
    var w, v := Ix(a), Ix(a + HEADER + n);
    assert v >= w + 4 && Ix(a + HEADER + n + HEADER + rest) >= v + 4;
  }

  /** Storing a state word changes a header in that respect only. */
  lemma StateStore(m: seq<u32>, m': seq<u32>, b: Block, free: bool)
    requires |m| == WORDS && HEAP_START <= b.start && b.size > 0 && b.End() <= HEAP_END
    requires m' == m[Ix(b.start) + 2 := if free then STATE_FREED else STATE_ALLOCATED]
    ensures OnlyWithin(m, m', b.start, b.Payload())
    ensures HeaderIs(m, b) ==> HeaderIs(m', b.(free := free))
  {
  }

  /** The four stores behind the used heap make a header there. */
  lemma HeaderStores(m: seq<u32>, m': seq<u32>, a: int, n: u32)
    requires |m| == WORDS && HEAP_START <= a && a + HEADER <= HEAP_END
    requires var w := Ix(a);
             m' == m[w := MAGIC][w + 1 := n][w + 2 := STATE_ALLOCATED][w + 3 := 0]
    ensures OnlyWithin(m, m', a, a + HEADER) && HeaderIs(m', Block(a, n, false))
  {
  }

  // ---- Pages behind the heap ----

  /** 32-bit addressable frames. */
  const FRAMES_32BIT := 0x10_0000

  /** How many of the next n frames can be mapped one after the other: growth stops at the end of
      the supply or at a frame whose address does not fit 32 bits. */
  function Mappable(supply: seq<int>, n: nat): (j: nat)
    ensures j <= n && j <= |supply|
    ensures forall i | 0 <= i < j :: supply[i] < FRAMES_32BIT
    ensures j < n && j < |supply| ==> supply[j] >= FRAMES_32BIT
  {
    if n == 0 || supply == [] || supply[0] >= FRAMES_32BIT then 0 else 1 + Mappable(supply[1..], n - 1)
  }

  /** How many frames growth takes from the allocator: the unaddressable one is taken and lost. */
  function Consumed(supply: seq<int>, n: nat): (c: nat)
    ensures Mappable(supply, n) <= c <= |supply|
  {
    var j := Mappable(supply, n);
    if j < n && j < |supply| then j + 1 else j
  }

  /** All n pages can be mapped exactly when the next n frames exist and are addressable. */
  lemma AllMappable(supply: seq<int>, n: nat)
    ensures Mappable(supply, n) == n <==> n <= |supply| && forall i | 0 <= i < n :: supply[i] < FRAMES_32BIT
  {
    var j := Mappable(supply, n);
    if j < n <= |supply| {
      assert supply[j] >= FRAMES_32BIT;
    }
  }

  /** Growth maps every frame it takes if and only if none of the next n frames is beyond 32-bit
      addresses; otherwise exactly one taken frame is lost, and the heap never gives it back. */
  lemma FrameLostIffUnaddressable(supply: seq<int>, n: nat)
    ensures Consumed(supply, n) == Mappable(supply, n) + (if Lossy(supply, n) then 1 else 0)
  {
    var j := Mappable(supply, n);
    if j < n && j < |supply| {
      assert supply[j] >= FRAMES_32BIT;
    }
  }

  ghost predicate Lossy(supply: seq<int>, n: nat) {
    exists i | 0 <= i < n && i < |supply| :: supply[i] >= FRAMES_32BIT
  }

  /** A machine whose next frame starts at 4 GiB: the page is not mapped and the frame is gone. */
  lemma LossyExample()
    ensures Mappable([FRAMES_32BIT], 1) == 0 && Consumed([FRAMES_32BIT], 1) == 1
  {
    MappableIs([FRAMES_32BIT], 1, 0);
  }

  /** Growth by up to n pages took what it takes from the supply: the mapped frames back the heap,
      all taken frames are held. */
  ghost predicate Took(supply: seq<int>, n: nat, frames: seq<int>, frames': seq<int>, supply': seq<int>,
                       held: set<int>, held': set<int>)
  {
    && frames' == frames + supply[..Mappable(supply, n)]
    && supply' == supply[Consumed(supply, n)..]
    && held' == held + (set f | f in supply[..Consumed(supply, n)])
  }

  // ---- Growth, said without counting pages in advance ----

  /** The first k frames of the supply have 32-bit addresses. */
  ghost predicate Addressable(supply: seq<int>, k: nat) {
    k <= |supply| && forall i | 0 <= i < k :: supply[i] < 0x10_0000
  }

  /** Mapping some number of next frames behind `mapped` reaches `end`. */
  ghost predicate CanReach(supply: seq<int>, mapped: int, end: int) {
    exists k: nat :: Addressable(supply, k) && end <= mapped + k * 0x1000
  }

  /** Growth of the mapped heap from `mapped` to `mapped'` by j pages, with the next j frames in order.
      If it succeeds, `end` is reached and no page too many is mapped; otherwise it stops short of `end`
      because no frame is left or the next one is unaddressable, and that one is taken as well. */
  ghost predicate Grew(supply: seq<int>, supply': seq<int>, frames: seq<int>, frames': seq<int>,
                       held: set<int>, held': set<int>, mapped: int, mapped': int, end: int, ok: bool)
  {
    var j := (mapped' - mapped) / 0x1000;
    && 0 <= j && mapped' == mapped + j * 0x1000 && Addressable(supply, j) && frames' == frames + supply[..j]
    && (if ok then
          && (if end <= mapped then j == 0 else end <= mapped' < end + 0x1000)
          && supply' == supply[j..] && held' == held + (set f | f in supply[..j])
        else if j < |supply| then
          && mapped' < end && supply[j] >= 0x10_0000
          && supply' == supply[j + 1..] && held' == held + (set f | f in supply[..j]) + {supply[j]}
        else mapped' < end && supply' == [] && held' == held + (set f | f in supply))
  }

  /** Such a growth, and it succeeds exactly when it can reach the end. */
  ghost predicate Growth(supply: seq<int>, supply': seq<int>, frames: seq<int>, frames': seq<int>,
                         held: set<int>, held': set<int>, mapped: int, mapped': int, end: int, ok: bool)
  {
    && Grew(supply, supply', frames, frames', held, held', mapped, mapped', end, ok)
    && (ok <==> CanReach(supply, mapped, end))
  }

  lemma GrewIsGrowth(supply: seq<int>, supply': seq<int>, frames: seq<int>, frames': seq<int>,
                        held: set<int>, held': set<int>, mapped: int, mapped': int, end: int, ok: bool)
    requires Grew(supply, supply', frames, frames', held, held', mapped, mapped', end, ok)
    ensures Growth(supply, supply', frames, frames', held, held', mapped, mapped', end, ok)
  {
    var j := (mapped' - mapped) / 0x1000;
    assert Addressable(supply, j);
    if !ok {
      forall k: nat | Addressable(supply, k) ensures mapped + k * 0x1000 < end {
        assert k <= j;
      }
    }
  }

  /** Reaching an address is reaching the page boundary at or behind it. */
  lemma GrowthAligned(supply: seq<int>, supply': seq<int>, frames: seq<int>, frames': seq<int>,
                    held: set<int>, held': set<int>, mapped: int, mapped': int, end: int, ok: bool)
    requires mapped % PAGE == 0
    requires Growth(supply, supply', frames, frames', held, held', mapped, mapped', (end + (PAGE - 1)) / PAGE * PAGE, ok)
    ensures Growth(supply, supply', frames, frames', held, held', mapped, mapped', end, ok)
  {
    var m, j, e := mapped / PAGE, (mapped' - mapped) / PAGE, (end + (PAGE - 1)) / PAGE;
    assert mapped == m * PAGE && mapped' == (m + j) * PAGE;
    assert end <= e * PAGE < end + PAGE;
    GrewIsGrowth(supply, supply', frames, frames', held, held', mapped, mapped', end, ok);
  }

  lemma TookNothing(supply: seq<int>, frames: seq<int>, held: set<int>)
    ensures Mappable(supply, 0) == 0 && Took(supply, 0, frames, frames, supply, held, held)
  {
    assert supply[0..] == supply && frames + supply[..0] == frames;
  }

  lemma MappableIs(supply: seq<int>, n: nat, j: nat)
    requires j <= n && j <= |supply|
    requires forall i | 0 <= i < j :: supply[i] < FRAMES_32BIT
    requires j == n || j == |supply| || supply[j] >= FRAMES_32BIT
    ensures Mappable(supply, n) == j
  {
  }

  /** Heap page i is mapped to frames[i]; these frames are held, addressable and all different; the
      rest of the heap window is unmapped. */
  ghost predicate BackedBy(mapping: map<int, int>, held: set<int>, frames: seq<int>) {
    && |frames| <= HEAP_PAGES
    && (forall p | FIRST_PAGE <= p < FIRST_PAGE + |frames| ::
          p in mapping && mapping[p] == frames[p - FIRST_PAGE] * PAGE)
    && (forall p | FIRST_PAGE + |frames| <= p < FIRST_PAGE + HEAP_PAGES :: p !in mapping)
    && (forall i | 0 <= i < |frames| :: frames[i] in held && 0 <= frames[i] < FRAMES_32BIT)
    && (forall i, j | 0 <= i < j < |frames| :: frames[i] != frames[j])
  }

  /** The backing depends on the ledger only through the frames behind the heap. */
  lemma BackingNeedsOnlyItsFrames(mapping: map<int, int>, held: set<int>, held': set<int>, frames: seq<int>)
    requires BackedBy(mapping, held, frames)
    ensures forall f | f in frames :: f in held
    ensures (forall f | f in frames :: f in held') ==> BackedBy(mapping, held', frames)
  {
  }

  /** The backing depends on the mapping only through the heap window. */
  lemma BackingInWindow(mapping: map<int, int>, mapping': map<int, int>, held: set<int>, frames: seq<int>)
    requires BackedBy(mapping, held, frames)
    requires forall p | FIRST_PAGE <= p < FIRST_PAGE + HEAP_PAGES ::
               (p in mapping <==> p in mapping') && (p in mapping ==> mapping[p] == mapping'[p])
    ensures BackedBy(mapping', held, frames)
  {
  }

  lemma BackOneMore(mapping: map<int, int>, held: set<int>, frames: seq<int>, f: int)
    requires BackedBy(mapping, held, frames) && |frames| < HEAP_PAGES
    requires f in held && f !in frames && 0 <= f < FRAMES_32BIT
    ensures BackedBy(mapping[FIRST_PAGE + |frames| := f * PAGE], held, frames + [f])
  {
  }

  /** Mapping a frame held for nothing else behind the last heap page succeeds and extends the backing. */
  lemma GrowStep(mapping: map<int, int>, held: set<int>, frames: seq<int>, f: int)
    requires BackedBy(mapping, held, frames) && |frames| < HEAP_PAGES
    requires f in held && f !in frames && 0 <= f < FRAMES_32BIT
    ensures P.Abstract(mapping, P.Map(HEAP_START + |frames| * PAGE, f * PAGE))
            == (mapping[FIRST_PAGE + |frames| := f * PAGE], true)
    ensures BackedBy(mapping[FIRST_PAGE + |frames| := f * PAGE], held, frames + [f])
  {
    var page := HEAP_START + |frames| * PAGE;
    assert page / PAGE == FIRST_PAGE + |frames| && page / PAGE !in mapping;
    BackOneMore(mapping, held, frames, f);
  }

  /** Physical address of a heap byte under the mapping. */
  ghost function Translate(mapping: map<int, int>, a: int): int
    requires a / PAGE in mapping
  {
    mapping[a / PAGE] + a % PAGE
  }

  /** Different heap addresses are different bytes of physical memory. */
  lemma TranslationInjective(mapping: map<int, int>, held: set<int>, frames: seq<int>, a: int, b: int)
    requires BackedBy(mapping, held, frames)
    requires HEAP_START <= a < HEAP_START + |frames| * PAGE && HEAP_START <= b < HEAP_START + |frames| * PAGE
    ensures Translate(mapping, a) == Translate(mapping, b) ==> a == b
    ensures Translate(mapping, a) / PAGE in held && 0 <= Translate(mapping, a) < LIMIT32
  {
    var i, j := a / PAGE - FIRST_PAGE, b / PAGE - FIRST_PAGE;
    assert mapping[a / PAGE] == frames[i] * PAGE && mapping[b / PAGE] == frames[j] * PAGE;
    assert frames[i] in held && frames[j] in held;
  }
}
