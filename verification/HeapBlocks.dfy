/** The kernel heap as its clients see it: a list of blocks that tile the used part of the heap
    window. The header walk in raw memory refines these operations (module KernelHeaps). */
module HeapBlocks {
  import opened Words

  const HEAP_START := 0x0040_0000
  const HEAP_END := 0x0080_0000
  const HEADER := 16
  const MIN_SPLIT := 24

  /** One header and the payload behind it; `start` is the header address. */
  datatype Block = Block(start: int, size: int, free: bool) {
    function Payload(): int { start + HEADER }
    function End(): int { start + HEADER + size }
  }

  function EndOf(bs: seq<Block>): int {
    if bs == [] then HEAP_START else bs[|bs| - 1].End()
  }

  /** Where block k starts, or the end of the used heap for k == |bs|. */
  function StartAt(bs: seq<Block>, k: nat): int
    requires k <= |bs|
  {
    if k < |bs| then bs[k].start else EndOf(bs)
  }

  /** Block k is not empty and ends where the next one starts. */
  ghost predicate Linked(bs: seq<Block>, k: nat)
    requires k < |bs|
  {
    HEAP_START <= bs[k].start && bs[k].size > 0 && bs[k].End() == StartAt(bs, k + 1)
  }

  /** The blocks follow one another without gaps from the window start. */
  ghost predicate Chained(bs: seq<Block>) {
    && StartAt(bs, 0) == HEAP_START
    && (forall k {:trigger Linked(bs, k)} | 0 <= k < |bs| :: Linked(bs, k))
    && HEAP_START <= EndOf(bs) <= HEAP_END
  }

  ghost predicate Granular(bs: seq<Block>) {
    forall i | 0 <= i < |bs| :: bs[i].size % 8 == 0
  }

  ghost predicate WellFormed(bs: seq<Block>) {
    Chained(bs) && Granular(bs)
  }

  predicate Fits(b: Block, n: int) {
    b.free && b.size >= n
  }

  /** The lowest-addressed freed block that can hold n bytes, |bs| if there is none. */
  function FirstFit(bs: seq<Block>, n: int): (k: nat)
    ensures k <= |bs|
    ensures forall i | 0 <= i < k :: !Fits(bs[i], n)
    ensures k < |bs| ==> Fits(bs[k], n)
  {
    if bs == [] || Fits(bs[0], n) then 0 else 1 + FirstFit(bs[1..], n)
  }

  lemma FirstFitIs(bs: seq<Block>, n: int, k: nat)
    requires k <= |bs|
    requires forall i | 0 <= i < k :: !Fits(bs[i], n)
    requires k < |bs| ==> Fits(bs[k], n)
    ensures FirstFit(bs, n) == k
  {
  }

  /** Block k is handed out again, its tail cut off as a freed block when a header and
      eight bytes fit into it. */
  function Reuse(bs: seq<Block>, k: nat, n: int): seq<Block>
    requires k < |bs|
  {
    var b := bs[k];
    if b.size - n >= MIN_SPLIT then
      bs[..k] + [Block(b.start, n, false), Block(b.Payload() + n, b.size - n - HEADER, true)] + bs[k + 1..]
    else
      bs[k := b.(free := false)]
  }

  function Append(bs: seq<Block>, n: int): seq<Block> {
    bs + [Block(EndOf(bs), n, false)]
  }

  /** What an allocation of `size` bytes does; `canGrow` tells whether the pages a fresh block
      needs could be mapped. */
  function AllocStep(bs: seq<Block>, size: u32, canGrow: bool): (seq<Block>, Option<int>) {
    if size == 0 then (bs, None)
    else match AlignUp(size, 8)
      case None => (bs, None)
      case Some(n) =>
        var k := FirstFit(bs, n);
        if k < |bs| then (Reuse(bs, k, n), Some(bs[k].Payload()))
        else if EndOf(bs) + HEADER + n <= HEAP_END && canGrow then
          (Append(bs, n), Some(EndOf(bs) + HEADER))
        else (bs, None)
  }

  /** The index of the block whose payload starts at p, |bs| if there is none. */
  function Find(bs: seq<Block>, p: int): (k: nat)
    ensures k <= |bs|
    ensures forall i | 0 <= i < k :: bs[i].Payload() != p
    ensures k < |bs| ==> bs[k].Payload() == p
  {
    if bs == [] || bs[0].Payload() == p then 0 else 1 + Find(bs[1..], p)
  }

  lemma FindIs(bs: seq<Block>, p: int, k: nat)
    requires k <= |bs|
    requires forall i | 0 <= i < k :: bs[i].Payload() != p
    requires k < |bs| ==> bs[k].Payload() == p
    ensures Find(bs, p) == k
  {
  }

  /** p is the payload start of an allocated block. */
  ghost predicate Live(bs: seq<Block>, p: int) {
    exists i | 0 <= i < |bs| :: bs[i].Payload() == p && !bs[i].free
  }

  function FreeStep(bs: seq<Block>, p: int): (seq<Block>, bool) {
    var k := Find(bs, p);
    if k < |bs| && !bs[k].free then (bs[k := bs[k].(free := true)], true) else (bs, false)
  }

  // ---- Shape ----

  lemma {:induction false} Ordered(bs: seq<Block>, i: nat, j: nat)
    requires Chained(bs) && i < j <= |bs|
    ensures bs[i].End() <= StartAt(bs, j)
    decreases j
  {
    assert Linked(bs, j - 1);
    if i + 1 < j {
      Ordered(bs, i, j - 1);
    }
  }

  lemma {:induction false} StartsAligned(bs: seq<Block>, k: nat)
    requires WellFormed(bs) && k <= |bs|
    ensures StartAt(bs, k) % 8 == 0
  {
    if k > 0 {
      StartsAligned(bs, k - 1);
      assert Linked(bs, k - 1) && bs[k - 1].size % 8 == 0;
    }
  }

  /** Every payload is 8-aligned and inside the used heap, and shares no byte with any other
      payload or with any header. */
  lemma PayloadsDisjoint(bs: seq<Block>, i: nat, j: nat)
    requires WellFormed(bs) && i < |bs| && j < |bs|
    ensures bs[i].Payload() % 8 == 0 && HEAP_START + HEADER <= bs[i].Payload() < bs[i].End() <= EndOf(bs)
    ensures i != j ==> bs[i].End() <= bs[j].start || bs[j].End() <= bs[i].start
  {
    StartsAligned(bs, i);
    assert Linked(bs, i);
    Ordered(bs, i, |bs|);
    if i < j {
      Ordered(bs, i, j);
    } else if j < i {
      Ordered(bs, j, i);
    }
  }

  lemma StartsIncrease(bs: seq<Block>, i: nat, j: nat)
    requires Chained(bs) && i <= j < |bs|
    ensures bs[i].start <= bs[j].start
  {
    if i < j {
      assert Linked(bs, i);
      Ordered(bs, i, j);
    }
  }

  lemma StartsDistinct(bs: seq<Block>, i: nat, j: nat)
    requires Chained(bs) && i < |bs| && j < |bs| && bs[i].start == bs[j].start
    ensures i == j
  {
    assert Linked(bs, i) && Linked(bs, j);
    if i < j {
      Ordered(bs, i, j);
    } else if j < i {
      Ordered(bs, j, i);
    }
  }

  /** An address inside a payload is no payload start. */
  lemma InteriorNotFound(bs: seq<Block>, k: nat, p: int)
    requires Chained(bs) && k < |bs| && bs[k].Payload() < p < bs[k].End()
    ensures Find(bs, p) == |bs|
  {
    var i := Find(bs, p);
    if i < |bs| {
      assert Linked(bs, i) && Linked(bs, k);
      if i < k {
        Ordered(bs, i, k);
      } else if k < i {
        Ordered(bs, k, i);
      }
    }
  }

  lemma LiveIsFind(bs: seq<Block>, p: int)
    requires Chained(bs)
    ensures Live(bs, p) <==> Find(bs, p) < |bs| && !bs[Find(bs, p)].free
  {
    if Live(bs, p) {
      var i :| 0 <= i < |bs| && bs[i].Payload() == p && !bs[i].free;
      var k := Find(bs, p);
      assert k <= i;
      StartsDistinct(bs, i, k);
    }
  }

  // ---- Invariants of one step ----

  lemma SplitAt(bs: seq<Block>, k: nat, n: int, i: nat)
    requires k < |bs| && bs[k].size - n >= MIN_SPLIT && i <= |bs|
    ensures |Reuse(bs, k, n)| == |bs| + 1
    ensures Reuse(bs, k, n)[i] ==
            if i < k then bs[i]
            else if i == k then Block(bs[k].start, n, false)
            else if i == k + 1 then Block(bs[k].Payload() + n, bs[k].size - n - HEADER, true)
            else bs[i - 1]
  {
  }

  lemma ReuseChained(bs: seq<Block>, k: nat, n: int)
    requires Chained(bs) && k < |bs| && Fits(bs[k], n) && n > 0
    ensures Chained(Reuse(bs, k, n)) && EndOf(Reuse(bs, k, n)) == EndOf(bs)
  {
    var cs := Reuse(bs, k, n);
    assert Linked(bs, k);
    if bs[k].size - n >= MIN_SPLIT {
      SplitAt(bs, k, n, 0);
      SplitAt(bs, k, n, |bs|);
      assert Linked(bs, 0) && Linked(bs, |bs| - 1);
      forall i | 0 <= i < |cs| ensures Linked(cs, i) {
        SplitAt(bs, k, n, i);
        assert i < k ==> Linked(bs, i);
        assert i > k + 1 ==> Linked(bs, i - 1);
        if i + 1 < |cs| {
          SplitAt(bs, k, n, i + 1);
        }
      }
    } else {
      SameExtentsChained(bs, cs);
    }
  }

  lemma ReuseGranular(bs: seq<Block>, k: nat, n: int)
    requires Granular(bs) && k < |bs| && n % 8 == 0
    ensures Granular(Reuse(bs, k, n))
  {
    var cs := Reuse(bs, k, n);
    if bs[k].size - n >= MIN_SPLIT {
      assert bs[k].size % 8 == 0;
      forall i | 0 <= i < |cs| ensures cs[i].size % 8 == 0 {
        SplitAt(bs, k, n, i);
      }
    }
  }

  lemma AppendWellFormed(bs: seq<Block>, n: int)
    requires WellFormed(bs) && n > 0 && n % 8 == 0 && EndOf(bs) + HEADER + n <= HEAP_END
    ensures WellFormed(Append(bs, n)) && EndOf(Append(bs, n)) == EndOf(bs) + HEADER + n
  {
    var cs := Append(bs, n);
    assert Granular(cs);
    assert StartAt(cs, |bs|) == EndOf(bs);
    forall i | 0 <= i < |cs| ensures Linked(cs, i) {
      assert i < |bs| ==> Linked(bs, i);
    }
  }

  lemma AllocWellFormed(bs: seq<Block>, size: u32, canGrow: bool)
    requires WellFormed(bs)
    ensures WellFormed(AllocStep(bs, size, canGrow).0)
    ensures EndOf(bs) <= EndOf(AllocStep(bs, size, canGrow).0)
  {
    if size > 0 && AlignUp(size, 8).Some? {
      var n := AlignUp(size, 8).value;
      var k := FirstFit(bs, n);
      if k < |bs| {
        ReuseChained(bs, k, n);
        ReuseGranular(bs, k, n);
      } else if EndOf(bs) + HEADER + n <= HEAP_END {
        AppendWellFormed(bs, n);
      }
    }
  }

  lemma FreeWellFormed(bs: seq<Block>, p: int)
    requires WellFormed(bs)
    ensures WellFormed(FreeStep(bs, p).0) && EndOf(FreeStep(bs, p).0) == EndOf(bs)
    ensures FreeStep(bs, p).1 <==> Live(bs, p)
  {
    LiveIsFind(bs, p);
    var cs := FreeStep(bs, p).0;
    SameExtentsChained(bs, cs);
  }

  lemma SameExtentsChained(bs: seq<Block>, cs: seq<Block>)
    requires Chained(bs) && |bs| == |cs|
    requires forall i | 0 <= i < |bs| :: cs[i].start == bs[i].start && cs[i].size == bs[i].size
    ensures Chained(cs) && EndOf(cs) == EndOf(bs)
  {
    forall i | 0 <= i < |cs| ensures Linked(cs, i) {
      assert Linked(bs, i);
    }
  }
}
