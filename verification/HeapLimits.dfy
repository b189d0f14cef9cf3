/** When the heap says no, from the request down to the frames left in the machine. */
module HeapLimits {
  import opened Words
  import opened HeapBlocks
  import opened HeapRuns
  import opened HeapMemory
  import opened KernelHeaps

  /** An allocation fails exactly when the request is empty or within 8 of 2^32, or no freed block
      takes it and either the heap window is used up or no number of next frames, all below 4 GiB,
      maps the heap up to the end of the block. */
  lemma AllocationFailsExactly(bs: seq<Block>, mapped: int, supply: seq<int>, size: u32)
    requires WellFormed(bs) && mapped % PAGE == 0
    ensures var n := PagesWanted(bs, mapped, size);
            AllocStep(bs, size, Mappable(supply, n) == n).1.None? <==>
              || size == 0 || size > LIMIT32 - 8
              || ((forall b | b in bs :: !Fits(b, AlignUp(size, 8).value))
                  && (EndOf(bs) + 16 + AlignUp(size, 8).value > 0x80_0000
                      || !CanReach(supply, mapped, EndOf(bs) + 16 + AlignUp(size, 8).value)))
  {
    hide Chained, Reuse, Append, AllocStep, PagesWanted, CanReach;
    var n := PagesWanted(bs, mapped, size);
    HeapAlignments();
    RoundingFails(size);
    if NeedsFresh(bs, size) {
      PagesReach(bs, mapped, supply, size);
    }
    AllocOutcome(bs, size, Mappable(supply, n) == n);
  }

  /** The empty heap hands out 0x00400010 for any request that fits behind one header in 4 MiB. */
  lemma FirstAllocation(size: u32)
    ensures AllocStep([], size, true).1 == if 0 < size <= 0x3F_FFF0 then Some(0x40_0010) else None
  {
    HeapAlignments();
    RoundingFails(size);
  }

  lemma PagesReach(bs: seq<Block>, mapped: int, supply: seq<int>, size: u32)
    requires NeedsFresh(bs, size) && mapped % PAGE == 0
    ensures var n := PagesWanted(bs, mapped, size);
            Mappable(supply, n) == n <==> CanReach(supply, mapped, EndOf(bs) + 16 + AlignUp(size, 8).value)
  {
    hide AlignUp, EndOf;
    var n, end := PagesWanted(bs, mapped, size), EndOf(bs) + 16 + AlignUp(size, 8).value;
    FitsNone(bs, AlignUp(size, 8).value);
    AllMappable(supply, n);
    var e, m := (end + (PAGE - 1)) / PAGE, mapped / PAGE;
    assert mapped == m * PAGE && n == (if e > m then e - m else 0);
    if Mappable(supply, n) == n {
      assert Addressable(supply, n);
    }
    if k: nat :| Addressable(supply, k) && end <= mapped + k * 0x1000 {
      assert n <= k;
    }
  }

  lemma RoundingFails(size: u32)
    ensures AlignUp(size, 8).None? <==> size > LIMIT32 - 8
  {
    HeapAlignments();
  }
}
