/** From the firmware's memory map to the frames the kernel can hand out. */
module Boot {
  import opened Words
  import opened MemoryRegions
  import opened FrameCursor
  import opened FrameRanges
  import L = FrameLedger
  import H = HeapMemory

  lemma {:induction false} TotalOfPrefix(ranges: seq<FrameRange>, n: nat)
    requires RangesOk(ranges) && n <= |ranges|
    ensures RangesOk(ranges[..n]) && FrameTotal(ranges[..n], 0) <= FrameTotal(ranges, 0)
    decreases |ranges| - n
  {
    if n == |ranges| {
      assert ranges[..n] == ranges;
    } else {
      TotalOfPrefix(ranges, n + 1);
      assert ranges[..n + 1] == ranges[..n] + [ranges[n]] && RangeOk(ranges[n]);
      TotalAppend(ranges[..n], ranges[n], 0);
    }
  }

  /** Whatever Stage 5C found, dropped ranges included, is a seed the allocator can start from. */
  lemma FoundSeedsAllocator(found: seq<FrameRange>)
    requires RangesOk(found) && |found| <= 2 * MAX_REGIONS
    ensures L.SeedOk(CappedRanges(found), FrameTotal(found, 0))
  {
    TotalOfPrefix(found, Min(|found|, MAX_RANGES));
    TotalBound(found, 0);
  }

  /** No frame the allocator can issue holds a byte of the kernel image. */
  lemma RangesOutsideKernel(rs: seq<Region>, kernel: (u64, u64))
    requires KernelOk(kernel)
    ensures forall f | Eligible(CappedRanges(AllRanges(rs, kernel)), f) :: OutsideKernel(f, kernel)
  {
    var found := AllRanges(rs, kernel);
    forall f | Eligible(CappedRanges(found), f) ensures OutsideKernel(f, kernel) {
      var k := FirstRange(CappedRanges(found), f);
      assert found[k].Has(f);
      RangesExact(rs, kernel, f);
    }
  }

  /** The firmware entries that are usable are sorted and do not overlap. */
  ghost predicate EntriesSorted(es: seq<Entry>) {
    forall i, j | 0 <= i < j < |es| && RegionOf(es[i]).policyUsable && RegionOf(es[j]).policyUsable ::
      es[i].base + es[i].length <= es[j].base
  }

  /** Frame f lies wholly inside this available, non-wrapping firmware entry, at or above 1 MiB and
      outside the page-rounded kernel image. */
  ghost predicate FrameIn(e: Entry, kernel: (u64, u64), f: int) {
    e.kind == AVAILABLE && e.base + e.length < LIMIT64
    && FrameInside(f, Max(e.base, POLICY_MIN), e.base + e.length) && OutsideKernel(f, kernel)
  }

  ghost predicate FrameFree(es: seq<Entry>, kernel: (u64, u64), f: int) {
    exists e :: e in es && FrameIn(e, kernel, f)
  }

  /** The entry has a free frame. */
  ghost predicate EntryHasFrame(e: Entry, kernel: (u64, u64)) {
    exists f :: FrameIn(e, kernel, f)
  }

  /** The entry has free frames below and above the kernel image. */
  ghost predicate EntrySplit(e: Entry, kernel: (u64, u64)) {
    exists f, g :: FrameIn(e, kernel, f) && FrameIn(e, kernel, g) && f * PAGE < kernel.0 && kernel.1 <= g * PAGE
  }

  lemma FrameInRegion(e: Entry, kernel: (u64, u64), f: int)
    ensures FrameIn(e, kernel, f) <==> FrameUsableIn(f, RegionOf(e), kernel)
  {
    RegionMeaning(e);
  }

  lemma EntryIsRegion(e: Entry, kernel: (u64, u64))
    ensures EntryHasFrame(e, kernel) <==> HasFrame(RegionOf(e), kernel)
    ensures EntrySplit(e, kernel) <==> Split(RegionOf(e), kernel)
  {
    hide FrameIn, FrameUsableIn, RegionOf;
    forall f ensures FrameIn(e, kernel, f) <==> FrameUsableIn(f, RegionOf(e), kernel) {
      FrameInRegion(e, kernel, f);
    }
  }

  lemma FrameFreeIsUsable(es: seq<Entry>, kernel: (u64, u64), f: int)
    ensures FrameFree(es, kernel, f) <==> UsableFrame(RegionsOf(es), kernel, f)
  {
    hide FrameIn, FrameUsableIn, RegionOf;
    var rs := RegionsOf(es);
    if FrameFree(es, kernel, f) {
      var e :| e in es && FrameIn(e, kernel, f);
      var k :| 0 <= k < |es| && es[k] == e;
      FrameInRegion(e, kernel, f);
      assert rs[k] in rs;
    }
    if UsableFrame(rs, kernel, f) {
      var r :| r in rs && FrameUsableIn(f, r, kernel);
      var k :| 0 <= k < |rs| && rs[k] == r;
      FrameInRegion(es[k], kernel, f);
      assert es[k] in es;
    }
  }

  lemma SortedEntriesSortedRegions(es: seq<Entry>)
    requires EntriesSorted(es)
    ensures RegionsSorted(RegionsOf(es))
  {
    var rs := RegionsOf(es);
    forall i, j | 0 <= i < j < |rs| && rs[i].policyUsable && rs[j].policyUsable ensures rs[i].end <= rs[j].base {
      RegionMeaning(es[i]);
      RegionMeaning(es[j]);
    }
  }

  /** The allocator boot seeds has exactly the free frames of the memory map to hand out, in increasing
      order, and in every reachable state held plus remaining frames is their number. */
  ghost predicate StartsWithFreeFrames(es: seq<Entry>, kernel: (u64, u64)) {
    var found := AllRanges(AccountAll(EmptyBooks(), es).regions, kernel);
    var ranges, total := CappedRanges(found), FrameTotal(found, 0);
    && L.SeedOk(ranges, total)
    && (forall f :: f in Upcoming(ranges, 0, 0) <==> FrameFree(es, kernel, f))
    && Increasing(Upcoming(ranges, 0, 0)) && total == |Upcoming(ranges, 0, 0)|
    && forall ops :: var s := L.Run(ranges, L.Seed(ranges, total), ops); |s.held| + s.remaining == total
  }

  /** With no range dropped, the frames are those of the memory map. */
  lemma CompleteRangesSupply(es: seq<Entry>, kernel: (u64, u64))
    requires KernelOk(kernel) && EntriesSorted(es) && |es| <= MAX_REGIONS
    requires |AllRanges(RegionsOf(es), kernel)| <= MAX_RANGES
    ensures StartsWithFreeFrames(es, kernel)
  {
    hide L.Run, AllRanges, FrameFree, UsableFrame;
    BooksAreExact(EmptyBooks(), es);
    var rs := RegionsOf(es);
    var ranges := AllRanges(rs, kernel);
    assert Capped(rs) == rs && CappedRanges(ranges) == ranges;
    AllRangesOk(rs, kernel);
    FoundSeedsAllocator(ranges);
    SortedEntriesSortedRegions(es);
    SortedRegionsGiveSortedRanges(rs, kernel);
    forall f ensures f in Upcoming(ranges, 0, 0) <==> FrameFree(es, kernel, f) {
      SortedRegionsCountFrames(rs, kernel, f);
      FrameFreeIsUsable(es, kernel, f);
    }
    SortedRegionsCountFrames(rs, kernel, 0);
    L.RemainingExactIffSortedAndComplete(ranges, FrameTotal(ranges, 0));
  }

  /** A dropped range loses frames: its first one is free and never handed out. */
  lemma DroppedRangeIsLost(es: seq<Entry>, kernel: (u64, u64))
    requires KernelOk(kernel) && EntriesSorted(es) && |es| <= MAX_REGIONS
    requires |AllRanges(RegionsOf(es), kernel)| > MAX_RANGES
    ensures !StartsWithFreeFrames(es, kernel)
  {
    hide AllRanges, FrameFree, UsableFrame;
    BooksAreExact(EmptyBooks(), es);
    var rs := RegionsOf(es);
    assert Capped(rs) == rs;
    var ranges := AllRanges(rs, kernel);
    AllRangesOk(rs, kernel);
    SortedEntriesSortedRegions(es);
    SortedRegionsGiveSortedRanges(rs, kernel);
    var f := ranges[MAX_RANGES].start;
    assert RangeOk(ranges[MAX_RANGES]) && ranges[MAX_RANGES].Has(f);
    EligibleIff(ranges, f);
    RangesExact(rs, kernel, f);
    FrameFreeIsUsable(es, kernel, f);
    UpcomingIncreasing(CappedRanges(ranges), 0, 0);
    assert forall k | 0 <= k < MAX_RANGES :: !CappedRanges(ranges)[k].Has(f);
  }

  /** The ranges of these entries do not fit: 128 entries with a free frame each, and one of them with
      free frames on both sides of the kernel image. */
  ghost predicate RangesOverflow(es: seq<Entry>, kernel: (u64, u64)) {
    && |es| == MAX_RANGES
    && (forall e | e in es :: EntryHasFrame(e, kernel))
    && exists e | e in es :: EntrySplit(e, kernel)
  }

  lemma DropsIffOverflow(es: seq<Entry>, kernel: (u64, u64))
    requires KernelOk(kernel) && EntriesSorted(es) && |es| <= MAX_REGIONS
    ensures |AllRanges(RegionsOf(es), kernel)| > MAX_RANGES <==> RangesOverflow(es, kernel)
  {
    hide EntryHasFrame, EntrySplit, HasFrame, Split, AllRanges, RegionOf;
    var rs := RegionsOf(es);
    SortedEntriesSortedRegions(es);
    SortedRegionsRangeCount(rs, kernel);
    AllWithFrames(rs, kernel);
    forall k | 0 <= k < |es|
      ensures EntryHasFrame(es[k], kernel) <==> HasFrame(rs[k], kernel)
      ensures EntrySplit(es[k], kernel) <==> Split(rs[k], kernel)
    {
      EntryIsRegion(es[k], kernel);
    }
  }

  /** Sorted disjoint entries share no frame. */
  lemma FrameInOne(es: seq<Entry>, kernel: (u64, u64), i: nat, j: nat, f: int)
    requires EntriesSorted(es) && i < j < |es| && FrameIn(es[j], kernel, f)
    ensures !FrameIn(es[i], kernel, f)
  {
    RegionMeaning(es[i]);
    RegionMeaning(es[j]);
  }

  /** The entries the region books have room for. */
  function StoredOf(es: seq<Entry>): seq<Entry> {
    es[..Min(|es|, MAX_REGIONS)]
  }

  lemma BooksOfStored(es: seq<Entry>)
    ensures AccountAll(EmptyBooks(), es).regions == RegionsOf(StoredOf(es))
    ensures AccountAll(EmptyBooks(), StoredOf(es)).regions == RegionsOf(StoredOf(es))
  {
    hide AccountAll, RegionOf;
    BooksAreExact(EmptyBooks(), es);
    BooksAreExact(EmptyBooks(), StoredOf(es));
    assert Capped(RegionsOf(es)) == RegionsOf(StoredOf(es)) == Capped(RegionsOf(StoredOf(es)));
  }

  /** Whatever is dropped, only free frames of stored entries are handed out. */
  lemma UpcomingIsFree(es: seq<Entry>, kernel: (u64, u64), f: int)
    requires KernelOk(kernel) && f in Upcoming(CappedRanges(AllRanges(RegionsOf(es), kernel)), 0, 0)
    ensures FrameFree(es, kernel, f)
  {
    hide FrameFree, UsableFrame, AllRanges, Upcoming;
    var found := AllRanges(RegionsOf(es), kernel);
    UpcomingIncreasing(CappedRanges(found), 0, 0);
    var k :| 0 <= k < |CappedRanges(found)| && CappedRanges(found)[k].Has(f);
    assert found[k].Has(f);
    EligibleIff(found, f);
    RangesExact(RegionsOf(es), kernel, f);
    FrameFreeIsUsable(es, kernel, f);
  }

  /** All free frames lie in stored entries. */
  ghost predicate StoredHaveAll(es: seq<Entry>, kernel: (u64, u64)) {
    forall f :: FrameFree(es, kernel, f) ==> FrameFree(StoredOf(es), kernel, f)
  }

  lemma StoredAreFree(es: seq<Entry>, kernel: (u64, u64), f: int)
    ensures FrameFree(StoredOf(es), kernel, f) ==> FrameFree(es, kernel, f)
  {
    hide FrameIn;
  }

  lemma StartsIffStoredStart(es: seq<Entry>, kernel: (u64, u64))
    requires KernelOk(kernel)
    ensures StartsWithFreeFrames(es, kernel) <==>
            StartsWithFreeFrames(StoredOf(es), kernel) && StoredHaveAll(es, kernel)
  {
    hide L.Run, L.SeedOk, L.Seed, AllRanges, FrameFree, RegionOf, Upcoming, FrameTotal, CappedRanges, StoredOf, AccountAll;
    BooksOfStored(es);
    var ranges := CappedRanges(AllRanges(RegionsOf(StoredOf(es)), kernel));
    forall f
      ensures FrameFree(StoredOf(es), kernel, f) ==> FrameFree(es, kernel, f)
      ensures f in Upcoming(ranges, 0, 0) ==> FrameFree(StoredOf(es), kernel, f)
    {
      StoredAreFree(es, kernel, f);
      if f in Upcoming(ranges, 0, 0) {
        UpcomingIsFree(StoredOf(es), kernel, f);
      }
    }
  }

  lemma StoredHaveAllIff(es: seq<Entry>, kernel: (u64, u64))
    requires EntriesSorted(es)
    ensures StoredHaveAll(es, kernel) <==> forall e | e in es[|StoredOf(es)|..] :: !EntryHasFrame(e, kernel)
  {
    hide FrameIn;
    var n := |StoredOf(es)|;
    var late := es[n..];
    assert es == StoredOf(es) + late;
    if e :| e in late && EntryHasFrame(e, kernel) {
      var j :| n <= j < |es| && es[j] == e;
      var f :| FrameIn(e, kernel, f);
      assert FrameFree(es, kernel, f);
      forall i | 0 <= i < n ensures !FrameIn(es[i], kernel, f) {
        FrameInOne(es, kernel, i, j, f);
      }
      assert !FrameFree(StoredOf(es), kernel, f);
    } else {
      forall f | FrameFree(es, kernel, f) ensures FrameFree(StoredOf(es), kernel, f) {
        var e :| e in es && FrameIn(e, kernel, f);
        assert EntryHasFrame(e, kernel) && (e in StoredOf(es) || e in late);
      }
    }
  }

  /** End to end, for any firmware entries, sorted and disjoint where usable: the allocator starts with
      exactly the free frames of the memory map unless an entry behind the first 128 has a free frame,
      or the first 128 have one each and one of them has free frames on both sides of the kernel image. */
  lemma BootSuppliesExactlyFreeFrames(es: seq<Entry>, kernel: (u64, u64))
    requires KernelOk(kernel) && EntriesSorted(es)
    ensures StartsWithFreeFrames(es, kernel) <==>
            && !RangesOverflow(StoredOf(es), kernel)
            && forall e | e in es[|StoredOf(es)|..] :: !EntryHasFrame(e, kernel)
    ensures RangesOverflow(StoredOf(es), kernel) <==>
            |AllRanges(AccountAll(EmptyBooks(), es).regions, kernel)| > MAX_RANGES
  {
    hide StartsWithFreeFrames, AllRanges, RangesOverflow, StoredHaveAll, EntryHasFrame, AccountAll, RegionOf;
    BooksOfStored(es);
    StartsIffStoredStart(es, kernel);
    StoredHaveAllIff(es, kernel);
    DropsIffOverflow(StoredOf(es), kernel);
    if |AllRanges(RegionsOf(StoredOf(es)), kernel)| <= MAX_RANGES {
      CompleteRangesSupply(StoredOf(es), kernel);
    } else {
      DroppedRangeIsLost(StoredOf(es), kernel);
    }
  }

  /** 128 usable entries around and above a kernel at 2 MiB: the first is split by the image, so a
      range is dropped and the last page is never handed out. */
  lemma DroppedRangeMemoryMap()
    ensures var kernel: (u64, u64) := (0x20_0000, 0x20_1000);
            && EntriesSorted(SplitMemoryMap()) && |SplitMemoryMap()| == MAX_REGIONS
            && |AllRanges(RegionsOf(SplitMemoryMap()), kernel)| > MAX_RANGES
            && !StartsWithFreeFrames(SplitMemoryMap(), kernel)
  {
    hide StartsWithFreeFrames, AllRanges, RegionOf;
    var es, kernel: (u64, u64) := SplitMemoryMap(), (0x20_0000, 0x20_1000);
    forall k | 0 <= k < |es| ensures EntryHasFrame(es[k], kernel) {
      assert FrameIn(es[k], kernel, if k == 0 then 0x100 else 0x300 + k);
    }
    assert FrameIn(es[0], kernel, 0x100) && FrameIn(es[0], kernel, 0x201);
    assert es[0] in es && EntrySplit(es[0], kernel);
    DropsIffOverflow(es, kernel);
    DroppedRangeIsLost(es, kernel);
  }

  function SplitMemoryMap(): seq<Entry> {
    seq(MAX_REGIONS, k requires 0 <= k < MAX_REGIONS =>
      if k == 0 then Entry(0x10_0000, 0x20_0000, AVAILABLE) else Entry(0x30_0000 + k * PAGE, PAGE, AVAILABLE))
  }

  /** Two usable pages the firmware reports highest first, and a kernel at 1 MiB: the ranges stored
      are not covered, so a frame never handed out is accepted back. */
  lemma OutOfOrderMemoryMap() returns (ops: seq<L.Op>, addr: int)
    ensures var ranges := AllRanges(RegionsOf([Entry(0x30_0000, PAGE, AVAILABLE), Entry(0x20_0000, PAGE, AVAILABLE)]),
                                    (0x10_0000, 0x10_1000));
            && ranges == [FrameRange(0x300, 1), FrameRange(0x200, 1)] && L.SeedOk(ranges, 2) && !Covered(ranges)
            && L.AcceptsFree(ranges, L.Run(ranges, L.Seed(ranges, 2), ops), addr)
            && addr / PAGE !in L.Run(ranges, L.Seed(ranges, 2), ops).held
  {
    hide L.Run;
    var es := [Entry(0x30_0000, PAGE, AVAILABLE), Entry(0x20_0000, PAGE, AVAILABLE)];
    var rs, kernel: (u64, u64) := RegionsOf(es), (0x10_0000, 0x10_1000);
    assert rs[..1][..0] == [] && rs[..1][0] == RegionOf(es[0]) && rs[1] == RegionOf(es[1]);
    assert RegionRanges(rs[0], kernel) == [FrameRange(0x300, 1)] && RegionRanges(rs[1], kernel) == [FrameRange(0x200, 1)];
    assert AllRanges(rs[..1], kernel) == [FrameRange(0x300, 1)];
    assert AllRanges(rs, kernel) == [FrameRange(0x300, 1), FrameRange(0x200, 1)];
    L.OutOfOrderExample();
    ops, addr := L.NeverIssuedAccepted(AllRanges(rs, kernel), 2);
  }

  /** Over the same ranges the remaining count is wrong: a run ends with it positive and an allocation
      failing. */
  lemma OutOfOrderMiscount() returns (ops: seq<L.Op>)
    ensures var ranges := [FrameRange(0x300, 1), FrameRange(0x200, 1)];
            var s := L.Run(ranges, L.Seed(ranges, 2), ops);
            L.SeedOk(ranges, 2) && s.remaining > 0 && L.AllocFrame(ranges, s).1.None?
  {
    hide L.Run, L.Seed;
    var ranges := [FrameRange(0x300, 1), FrameRange(0x200, 1)];
    L.OutOfOrderExample();
    L.SeedGood(ranges, 2);
    L.RemainingExactIffSortedAndComplete(ranges, 2);
    ops :| var s := L.Run(ranges, L.Seed(ranges, 2), ops);
           !(L.AllocFrame(ranges, s).1.Some? <==> s.remaining > 0);
    L.RunGood(ranges, 2, L.Seed(ranges, 2), ops);
    TotalExactIffSorted(ranges);
  }

  /** One usable page at 4 GiB: it is the whole supply, and the first heap page takes it and maps nothing. */
  lemma LossyMemoryMap()
    ensures var ranges := AllRanges(RegionsOf([Entry(LIMIT32, PAGE, AVAILABLE)]), (0x10_0000, 0x10_1000));
            && ranges == [FrameRange(H.FRAMES_32BIT, 1)] && L.SeedOk(ranges, 1)
            && L.Supply(ranges, L.Seed(ranges, 1)) == [H.FRAMES_32BIT]
            && H.Mappable(L.Supply(ranges, L.Seed(ranges, 1)), 1) == 0
            && H.Consumed(L.Supply(ranges, L.Seed(ranges, 1)), 1) == 1
  {
    var es := [Entry(LIMIT32, PAGE, AVAILABLE)];
    var rs, kernel: (u64, u64) := RegionsOf(es), (0x10_0000, 0x10_1000);
    var ranges := [FrameRange(H.FRAMES_32BIT, 1)];
    assert rs[..0] == [] && rs[0] == RegionOf(es[0]) && RegionRanges(rs[0], kernel) == ranges;
    assert AllRanges(rs, kernel) == ranges;
    assert FrameTotal(ranges, 0) == 1 + FrameTotal(ranges, 1);
    assert L.Seed(ranges, 1) == L.Pmm(0, H.FRAMES_32BIT, 1, [], {});
    IssueOne(ranges, 0, H.FRAMES_32BIT);
    assert Upcoming(ranges, 0, H.FRAMES_32BIT + 1) == Upcoming(ranges, 1, H.FRAMES_32BIT + 1) == [];
    L.SupplyIsUpcoming(ranges, L.Seed(ranges, 1));
    H.LossyExample();
  }
}
