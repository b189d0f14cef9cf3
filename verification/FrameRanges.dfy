/** Stage 5C: stored regions become ranges of whole 4 KiB frames at or above 1 MiB, with the kernel
    image cut out. */
module FrameRanges {
  import opened Words
  import opened MemoryRegions
  import opened FrameCursor

  const MAX_RANGES := 128

  /** Round down to a frame boundary. */
  function FloorFrame(value: u64): u64 {
    value / PAGE * PAGE
  }

  /** Round up to a frame boundary; None is the overflow flag. */
  function CeilFrame(value: u64): (r: Option<u64>)
    ensures r.None? <==> value + (PAGE - 1) >= LIMIT64
    ensures r.Some? ==> r.value == (value + (PAGE - 1)) / PAGE * PAGE
  {
    var (rounded, overflow) := CheckedAdd64(value, PAGE - 1);
    if overflow then None else Some(FloorFrame(rounded))
  }

  /** The whole frames between two addresses, as a range if there are any. */
  function SpanRange(start: u64, end: u64): seq<FrameRange> {
    var lo, hi := (start + (PAGE - 1)) / PAGE, end / PAGE;
    if lo < hi then [FrameRange(lo, hi - lo)] else []
  }

  /** The page-rounded kernel image, or None where the kernel panics over its bounds. */
  function KernelSpan(start: u64, end: u64): Option<(u64, u64)> {
    match CeilFrame(end)
    case None => None
    case Some(hi) =>
      var lo := FloorFrame(start);
      if hi <= lo then None else Some((lo, hi))
  }

  /** The ranges one region contributes: it is clamped to 1 MiB and split around the kernel. */
  function RegionRanges(r: Region, kernel: (u64, u64)): seq<FrameRange> {
    var start := if r.base < POLICY_MIN then POLICY_MIN else r.base;
    if !r.policyUsable || r.kind != AVAILABLE || r.end <= start then []
    else if r.end <= kernel.0 || start >= kernel.1 then SpanRange(start, r.end)
    else
      (if start < kernel.0 then SpanRange(start, kernel.0) else [])
      + (if r.end > kernel.1 then SpanRange(kernel.1, r.end) else [])
  }

  function AllRanges(rs: seq<Region>, kernel: (u64, u64)): seq<FrameRange> {
    if rs == [] then []
    else AllRanges(rs[..|rs| - 1], kernel) + RegionRanges(rs[|rs| - 1], kernel)
  }

  // ---- What the ranges mean ----

  /** All 4096 bytes of frame f lie in [lo, hi). */
  predicate FrameInside(f: int, lo: int, hi: int) {
    lo <= f * PAGE && f * PAGE + PAGE <= hi
  }

  predicate OutsideKernel(f: int, kernel: (u64, u64)) {
    f * PAGE + PAGE <= kernel.0 || kernel.1 <= f * PAGE
  }

  /** The frame lies wholly in this available, non-wrapping region, at or above 1 MiB, and holds no
      byte of the page-rounded kernel image. */
  predicate FrameUsableIn(f: int, r: Region, kernel: (u64, u64)) {
    && r.policyUsable && r.kind == AVAILABLE
    && FrameInside(f, Max(r.base, POLICY_MIN), r.end)
    && OutsideKernel(f, kernel)
  }

  ghost predicate KernelOk(kernel: (u64, u64)) {
    kernel.0 < kernel.1 && kernel.0 % PAGE == 0 && kernel.1 % PAGE == 0
  }

  /** The span is the least page-aligned one that contains the image. */
  lemma KernelSpanOk(start: u64, end: u64)
    ensures KernelSpan(start, end).Some? <==> end + 0xFFF < LIMIT64 && start - start % 0x1000 < end
    ensures KernelSpan(start, end).Some? ==>
              var (lo, hi) := KernelSpan(start, end).value;
              && KernelOk((lo, hi)) && lo % 0x1000 == 0 && hi % 0x1000 == 0
              && lo <= start < lo + 0x1000 && end <= hi < end + 0x1000
  {
  }

  /** All 4096 bytes of frame f lie in a usable stored region at or above 1 MiB, and none in the image
      [start, end). */
  ghost predicate FreeOfImage(rs: seq<Region>, start: int, end: int, f: int) {
    && (f * 0x1000 + 0x1000 <= start || end <= f * 0x1000)
    && exists r | r in rs ::
         r.policyUsable && r.kind == 1 && Max(r.base, 0x10_0000) <= f * 0x1000 && f * 0x1000 + 0x1000 <= r.end
  }

  /** Rounding the image to pages withholds no other frame than those that share a byte with it. */
  lemma FoundExact(rs: seq<Region>, start: u64, end: u64)
    requires start < end && KernelSpan(start, end).Some?
    ensures forall f :: Eligible(AllRanges(rs, KernelSpan(start, end).value), f) <==> FreeOfImage(rs, start, end, f)
  {
    hide AllRanges, KernelSpan;
    KernelSpanOk(start, end);
    var kernel := KernelSpan(start, end).value;
    forall f ensures Eligible(AllRanges(rs, kernel), f) <==> FreeOfImage(rs, start, end, f) {
      RangesExact(rs, kernel, f);
      ImageFrames(start, end, kernel, f);
      if UsableFrame(rs, kernel, f) {
        var r :| r in rs && FrameUsableIn(f, r, kernel);
      }
      if FreeOfImage(rs, start, end, f) {
        var r :| r in rs && r.policyUsable && r.kind == 1
                 && Max(r.base, 0x10_0000) <= f * 0x1000 && f * 0x1000 + 0x1000 <= r.end;
        assert FrameUsableIn(f, r, kernel);
      }
    }
  }

  lemma ImageFrames(start: u64, end: u64, kernel: (u64, u64), f: int)
    requires start < end && KernelOk(kernel)
    requires kernel.0 <= start < kernel.0 + 0x1000 && end <= kernel.1 < end + 0x1000
    ensures OutsideKernel(f, kernel) <==> f * 0x1000 + 0x1000 <= start || end <= f * 0x1000
  {
    var lo, hi := kernel.0 / PAGE, kernel.1 / PAGE;
    assert kernel.0 == lo * PAGE && kernel.1 == hi * PAGE;
  }

  /** At most two usable ranges, in order, inside the addresses [lo, hi). */
  ghost predicate Within(ranges: seq<FrameRange>, lo: int, hi: int) {
    && RangesOk(ranges)
    && (forall k | 0 <= k < |ranges| :: lo <= ranges[k].start * PAGE && ranges[k].End() * PAGE <= hi)
    && (|ranges| == 2 ==> ranges[0].End() <= ranges[1].start)
    && |ranges| <= 2
  }

  lemma SpanRangeExact(start: u64, end: u64, f: int)
    ensures Eligible(SpanRange(start, end), f) <==> FrameInside(f, start, end)
  {
    var s := SpanRange(start, end);
    EligibleIff(s, f);
    assert s != [] && s[0].Has(f) ==> Eligible(s, f);
  }

  lemma SpanRangeWithin(start: u64, end: u64)
    requires start >= POLICY_MIN
    ensures |SpanRange(start, end)| <= 1 && Within(SpanRange(start, end), start, end)
  {
  }

  lemma WithinConcat(left: seq<FrameRange>, right: seq<FrameRange>, lo: int, mid1: int, mid2: int, hi: int)
    requires |left| <= 1 && |right| <= 1 && Within(left, lo, mid1) && Within(right, mid2, hi)
    requires lo <= mid2 && mid1 <= mid2 && mid1 <= hi
    ensures Within(left + right, lo, hi)
  {
  }

  lemma RegionRangesExact(r: Region, kernel: (u64, u64), f: int)
    requires KernelOk(kernel)
    ensures Eligible(RegionRanges(r, kernel), f) <==> FrameUsableIn(f, r, kernel)
  {
    var start := if r.base < POLICY_MIN then POLICY_MIN else r.base;
    SpanRangeExact(start, r.end, f);
    SpanRangeExact(start, kernel.0, f);
    SpanRangeExact(kernel.1, r.end, f);
    var left := if start < kernel.0 then SpanRange(start, kernel.0) else [];
    var right := if r.end > kernel.1 then SpanRange(kernel.1, r.end) else [];
    EligibleConcat(left, right, f);
  }

  ghost predicate UsableFrame(rs: seq<Region>, kernel: (u64, u64), f: int) {
    exists r :: r in rs && FrameUsableIn(f, r, kernel)
  }

  lemma UsableLast(init: seq<Region>, last: Region, kernel: (u64, u64), f: int)
    ensures UsableFrame(init + [last], kernel, f) <==> UsableFrame(init, kernel, f) || FrameUsableIn(f, last, kernel)
  {
    if UsableFrame(init, kernel, f) {
      var r :| r in init && FrameUsableIn(f, r, kernel);
      assert r in init + [last];
    }
    assert last in init + [last];
  }

  /** Exact bookkeeping: a frame is in some range if and only if it lies wholly inside a usable,
      non-wrapping stored region at or above 1 MiB and outside the page-rounded kernel image. */
  lemma {:induction false} RangesExact(rs: seq<Region>, kernel: (u64, u64), f: int)
    requires KernelOk(kernel)
    ensures Eligible(AllRanges(rs, kernel), f) <==> UsableFrame(rs, kernel, f)
    decreases |rs|
  {
    if rs != [] {
      var init, last := rs[..|rs| - 1], rs[|rs| - 1];
      assert rs == init + [last];
      RangesExact(init, kernel, f);
      RegionRangesExact(last, kernel, f);
      EligibleConcat(AllRanges(init, kernel), RegionRanges(last, kernel), f);
      UsableLast(init, last, kernel, f);
    }
  }

  /** Where the ranges of a region lie, and that the allocator can work with them. */
  lemma RegionRangesBounds(r: Region, kernel: (u64, u64))
    requires KernelOk(kernel)
    ensures Within(RegionRanges(r, kernel), r.base, r.end)
    ensures RegionRanges(r, kernel) != [] ==> r.policyUsable
  {
    var start := if r.base < POLICY_MIN then POLICY_MIN else r.base;
    SpanRangeWithin(start, r.end);
    if start < kernel.1 && kernel.0 < r.end {
      var left := if start < kernel.0 then SpanRange(start, kernel.0) else [];
      var right := if r.end > kernel.1 then SpanRange(kernel.1, r.end) else [];
      SpanRangeWithin(start, kernel.0);
      SpanRangeWithin(kernel.1, r.end);
      WithinConcat(left, right, start, kernel.0, kernel.1, r.end);
    }
  }

  lemma {:induction false} AllRangesOk(rs: seq<Region>, kernel: (u64, u64))
    requires KernelOk(kernel)
    ensures RangesOk(AllRanges(rs, kernel)) && |AllRanges(rs, kernel)| <= 2 * |rs|
    decreases |rs|
  {
    if rs != [] {
      AllRangesOk(rs[..|rs| - 1], kernel);
      RegionRangesBounds(rs[|rs| - 1], kernel);
    }
  }

  ghost predicate RegionsSorted(rs: seq<Region>) {
    forall i, j | 0 <= i < j < |rs| && rs[i].policyUsable && rs[j].policyUsable :: rs[i].end <= rs[j].base
  }

  lemma {:induction false} SortedRegionsBelow(rs: seq<Region>, kernel: (u64, u64), bound: int)
    requires KernelOk(kernel)
    requires forall i | 0 <= i < |rs| && rs[i].policyUsable :: rs[i].end <= bound
    ensures forall k | 0 <= k < |AllRanges(rs, kernel)| :: AllRanges(rs, kernel)[k].End() * PAGE <= bound
    decreases |rs|
  {
    if rs != [] {
      SortedRegionsBelow(rs[..|rs| - 1], kernel, bound);
      RegionRangesBounds(rs[|rs| - 1], kernel);
    }
  }

  /** Sorted disjoint regions give sorted disjoint ranges. */
  lemma {:induction false} SortedRegionsGiveSortedRanges(rs: seq<Region>, kernel: (u64, u64))
    requires KernelOk(kernel) && RegionsSorted(rs)
    ensures SortedDisjoint(AllRanges(rs, kernel))
    decreases |rs|
  {
    if rs != [] {
      var init, last := rs[..|rs| - 1], rs[|rs| - 1];
      var ranges, more := AllRanges(init, kernel), RegionRanges(last, kernel);
      SortedRegionsGiveSortedRanges(init, kernel);
      RegionRangesBounds(last, kernel);
      if last.policyUsable {
        SortedRegionsBelow(init, kernel, last.base);
      }
      var all := ranges + more;
      forall i, j | 0 <= i < j < |all| ensures all[i].End() <= all[j].start {
        if i < |ranges| <= j {
          assert ranges[i].End() * PAGE <= last.base <= more[j - |ranges|].start * PAGE;
        }
      }
    }
  }

  ghost predicate HasFrame(r: Region, kernel: (u64, u64)) {
    exists f :: FrameUsableIn(f, r, kernel)
  }

  /** The region has usable frames on either side of the kernel image. */
  ghost predicate Split(r: Region, kernel: (u64, u64)) {
    exists f, g :: FrameUsableIn(f, r, kernel) && FrameUsableIn(g, r, kernel) && f * PAGE < kernel.0 && kernel.1 <= g * PAGE
  }

  lemma SpanRangeCount(start: u64, end: u64)
    ensures SpanRange(start, end) != [] <==> exists f :: FrameInside(f, start, end)
  {
    var lo := (start + (PAGE - 1)) / PAGE;
    if f :| FrameInside(f, start, end) {
      SpanRangeExact(start, end, f);
    }
    assert SpanRange(start, end) != [] ==> FrameInside(lo, start, end);
  }

  lemma RegionRangeCount(r: Region, kernel: (u64, u64))
    requires KernelOk(kernel)
    ensures |RegionRanges(r, kernel)| == if Split(r, kernel) then 2 else if HasFrame(r, kernel) then 1 else 0
  {
    hide SpanRange;
    var start := if r.base < POLICY_MIN then POLICY_MIN else r.base;
    OneRange(start, r.end);
    OneRange(start, kernel.0);
    OneRange(kernel.1, r.end);
    SpanRangeCount(start, r.end);
    SpanRangeCount(start, kernel.0);
    SpanRangeCount(kernel.1, r.end);
    if r.policyUsable && r.kind == AVAILABLE && start < r.end {
      if r.end <= kernel.0 || start >= kernel.1 {
        assert forall f :: FrameUsableIn(f, r, kernel) <==> FrameInside(f, start, r.end);
      } else {
        SidesOfKernel(r, start, kernel);
      }
    }
  }

  /** Around the image, the usable frames are those below it and those above it. */
  lemma SidesOfKernel(r: Region, start: u64, kernel: (u64, u64))
    requires KernelOk(kernel) && start == Max(r.base, POLICY_MIN) && r.policyUsable && r.kind == AVAILABLE
    requires kernel.0 < r.end && start < kernel.1
    ensures forall f :: FrameUsableIn(f, r, kernel) && f * PAGE < kernel.0 <==> start < kernel.0 && FrameInside(f, start, kernel.0)
    ensures forall f :: FrameUsableIn(f, r, kernel) && kernel.1 <= f * PAGE <==> kernel.1 < r.end && FrameInside(f, kernel.1, r.end)
    ensures forall f :: FrameUsableIn(f, r, kernel) ==> f * PAGE < kernel.0 || kernel.1 <= f * PAGE
  {
  }

  lemma OneRange(start: u64, end: u64)
    ensures |SpanRange(start, end)| <= 1
  {
  }

  /** How many regions have a usable frame. */
  ghost function RegionsWithFrames(rs: seq<Region>, kernel: (u64, u64)): nat {
    if rs == [] then 0
    else RegionsWithFrames(rs[..|rs| - 1], kernel) + (if HasFrame(rs[|rs| - 1], kernel) then 1 else 0)
  }

  lemma {:induction false} AllWithFrames(rs: seq<Region>, kernel: (u64, u64))
    ensures RegionsWithFrames(rs, kernel) <= |rs|
    ensures RegionsWithFrames(rs, kernel) == |rs| <==> forall r | r in rs :: HasFrame(r, kernel)
  {
    if rs != [] {
      AllWithFrames(rs[..|rs| - 1], kernel);
      assert rs == rs[..|rs| - 1] + [rs[|rs| - 1]];
    }
  }

  lemma NotBothSplit(r: Region, later: Region, kernel: (u64, u64))
    requires KernelOk(kernel) && Split(r, kernel)
    requires r.policyUsable && later.policyUsable ==> r.end <= later.base
    ensures !Split(later, kernel)
  {
  }

  /** Sorted disjoint regions give one range for each region with a usable frame, and one more if
      some region is split: two cannot be. */
  lemma {:induction false} SortedRegionsRangeCount(rs: seq<Region>, kernel: (u64, u64))
    requires KernelOk(kernel) && RegionsSorted(rs)
    ensures |AllRanges(rs, kernel)|
            == RegionsWithFrames(rs, kernel) + (if exists r | r in rs :: Split(r, kernel) then 1 else 0)
    decreases |rs|
  {
    hide RegionRanges, HasFrame, Split;
    if rs != [] {
      var init, last := rs[..|rs| - 1], rs[|rs| - 1];
      assert rs == init + [last];
      SortedRegionsRangeCount(init, kernel);
      RegionRangeCount(last, kernel);
      SplitHasFrame(last, kernel);
      if r :| r in init && Split(r, kernel) {
        NotBothSplit(r, last, kernel);
      }
    }
  }

  lemma SplitHasFrame(r: Region, kernel: (u64, u64))
    ensures Split(r, kernel) ==> HasFrame(r, kernel)
  {
  }

  /** With sorted disjoint regions the reported count is the number of usable frames, and they are
      issued in increasing order. */
  lemma SortedRegionsCountFrames(rs: seq<Region>, kernel: (u64, u64), f: int)
    requires KernelOk(kernel) && RegionsSorted(rs)
    ensures var ranges := AllRanges(rs, kernel);
            && FrameTotal(ranges, 0) == |Upcoming(ranges, 0, 0)| && Increasing(Upcoming(ranges, 0, 0))
            && (f in Upcoming(ranges, 0, 0) <==> UsableFrame(rs, kernel, f))
  {
    var ranges := AllRanges(rs, kernel);
    AllRangesOk(rs, kernel);
    SortedRegionsGiveSortedRanges(rs, kernel);
    SortedIsCovered(ranges);
    TotalExactIffSorted(ranges);
    IssuesAllIffCovered(ranges);
    UpcomingIncreasing(ranges, 0, 0);
    RangesExact(rs, kernel, f);
  }

  // ---- Totals of a growing range list ----

  lemma {:induction false} TotalAppend(ranges: seq<FrameRange>, r: FrameRange, i: nat)
    requires i <= |ranges|
    ensures FrameTotal(ranges + [r], i) == FrameTotal(ranges, i) + r.count
    decreases |ranges| - i
  {
    if i < |ranges| {
      TotalAppend(ranges, r, i + 1);
    } else {
      assert FrameTotal(ranges + [r], i + 1) == 0;
    }
  }

  lemma {:induction false} TotalBound(ranges: seq<FrameRange>, i: nat)
    requires RangesOk(ranges) && i <= |ranges|
    ensures 0 <= FrameTotal(ranges, i) <= (|ranges| - i) * FRAME_LIMIT
    decreases |ranges| - i
  {
    if i < |ranges| {
      assert RangeOk(ranges[i]);
      TotalBound(ranges, i + 1);
    }
  }

  /** h is the highest frame in any of the ranges, or 0 if there is no range. */
  ghost predicate IsHighest(ranges: seq<FrameRange>, h: int) {
    && (ranges == [] ==> h == 0)
    && (ranges != [] ==> Eligible(ranges, h))
    && forall f | Eligible(ranges, f) :: f <= h
  }

  lemma HighestAppend(ranges: seq<FrameRange>, r: FrameRange, h: int)
    requires RangeOk(r) && IsHighest(ranges, h)
    ensures IsHighest(ranges + [r], Max(h, r.End() - 1))
  {
    forall f ensures Eligible(ranges + [r], f) <==> Eligible(ranges, f) || r.Has(f) {
      EligibleConcat(ranges, [r], f);
      EligibleIff([r], f);
      assert r.Has(f) ==> [r][0].Has(f);
    }
  }

  function CappedRanges(ranges: seq<FrameRange>): seq<FrameRange> {
    ranges[..Min(|ranges|, MAX_RANGES)]
  }

  /** The totals after one more range; they stay far below 2^64. */
  lemma OneMoreRange(ranges: seq<FrameRange>, r: FrameRange)
    requires RangesOk(ranges) && RangeOk(r) && |ranges| < 2 * MAX_REGIONS
    ensures RangesOk(ranges + [r])
    ensures FrameTotal(ranges + [r], 0) == FrameTotal(ranges, 0) + r.count && 0 <= FrameTotal(ranges, 0)
    ensures FrameTotal(ranges + [r], 0) < LIMIT64
    ensures CappedRanges(ranges + [r]) == if |ranges| < MAX_RANGES then CappedRanges(ranges) + [r] else CappedRanges(ranges)
    ensures |CappedRanges(ranges)| == Min(|ranges|, MAX_RANGES)
  {
    TotalAppend(ranges, r, 0);
    TotalBound(ranges, 0);
    TotalBound(ranges + [r], 0);
    assert (ranges + [r])[..|ranges|] == ranges;
  }

  /** `g_stage5c_frames`; `found` lists every range met, stored or dropped. */
  class FrameBookkeeping {
    var rangeCount: nat
    var droppedRanges: nat
    var eligibleFrames: u64
    var highestEligibleFrame: u64
    var highestEligibleAddr: u64
    var kernelReservedStart: u64
    var kernelReservedEnd: u64
    const ranges: array<FrameRange>
    ghost var found: seq<FrameRange>

    ghost predicate Valid()
      reads this, ranges
    {
      && ranges.Length == MAX_RANGES && rangeCount <= MAX_RANGES
      && RangesOk(found) && |found| <= 2 * MAX_REGIONS
      && ranges[..rangeCount] == CappedRanges(found)
      && droppedRanges == |found| - rangeCount
      && eligibleFrames == FrameTotal(found, 0)
      && IsHighest(found, highestEligibleFrame)
      && highestEligibleAddr == highestEligibleFrame * PAGE
    }

    constructor ()
      ensures Valid() && found == [] && fresh(ranges)
    {
      ranges := new FrameRange[MAX_RANGES](_ => FrameRange(0, 0));
      rangeCount, droppedRanges := 0, 0;
      eligibleFrames, highestEligibleFrame, highestEligibleAddr := 0, 0, 0;
      kernelReservedStart, kernelReservedEnd := 0, 0;
      found := [];
    }

    method Reset()
      requires Valid()
      modifies this
      ensures Valid() && found == [] && kernelReservedStart == kernelReservedEnd == 0
    {
      rangeCount, droppedRanges := 0, 0;
      eligibleFrames, highestEligibleFrame, highestEligibleAddr := 0, 0, 0;
      kernelReservedStart, kernelReservedEnd := 0, 0;
      found := [];
    }

    method RecordRange(start: u64, count: u64)
      requires ranges.Length == MAX_RANGES && rangeCount <= MAX_RANGES
      modifies this`rangeCount, this`droppedRanges, ranges
      ensures rangeCount <= MAX_RANGES
      ensures if old(rangeCount) < MAX_RANGES
              then ranges[..rangeCount] == old(ranges[..rangeCount]) + [FrameRange(start, count)]
                   && droppedRanges == old(droppedRanges)
              else ranges[..] == old(ranges[..]) && rangeCount == old(rangeCount)
                   && droppedRanges == old(droppedRanges) + 1
    {
      var index := rangeCount;
      if index >= MAX_RANGES {
        droppedRanges := droppedRanges + 1;
        return;
      }
      ranges[index] := FrameRange(start, count);
      rangeCount := index + 1;
    }

    method RecordEligibleSpan(startAddr: u64, endAddr: u64)
      requires Valid() && startAddr >= POLICY_MIN && |found| < 2 * MAX_REGIONS
      modifies this, ranges
      ensures Valid() && found == old(found) + SpanRange(startAddr, endAddr)
      ensures kernelReservedStart == old(kernelReservedStart) && kernelReservedEnd == old(kernelReservedEnd)
    {
      if endAddr <= startAddr {
        return;
      }
      var lo := CeilFrame(startAddr);
      if lo.None? {
        return;
      }
      var start := lo.value;
      var end := FloorFrame(endAddr);
      if end <= start {
        return;
      }
      var count := (end - start) / PAGE;
      var first := start / PAGE;
      var highestAddr := end - PAGE;
      var highest := highestAddr / PAGE;
      assert SpanRange(startAddr, endAddr) == [FrameRange(first, count)];
      assert highest == first + count - 1 && highestAddr == highest * PAGE;
      SpanRangeWithin(startAddr, endAddr);
      assert RangeOk(SpanRange(startAddr, endAddr)[0]);
      NoteRange(first, count, highest, highestAddr);
    }

    /** Storing the range and bringing the totals up to date. */
    method NoteRange(first: u64, count: u64, highest: u64, highestAddr: u64)
      requires Valid() && |found| < 2 * MAX_REGIONS && RangeOk(FrameRange(first, count))
      requires highest == first + count - 1 && highestAddr == highest * PAGE
      modifies this, ranges
      ensures Valid() && found == old(found) + [FrameRange(first, count)]
      ensures kernelReservedStart == old(kernelReservedStart) && kernelReservedEnd == old(kernelReservedEnd)
    {
      hide FrameTotal, IsHighest, CappedRanges;
      ghost var r := FrameRange(first, count);
      OneMoreRange(found, r);
      HighestAppend(found, r, highestEligibleFrame);
      RecordRange(first, count);
      eligibleFrames := AddClamp64(eligibleFrames, count);
      if highest > highestEligibleFrame {
        highestEligibleFrame := highest;
        highestEligibleAddr := highestAddr;
      }
      found := found + [r];
    }

    /** The body of the region loop. */
    method AddRegion(region: Region)
      requires Valid() && |found| + 2 <= 2 * MAX_REGIONS
      requires KernelOk((kernelReservedStart, kernelReservedEnd))
      modifies this, ranges
      ensures Valid() && found == old(found) + RegionRanges(region, (kernelReservedStart, kernelReservedEnd))
      ensures kernelReservedStart == old(kernelReservedStart) && kernelReservedEnd == old(kernelReservedEnd)
    {
      hide SpanRange, Valid;
      var start := region.base;
      var end := region.end;
      if !region.policyUsable {
        return;
      }
      if region.kind != AVAILABLE {
        return;
      }
      if start < POLICY_MIN {
        start := POLICY_MIN;
      }
      if end <= start {
        return;
      }
      if end <= kernelReservedStart || start >= kernelReservedEnd {
        RecordEligibleSpan(start, end);
        return;
      }
      SpanRangeWithin(start, kernelReservedStart);
      ghost var before := found;
      ghost var left := if start < kernelReservedStart then SpanRange(start, kernelReservedStart) else [];
      ghost var right := if end > kernelReservedEnd then SpanRange(kernelReservedEnd, end) else [];
      assert RegionRanges(region, (kernelReservedStart, kernelReservedEnd)) == left + right;
      if start < kernelReservedStart {
        RecordEligibleSpan(start, kernelReservedStart);
      }
      assert |left| <= 1 && found == before + left;
      if end > kernelReservedEnd {
        RecordEligibleSpan(kernelReservedEnd, end);
      }
      assert found == before + (left + right);
    }

    /** False stands for the panic over invalid kernel bounds. */
    method Prepare(memory: MemoryBookkeeping, kernelStart: u64, kernelEnd: u64) returns (ok: bool)
      requires Valid() && memory.Valid()
      modifies this, ranges
      ensures Valid()
      ensures ok <==> KernelSpan(kernelStart, kernelEnd).Some?
      ensures ok ==>
                var kernel := KernelSpan(kernelStart, kernelEnd).value;
                found == AllRanges(memory.View().regions, kernel)
                && (kernelReservedStart, kernelReservedEnd) == kernel
      ensures ok && kernelStart < kernelEnd ==>
                forall f :: Eligible(found, f) <==> FreeOfImage(memory.View().regions, kernelStart, kernelEnd, f)
      ensures ok ==> IsHighest(found, highestEligibleFrame) && highestEligibleAddr == highestEligibleFrame * 0x1000
    {
      hide RegionRanges, FrameTotal, IsHighest, CappedRanges;
      Reset();
      var reservedStart := FloorFrame(kernelStart);
      var reservedEnd := CeilFrame(kernelEnd);
      if reservedEnd.None? || reservedEnd.value <= reservedStart {
        return false;
      }
      kernelReservedStart, kernelReservedEnd := reservedStart, reservedEnd.value;
      ghost var kernel := (kernelReservedStart, kernelReservedEnd);
      KernelSpanOk(kernelStart, kernelEnd);
      ghost var rs := memory.View().regions;
      if kernelStart < kernelEnd {
        FoundExact(rs, kernelStart, kernelEnd);
      }
      var i := 0;
      while i < memory.regionCount
        invariant Valid() && 0 <= i <= memory.regionCount == |rs| && memory.Valid() && memory.View().regions == rs
        invariant found == AllRanges(rs[..i], kernel) && kernel == (kernelReservedStart, kernelReservedEnd)
      {
        assert rs[..i + 1][..i] == rs[..i] && rs[..i + 1][i] == memory.regions[i];
        AllRangesOk(rs[..i], kernel);
        AddRegion(memory.regions[i]);
        i := i + 1;
      }
      assert rs[..i] == rs;
      return true;
    }
  }
}
