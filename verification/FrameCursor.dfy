/** The monotonic cursor over frame ranges: which frames it will still issue, and which it has
    passed. Ranges are those Stage 5C can build; they need not be sorted or disjoint. */
module FrameCursor {
  import opened Words

  const FRAME_LIMIT := 0x10_0000_0000_0000

  datatype FrameRange = FrameRange(start: int, count: int) {
    function End(): int { start + count }
    predicate Has(f: int) { start <= f < End() }
  }

  /** Non-empty, at or above 1 MiB, and below the last frame a 64-bit address can name. */
  predicate RangeOk(r: FrameRange) {
    POLICY_MIN / PAGE <= r.start && r.count > 0 && r.End() <= FRAME_LIMIT
  }

  ghost predicate RangesOk(ranges: seq<FrameRange>) {
    forall k | 0 <= k < |ranges| :: RangeOk(ranges[k])
  }

  function Interval(lo: int, hi: int): seq<int>
    decreases hi - lo
  {
    if lo >= hi then [] else [lo] + Interval(lo + 1, hi)
  }

  lemma {:induction false} IntervalIs(lo: int, hi: int)
    requires lo <= hi
    ensures |Interval(lo, hi)| == hi - lo
    ensures forall j | 0 <= j < hi - lo :: Interval(lo, hi)[j] == lo + j
    decreases hi - lo
  {
    if lo < hi {
      IntervalIs(lo + 1, hi);
    }
  }

  /** The frames still to be issued when the cursor stands at frame `next` of range i, in order. */
  function Upcoming(ranges: seq<FrameRange>, i: nat, next: int): seq<int>
    requires i <= |ranges|
    decreases |ranges| - i
  {
    if i == |ranges| then []
    else
      var lo := Max(next, ranges[i].start);
      if lo < ranges[i].End() then Interval(lo, ranges[i].End()) + Upcoming(ranges, i + 1, ranges[i].End())
      else Upcoming(ranges, i + 1, lo)
  }

  /** Ranges of 64-bit words whose end does not wrap; they may be empty. */
  ghost predicate WordRanges(ranges: seq<FrameRange>) {
    forall k | 0 <= k < |ranges| :: 0 <= ranges[k].start && 0 <= ranges[k].count && ranges[k].End() < LIMIT64
  }

  lemma OkAreWords(ranges: seq<FrameRange>)
    requires RangesOk(ranges)
    ensures WordRanges(ranges)
  {
    forall k | 0 <= k < |ranges| ensures 0 <= ranges[k].start && 0 <= ranges[k].count && ranges[k].End() < LIMIT64 {
      assert RangeOk(ranges[k]);
    }
  }

  /** Move the cursor forward to a frame it can issue; i == |ranges| when there is none. */
  function Advance(ranges: seq<FrameRange>, i: nat, next: int): (c: (nat, int))
    requires i <= |ranges|
    ensures i <= c.0 <= |ranges| && next <= c.1
    ensures c.0 < |ranges| ==> ranges[c.0].Has(c.1)
    decreases |ranges| - i
  {
    if i == |ranges| then (i, next)
    else if ranges[i].count == 0 then Advance(ranges, i + 1, next)
    else
      var lo := Max(next, ranges[i].start);
      if lo < ranges[i].End() then (i, lo) else Advance(ranges, i + 1, lo)
  }

  lemma {:induction false} AdvanceKeepsUpcoming(ranges: seq<FrameRange>, i: nat, next: int)
    requires RangesOk(ranges) && i <= |ranges|
    ensures var (j, n) := Advance(ranges, i, next);
            Upcoming(ranges, j, n) == Upcoming(ranges, i, next)
    decreases |ranges| - i
  {
    if i < |ranges| {
      assert RangeOk(ranges[i]);
      var lo := Max(next, ranges[i].start);
      if lo >= ranges[i].End() {
        AdvanceKeepsUpcoming(ranges, i + 1, lo);
      }
    }
  }

  lemma IssueOne(ranges: seq<FrameRange>, i: nat, next: int)
    requires i < |ranges| && ranges[i].Has(next)
    ensures Upcoming(ranges, i, next) == [next] + Upcoming(ranges, i, next + 1)
  {
    var end := ranges[i].End();
    var here, rest := Interval(next + 1, end), Upcoming(ranges, i + 1, end);
    assert Upcoming(ranges, i, next) == Interval(next, end) + rest;
    assert Upcoming(ranges, i, next + 1) == here + rest by {
      if next + 1 == end {
        assert here == [];
      }
    }
    hide Upcoming;
    assert Interval(next, end) + rest == [next] + (here + rest);
  }

  /** Advancing either reaches the next frame to come, or finds that none is left. */
  lemma AdvanceFindsNext(ranges: seq<FrameRange>, i: nat, next: int)
    requires RangesOk(ranges) && i <= |ranges|
    ensures var (j, f) := Advance(ranges, i, next);
            if j == |ranges| then Upcoming(ranges, i, next) == [] && Upcoming(ranges, j, f) == []
            else Upcoming(ranges, i, next) == [f] + Upcoming(ranges, j, f + 1)
  {
    var (j, f) := Advance(ranges, i, next);
    AdvanceKeepsUpcoming(ranges, i, next);
    if j < |ranges| {
      IssueOne(ranges, j, f);
    }
  }

  ghost predicate Increasing(s: seq<int>) {
    forall a, b | 0 <= a < b < |s| :: s[a] < s[b]
  }

  /** Fresh frames come in strictly increasing order, whatever the order of the ranges. */
  lemma {:induction false} UpcomingIncreasing(ranges: seq<FrameRange>, i: nat, next: int)
    requires i <= |ranges|
    ensures Increasing(Upcoming(ranges, i, next))
    ensures forall f | f in Upcoming(ranges, i, next) ::
              next <= f && exists k | i <= k < |ranges| :: ranges[k].Has(f)
    decreases |ranges| - i
  {
    if i < |ranges| {
      var lo := Max(next, ranges[i].start);
      if lo < ranges[i].End() {
        IntervalIs(lo, ranges[i].End());
        UpcomingIncreasing(ranges, i + 1, ranges[i].End());
        var here, rest := Interval(lo, ranges[i].End()), Upcoming(ranges, i + 1, ranges[i].End());
        forall f | f in here + rest ensures next <= f && exists k | i <= k < |ranges| :: ranges[k].Has(f) {
          if f in here {
            assert ranges[i].Has(f);
          }
        }
        forall a, b | 0 <= a < b < |here + rest| ensures (here + rest)[a] < (here + rest)[b] {
          if b >= |here| {
            assert rest[b - |here|] in rest;
          }
        }
      } else {
        UpcomingIncreasing(ranges, i + 1, lo);
      }
    }
  }

  // ---- Which frames the cursor ever issues ----

  /** The first range holding f, |ranges| if f is in none. */
  function FirstRange(ranges: seq<FrameRange>, f: int): (k: nat)
    ensures k <= |ranges|
    ensures forall j | 0 <= j < k :: !ranges[j].Has(f)
    ensures k < |ranges| ==> ranges[k].Has(f)
  {
    if ranges == [] || ranges[0].Has(f) then 0 else 1 + FirstRange(ranges[1..], f)
  }

  lemma FirstRangeIs(ranges: seq<FrameRange>, f: int, k: nat)
    requires k <= |ranges|
    requires forall j | 0 <= j < k :: !ranges[j].Has(f)
    requires k < |ranges| ==> ranges[k].Has(f)
    ensures FirstRange(ranges, f) == k
  {
  }

  predicate Eligible(ranges: seq<FrameRange>, f: int) {
    FirstRange(ranges, f) < |ranges|
  }

  /** Being eligible is lying in some range. */
  lemma EligibleIff(ranges: seq<FrameRange>, f: int)
    ensures Eligible(ranges, f) <==> exists k | 0 <= k < |ranges| :: ranges[k].Has(f)
  {
    if k :| 0 <= k < |ranges| && ranges[k].Has(f) {
      assert FirstRange(ranges, f) <= k;
    }
  }

  lemma EligibleConcat(ranges: seq<FrameRange>, more: seq<FrameRange>, f: int)
    ensures Eligible(ranges + more, f) <==> Eligible(ranges, f) || Eligible(more, f)
  {
    var all, k, j := ranges + more, FirstRange(ranges, f), FirstRange(more, f);
    assert forall i | 0 <= i < |ranges| :: all[i] == ranges[i];
    assert forall i | 0 <= i < |more| :: all[|ranges| + i] == more[i];
    FirstRangeIs(all, f, if k < |ranges| then k else |ranges| + j);
  }

  /** Every frame lies at or behind the end of each range stored before the first one holding it. */
  ghost predicate Covered(ranges: seq<FrameRange>) {
    forall f, i | Eligible(ranges, f) && 0 <= i < FirstRange(ranges, f) :: ranges[i].End() <= f
  }

  ghost predicate SortedDisjoint(ranges: seq<FrameRange>) {
    forall i, j | 0 <= i < j < |ranges| :: ranges[i].End() <= ranges[j].start
  }

  lemma SortedIsCovered(ranges: seq<FrameRange>)
    requires SortedDisjoint(ranges)
    ensures Covered(ranges)
  {
  }

  lemma {:induction false} UpcomingComplete(ranges: seq<FrameRange>, i: nat, next: int, f: int)
    requires RangesOk(ranges) && Covered(ranges) && i <= FirstRange(ranges, f) < |ranges| && next <= f
    ensures f in Upcoming(ranges, i, next)
    decreases |ranges| - i
  {
    var lo := Max(next, ranges[i].start);
    assert RangeOk(ranges[i]);
    if i == FirstRange(ranges, f) {
      IntervalIs(lo, ranges[i].End());
      assert Interval(lo, ranges[i].End())[f - lo] == f;
    } else {
      assert ranges[i].End() <= f;
      UpcomingComplete(ranges, i + 1, if lo < ranges[i].End() then ranges[i].End() else lo, f);
    }
  }

  lemma {:induction false} UpcomingMisses(ranges: seq<FrameRange>, k: nat, next: int, i: nat, f: int)
    requires k <= |ranges| && i < FirstRange(ranges, f) && f < ranges[i].End()
    requires i < k ==> ranges[i].End() <= next
    ensures f !in Upcoming(ranges, k, next)
    decreases |ranges| - k
  {
    if k < |ranges| {
      var lo := Max(next, ranges[k].start);
      if lo < ranges[k].End() {
        UpcomingMisses(ranges, k + 1, ranges[k].End() , i, f) by {
          assert i < k ==> ranges[i].End() <= ranges[k].End();
        }
        IntervalIs(lo, ranges[k].End());
        assert k < FirstRange(ranges, f) ==> !ranges[k].Has(f);
      } else {
        UpcomingMisses(ranges, k + 1, lo, i, f);
      }
    }
  }

  /** The cursor issues every eligible frame if and only if the ranges are covered. */
  lemma IssuesAllIffCovered(ranges: seq<FrameRange>)
    requires RangesOk(ranges)
    ensures (forall f | Eligible(ranges, f) :: f in Upcoming(ranges, 0, 0)) <==> Covered(ranges)
  {
    if Covered(ranges) {
      forall f | Eligible(ranges, f) ensures f in Upcoming(ranges, 0, 0) {
        assert RangeOk(ranges[FirstRange(ranges, f)]);
        UpcomingComplete(ranges, 0, 0, f);
      }
    } else {
      var f, i :| Eligible(ranges, f) && 0 <= i < FirstRange(ranges, f) && f < ranges[i].End();
      UpcomingMisses(ranges, 0, 0, i, f);
    }
  }

  /** The cursor, having come to range i and frame `next`, takes f from range k. */
  ghost predicate TakenFrom(ranges: seq<FrameRange>, i: nat, next: int, f: int, k: int) {
    && i <= k < |ranges| && ranges[k].Has(f) && next <= f
    && forall j | i <= j < k :: ranges[j].End() <= f
  }

  /** In any order of the ranges, the frames still to be issued are those in a range whose
      predecessors all end at or below them. */
  lemma {:induction false} IssuedExactly(ranges: seq<FrameRange>, i: nat, next: int, f: int)
    requires RangesOk(ranges) && i <= |ranges|
    ensures f in Upcoming(ranges, i, next) <==> exists k :: TakenFrom(ranges, i, next, f, k)
    decreases |ranges| - i
  {
    if i < |ranges| {
      assert RangeOk(ranges[i]);
      var lo, end := Max(next, ranges[i].start), ranges[i].End();
      var i', next' := i + 1, if lo < end then end else lo;
      IssuedExactly(ranges, i', next', f);
      if lo < end {
        IntervalIs(lo, end);
        assert lo <= f < end ==> Interval(lo, end)[f - lo] == f;
      }
      if k :| TakenFrom(ranges, i, next, f, k) {
        if k > i {
          assert TakenFrom(ranges, i', next', f, k);
        }
      }
      if k :| TakenFrom(ranges, i', next', f, k) {
        assert TakenFrom(ranges, i, next, f, k);
      }
      if lo <= f < end {
        assert TakenFrom(ranges, i, next, f, i);
      }
    }
  }

  /** The sum of the range lengths, which is what Stage 5C reports as eligible frames. */
  function FrameTotal(ranges: seq<FrameRange>, i: nat): int
    requires i <= |ranges|
    decreases |ranges| - i
  {
    if i == |ranges| then 0 else ranges[i].count + FrameTotal(ranges, i + 1)
  }

  ghost predicate SortedFrom(ranges: seq<FrameRange>, i: nat, next: int)
    requires i <= |ranges|
    decreases |ranges| - i
  {
    i == |ranges| || (next <= ranges[i].start && SortedFrom(ranges, i + 1, ranges[i].End()))
  }

  lemma {:induction false} CountUpcoming(ranges: seq<FrameRange>, i: nat, next: int)
    requires RangesOk(ranges) && i <= |ranges|
    ensures |Upcoming(ranges, i, next)| <= FrameTotal(ranges, i)
    ensures |Upcoming(ranges, i, next)| == FrameTotal(ranges, i) <==> SortedFrom(ranges, i, next)
    decreases |ranges| - i
  {
    if i < |ranges| {
      var lo := Max(next, ranges[i].start);
      assert RangeOk(ranges[i]);
      if lo < ranges[i].End() {
        IntervalIs(lo, ranges[i].End());
      }
      CountUpcoming(ranges, i + 1, if lo < ranges[i].End() then ranges[i].End() else lo);
    }
  }

  lemma {:induction false} SortedFromBounds(ranges: seq<FrameRange>, i: nat, next: int, j: nat)
    requires RangesOk(ranges) && i <= j < |ranges| && SortedFrom(ranges, i, next)
    ensures next <= ranges[j].start && SortedFrom(ranges, j, ranges[j].start)
    decreases j - i
  {
    assert RangeOk(ranges[i]);
    if i < j {
      SortedFromBounds(ranges, i + 1, ranges[i].End(), j);
    }
  }

  lemma {:induction false} SortedFromHolds(ranges: seq<FrameRange>, i: nat, next: int)
    requires SortedDisjoint(ranges) && i <= |ranges| && (i < |ranges| ==> next <= ranges[i].start)
    ensures SortedFrom(ranges, i, next)
    decreases |ranges| - i
  {
    if i < |ranges| {
      SortedFromHolds(ranges, i + 1, ranges[i].End());
    }
  }

  /** The reported number of eligible frames is the number the cursor issues if and only if the
      ranges are sorted and disjoint; otherwise it is larger. */
  lemma TotalExactIffSorted(ranges: seq<FrameRange>)
    requires RangesOk(ranges)
    ensures |Upcoming(ranges, 0, 0)| <= FrameTotal(ranges, 0)
    ensures |Upcoming(ranges, 0, 0)| == FrameTotal(ranges, 0) <==> SortedDisjoint(ranges)
  {
    CountUpcoming(ranges, 0, 0);
    if SortedFrom(ranges, 0, 0) {
      forall i, j | 0 <= i < j < |ranges| ensures ranges[i].End() <= ranges[j].start {
        SortedFromBounds(ranges, 0, 0, i);
        SortedFromBounds(ranges, i + 1, ranges[i].End(), j);
      }
    }
    if SortedDisjoint(ranges) {
      assert ranges != [] ==> RangeOk(ranges[0]);
      SortedFromHolds(ranges, 0, 0);
    }
  }
}
