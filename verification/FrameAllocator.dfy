/** The physical frame allocator of stages 6A to 6D: cursor, pending-free array and counters,
    proved to carry out the steps of module FrameLedger. */
module FrameAllocation {
  import opened Words
  import opened FrameCursor
  import L = FrameLedger

  class FrameAllocator {
    const ranges: seq<FrameRange>
    const eligibleFrames: u64
    var isInitialized: bool
    var rangeIndex: nat
    var nextFrameIndex: u64
    var remainingFrameCount: u64
    const pendingFrames: array<u64>
    var pendingCount: nat
    ghost var held: set<int>

    /** The allocator state; before the lazy seeding it is the state seeding would produce. */
    ghost function View(): L.Pmm
      requires pendingCount <= pendingFrames.Length
      reads this, pendingFrames
    {
      if isInitialized then
        L.Pmm(rangeIndex, nextFrameIndex, remainingFrameCount, pendingFrames[..pendingCount], held)
      else L.Seed(ranges, eligibleFrames)
    }

    ghost predicate Valid()
      reads this, pendingFrames
    {
      && L.SeedOk(ranges, eligibleFrames)
      && pendingFrames.Length == L.MAX_PENDING && pendingCount <= L.MAX_PENDING
      && (!isInitialized ==>
            rangeIndex == nextFrameIndex == remainingFrameCount == pendingCount == 0 && held == {})
      && L.Good(ranges, eligibleFrames, View())
    }

    /** The frames the next allocations return, in order. */
    ghost function Supply(): seq<int>
      requires Valid()
      reads this, pendingFrames
    {
      L.Supply(ranges, View())
    }

    constructor (ranges: seq<FrameRange>, eligibleFrames: u64)
      requires L.SeedOk(ranges, eligibleFrames)
      ensures Valid() && fresh(pendingFrames) && View() == L.Seed(ranges, eligibleFrames)
      ensures this.ranges == ranges && this.eligibleFrames == eligibleFrames
    {
      this.ranges, this.eligibleFrames := ranges, eligibleFrames;
      isInitialized := false;
      rangeIndex, nextFrameIndex, remainingFrameCount := 0, 0, 0;
      pendingFrames, pendingCount := new u64[L.MAX_PENDING], 0;
      held := {};
      L.SeedGood(ranges, eligibleFrames);
    }

    method AdvanceToNextEligible()
      requires WordRanges(ranges) && rangeIndex <= |ranges|
      modifies this`rangeIndex, this`nextFrameIndex
      ensures rangeIndex <= |ranges|
      ensures (rangeIndex, nextFrameIndex) == Advance(ranges, old(rangeIndex), old(nextFrameIndex))
    {
      while rangeIndex < |ranges|
        invariant rangeIndex <= |ranges|
        invariant Advance(ranges, rangeIndex, nextFrameIndex) == Advance(ranges, old(rangeIndex), old(nextFrameIndex))
        decreases |ranges| - rangeIndex
      {
        var range := ranges[rangeIndex];
        if range.count == 0 {
          rangeIndex := rangeIndex + 1;
          continue;
        }
        var (sum, overflow) := CheckedAdd64(range.start, range.count);
        var rangeEnd := if overflow then LIMIT64 - 1 else sum;
        if nextFrameIndex < range.start {
          nextFrameIndex := range.start;
        }
        if nextFrameIndex < rangeEnd {
          break;
        }
        rangeIndex := rangeIndex + 1;
      }
    }

    method SeedFromFrames()
      requires Valid() && !isInitialized
      modifies this
      ensures Valid() && isInitialized && View() == old(View()) && pendingCount == old(pendingCount)
    {
      rangeIndex, nextFrameIndex, remainingFrameCount := 0, 0, eligibleFrames;
      if |ranges| == 0 || eligibleFrames == 0 {
        isInitialized := true;
        return;
      }
      OkAreWords(ranges);
      nextFrameIndex := ranges[0].start;
      AdvanceToNextEligible();
      isInitialized := true;
    }

    /** Take the oldest pending frame and shift the others down. */
    method PopPendingFifo() returns (r: Option<u64>)
      requires pendingCount <= pendingFrames.Length
      modifies this`pendingCount, pendingFrames
      ensures old(pendingCount) == 0 ==> r == None && pendingCount == 0
      ensures old(pendingCount) > 0 ==>
                && r == Some(old(pendingFrames[0])) && pendingCount == old(pendingCount) - 1
                && pendingFrames[..pendingCount] == old(pendingFrames[1..pendingCount])
    {
      if pendingCount == 0 {
        return None;
      }
      r := Some(pendingFrames[0]);
      var i := 0;
      while i + 1 < pendingCount
        invariant 0 <= i < pendingCount == old(pendingCount)
        invariant forall j | 0 <= j < i :: pendingFrames[j] == old(pendingFrames[j + 1])
        invariant forall j | i <= j < pendingCount :: pendingFrames[j] == old(pendingFrames[j])
      {
        pendingFrames[i] := pendingFrames[i + 1];
        i := i + 1;
      }
      pendingCount := pendingCount - 1;
    }

    method TryAllocateReused() returns (r: Option<u64>)
      requires Valid()
      modifies this, pendingFrames
      ensures Valid() && isInitialized == old(isInitialized)
      ensures r.None? ==>
                View() == old(View()) && (isInitialized ==> remainingFrameCount == 0 || pendingCount == 0)
      ensures r.Some? ==>
                && r.value % PAGE == 0
                && (View(), Some(r.value / PAGE)) == L.AllocFrame(ranges, old(View()))
    {
      hide L.Accounted, L.Counted;
      if remainingFrameCount == 0 {
        return None;
      }
      ghost var s := View();
      var popped := PopPendingFifo();
      if popped.None? {
        assert pendingFrames[..pendingCount] == s.pending;
        return None;
      }
      var frame := popped.value;
      assert frame == s.pending[0] && frame in s.pending;
      PendingIsEligible(ranges, eligibleFrames, s, frame);
      if frame > (LIMIT64 - 1) / PAGE {
        assert false;
        return None;
      }
      remainingFrameCount := remainingFrameCount - 1;
      held := held + {frame};
      L.AllocGood(ranges, eligibleFrames, s);
      return Some(frame * PAGE);
    }

    method TryAllocateFresh() returns (r: Option<u64>)
      requires Valid() && (isInitialized ==> remainingFrameCount == 0 || pendingCount == 0)
      modifies this
      ensures Valid() && isInitialized
      ensures r.Some? ==> r.value % PAGE == 0
      ensures (View(), if r.Some? then Some(r.value / PAGE) else None) == L.AllocFrame(ranges, old(View()))
    {
      if !isInitialized {
        SeedFromFrames();
      }
      r := AllocateAtCursor();
    }

    /** The part of the fresh allocation that follows the seeding. */
    method AllocateAtCursor() returns (r: Option<u64>)
      requires Valid() && isInitialized && (remainingFrameCount == 0 || pendingCount == 0)
      modifies this
      ensures Valid() && isInitialized
      ensures r.Some? ==> r.value % PAGE == 0
      ensures (View(), if r.Some? then Some(r.value / PAGE) else None) == L.AllocFrame(ranges, old(View()))
    {
      hide L.Accounted, L.Counted;
      if remainingFrameCount == 0 {
        return None;
      }
      ghost var t := L.AllocFrame(ranges, View()).0;
      L.AllocGood(ranges, eligibleFrames, View());
      OkAreWords(ranges);
      AdvanceToNextEligible();
      if rangeIndex >= |ranges| {
        assert View() == t;
        return None;
      }
      var frame := nextFrameIndex;
      assert RangeOk(ranges[rangeIndex]);
      nextFrameIndex := frame + 1;
      remainingFrameCount := remainingFrameCount - 1;
      held := held + {frame};
      assert View() == t;
      if frame > (LIMIT64 - 1) / PAGE {
        assert false;
        return None;
      }
      return Some(frame * PAGE);
    }

    /** Pending frees first, then the cursor; the address handed out is that of the frame the
        ledger machine names: the head of the supply, which nobody holds. */
    method AllocFrame() returns (r: Option<u64>)
      requires Valid()
      modifies this, pendingFrames
      ensures Valid()
      ensures r.Some? ==> r.value % PAGE == 0
      ensures (View(), if r.Some? then Some(r.value / PAGE) else None) == L.AllocFrame(ranges, old(View()))
      ensures r.Some? <==> old(Supply()) != []
      ensures r.None? ==> Supply() == [] && held == old(held)
      ensures r.Some? ==>
                var f := old(Supply())[0];
                && r.value == f * PAGE && f !in old(held)
                && Supply() == old(Supply())[1..] && held == old(held) + {f}
    {
      ghost var s := View();
      HeadNotHeld(ranges, eligibleFrames, s);
      L.AllocTakesHead(ranges, eligibleFrames, s);
      r := TryAllocateReused();
      if r.Some? {
        return r;
      }
      r := TryAllocateFresh();
    }

    method FindFrameRange(frame: int) returns (found: bool, index: nat)
      requires WordRanges(ranges)
      ensures found <==> Eligible(ranges, frame)
      ensures found ==> index == FirstRange(ranges, frame)
    {
      var i := 0;
      while i < |ranges|
        invariant 0 <= i <= |ranges|
        invariant forall j | 0 <= j < i :: !ranges[j].Has(frame)
      {
        var range := ranges[i];
        if range.count == 0 {
          i := i + 1;
          continue;
        }
        var (sum, overflow) := CheckedAdd64(range.start, range.count);
        var rangeEnd := if overflow then LIMIT64 - 1 else sum;
        if frame >= range.start && frame < rangeEnd {
          FirstRangeIs(ranges, frame, i);
          return true, i;
        }
        i := i + 1;
      }
      FirstRangeIs(ranges, frame, i);
      return false, 0;
    }

    method WasFrameIssued(frame: int) returns (b: bool)
      requires Valid()
      ensures b <==> L.Passed(ranges, View(), frame)
    {
      if !isInitialized {
        SeedPassedNothing(ranges, eligibleFrames, frame);
        return false;
      }
      OkAreWords(ranges);
      var found, index := FindFrameRange(frame);
      if !found {
        return false;
      }
      if rangeIndex >= |ranges| {
        return true;
      }
      if index < rangeIndex {
        return true;
      }
      if index > rangeIndex {
        return false;
      }
      return frame < nextFrameIndex;
    }

    /** Accepts exactly what the ledger machine accepts; under covered ranges that is exactly the
        page address of a held frame while fewer than 64 frees are pending. */
    method FreeFrame(physAddr: u64) returns (ok: bool)
      requires Valid()
      modifies this, pendingFrames
      ensures Valid()
      ensures (View(), ok) == L.FreeFrame(ranges, old(View()), physAddr)
      ensures held == if ok then old(held) - {physAddr / PAGE} else old(held)
      ensures Covered(ranges) ==> (ok <==> L.LegalFree(old(View()), physAddr))
    {
      hide L.Accounted, L.Counted;
      ghost var s := View();
      if Covered(ranges) {
        L.AcceptsExactlyLegal(ranges, eligibleFrames, s, physAddr);
      }
      if physAddr % PAGE != 0 {
        return false;
      }
      if physAddr < POLICY_MIN {
        return false;
      }
      var frame := physAddr / PAGE;
      OkAreWords(ranges);
      var eligible, _ := FindFrameRange(frame);
      if !eligible {
        return false;
      }
      var issued := WasFrameIssued(frame);
      if !issued {
        return false;
      }
      SeedPassedNothing(ranges, eligibleFrames, frame);
      assert isInitialized;
      var i := 0;
      while i < pendingCount
        invariant 0 <= i <= pendingCount
        invariant frame !in pendingFrames[..i]
      {
        if pendingFrames[i] == frame {
          assert frame in s.pending;
          return false;
        }
        i := i + 1;
      }
      assert pendingFrames[..pendingCount] == s.pending;
      if pendingCount >= L.MAX_PENDING {
        return false;
      }
      PushPending(frame);
      return true;
    }

    method PushPending(frame: u64)
      requires Valid() && isInitialized && L.AcceptsFree(ranges, View(), frame * PAGE)
      modifies this`pendingCount, this`remainingFrameCount, this`held, pendingFrames
      ensures Valid() && View() == L.FreeFrame(ranges, old(View()), frame * PAGE).0
    {
      hide L.Accounted, L.Counted;
      ghost var s := View();
      L.FreeGood(ranges, eligibleFrames, s, frame * PAGE);
      RemainingBelowLimit(ranges, eligibleFrames, s);
      pendingFrames[pendingCount] := frame;
      pendingCount := pendingCount + 1;
      held := held - {frame};
      remainingFrameCount := AddClamp64(remainingFrameCount, 1);
      assert pendingFrames[..pendingCount] == s.pending + [frame];
    }

    lemma HeldIsEligible(f: int)
      requires Valid() && f in held
      ensures Eligible(ranges, f)
    {
      assert f in View().held;
      assert L.Passed(ranges, View(), f);
    }

    /** The machine's remaining count, but 0 as long as the lazy seeding has not happened. */
    method GetRemainingFrames() returns (n: u64)
      requires Valid()
      ensures n == if isInitialized then View().remaining else 0
    {
      return remainingFrameCount;
    }
  }

  lemma PendingIsEligible(ranges: seq<FrameRange>, total: int, s: L.Pmm, f: int)
    requires L.SeedOk(ranges, total) && L.Good(ranges, total, s) && f in s.pending
    ensures Eligible(ranges, f) && POLICY_MIN / PAGE <= f < FRAME_LIMIT
  {
    assert L.Passed(ranges, s, f) && RangeOk(ranges[FirstRange(ranges, f)]);
  }

  /** What the allocator hands out next is an eligible frame that nobody holds. */
  lemma HeadNotHeld(ranges: seq<FrameRange>, total: int, s: L.Pmm)
    requires L.SeedOk(ranges, total) && L.Good(ranges, total, s)
    ensures L.Supply(ranges, s) != [] ==> L.Supply(ranges, s)[0] !in s.held && Eligible(ranges, L.Supply(ranges, s)[0])
  {
    if s.pending != [] {
      assert L.Supply(ranges, s)[0] == s.pending[0];
      assert L.Passed(ranges, s, s.pending[0]);
    } else if L.Supply(ranges, s) != [] {
      L.SupplyIsUpcoming(ranges, s);
      UpcomingIncreasing(ranges, s.index, s.next);
      var f := L.Supply(ranges, s)[0];
      assert f in Upcoming(ranges, s.index, s.next);
      var k :| s.index <= k < |ranges| && ranges[k].Has(f);
      assert FirstRange(ranges, f) <= k;
    }
  }

  lemma SeedPassedNothing(ranges: seq<FrameRange>, total: int, f: int)
    requires L.SeedOk(ranges, total)
    ensures !L.Passed(ranges, L.Seed(ranges, total), f)
  {
    if ranges != [] {
      assert RangeOk(ranges[0]);
      L.SeedGood(ranges, total);
    }
  }

  /** The counter cannot saturate. */
  lemma RemainingBelowLimit(ranges: seq<FrameRange>, total: int, s: L.Pmm)
    requires L.SeedOk(ranges, total) && L.Good(ranges, total, s) && |s.pending| < L.MAX_PENDING
    ensures s.remaining + 1 < LIMIT64
  {
  }
}
