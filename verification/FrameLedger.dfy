/** The physical frame allocator as a state machine, beside the ledger of held frames that the
    kernel does not keep. Class FrameAllocator carries out these steps on its arrays. */
module FrameLedger {
  import opened Words
  import opened FrameCursor

  const MAX_PENDING := 64

  /** `held` is the missing ledger: frames handed out and not yet taken back. */
  datatype Pmm = Pmm(index: nat, next: int, remaining: int, pending: seq<int>, held: set<int>)

  /** Ranges and the eligible-frame count delivered by Stage 5C; the count includes dropped ranges. */
  ghost predicate SeedOk(ranges: seq<FrameRange>, total: int) {
    RangesOk(ranges) && FrameTotal(ranges, 0) <= total < LIMIT64 - MAX_PENDING
  }

  function Seed(ranges: seq<FrameRange>, total: int): Pmm {
    var (i, n) := if ranges == [] || total == 0 then (0, 0) else Advance(ranges, 0, ranges[0].start);
    Pmm(i, n, total, [], {})
  }

  /** Pending frees first, in the order they came in; then the cursor. */
  function AllocFrame(ranges: seq<FrameRange>, s: Pmm): (r: (Pmm, Option<int>))
    requires s.index <= |ranges|
    ensures r.0.index <= |ranges|
  {
    if s.remaining == 0 then (s, None)
    else if s.pending != [] then
      (s.(remaining := s.remaining - 1, pending := s.pending[1..], held := s.held + {s.pending[0]}),
       Some(s.pending[0]))
    else
      var (i, f) := Advance(ranges, s.index, s.next);
      if i == |ranges| then (s.(index := i, next := f), None)
      else (s.(index := i, next := f + 1, remaining := s.remaining - 1, held := s.held + {f}), Some(f))
  }

  /** "Already issued", as the kernel decides it from the cursor alone. */
  predicate Passed(ranges: seq<FrameRange>, s: Pmm, f: int) {
    var j := FirstRange(ranges, f);
    j < |ranges| && (s.index >= |ranges| || j < s.index || (j == s.index && f < s.next))
  }

  predicate AcceptsFree(ranges: seq<FrameRange>, s: Pmm, addr: int) {
    && addr % PAGE == 0 && addr >= POLICY_MIN
    && Passed(ranges, s, addr / PAGE)
    && addr / PAGE !in s.pending
    && |s.pending| < MAX_PENDING
  }

  function FreeFrame(ranges: seq<FrameRange>, s: Pmm, addr: int): (r: (Pmm, bool))
    requires s.index <= |ranges|
    ensures r.0.index <= |ranges|
  {
    if AcceptsFree(ranges, s, addr) then
      (s.(remaining := s.remaining + 1, pending := s.pending + [addr / PAGE], held := s.held - {addr / PAGE}), true)
    else (s, false)
  }

  /** Frames the next allocations will return, in order. */
  function Supply(ranges: seq<FrameRange>, s: Pmm): seq<int>
    requires s.index <= |ranges|
  {
    s.pending + Upcoming(ranges, s.index, s.next)
  }

  ghost predicate Distinct(q: seq<int>) {
    forall a, b | 0 <= a < b < |q| :: q[a] != q[b]
  }

  /** The cursor is not beyond the range it stands in, and beyond every range it has left. */
  ghost predicate CursorOk(ranges: seq<FrameRange>, i: nat, next: int) {
    && i <= |ranges|
    && (i < |ranges| ==> next <= ranges[i].End())
    && forall k | 0 <= k < i :: ranges[k].End() <= next
  }

  /** Held, pending and upcoming frames are apart, and the issued ones are held or pending. */
  ghost predicate Accounted(ranges: seq<FrameRange>, s: Pmm)
    requires s.index <= |ranges|
  {
    var upcoming, all := Upcoming(ranges, s.index, s.next), Upcoming(ranges, 0, 0);
    && (forall f | f in s.pending :: f !in s.held)
    && (forall f | f in s.pending || f in s.held :: Passed(ranges, s, f) && f !in upcoming)
    && (forall f | f in all :: f in upcoming || f in s.pending || f in s.held)
    && (forall f | f in upcoming :: f in all)
  }

  /** The remaining count exceeds the supply by as much as the initial count exceeded the frames
      the cursor can issue. */
  ghost predicate Counted(ranges: seq<FrameRange>, total: int, s: Pmm)
    requires s.index <= |ranges|
  {
    && s.remaining - |s.pending| - |Upcoming(ranges, s.index, s.next)| == total - |Upcoming(ranges, 0, 0)|
    && |Upcoming(ranges, s.index, s.next)| <= |Upcoming(ranges, 0, 0)|
  }

  ghost predicate Good(ranges: seq<FrameRange>, total: int, s: Pmm) {
    && CursorOk(ranges, s.index, s.next)
    && |s.pending| <= MAX_PENDING && Distinct(s.pending)
    && Accounted(ranges, s)
    && Counted(ranges, total, s)
  }

  // ---- The invariant holds in every run ----

  lemma {:induction false} AdvanceCursorOk(ranges: seq<FrameRange>, i: nat, next: int)
    requires RangesOk(ranges) && i <= |ranges|
    requires forall k | 0 <= k < i :: ranges[k].End() <= next
    ensures var (j, n) := Advance(ranges, i, next);
            CursorOk(ranges, j, n)
    decreases |ranges| - i
  {
    if i < |ranges| {
      assert RangeOk(ranges[i]);
      var lo := Max(next, ranges[i].start);
      if lo >= ranges[i].End() {
        AdvanceCursorOk(ranges, i + 1, lo);
      }
    }
  }

  lemma PassedIsMonotone(ranges: seq<FrameRange>, s: Pmm, t: Pmm, f: int)
    requires Passed(ranges, s, f) && s.index <= t.index && s.next <= t.next
    ensures Passed(ranges, t, f)
  {
  }

  /** What the cursor will still issue it has not passed. */
  lemma UpcomingNotPassed(ranges: seq<FrameRange>, s: Pmm, f: int)
    requires CursorOk(ranges, s.index, s.next) && Passed(ranges, s, f)
    ensures f !in Upcoming(ranges, s.index, s.next)
  {
    UpcomingIncreasing(ranges, s.index, s.next);
    if s.index < |ranges| && FirstRange(ranges, f) < s.index {
      assert ranges[FirstRange(ranges, f)].End() <= s.next;
    }
  }

  /** Once at a frame of its range, the cursor has passed that frame by moving one further. */
  lemma IssuedIsPassed(ranges: seq<FrameRange>, s: Pmm, f: int)
    requires s.index < |ranges| && ranges[s.index].Has(f) && f < s.next
    ensures Passed(ranges, s, f)
  {
    assert FirstRange(ranges, f) <= s.index;
  }

  lemma UpcomingFromStart(ranges: seq<FrameRange>)
    requires ranges != [] && RangesOk(ranges)
    ensures Upcoming(ranges, 0, ranges[0].start) == Upcoming(ranges, 0, 0)
  {
    assert RangeOk(ranges[0]);
  }

  lemma SeedGood(ranges: seq<FrameRange>, total: int)
    requires SeedOk(ranges, total)
    ensures Good(ranges, total, Seed(ranges, total))
    ensures ranges != [] ==> total > 0
  {
    var s := Seed(ranges, total);
    if ranges != [] {
      assert RangeOk(ranges[0]);
      CountUpcoming(ranges, 0, 0);
      assert ranges[0].count > 0;
      TotalNotNegative(ranges, 1);
      UpcomingFromStart(ranges);
      AdvanceKeepsUpcoming(ranges, 0, ranges[0].start);
      AdvanceCursorOk(ranges, 0, ranges[0].start);
    }
    assert Supply(ranges, s) == Upcoming(ranges, s.index, s.next);
  }

  lemma {:induction false} TotalNotNegative(ranges: seq<FrameRange>, i: nat)
    requires RangesOk(ranges) && i <= |ranges|
    ensures FrameTotal(ranges, i) >= 0
    decreases |ranges| - i
  {
    if i < |ranges| {
      assert RangeOk(ranges[i]);
      TotalNotNegative(ranges, i + 1);
    }
  }

  /** An allocation returns the head of the supply and moves it to the ledger, or finds nothing. */
  lemma AllocTakesHead(ranges: seq<FrameRange>, total: int, s: Pmm)
    requires SeedOk(ranges, total) && s.index <= |ranges| && Counted(ranges, total, s)
    ensures var (t, r) := AllocFrame(ranges, s);
            if Supply(ranges, s) == [] then r == None && t.held == s.held && Supply(ranges, t) == []
            else r == Some(Supply(ranges, s)[0]) && Supply(ranges, t) == Supply(ranges, s)[1..]
                 && t.held == s.held + {Supply(ranges, s)[0]}
    ensures var (t, r) := AllocFrame(ranges, s);
            t.remaining == s.remaining - (if r.Some? then 1 else 0)
  {
    TotalExactIffSorted(ranges);
    if s.remaining == 0 {
      assert |Supply(ranges, s)| == 0;
    } else if s.pending == [] {
      AllocFresh(ranges, s);
    } else {
      assert Supply(ranges, s)[1..] == s.pending[1..] + Upcoming(ranges, s.index, s.next);
    }
  }

  lemma AllocFresh(ranges: seq<FrameRange>, s: Pmm)
    requires RangesOk(ranges) && s.index <= |ranges| && s.remaining != 0 && s.pending == []
    ensures var (t, r) := AllocFrame(ranges, s);
            && t.pending == []
            && if Supply(ranges, s) == [] then t.index == |ranges| && t.held == s.held && r == None && Supply(ranges, t) == []
               else r == Some(Supply(ranges, s)[0]) && Supply(ranges, t) == Supply(ranges, s)[1..]
                    && t.held == s.held + {Supply(ranges, s)[0]} && t.remaining == s.remaining - 1
  {
    var (i, f) := Advance(ranges, s.index, s.next);
    AdvanceFindsNext(ranges, s.index, s.next);
    SupplyIsUpcoming(ranges, s);
    var t := AllocFrame(ranges, s).0;
    SupplyIsUpcoming(ranges, t);
  }

  lemma SupplyIsUpcoming(ranges: seq<FrameRange>, s: Pmm)
    requires s.index <= |ranges| && s.pending == []
    ensures Supply(ranges, s) == Upcoming(ranges, s.index, s.next)
  {
  }

  lemma AllocGood(ranges: seq<FrameRange>, total: int, s: Pmm)
    requires SeedOk(ranges, total) && Good(ranges, total, s)
    ensures Good(ranges, total, AllocFrame(ranges, s).0)
  {
    if s.remaining != 0 {
      if s.pending != [] {
        PopGood(ranges, total, s);
      } else {
        FreshGood(ranges, total, s);
      }
    }
  }

  lemma PopGood(ranges: seq<FrameRange>, total: int, s: Pmm)
    requires Good(ranges, total, s) && s.remaining != 0 && s.pending != []
    ensures Good(ranges, total, AllocFrame(ranges, s).0)
  {
    var t := AllocFrame(ranges, s).0;
    assert s.pending == [s.pending[0]] + t.pending;
    assert Distinct(t.pending);
    forall f | f in t.pending || f in t.held ensures Passed(ranges, t, f) {
      assert Passed(ranges, s, f);
    }
  }

  lemma FreshStep(ranges: seq<FrameRange>, s: Pmm) returns (issued: seq<int>)
    requires RangesOk(ranges) && CursorOk(ranges, s.index, s.next) && s.remaining != 0 && s.pending == []
    ensures var t := AllocFrame(ranges, s).0;
            && CursorOk(ranges, t.index, t.next) && s.index <= t.index && s.next <= t.next
            && Upcoming(ranges, s.index, s.next) == issued + Upcoming(ranges, t.index, t.next)
            && t.pending == [] && t.remaining == s.remaining - |issued|
            && t.held == s.held + (set f | f in issued)
            && forall f | f in issued :: Passed(ranges, t, f)
  {
    var t := AllocFrame(ranges, s).0;
    var (i, f) := Advance(ranges, s.index, s.next);
    AdvanceCursorOk(ranges, s.index, s.next);
    AdvanceFindsNext(ranges, s.index, s.next);
    issued := [];
    if i < |ranges| {
      issued := [f];
      IssuedIsPassed(ranges, t, f);
    }
  }

  lemma FreshGood(ranges: seq<FrameRange>, total: int, s: Pmm)
    requires SeedOk(ranges, total) && Good(ranges, total, s) && s.remaining != 0 && s.pending == []
    ensures Good(ranges, total, AllocFrame(ranges, s).0)
  {
    var issued := FreshStep(ranges, s);
    FreshAccounted(ranges, s, AllocFrame(ranges, s).0, issued);
  }

  lemma FreshAccounted(ranges: seq<FrameRange>, s: Pmm, t: Pmm, issued: seq<int>)
    requires s.index <= |ranges| && Accounted(ranges, s) && s.pending == t.pending == []
    requires CursorOk(ranges, t.index, t.next) && s.index <= t.index && s.next <= t.next
    requires t.held == s.held + (set f | f in issued)
    requires forall f | f in issued :: Passed(ranges, t, f)
    requires Upcoming(ranges, s.index, s.next) == issued + Upcoming(ranges, t.index, t.next)
    ensures Accounted(ranges, t)
  {
    forall g | g in t.held ensures Passed(ranges, t, g) && g !in Upcoming(ranges, t.index, t.next) {
      if g in s.held {
        PassedIsMonotone(ranges, s, t, g);
      }
      UpcomingNotPassed(ranges, t, g);
    }
  }

  lemma FreeGood(ranges: seq<FrameRange>, total: int, s: Pmm, addr: int)
    requires Good(ranges, total, s)
    ensures Good(ranges, total, FreeFrame(ranges, s, addr).0)
  {
    var t := FreeFrame(ranges, s, addr).0;
    if AcceptsFree(ranges, s, addr) {
      var f := addr / PAGE;
      UpcomingNotPassed(ranges, s, f);
      assert t.pending == s.pending + [f];
      forall g | g in t.pending || g in t.held ensures Passed(ranges, t, g) && g !in Upcoming(ranges, t.index, t.next) {
        assert g == f || g in s.pending || g in s.held;
      }
    }
  }

  datatype Op = Alloc | Free(addr: int)

  function Step(ranges: seq<FrameRange>, s: Pmm, op: Op): (t: Pmm)
    requires s.index <= |ranges|
    ensures t.index <= |ranges|
  {
    match op
    case Alloc => AllocFrame(ranges, s).0
    case Free(addr) => FreeFrame(ranges, s, addr).0
  }

  function Run(ranges: seq<FrameRange>, s: Pmm, ops: seq<Op>): (t: Pmm)
    requires s.index <= |ranges|
    ensures t.index <= |ranges|
    decreases |ops|
  {
    if ops == [] then s else Run(ranges, Step(ranges, s, ops[0]), ops[1..])
  }

  lemma {:induction false} RunGood(ranges: seq<FrameRange>, total: int, s: Pmm, ops: seq<Op>)
    requires SeedOk(ranges, total) && Good(ranges, total, s)
    ensures Good(ranges, total, Run(ranges, s, ops))
    decreases |ops|
  {
    if ops != [] {
      match ops[0] {
        case Alloc => AllocGood(ranges, total, s);
        case Free(addr) => FreeGood(ranges, total, s, addr);
      }
      RunGood(ranges, total, Step(ranges, s, ops[0]), ops[1..]);
    }
  }

  // ---- The ledger-free check against the ledger ----

  /** Under covered ranges, having been passed by the cursor is the same as having been issued, and
      every issued frame is either held or pending. */
  lemma PassedIsHeldOrPending(ranges: seq<FrameRange>, total: int, s: Pmm, f: int)
    requires SeedOk(ranges, total) && Good(ranges, total, s) && Covered(ranges)
    ensures Passed(ranges, s, f) <==> f in s.held || f in s.pending
  {
    if Passed(ranges, s, f) {
      IssuesAllIffCovered(ranges);
      assert Eligible(ranges, f) && f in Upcoming(ranges, 0, 0);
      UpcomingNotPassed(ranges, s, f);
    }
  }

  /** A free is legal when it names the page address of a held frame and the queue has room. */
  ghost predicate LegalFree(s: Pmm, addr: int) {
    addr % PAGE == 0 && addr / PAGE in s.held && |s.pending| < 64
  }

  lemma AcceptsExactlyLegal(ranges: seq<FrameRange>, total: int, s: Pmm, addr: int)
    requires SeedOk(ranges, total) && Good(ranges, total, s) && Covered(ranges)
    ensures AcceptsFree(ranges, s, addr) <==> LegalFree(s, addr)
  {
    var f := addr / PAGE;
    PassedIsHeldOrPending(ranges, total, s, f);
    if f in s.held {
      assert Passed(ranges, s, f) && RangeOk(ranges[FirstRange(ranges, f)]);
    }
  }

  /** Allocations alone drive the cursor past every range while the reported count is too high. */
  lemma {:induction false} Drain(ranges: seq<FrameRange>, total: int, s: Pmm) returns (ops: seq<Op>)
    requires SeedOk(ranges, total) && Good(ranges, total, s) && s.pending == []
    requires |Upcoming(ranges, 0, 0)| < total
    ensures Run(ranges, s, ops).index == |ranges| && Run(ranges, s, ops).pending == []
    ensures Run(ranges, s, ops).held <= s.held + (set f | f in Upcoming(ranges, s.index, s.next))
    decreases |Upcoming(ranges, s.index, s.next)|
  {
    var t := AllocFrame(ranges, s).0;
    TotalExactIffSorted(ranges);
    AllocFresh(ranges, s);
    SupplyIsUpcoming(ranges, s);
    SupplyIsUpcoming(ranges, t);
    var upcoming := Upcoming(ranges, s.index, s.next);
    if upcoming == [] {
      ops := [Alloc];
      assert Run(ranges, t, ops[1..]) == t;
    } else {
      AllocGood(ranges, total, s);
      var rest := Drain(ranges, total, t);
      ops := [Alloc] + rest;
      assert ops[1..] == rest;
      assert upcoming == [upcoming[0]] + upcoming[1..];
    }
  }

  /** The ledger-free check agrees with the ledger in every reachable state if and only if the
      ranges are covered. Sorted disjoint ranges are; ranges out of order in general are not. */
  lemma LedgerFreeCheckExactIffCovered(ranges: seq<FrameRange>, total: int)
    requires SeedOk(ranges, total)
    ensures (forall ops, addr :: AcceptsFree(ranges, Run(ranges, Seed(ranges, total), ops), addr)
                                 <==> LegalFree(Run(ranges, Seed(ranges, total), ops), addr))
            <==> Covered(ranges)
  {
    SeedGood(ranges, total);
    var s0 := Seed(ranges, total);
    if Covered(ranges) {
      forall ops, addr
        ensures AcceptsFree(ranges, Run(ranges, s0, ops), addr) <==> LegalFree(Run(ranges, s0, ops), addr)
      {
        RunGood(ranges, total, s0, ops);
        AcceptsExactlyLegal(ranges, total, Run(ranges, s0, ops), addr);
      }
    } else {
      var ops, addr := NeverIssuedAccepted(ranges, total);
    }
  }

  /** Two ranges of one frame each, the later one lower: not covered. */
  lemma OutOfOrderExample()
    ensures var ranges := [FrameRange(0x300, 1), FrameRange(0x200, 1)];
            SeedOk(ranges, 2) && !Covered(ranges) && !SortedDisjoint(ranges)
  {
    var ranges := [FrameRange(0x300, 1), FrameRange(0x200, 1)];
    assert FrameTotal(ranges, 1) == 1 + FrameTotal(ranges, 2);
    FirstRangeIs(ranges, 0x200, 1);
    assert Eligible(ranges, 0x200) && ranges[0].End() > 0x200;
  }

  /** Without coverage some frame is never handed out and yet accepted back. */
  lemma NeverIssuedAccepted(ranges: seq<FrameRange>, total: int) returns (ops: seq<Op>, addr: int)
    requires SeedOk(ranges, total) && !Covered(ranges)
    ensures var s := Run(ranges, Seed(ranges, total), ops);
            AcceptsFree(ranges, s, addr) && addr / PAGE !in s.held
  {
    hide Accounted, Counted;
    IssuesAllIffCovered(ranges);
    var f :| Eligible(ranges, f) && f !in Upcoming(ranges, 0, 0);
    assert RangeOk(ranges[FirstRange(ranges, f)]);
    TotalExactIffSorted(ranges);
    SeedGood(ranges, total);
    var s0 := Seed(ranges, total);
    ops := Drain(ranges, total, s0);
    addr := f * PAGE;
    assert f !in Upcoming(ranges, s0.index, s0.next);
  }

  // ---- Order of hand-outs ----

  /** What n allocations in a row return. */
  function Handed(ranges: seq<FrameRange>, s: Pmm, n: nat): seq<Option<int>>
    requires s.index <= |ranges|
    decreases n
  {
    if n == 0 then [] else [AllocFrame(ranges, s).1] + Handed(ranges, AllocFrame(ranges, s).0, n - 1)
  }

  /** n allocations in a row return the pending frees, oldest first, then the frames the cursor
      comes to, and nothing once both are used up. */
  lemma {:induction false} AllocationsFollowSupply(ranges: seq<FrameRange>, total: int, s: Pmm, n: nat)
    requires SeedOk(ranges, total) && Good(ranges, total, s)
    ensures |Handed(ranges, s, n)| == n
    ensures forall k | 0 <= k < n ::
              Handed(ranges, s, n)[k] == if k < |Supply(ranges, s)| then Some(Supply(ranges, s)[k]) else None
    decreases n
  {
    hide Good, AllocFrame;
    GoodParts(ranges, total, s);
    if n > 0 {
      var (t, r) := AllocFrame(ranges, s);
      AllocGood(ranges, total, s);
      AllocTakesHead(ranges, total, s);
      AllocationsFollowSupply(ranges, total, t, n - 1);
      assert Handed(ranges, s, n) == [r] + Handed(ranges, t, n - 1);
    }
  }

  lemma GoodParts(ranges: seq<FrameRange>, total: int, s: Pmm)
    requires Good(ranges, total, s)
    ensures s.index <= |ranges| && Counted(ranges, total, s)
  {
  }

  /** An accepted free joins the queue behind all pending frees and ahead of every fresh frame. */
  lemma FreeJoinsQueue(ranges: seq<FrameRange>, total: int, s: Pmm, addr: int)
    requires SeedOk(ranges, total) && Good(ranges, total, s) && AcceptsFree(ranges, s, addr)
    ensures Supply(ranges, FreeFrame(ranges, s, addr).0) == s.pending + [addr / PAGE] + Upcoming(ranges, s.index, s.next)
    ensures Good(ranges, total, FreeFrame(ranges, s, addr).0)
  {
    FreeGood(ranges, total, s, addr);
  }

  // ---- Conservation ----

  /** Held, pending and not-yet-issued frames are pairwise disjoint, and under covered ranges they
      make up exactly the eligible frames. */
  lemma FramesPartitioned(ranges: seq<FrameRange>, total: int, ops: seq<Op>, f: int)
    requires SeedOk(ranges, total)
    ensures var s := Run(ranges, Seed(ranges, total), ops);
            var unissued := Upcoming(ranges, s.index, s.next);
            && !(f in s.held && f in s.pending)
            && !(f in unissued && (f in s.held || f in s.pending))
            && (Covered(ranges) ==> (Eligible(ranges, f) <==> f in s.held || f in s.pending || f in unissued))
  {
    SeedGood(ranges, total);
    RunGood(ranges, total, Seed(ranges, total), ops);
    IssuesAllIffCovered(ranges);
    var s := Run(ranges, Seed(ranges, total), ops);
    UpcomingIncreasing(ranges, s.index, s.next);
  }

  /** No frame is handed out while it is held. */
  lemma NeverHandsOutHeld(ranges: seq<FrameRange>, total: int, ops: seq<Op>)
    requires SeedOk(ranges, total)
    ensures var s := Run(ranges, Seed(ranges, total), ops);
            AllocFrame(ranges, s).1.Some? ==> AllocFrame(ranges, s).1.value !in s.held
  {
    SeedGood(ranges, total);
    RunGood(ranges, total, Seed(ranges, total), ops);
    var s := Run(ranges, Seed(ranges, total), ops);
    AllocTakesHead(ranges, total, s);
    if s.pending == [] {
      SupplyIsUpcoming(ranges, s);
    } else {
      assert Supply(ranges, s)[0] == s.pending[0];
    }
  }

  lemma {:induction false} DistinctCard(q: seq<int>)
    requires Distinct(q)
    ensures |set f | f in q| == |q|
  {
    if q != [] {
      var init := q[..|q| - 1];
      DistinctCard(init);
      assert (set f | f in q) == (set f | f in init) + {q[|q| - 1]};
    }
  }

  /** Every frame counted at the start is held, pending or still to be issued: with covered ranges
      held + supply is the number of frames the cursor issues in all. */
  lemma HeldPlusSupply(ranges: seq<FrameRange>, total: int, s: Pmm)
    requires SeedOk(ranges, total) && Good(ranges, total, s) && Covered(ranges)
    ensures |s.held| + |Supply(ranges, s)| == |Upcoming(ranges, 0, 0)|
  {
    var all, unissued := Upcoming(ranges, 0, 0), Upcoming(ranges, s.index, s.next);
    forall f | f in s.held || f in s.pending ensures f in all && f !in unissued {
      assert Passed(ranges, s, f);
      IssuesAllIffCovered(ranges);
      assert Eligible(ranges, f);
    }
    UpcomingIncreasing(ranges, 0, 0);
    UpcomingIncreasing(ranges, s.index, s.next);
    CardOfParts(all, s.pending, unissued, s.held);
  }

  lemma CardOfParts(all: seq<int>, p: seq<int>, u: seq<int>, H: set<int>)
    requires Distinct(all) && Distinct(p) && Distinct(u)
    requires forall f | f in all :: f in p || f in u || f in H
    requires forall f | f in p || f in u || f in H :: f in all
    requires forall f | f in p || f in u :: f !in H
    requires forall f | f in p :: f !in u
    ensures |H| + |p + u| == |all|
  {
    DistinctCard(all);
    DistinctCard(p);
    DistinctCard(u);
    var A, P, U := (set f | f in all), (set f | f in p), (set f | f in u);
    assert A == P + U + H;
    assert |P + U| == |P| + |U|;
    assert |P + U + H| == |P + U| + |H|;
  }

  /** The remaining count tells the truth about whether an allocation will succeed, in every
      reachable state, if and only if it started at the number of frames the cursor issues, that is,
      if and only if the ranges are sorted and disjoint and none was dropped. Then eligible frames
      are conserved: held plus remaining is the eligible count. */
  lemma RemainingExactIffSortedAndComplete(ranges: seq<FrameRange>, total: int)
    requires SeedOk(ranges, total)
    ensures (forall ops :: var s := Run(ranges, Seed(ranges, total), ops);
                           AllocFrame(ranges, s).1.Some? <==> s.remaining > 0)
            <==> SortedDisjoint(ranges) && total == FrameTotal(ranges, 0)
    ensures SortedDisjoint(ranges) && total == FrameTotal(ranges, 0) ==>
              forall ops :: var s := Run(ranges, Seed(ranges, total), ops);
                            |s.held| + s.remaining == total && s.remaining == |Supply(ranges, s)|
  {
    SeedGood(ranges, total);
    TotalExactIffSorted(ranges);
    var s0 := Seed(ranges, total);
    if SortedDisjoint(ranges) && total == FrameTotal(ranges, 0) {
      SortedIsCovered(ranges);
      forall ops
        ensures var s := Run(ranges, s0, ops);
                && (AllocFrame(ranges, s).1.Some? <==> s.remaining > 0)
                && |s.held| + s.remaining == total && s.remaining == |Supply(ranges, s)|
      {
        RunGood(ranges, total, s0, ops);
        AllocTakesHead(ranges, total, Run(ranges, s0, ops));
        HeldPlusSupply(ranges, total, Run(ranges, s0, ops));
      }
    } else {
      var ops := Drain(ranges, total, s0);
      var s := Run(ranges, s0, ops);
      RunGood(ranges, total, s0, ops);
      assert AllocFrame(ranges, s).1.None? && s.remaining > 0;
    }
  }
}
