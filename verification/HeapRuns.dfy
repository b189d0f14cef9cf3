/** Properties of whole runs of the kernel heap, over every sequence of allocations and frees.
    Whether the pages for a fresh block could be mapped is left open at each allocation. */
module HeapRuns {
  import opened Words
  import opened HeapBlocks

  datatype Op = Alloc(size: u32, canGrow: bool) | Free(p: int)

  function Step(bs: seq<Block>, op: Op): seq<Block> {
    match op
    case Alloc(size, canGrow) => AllocStep(bs, size, canGrow).0
    case Free(p) => FreeStep(bs, p).0
  }

  function Run(bs: seq<Block>, ops: seq<Op>): seq<Block>
    decreases |ops|
  {
    if ops == [] then bs else Run(Step(bs, ops[0]), ops[1..])
  }

  /** The call hands out p. */
  predicate Hands(bs: seq<Block>, op: Op, p: int) {
    op.Alloc? && AllocStep(bs, op.size, op.canGrow).1 == Some(p)
  }

  /** The call takes p back. */
  predicate Takes(bs: seq<Block>, op: Op, p: int) {
    op == Free(p) && FreeStep(bs, p).1
  }

  lemma StepWellFormed(bs: seq<Block>, op: Op)
    requires WellFormed(bs)
    ensures WellFormed(Step(bs, op)) && EndOf(bs) <= EndOf(Step(bs, op))
  {
    match op
    case Alloc(size, canGrow) => AllocWellFormed(bs, size, canGrow);
    case Free(p) => FreeWellFormed(bs, p);
  }

  /** In every reachable state the blocks tile the used heap, and the used heap never shrinks. */
  lemma {:induction false} RunWellFormed(bs: seq<Block>, ops: seq<Op>)
    requires WellFormed(bs)
    ensures WellFormed(Run(bs, ops)) && EndOf(bs) <= EndOf(Run(bs, ops))
    decreases |ops|
  {
    if ops != [] {
      StepWellFormed(bs, ops[0]);
      RunWellFormed(Step(bs, ops[0]), ops[1..]);
    }
  }

  // ---- Conservation ----

  /** Bytes taken by the first k blocks with their headers. */
  function Footprint(bs: seq<Block>, k: nat): int
    requires k <= |bs|
  {
    if k == 0 then 0 else Footprint(bs, k - 1) + HEADER + bs[k - 1].size
  }

  lemma {:induction false} FootprintIsStart(bs: seq<Block>, k: nat)
    requires Chained(bs) && k <= |bs|
    ensures Footprint(bs, k) == StartAt(bs, k) - HEAP_START
  {
    if k > 0 {
      assert Linked(bs, k - 1);
      FootprintIsStart(bs, k - 1);
    }
  }

  /** No byte is lost or counted twice: after any run from the empty heap the headers and payloads
      add up to the distance between the heap start and `current`. */
  lemma Conservation(ops: seq<Op>)
    ensures var bs := Run([], ops);
            Footprint(bs, |bs|) == EndOf(bs) - HEAP_START
  {
    RunWellFormed([], ops);
    FootprintIsStart(Run([], ops), |Run([], ops)|);
  }

  // ---- What one allocation does to the other blocks ----

  lemma ReuseKeeps(bs: seq<Block>, k: nat, n: int, i: nat)
    requires k < |bs| && i < |bs| && i != k
    ensures bs[i] in Reuse(bs, k, n)
  {
    if bs[k].size - n >= MIN_SPLIT {
      SplitAt(bs, k, n, if i < k then i else i + 1);
    } else {
      assert Reuse(bs, k, n)[i] == bs[i];
    }
  }

  lemma ReuseKeepsStart(bs: seq<Block>, k: nat, n: int)
    requires k < |bs|
    ensures exists c :: c in Reuse(bs, k, n) && c.start == bs[k].start && !c.free
                        && (if bs[k].size - n >= MIN_SPLIT then c.size == n else c.size == bs[k].size)
  {
    if bs[k].size - n >= MIN_SPLIT {
      SplitAt(bs, k, n, k);
    }
    assert Reuse(bs, k, n)[k] in Reuse(bs, k, n);
  }

  /** A block that is live stays where it is, with its size, unless this call frees it. */
  lemma StepKeepsLive(bs: seq<Block>, op: Op, b: Block)
    requires WellFormed(bs) && b in bs && !b.free && op != Free(b.Payload())
    ensures b in Step(bs, op)
  {
    var i :| 0 <= i < |bs| && bs[i] == b;
    match op
    case Alloc(size, canGrow) =>
      if size > 0 && AlignUp(size, 8).Some? {
        var n := AlignUp(size, 8).value;
        var k := FirstFit(bs, n);
        if k < |bs| {
          ReuseKeeps(bs, k, n, i);
        }
      }
    case Free(p) =>
      assert Step(bs, op)[i] == b;
  }

  /** History: a live block keeps its extent through any run that does not free it. */
  lemma {:induction false} RunKeepsLive(bs: seq<Block>, ops: seq<Op>, b: Block)
    requires WellFormed(bs) && b in bs && !b.free
    requires forall op | op in ops :: op != Free(b.Payload())
    ensures b in Run(bs, ops)
    decreases |ops|
  {
    if ops != [] {
      assert ops[0] in ops && forall op | op in ops[1..] :: op in ops;
      StepKeepsLive(bs, ops[0], b);
      StepWellFormed(bs, ops[0]);
      RunKeepsLive(Step(bs, ops[0]), ops[1..], b);
    }
  }

  ghost predicate HasStart(bs: seq<Block>, a: int) {
    exists i | 0 <= i < |bs| :: bs[i].start == a
  }

  lemma StepKeepsStart(bs: seq<Block>, op: Op, a: int)
    requires WellFormed(bs) && HasStart(bs, a)
    ensures HasStart(Step(bs, op), a)
  {
    var i :| 0 <= i < |bs| && bs[i].start == a;
    match op
    case Alloc(size, canGrow) =>
      if size > 0 && AlignUp(size, 8).Some? {
        var n := AlignUp(size, 8).value;
        var k := FirstFit(bs, n);
        if k < |bs| {
          if i == k {
            ReuseKeepsStart(bs, k, n);
          } else {
            ReuseKeeps(bs, k, n, i);
          }
        } else {
          assert Append(bs, n)[i] == bs[i];
        }
      }
    case Free(p) =>
      assert Step(bs, op)[i].start == a;
  }

  /** History: block starts are never given up, since nothing coalesces. */
  lemma {:induction false} RunKeepsStart(bs: seq<Block>, ops: seq<Op>, a: int)
    requires WellFormed(bs) && HasStart(bs, a)
    ensures HasStart(Run(bs, ops), a)
    decreases |ops|
  {
    if ops != [] {
      StepKeepsStart(bs, ops[0], a);
      StepWellFormed(bs, ops[0]);
      RunKeepsStart(Step(bs, ops[0]), ops[1..], a);
    }
  }

  // ---- Who holds which payload ----

  lemma ReuseLive(bs: seq<Block>, k: nat, n: int, p: int)
    requires Chained(bs) && k < |bs| && Fits(bs[k], n)
    ensures Live(Reuse(bs, k, n), p) <==> Live(bs, p) || p == bs[k].Payload()
    ensures !Live(bs, bs[k].Payload())
  {
    var cs := Reuse(bs, k, n);
    if Live(bs, p) {
      var i :| 0 <= i < |bs| && bs[i].Payload() == p && !bs[i].free;
      ReuseKeeps(bs, k, n, i);
    }
    if p == bs[k].Payload() {
      ReuseKeepsStart(bs, k, n);
    }
    if Live(cs, p) {
      var i :| 0 <= i < |cs| && cs[i].Payload() == p && !cs[i].free;
      if bs[k].size - n >= MIN_SPLIT {
        SplitAt(bs, k, n, i);
      }
    }
    LiveIsFind(bs, bs[k].Payload());
    if Live(bs, bs[k].Payload()) {
      var i :| 0 <= i < |bs| && bs[i].Payload() == bs[k].Payload() && !bs[i].free;
      StartsDistinct(bs, i, k);
    }
  }

  lemma AppendLive(bs: seq<Block>, n: int, p: int)
    requires Chained(bs)
    ensures Live(Append(bs, n), p) <==> Live(bs, p) || p == EndOf(bs) + HEADER
    ensures !Live(bs, EndOf(bs) + HEADER)
  {
    var cs := Append(bs, n);
    assert cs[|bs|] == Block(EndOf(bs), n, false);
    if Live(bs, p) {
      var i :| 0 <= i < |bs| && bs[i].Payload() == p && !bs[i].free;
      assert cs[i] == bs[i];
    }
    if Live(bs, EndOf(bs) + HEADER) {
      var i :| 0 <= i < |bs| && bs[i].Payload() == EndOf(bs) + HEADER && !bs[i].free;
      assert Linked(bs, i);
      Ordered(bs, i, |bs|);
    }
  }

  /** One call changes the set of live payloads exactly by what it hands out or takes back, and it
      hands out only payloads nobody holds. */
  lemma StepLive(bs: seq<Block>, op: Op, p: int)
    requires WellFormed(bs)
    ensures Live(Step(bs, op), p) <==> Hands(bs, op, p) || (Live(bs, p) && !Takes(bs, op, p))
    ensures Hands(bs, op, p) ==> !Live(bs, p)
    ensures Takes(bs, op, p) ==> Live(bs, p)
  {
    match op
    case Alloc(size, canGrow) =>
      if size > 0 && AlignUp(size, 8).Some? {
        var n := AlignUp(size, 8).value;
        var k := FirstFit(bs, n);
        if k < |bs| {
          ReuseLive(bs, k, n, p);
        } else if EndOf(bs) + HEADER + n <= HEAP_END && canGrow {
          AppendLive(bs, n, p);
        }
      }
    case Free(q) =>
      FreeLive(bs, q, p);
  }

  lemma FreeLive(bs: seq<Block>, q: int, p: int)
    requires WellFormed(bs)
    ensures Live(FreeStep(bs, q).0, p) <==> Live(bs, p) && !(p == q && FreeStep(bs, q).1)
    ensures FreeStep(bs, q).1 <==> Live(bs, q)
  {
    FreeWellFormed(bs, q);
    var cs, k := FreeStep(bs, q).0, Find(bs, q);
    if Live(bs, p) && p != q {
      var i :| 0 <= i < |bs| && bs[i].Payload() == p && !bs[i].free;
      assert cs[i] == bs[i];
    }
    if Live(cs, p) {
      var i :| 0 <= i < |cs| && cs[i].Payload() == p && !cs[i].free;
      assert bs[i].Payload() == p && !bs[i].free;
      if p == q && k < |bs| && !bs[k].free {
        StartsDistinct(bs, i, k);
      }
    }
  }

  /** The calls of a run that concern p, in order: true where p is handed out, false where it is
      taken back. */
  function Events(bs: seq<Block>, ops: seq<Op>, p: int): seq<bool>
    decreases |ops|
  {
    if ops == [] then []
    else
      (if Hands(bs, ops[0], p) then [true] else if Takes(bs, ops[0], p) then [false] else [])
      + Events(Step(bs, ops[0]), ops[1..], p)
  }

  predicate Alternating(events: seq<bool>, first: bool) {
    events == [] || (events[0] == first && Alternating(events[1..], !first))
  }

  /** In every run, and for every address, allocations returning it and accepted frees of it
      strictly alternate; the first event is an allocation unless the address is live already. */
  lemma {:induction false} AllocationsAndFreesAlternate(bs: seq<Block>, ops: seq<Op>, p: int)
    requires WellFormed(bs)
    ensures Alternating(Events(bs, ops, p), !Live(bs, p))
    decreases |ops|
  {
    if ops != [] {
      StepLive(bs, ops[0], p);
      StepWellFormed(bs, ops[0]);
      AllocationsAndFreesAlternate(Step(bs, ops[0]), ops[1..], p);
      var rest := Events(Step(bs, ops[0]), ops[1..], p);
      if Hands(bs, ops[0], p) {
        assert Events(bs, ops, p) == [true] + rest && ([true] + rest)[1..] == rest;
      } else if Takes(bs, ops[0], p) {
        assert Events(bs, ops, p) == [false] + rest && ([false] + rest)[1..] == rest;
      } else {
        assert Events(bs, ops, p) == rest;
      }
    }
  }

  /** A call hands out nothing exactly when the request is empty, does not survive rounding, or
      neither a freed block nor the end of the heap can take it; then no block changes. The block
      it does hand out exceeds the request by at most 23 bytes, and `current` moves only if no
      freed block fits. */
  lemma AllocOutcome(bs: seq<Block>, size: u32, canGrow: bool)
    requires WellFormed(bs)
    ensures var (cs, r) := AllocStep(bs, size, canGrow);
            && (r.None? <==>
                size == 0 || AlignUp(size, 8).None?
                || ((forall b | b in bs :: !Fits(b, AlignUp(size, 8).value))
                    && !(EndOf(bs) + HEADER + AlignUp(size, 8).value <= HEAP_END && canGrow)))
            && (r.None? ==> cs == bs)
            && (r.Some? ==> exists c ::
                    c in cs && !c.free && c.Payload() == r.value && size <= c.size <= size + 23)
            && (r.Some? && EndOf(cs) != EndOf(bs) ==>
                r.value == EndOf(bs) + HEADER && forall b | b in bs :: !Fits(b, AlignUp(size, 8).value))
            && (r.Some? && EndOf(cs) == EndOf(bs) ==> exists b ::
                    b in bs && Fits(b, AlignUp(size, 8).value) && b.Payload() == r.value
                    && forall e | e in bs && Fits(e, AlignUp(size, 8).value) :: b.start <= e.start)
  {
    hide AlignUp, Chained, Reuse;
    if size > 0 && AlignUp(size, 8).Some? {
      var n := AlignUp(size, 8).value;
      var k := FirstFit(bs, n);
      if k < |bs| {
        ReuseChained(bs, k, n);
        ReuseKeepsStart(bs, k, n);
        assert bs[k].size % 8 == 0;
        forall e | e in bs && Fits(e, n) ensures bs[k].start <= e.start {
          var i :| 0 <= i < |bs| && bs[i] == e;
          StartsIncrease(bs, k, i);
        }
        assert bs[k] in bs;
      } else if EndOf(bs) + HEADER + n <= HEAP_END && canGrow {
        AppendWellFormed(bs, n);
        assert Append(bs, n)[|bs|] == Block(EndOf(bs), n, false);
      }
    }
  }

  // ---- Re-allocation stability ----

  /** p holds n bytes too tightly to be split, and every freed block before it is too small. */
  ghost predicate Settled(bs: seq<Block>, p: int, n: int, k: nat) {
    && k < |bs| && bs[k].Payload() == p && !bs[k].free && n <= bs[k].size < n + MIN_SPLIT
    && forall i | 0 <= i < k :: !Fits(bs[i], n)
  }

  lemma HandsSettled(bs: seq<Block>, size: u32, canGrow: bool, p: int) returns (k: nat)
    requires WellFormed(bs) && AllocStep(bs, size, canGrow).1 == Some(p)
    ensures Settled(AllocStep(bs, size, canGrow).0, p, AlignUp(size, 8).value, k)
  {
    var n := AlignUp(size, 8).value;
    k := FirstFit(bs, n);
    if k < |bs| {
      var cs := Reuse(bs, k, n);
      forall i | 0 <= i <= k ensures i < k ==> !Fits(cs[i], n) {
        if bs[k].size - n >= MIN_SPLIT {
          SplitAt(bs, k, n, i);
        }
      }
      if bs[k].size - n >= MIN_SPLIT {
        SplitAt(bs, k, n, k);
      }
    }
  }

  lemma AllocKeepsSettled(bs: seq<Block>, size: u32, canGrow: bool, p: int, n: int, k: nat) returns (k': nat)
    requires WellFormed(bs) && Settled(bs, p, n, k) && n > 0
    ensures Settled(AllocStep(bs, size, canGrow).0, p, n, k')
  {
    k' := k;
    if size > 0 && AlignUp(size, 8).Some? {
      var m := AlignUp(size, 8).value;
      var j := FirstFit(bs, m);
      if j < |bs| && bs[j].size - m >= MIN_SPLIT {
        k' := if j < k then k + 1 else k;
        SplitAt(bs, j, m, k');
        forall i | 0 <= i < k' ensures !Fits(Reuse(bs, j, m)[i], n) {
          SplitAt(bs, j, m, i);
        }
      }
    }
  }

  lemma {:induction false} RunKeepsSettled(bs: seq<Block>, ops: seq<Op>, p: int, n: int, k: nat) returns (k': nat)
    requires WellFormed(bs) && Settled(bs, p, n, k) && n > 0
    requires forall op | op in ops :: op.Alloc?
    ensures Settled(Run(bs, ops), p, n, k')
    decreases |ops|
  {
    k' := k;
    if ops != [] {
      assert ops[0] in ops;
      var k1 := AllocKeepsSettled(bs, ops[0].size, ops[0].canGrow, p, n, k);
      StepWellFormed(bs, ops[0]);
      k' := RunKeepsSettled(Step(bs, ops[0]), ops[1..], p, n, k1);
    }
  }

  lemma SettledReturns(bs: seq<Block>, p: int, size: u32, canGrow: bool, k: nat)
    requires WellFormed(bs) && size > 0 && AlignUp(size, 8).Some? && Settled(bs, p, AlignUp(size, 8).value, k)
    ensures FreeStep(bs, p).1
    ensures AllocStep(FreeStep(bs, p).0, size, canGrow) == (bs, Some(p))
  {
    var n := AlignUp(size, 8).value;
    StartsDistinct(bs, Find(bs, p), k) by {
      assert Find(bs, p) <= k;
    }
    var cs := FreeStep(bs, p).0;
    FirstFitIs(cs, n, k);
    assert cs[k := cs[k].(free := false)] == bs;
  }

  /** If alloc(size) returned p, then after any further allocations free(p) succeeds and the next
      alloc(size) returns p again, leaving every block as it was before the free. */
  lemma ReallocationStable(bs: seq<Block>, size: u32, canGrow: bool, p: int, later: seq<Op>, canGrowAgain: bool)
    requires WellFormed(bs) && AllocStep(bs, size, canGrow).1 == Some(p)
    requires forall op | op in later :: op.Alloc?
    ensures var cs := Run(AllocStep(bs, size, canGrow).0, later);
            FreeStep(cs, p).1 && AllocStep(FreeStep(cs, p).0, size, canGrowAgain) == (cs, Some(p))
  {
    HeapAlignments();
    var bs1 := AllocStep(bs, size, canGrow).0;
    var k := HandsSettled(bs, size, canGrow, p);
    AllocWellFormed(bs, size, canGrow);
    var k' := RunKeepsSettled(bs1, later, p, AlignUp(size, 8).value, k);
    RunWellFormed(bs1, later);
    SettledReturns(Run(bs1, later), p, size, canGrowAgain, k');
  }
}
