/** Stage 5B: firmware memory-map entries become stored regions with policy flags and totals. */
module MemoryRegions {
  import opened Words

  const AVAILABLE := 1
  const MAX_REGIONS := 128

  datatype Entry = Entry(base: u64, length: u64, kind: u32)

  datatype Region = Region(base: u64, length: u64, end: u64, kind: u32, rawUsable: bool, policyUsable: bool)

  /** The bookkeeping structure without its byte totals for raw memory. */
  datatype Books = Books(regions: seq<Region>, dropped: nat, policyBytes: u64, highestEnd: u64)

  function EmptyBooks(): Books { Books([], 0, 0, 0) }

  /** Bytes of the entry at or above 1 MiB; none if it is not available memory or wraps. */
  function PolicyUsableLength(base: u64, length: u64, kind: u32): (r: u64)
    ensures r == if kind == AVAILABLE && base + length < LIMIT64
                 then Max(0, base + length - Max(base, POLICY_MIN)) else 0
  {
    if kind != AVAILABLE || length == 0 then 0
    else
      var (end, overflow) := CheckedAdd64(base, length);
      if overflow then 0
      else if end <= POLICY_MIN then 0
      else if base >= POLICY_MIN then length
      else end - POLICY_MIN
  }

  function RegionOf(e: Entry): Region {
    var (end, overflow) := CheckedAdd64(e.base, e.length);
    Region(e.base, e.length, if overflow then LIMIT64 - 1 else end, e.kind, e.kind == AVAILABLE,
           PolicyUsableLength(e.base, e.length, e.kind) > 0)
  }

  /** A region is policy-usable exactly when it is non-wrapping available memory reaching above
      1 MiB; a wrapping entry is stored with its end saturated. */
  lemma RegionMeaning(e: Entry)
    ensures RegionOf(e).end == Min(e.base + e.length, LIMIT64 - 1)
    ensures RegionOf(e).base == e.base && RegionOf(e).length == e.length && RegionOf(e).kind == e.kind
    ensures RegionOf(e).rawUsable <==> e.kind == 1
    ensures RegionOf(e).policyUsable <==>
            e.kind == AVAILABLE && e.base + e.length < LIMIT64 && e.length > 0 && e.base + e.length > POLICY_MIN
  {
  }

  /** One entry enters the books: storage is capped, totals saturate. */
  function Account(b: Books, e: Entry): Books {
    var r := RegionOf(e);
    Books(
      if |b.regions| < MAX_REGIONS then b.regions + [r] else b.regions,
      if |b.regions| < MAX_REGIONS then b.dropped else b.dropped + 1,
      AddClamp64(b.policyBytes, PolicyUsableLength(e.base, e.length, e.kind)),
      if r.policyUsable && r.end > b.highestEnd then r.end else b.highestEnd)
  }

  function AccountAll(b: Books, es: seq<Entry>): Books
    decreases |es|
  {
    if es == [] then b else AccountAll(Account(b, es[0]), es[1..])
  }

  // ---- What the books hold after any list of entries ----

  function RegionsOf(es: seq<Entry>): (s: seq<Region>)
    ensures |s| == |es| && forall k | 0 <= k < |s| :: s[k] == RegionOf(es[k])
  {
    seq(|es|, k requires 0 <= k < |es| => RegionOf(es[k]))
  }

  /** True, unbounded sum of a byte count over the entries. */
  function PolicyBytes(es: seq<Entry>): (n: nat) {
    if es == [] then 0
    else PolicyUsableLength(es[0].base, es[0].length, es[0].kind) + PolicyBytes(es[1..])
  }

  /** The sum is additive, and one entry contributes its bytes at or above 1 MiB. */
  lemma {:induction false} PolicyBytesAdd(es: seq<Entry>, more: seq<Entry>, e: Entry)
    ensures PolicyBytes(es + more) == PolicyBytes(es) + PolicyBytes(more)
    ensures PolicyBytes([e]) ==
            if e.kind == 1 && e.base + e.length < LIMIT64 then Max(0, e.base + e.length - Max(e.base, 0x10_0000)) else 0
    decreases |es|
  {
    if es == [] {
      assert es + more == more;
    } else {
      assert (es + more)[1..] == es[1..] + more;
      PolicyBytesAdd(es[1..], more, e);
    }
  }

  function Capped(s: seq<Region>): seq<Region> {
    s[..Min(|s|, MAX_REGIONS)]
  }

  lemma CappedAppend(all: seq<Region>, r: Region)
    ensures Capped(all + [r]) == if |Capped(all)| < MAX_REGIONS then Capped(all) + [r] else Capped(all)
  {
  }

  lemma {:induction false} StoredFrom(b: Books, es: seq<Entry>, all: seq<Region>)
    requires b.regions == Capped(all) && b.dropped == |all| - |b.regions|
    ensures var c, now := AccountAll(b, es), all + RegionsOf(es);
            c.regions == Capped(now) && c.dropped == |now| - |c.regions|
    decreases |es|
  {
    if es == [] {
      assert all + RegionsOf(es) == all;
    } else {
      var r := RegionOf(es[0]);
      assert all + RegionsOf(es) == (all + [r]) + RegionsOf(es[1..]);
      CappedAppend(all, r);
      StoredFrom(Account(b, es[0]), es[1..], all + [r]);
    }
  }

  lemma {:induction false} BytesFrom(b: Books, es: seq<Entry>, bytes: nat)
    requires b.policyBytes == Min(bytes, LIMIT64 - 1)
    ensures AccountAll(b, es).policyBytes == Min(bytes + PolicyBytes(es), LIMIT64 - 1)
    decreases |es|
  {
    if es != [] {
      BytesFrom(Account(b, es[0]), es[1..], bytes + PolicyUsableLength(es[0].base, es[0].length, es[0].kind));
    }
  }

  /** The greatest end of a policy-usable entry, or `start` when no entry reaches beyond it. */
  function HighestEnd(es: seq<Entry>, start: int): int {
    if es == [] then start
    else
      var h := HighestEnd(es[..|es| - 1], start);
      var r := RegionOf(es[|es| - 1]);
      if r.policyUsable then Max(h, r.end) else h
  }

  lemma {:induction false} HighestEndIsMax(es: seq<Entry>, start: int)
    ensures var h := HighestEnd(es, start);
            && start <= h
            && (forall e | e in es :: RegionOf(e).policyUsable ==> RegionOf(e).end <= h)
            && (h == start || exists e | e in es :: RegionOf(e).policyUsable && h == RegionOf(e).end)
  {
    if es != [] {
      var init := es[..|es| - 1];
      HighestEndIsMax(init, start);
      assert es == init + [es[|es| - 1]];
    }
  }

  lemma {:induction false} HighestShift(es: seq<Entry>, start: int)
    requires es != []
    ensures HighestEnd(es, start)
            == HighestEnd(es[1..], if RegionOf(es[0]).policyUsable then Max(start, RegionOf(es[0]).end) else start)
    decreases |es|
  {
    if |es| > 1 {
      HighestShift(es[..|es| - 1], start);
      assert es[..|es| - 1][1..] == es[1..][..|es| - 2];
    }
  }

  lemma {:induction false} HighestFrom(b: Books, es: seq<Entry>)
    ensures AccountAll(b, es).highestEnd == HighestEnd(es, b.highestEnd)
    decreases |es|
  {
    if es != [] {
      HighestShift(es, b.highestEnd);
      HighestFrom(Account(b, es[0]), es[1..]);
    }
  }

  /** For every entry list: the first 128 entries are stored in order, the others are counted as
      dropped, the policy total is the true sum capped at 2^64 - 1, and the highest end is the
      greatest end of a policy-usable entry, 0 without one. */
  lemma BooksAreExact(b: Books, es: seq<Entry>)
    requires b == EmptyBooks()
    ensures var c := AccountAll(b, es);
            && c.regions == Capped(RegionsOf(es))
            && c.dropped == |es| - |c.regions|
            && c.policyBytes == Min(PolicyBytes(es), LIMIT64 - 1)
            && (forall e | e in es && RegionOf(e).policyUsable :: RegionOf(e).end <= c.highestEnd)
            && (c.highestEnd == 0 || exists e | e in es && RegionOf(e).policyUsable :: RegionOf(e).end == c.highestEnd)
  {
    hide RegionOf, PolicyBytes;
    var none: seq<Region> := [];
    assert Capped(none) == [] && none + RegionsOf(es) == RegionsOf(es);
    StoredFrom(b, es, none);
    BytesFrom(b, es, 0);
    HighestFrom(b, es);
    HighestEndIsMax(es, 0);
  }

  /** `g_stage5b_memory`. */
  class MemoryBookkeeping {
    var regionCount: nat
    var droppedRegions: nat
    var rawUsableBytes: u64
    var rawReservedBytes: u64
    var policyUsableBytes: u64
    var highestUsableEnd: u64
    const regions: array<Region>

    ghost predicate Valid()
      reads this
    {
      regions.Length == MAX_REGIONS && regionCount <= MAX_REGIONS
    }

    function View(): Books
      requires Valid()
      reads this, regions
    {
      Books(regions[..regionCount], droppedRegions, policyUsableBytes, highestUsableEnd)
    }

    constructor ()
      ensures Valid() && fresh(regions) && View() == EmptyBooks()
      ensures rawUsableBytes == rawReservedBytes == 0
    {
      regions := new Region[MAX_REGIONS];
      regionCount, droppedRegions := 0, 0;
      rawUsableBytes, rawReservedBytes, policyUsableBytes, highestUsableEnd := 0, 0, 0, 0;
    }

    method Reset()
      requires Valid()
      modifies this
      ensures Valid() && View() == EmptyBooks()
      ensures rawUsableBytes == rawReservedBytes == 0
    {
      regionCount, droppedRegions := 0, 0;
      rawUsableBytes, rawReservedBytes, policyUsableBytes, highestUsableEnd := 0, 0, 0, 0;
    }

    method RecordRegion(r: Region)
      requires Valid()
      modifies this`regionCount, this`droppedRegions, regions
      ensures Valid()
      ensures View() == if old(regionCount) < MAX_REGIONS
                        then old(View()).(regions := old(View()).regions + [r])
                        else old(View()).(dropped := old(View()).dropped + 1)
    {
      var index := regionCount;
      if index >= MAX_REGIONS {
        droppedRegions := droppedRegions + 1;
        return;
      }
      regions[index] := r;
      regionCount := index + 1;
    }

    method AccountEntry(e: Entry)
      requires Valid()
      modifies this`regionCount, this`droppedRegions, this`policyUsableBytes, this`highestUsableEnd, regions
      ensures Valid() && View() == Account(old(View()), e)
    {
      var (sum, overflow) := CheckedAdd64(e.base, e.length);
      var regionEnd: u64 := if overflow then LIMIT64 - 1 else sum;
      var usable := PolicyUsableLength(e.base, e.length, e.kind);
      if usable > 0 {
        policyUsableBytes := AddClamp64(policyUsableBytes, usable);
        if regionEnd > highestUsableEnd {
          highestUsableEnd := regionEnd;
        }
      }
      RecordRegion(Region(e.base, e.length, regionEnd, e.kind, e.kind == AVAILABLE, usable > 0));
    }
  }
}
