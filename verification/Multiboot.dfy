/** Stage 5A: the Multiboot2 memory-map parser over the bytes of a 32-bit address space, and the
    serializer it inverts (Multiboot2 specification, section 3.6; memory map tag: section 3.6.8).
    Every sum of an address and a size wraps as the kernel's does. Since the loops need not end once
    a sum has wrapped, each is followed for at most `fuel` turns; the theorems hold for every fuel. */
module Multiboot {
  import opened Words
  import opened MemoryRegions

  const TAG_END := 0
  const TAG_MMAP := 6
  const ENTRY_SIZE := 24

  /** One byte for each 32-bit address. */
  type Ram = m: seq<u8> | |m| == LIMIT32 ghost witness seq(LIMIT32, _ => 0)

  datatype Panic = InfoTooSmall | InfoOverflow | TagTooSmall | TagTruncated | BadEndTag
                 | MmapTooSmall | EntryTooSmall | BadAlignedSize | NoMmapTag

  /** Counters of one parse beside the region books. */
  datatype Totals = Totals(entries: nat, usable: nat, reserved: nat, usableBytes: u64, reservedBytes: u64)

  datatype Acc = Acc(books: Books, totals: Totals)

  /** Running: the fuel was used up before the loops ended. */
  datatype Outcome = Parsed(acc: Acc) | Panicked(why: Panic) | Running

  /** Address arithmetic on a 32-bit machine. */
  function Sum(a: u32, b: u32): u32 {
    (a + b) % LIMIT32
  }

  // ---- Little-endian fields ----

  function ByteAt(m: Ram, at: nat): u8 {
    m[at % LIMIT32]
  }

  function Le32(m: Ram, at: nat): u32 {
    var b0: int, b1: int, b2: int, b3: int := ByteAt(m, at), ByteAt(m, at + 1), ByteAt(m, at + 2), ByteAt(m, at + 3);
    b0 + 0x100 * b1 + 0x1_0000 * b2 + 0x100_0000 * b3
  }

  function Le64(m: Ram, at: nat): u64 {
    Le32(m, at) + LIMIT32 * Le32(m, at + 4)
  }

  function Bytes32(v: u32): (b: seq<u8>)
    ensures |b| == 4
  {
    [v % 0x100, v / 0x100 % 0x100, v / 0x1_0000 % 0x100, v / 0x100_0000]
  }

  function Bytes64(v: u64): (b: seq<u8>)
    ensures |b| == 8
  {
    Bytes32(v % LIMIT32) + Bytes32(v / LIMIT32)
  }

  /** The bytes b stand in m at offset `at`. */
  ghost predicate At(m: seq<u8>, at: nat, b: seq<u8>) {
    at + |b| <= |m| && forall i | 0 <= i < |b| :: m[at + i] == b[i]
  }

  lemma AtSplit(m: seq<u8>, at: nat, b: seq<u8>, c: seq<u8>)
    ensures At(m, at, b + c) <==> At(m, at, b) && At(m, at + |b|, c)
  {
    if At(m, at, b + c) {
      forall i | 0 <= i < |b| ensures m[at + i] == b[i] {
        assert (b + c)[i] == b[i];
      }
      forall i | 0 <= i < |c| ensures m[at + |b| + i] == c[i] {
        assert (b + c)[|b| + i] == c[i];
      }
    }
  }

  lemma AtFits(m: seq<u8>, at: nat, b: seq<u8>)
    requires At(m, at, b)
    ensures at + |b| <= |m|
  {
  }

  lemma ReadBack32(m: Ram, at: nat, v: u32)
    requires At(m, at, Bytes32(v))
    ensures Le32(m, at) == v
  {
    var q := v / 0x100;
    assert v / 0x1_0000 == q / 0x100 && v / 0x100_0000 == q / 0x100 / 0x100;
    var b := Bytes32(v);
    assert m[at + 0] == b[0] && m[at + 1] == b[1] && m[at + 2] == b[2] && m[at + 3] == b[3];
  }

  lemma ReadBack64(m: Ram, at: nat, v: u64)
    requires At(m, at, Bytes64(v))
    ensures Le64(m, at) == v
  {
    AtSplit(m, at, Bytes32(v % LIMIT32), Bytes32(v / LIMIT32));
    ReadBack32(m, at, v % LIMIT32);
    ReadBack32(m, at + 4, v / LIMIT32);
  }

  // ---- The parser ----

  function Align8(v: u32): u32 {
    (v + 7) % LIMIT32 / 8 * 8
  }

  function EntryAt(m: Ram, at: nat): Entry {
    Entry(Le64(m, at), Le64(m, at + 8), Le32(m, at + 16))
  }

  function AddEntry(a: Acc, e: Entry): Acc {
    var t := a.totals;
    Acc(Account(a.books, e),
        if e.kind == AVAILABLE then
          t.(entries := t.entries + 1, usable := t.usable + 1, usableBytes := AddClamp64(t.usableBytes, e.length))
        else
          t.(entries := t.entries + 1, reserved := t.reserved + 1, reservedBytes := AddClamp64(t.reservedBytes, e.length)))
  }

  /** The entry loop of one tag, from address `at` to the tag's end; None while it still runs. */
  function ParseEntries(m: Ram, at: u32, end: u32, entrySize: u32, a: Acc, fuel: nat): Option<Acc>
    decreases fuel
  {
    if Sum(at, entrySize) > end then Some(a)
    else if fuel == 0 then None
    else ParseEntries(m, Sum(at, entrySize), end, entrySize, AddEntry(a, EntryAt(m, at)), fuel - 1)
  }

  function Finish(found: bool, a: Acc): Outcome {
    if found then Parsed(a) else Panicked(NoMmapTag)
  }

  /** The tag loop from address `at`; `end` is where the structure says it ends. */
  function ParseTags(m: Ram, at: u32, end: u32, found: bool, a: Acc, fuel: nat): Outcome
    decreases fuel
  {
    if Sum(at, 8) > end then Finish(found, a)
    else if fuel == 0 then Running
    else
      var kind, size := Le32(m, at), Le32(m, at + 4);
      if size < 8 then Panicked(TagTooSmall)
      else if Sum(at, size) > end then Panicked(TagTruncated)
      else if kind == TAG_END then if size != 8 then Panicked(BadEndTag) else Finish(found, a)
      else if kind == TAG_MMAP && size < 16 then Panicked(MmapTooSmall)
      else if kind == TAG_MMAP && Le32(m, at + 8) < ENTRY_SIZE then Panicked(EntryTooSmall)
      else
        var parsed := if kind == TAG_MMAP then ParseEntries(m, Sum(at, 16), Sum(at, size), Le32(m, at + 8), a, fuel)
                      else Some(a);
        if parsed.None? then Running
        else if Align8(size) == 0 || Sum(at, Align8(size)) > end then Panicked(BadAlignedSize)
        else ParseTags(m, Sum(at, Align8(size)), end, found || kind == TAG_MMAP, parsed.value, fuel - 1)
  }

  function Nothing(): Acc {
    Acc(EmptyBooks(), Totals(0, 0, 0, 0, 0))
  }

  function Parse(m: Ram, base: u32, fuel: nat): Outcome {
    var total := Le32(m, base);
    if total < 8 then Panicked(InfoTooSmall)
    else if Sum(base, total) < base then Panicked(InfoOverflow)
    else ParseTags(m, Sum(base, 8), Sum(base, total), false, Nothing(), fuel)
  }

  /** The parser in the kernel's form: two loops over memory that fill the region books. */
  method ParseMmap(memory: MemoryBookkeeping, m: Ram, base: u32, fuel: nat) returns (r: Outcome)
    requires memory.Valid()
    modifies memory, memory.regions
    ensures memory.Valid() && r == Parse(m, base, fuel)
    ensures r.Parsed? ==>
              && memory.View() == r.acc.books
              && memory.rawUsableBytes == r.acc.totals.usableBytes && memory.rawReservedBytes == r.acc.totals.reservedBytes
  {
    hide Le32, AddEntry, Account, ParseEntries, Sum, Align8;
    var total := Le32(m, base);
    var end := Sum(base, total);
    var at := Sum(base, 8);
    if total < 8 {
      return Panicked(InfoTooSmall);
    }
    if end < base {
      return Panicked(InfoOverflow);
    }
    memory.Reset();
    var t := Totals(0, 0, 0, 0, 0);
    var found, left := false, fuel;
    while Sum(at, 8) <= end
      invariant memory.Valid()
      invariant ParseTags(m, at, end, found, Acc(memory.View(), t), left) == Parse(m, base, fuel)
      decreases left
    {
      if left == 0 {
        return Running;
      }
      var kind, size := Le32(m, at), Le32(m, at as int + 4);
      if size < 8 {
        return Panicked(TagTooSmall);
      }
      if Sum(at, size) > end {
        return Panicked(TagTruncated);
      }
      if kind == TAG_END {
        if size != 8 {
          return Panicked(BadEndTag);
        }
        break;
      }
      if kind == TAG_MMAP {
        found := true;
        if size < 16 {
          return Panicked(MmapTooSmall);
        }
        var entrySize := Le32(m, at as int + 8);
        if entrySize < ENTRY_SIZE {
          return Panicked(EntryTooSmall);
        }
        var done;
        done, t := ParseEntryLoop(memory, m, Sum(at, 16), Sum(at, size), entrySize, t, left);
        if !done {
          return Running;
        }
      }
      if Align8(size) == 0 || Sum(at, Align8(size)) > end {
        return Panicked(BadAlignedSize);
      }
      at := Sum(at, Align8(size));
      left := left - 1;
    }
    if !found {
      return Panicked(NoMmapTag);
    }
    memory.rawUsableBytes := t.usableBytes;
    memory.rawReservedBytes := t.reservedBytes;
    return Parsed(Acc(memory.View(), t));
  }

  method ParseEntryLoop(memory: MemoryBookkeeping, m: Ram, start: u32, end: u32, entrySize: u32, t0: Totals, fuel: nat)
    returns (done: bool, t: Totals)
    requires memory.Valid()
    modifies memory, memory.regions
    ensures memory.Valid()
    ensures var p := ParseEntries(m, start, end, entrySize, Acc(old(memory.View()), t0), fuel);
            if done then p == Some(Acc(memory.View(), t)) else p == None
  {
    hide Le32, Le64, EntryAt, Account;
    t := t0;
    var at, left := start, fuel;
    while Sum(at, entrySize) <= end
      invariant memory.Valid()
      invariant ParseEntries(m, at, end, entrySize, Acc(memory.View(), t), left)
                == ParseEntries(m, start, end, entrySize, Acc(old(memory.View()), t0), fuel)
      decreases left
    {
      if left == 0 {
        return false, t;
      }
      var e := EntryAt(m, at);
      if e.kind == AVAILABLE {
        t := t.(usable := t.usable + 1, usableBytes := AddClamp64(t.usableBytes, e.length));
      } else {
        t := t.(reserved := t.reserved + 1, reservedBytes := AddClamp64(t.reservedBytes, e.length));
      }
      memory.AccountEntry(e);
      t := t.(entries := t.entries + 1);
      at := Sum(at, entrySize);
      left := left - 1;
    }
    return true, t;
  }

  // ---- The serializer ----

  datatype RawEntry = RawEntry(entry: Entry, reserved: u32, extra: seq<u8>)

  /** Tags with the bytes that pad them to the next multiple of eight. */
  datatype Tag = Mmap(entrySize: u32, version: u32, entries: seq<RawEntry>, pad: seq<u8>)
               | Other(kind: u32, payload: seq<u8>, pad: seq<u8>)

  function EntryBytes(r: RawEntry): (b: seq<u8>)
    ensures |b| == ENTRY_SIZE + |r.extra|
  {
    Bytes64(r.entry.base) + (Bytes64(r.entry.length) + (Bytes32(r.entry.kind) + (Bytes32(r.reserved) + r.extra)))
  }

  function EntriesBytes(rs: seq<RawEntry>): seq<u8> {
    if rs == [] then [] else EntryBytes(rs[0]) + EntriesBytes(rs[1..])
  }

  function ContentBytes(t: Tag): seq<u8> {
    match t
    case Mmap(entrySize, version, entries, _) => Bytes32(entrySize) + (Bytes32(version) + EntriesBytes(entries))
    case Other(_, payload, _) => payload
  }

  /** The size field of a tag: header and content without the padding. */
  function TagSize(t: Tag): nat {
    8 + |ContentBytes(t)|
  }

  predicate TagOk(t: Tag) {
    && |t.pad| < 8 && (TagSize(t) + |t.pad|) % 8 == 0 && TagSize(t) + |t.pad| < LIMIT32
    && match t
       case Mmap(entrySize, _, entries, _) =>
         entrySize >= ENTRY_SIZE && forall r | r in entries :: |r.extra| == entrySize - ENTRY_SIZE
       case Other(kind, _, _) => kind != TAG_END && kind != TAG_MMAP
  }

  function TagBytes(t: Tag): (b: seq<u8>)
    requires TagOk(t)
    ensures |b| == TagSize(t) + |t.pad|
  {
    Bytes32(if t.Mmap? then TAG_MMAP else t.kind) + (Bytes32(TagSize(t)) + (ContentBytes(t) + t.pad))
  }

  ghost predicate TagsOk(ts: seq<Tag>) {
    forall t | t in ts :: TagOk(t)
  }

  /** All tags and the end tag. */
  ghost function TagsBytes(ts: seq<Tag>): seq<u8>
    requires TagsOk(ts)
  {
    if ts == [] then Bytes32(TAG_END) + Bytes32(8) else TagBytes(ts[0]) + TagsBytes(ts[1..])
  }

  /** The information structure at `base`: total size, reserved word, tags. It ends below 4 GiB. */
  ghost predicate Serialized(m: Ram, base: u32, ts: seq<Tag>, reserved: u32)
    requires TagsOk(ts)
  {
    var total := 8 + |TagsBytes(ts)|;
    base + total < LIMIT32 && At(m, base, Bytes32(total) + (Bytes32(reserved) + TagsBytes(ts)))
  }

  function EntriesOf(rs: seq<RawEntry>): seq<Entry> {
    if rs == [] then [] else [rs[0].entry] + EntriesOf(rs[1..])
  }

  /** The entries of all memory-map tags, in order. */
  function AllEntries(ts: seq<Tag>): seq<Entry> {
    if ts == [] then []
    else (if ts[0].Mmap? then EntriesOf(ts[0].entries) else []) + AllEntries(ts[1..])
  }

  predicate HasMmap(ts: seq<Tag>) {
    ts != [] && (ts[0].Mmap? || HasMmap(ts[1..]))
  }

  /** From each memory-map tag's end, one entry further is still below 4 GiB. */
  ghost predicate GuardsFit(ts: seq<Tag>, at: nat)
    requires TagsOk(ts)
  {
    ts == [] || ((ts[0].Mmap? ==> at + TagSize(ts[0]) + ts[0].entrySize < LIMIT32)
                 && GuardsFit(ts[1..], at + |TagBytes(ts[0])|))
  }

  function Fold(a: Acc, es: seq<Entry>): Acc
    decreases |es|
  {
    if es == [] then a else Fold(AddEntry(a, es[0]), es[1..])
  }

  // ---- Round trip ----

  lemma EntryReadBack(m: Ram, at: nat, r: RawEntry)
    requires At(m, at, EntryBytes(r))
    ensures EntryAt(m, at) == r.entry
  {
    var tail4 := Bytes32(r.reserved) + r.extra;
    var tail3 := Bytes32(r.entry.kind) + tail4;
    var tail2 := Bytes64(r.entry.length) + tail3;
    AtSplit(m, at, Bytes64(r.entry.base), tail2);
    AtSplit(m, at + 8, Bytes64(r.entry.length), tail3);
    AtSplit(m, at + 16, Bytes32(r.entry.kind), tail4);
    ReadBack64(m, at, r.entry.base);
    ReadBack64(m, at + 8, r.entry.length);
    ReadBack32(m, at + 16, r.entry.kind);
  }

  /** Entries accounted for are never taken back. */
  lemma {:induction false} EntryLoopCounts(m: Ram, at: u32, end: u32, entrySize: u32, a: Acc, fuel: nat)
    ensures var p := ParseEntries(m, at, end, entrySize, a, fuel);
            p.Some? ==> p.value.totals.entries >= a.totals.entries + (if Sum(at, entrySize) <= end then 1 else 0)
    decreases fuel
  {
    hide EntryAt, Account;
    if Sum(at, entrySize) <= end && fuel > 0 {
      EntryLoopCounts(m, Sum(at, entrySize), end, entrySize, AddEntry(a, EntryAt(m, at)), fuel - 1);
    }
  }

  /** At the tag's end, where the entry loop should stop, the kernel's 32-bit guard passes if and
      only if the sum leaves 32 bits. */
  lemma GuardPassesIffWraps(tagEnd: u32, entrySize: u32)
    requires entrySize > 0
    ensures Sum(tagEnd, entrySize) <= tagEnd <==> tagEnd + entrySize >= LIMIT32
  {
    if tagEnd + entrySize >= LIMIT32 {
      assert (tagEnd + entrySize) % LIMIT32 == tagEnd + entrySize - LIMIT32;
    }
  }

  /** Over serialized entries the loop accounts for each and arrives at the tag's end. */
  lemma {:induction false} EntriesReadBack(m: Ram, at: u32, end: u32, entrySize: u32, rs: seq<RawEntry>, a: Acc, fuel: nat)
    requires At(m, at, EntriesBytes(rs)) && entrySize >= ENTRY_SIZE && end == at + |EntriesBytes(rs)|
    requires forall r | r in rs :: |r.extra| == entrySize - ENTRY_SIZE
    ensures ParseEntries(m, at, end, entrySize, a, fuel) ==
            if fuel < |rs| then None else ParseEntries(m, end, end, entrySize, Fold(a, EntriesOf(rs)), fuel - |rs|)
    decreases |rs|
  {
    hide EntryAt, EntryBytes, AddEntry;
    if rs != [] {
      assert rs[0] in rs && forall r | r in rs[1..] :: r in rs;
      AtSplit(m, at, EntryBytes(rs[0]), EntriesBytes(rs[1..]));
      EntryReadBack(m, at, rs[0]);
      assert Sum(at, entrySize) == at + entrySize <= end;
      if fuel > 0 {
        EntriesReadBack(m, at + entrySize, end, entrySize, rs[1..], AddEntry(a, rs[0].entry), fuel - 1);
        assert EntriesOf(rs)[1..] == EntriesOf(rs[1..]);
      }
    }
  }

  lemma {:induction false} FoldConcat(a: Acc, es: seq<Entry>, fs: seq<Entry>)
    ensures Fold(a, es + fs) == Fold(Fold(a, es), fs)
    decreases |es|
  {
    hide AddEntry;
    if es == [] {
      assert es + fs == fs;
    } else {
      assert (es + fs)[1..] == es[1..] + fs;
      FoldConcat(AddEntry(a, es[0]), es[1..], fs);
    }
  }

  /** The two header words of a tag, and where its content stands. */
  lemma TagReadBack(m: Ram, at: nat, t: Tag)
    requires TagOk(t) && At(m, at, TagBytes(t))
    ensures Le32(m, at) == (if t.Mmap? then TAG_MMAP else t.kind) && Le32(m, at + 4) == TagSize(t)
    ensures t.Mmap? ==>
              && TagSize(t) == 16 + |EntriesBytes(t.entries)|
              && Le32(m, at + 8) == t.entrySize && At(m, at + 16, EntriesBytes(t.entries))
  {
    hide Le32, At, Bytes32, EntriesBytes;
    var kind := if t.Mmap? then TAG_MMAP else t.kind;
    AtFits(m, at, TagBytes(t));
    AtSplit(m, at, Bytes32(kind), Bytes32(TagSize(t)) + (ContentBytes(t) + t.pad));
    AtSplit(m, at + 4, Bytes32(TagSize(t)), ContentBytes(t) + t.pad);
    AtSplit(m, at + 8, ContentBytes(t), t.pad);
    ReadBack32(m, at, kind);
    ReadBack32(m, at + 4, TagSize(t));
    if t.Mmap? {
      MmapReadBack(m, at + 8, t);
    }
  }

  lemma MmapReadBack(m: Ram, at: nat, t: Tag)
    requires t.Mmap? && At(m, at, ContentBytes(t))
    ensures |ContentBytes(t)| == 8 + |EntriesBytes(t.entries)|
    ensures Le32(m, at) == t.entrySize && At(m, at + 8, EntriesBytes(t.entries))
  {
    hide Le32, At, Bytes32, EntriesBytes;
    AtFits(m, at, ContentBytes(t));
    AtSplit(m, at, Bytes32(t.entrySize), Bytes32(t.version) + EntriesBytes(t.entries));
    AtSplit(m, at + 4, Bytes32(t.version), EntriesBytes(t.entries));
    ReadBack32(m, at, t.entrySize);
  }

  lemma EndReadBack(m: Ram, at: nat)
    requires At(m, at, Bytes32(TAG_END) + Bytes32(8))
    ensures Le32(m, at) == TAG_END && Le32(m, at + 4) == 8
  {
    AtSplit(m, at, Bytes32(TAG_END), Bytes32(8));
    ReadBack32(m, at, TAG_END);
    ReadBack32(m, at + 4, 8);
  }

  lemma MmapOk(t: Tag)
    requires TagOk(t) && t.Mmap?
    ensures t.entrySize >= ENTRY_SIZE && forall r | r in t.entries :: |r.extra| == t.entrySize - ENTRY_SIZE
    ensures TagSize(t) <= |TagBytes(t)|
  {
  }

  lemma PaddedSum(size: nat, pad: nat)
    requires pad < 8 && (size + pad) % 8 == 0 && size + pad < LIMIT32
    ensures size < LIMIT32 && Align8(size) == size + pad
  {
    var q := (size + pad) / 8;
    assert size + 7 == 8 * q + (7 - pad) && q < LIMIT32 / 8;
  }

  lemma PaddedSize(t: Tag)
    requires TagOk(t)
    ensures Align8(TagSize(t)) == TagSize(t) + |t.pad| && TagSize(t) >= 8
  {
    hide ContentBytes;
    PaddedSum(TagSize(t), |t.pad|);
  }

  lemma FoldNothing(a: Acc)
    ensures Fold(a, []) == a
  {
  }

  lemma {:induction false} FoldCounts(a: Acc, es: seq<Entry>)
    ensures Fold(a, es).totals.entries == a.totals.entries + |es|
    decreases |es|
  {
    hide Account;
    if es != [] {
      FoldCounts(AddEntry(a, es[0]), es[1..]);
    }
  }

  /** The entries one tag contributes. */
  function TagEntries(t: Tag): seq<Entry> {
    if t.Mmap? then EntriesOf(t.entries) else []
  }

  predicate GuardFits(t: Tag, at: nat) {
    t.Mmap? ==> at + TagSize(t) + t.entrySize < LIMIT32
  }

  lemma {:induction false} EntriesOfLength(rs: seq<RawEntry>)
    ensures |EntriesOf(rs)| == |rs|
  {
    if rs != [] {
      EntriesOfLength(rs[1..]);
    }
  }

  /** What the entry loop leaves of one memory-map tag: exactly its entries if the guard fits, else at
      least one more; None while it runs. */
  lemma OneTag(m: Ram, at: u32, t: Tag, a: Acc, fuel: nat)
    requires TagOk(t) && t.Mmap? && At(m, at, TagBytes(t)) && at + |TagBytes(t)| < LIMIT32
    ensures t.entrySize >= ENTRY_SIZE && TagSize(t) >= 16 && at + TagSize(t) < LIMIT32
    ensures var p := ParseEntries(m, at + 16, at + TagSize(t), t.entrySize, a, fuel);
            if GuardFits(t, at) then
              p == if fuel < |TagEntries(t)| then None else Some(Fold(a, TagEntries(t)))
            else p.Some? ==> p.value.totals.entries > a.totals.entries + |TagEntries(t)|
  {
    hide TagOk, TagBytes, TagSize, At, ContentBytes, EntriesBytes, Le32, Fold, EntriesOf;
    MmapOk(t);
    TagReadBack(m, at, t);
    var end := at + TagSize(t);
    EntriesOfLength(t.entries);
    EntriesReadBack(m, at + 16, end, t.entrySize, t.entries, a, fuel);
    GuardPassesIffWraps(end, t.entrySize);
    var b := Fold(a, TagEntries(t));
    FoldCounts(a, TagEntries(t));
    if fuel >= |t.entries| {
      EntryLoopCounts(m, end, end, t.entrySize, b, fuel - |t.entries|);
    }
  }

  /** One turn of the tag loop over a tag whose header passes every check. */
  lemma TurnOnWords(m: Ram, at: u32, end: u32, kind: u32, size: u32, entrySize: u32, padded: u32, found: bool, a: Acc, fuel: nat)
    requires Le32(m, at) == kind && Le32(m, at + 4) == size && kind != TAG_END && 8 <= size <= padded == Align8(size)
    requires kind == TAG_MMAP ==> size >= 16 && Le32(m, at + 8) == entrySize >= ENTRY_SIZE
    requires at + padded + 8 <= end && fuel > 0
    ensures var p := if kind == TAG_MMAP then ParseEntries(m, at + 16, at + size, entrySize, a, fuel) else Some(a);
            ParseTags(m, at, end, found, a, fuel) ==
            if p.None? then Running else ParseTags(m, at + padded, end, found || kind == TAG_MMAP, p.value, fuel - 1)
  {
    hide Le32, ParseEntries, Align8, Finish;
  }

  /** One turn of the tag loop over a serialized tag. */
  lemma OneTurn(m: Ram, at: u32, end: u32, t: Tag, found: bool, a: Acc, fuel: nat)
    requires TagOk(t) && At(m, at, TagBytes(t)) && at + |TagBytes(t)| + 8 <= end && fuel > 0
    ensures t.Mmap? ==> at + TagSize(t) < LIMIT32
    ensures var p := if t.Mmap? then ParseEntries(m, at + 16, at + TagSize(t), t.entrySize, a, fuel) else Some(a);
            ParseTags(m, at, end, found, a, fuel) ==
            if p.None? then Running
            else ParseTags(m, at + |TagBytes(t)|, end, found || t.Mmap?, p.value, fuel - 1)
  {
    hide Le32, At, TagBytes, ContentBytes, EntriesBytes, ParseEntries, ParseTags, Align8, TagSize;
    TagReadBack(m, at, t);
    PaddedSize(t);
    if t.Mmap? {
      MmapOk(t);
    }
    TurnOnWords(m, at, end, if t.Mmap? then TAG_MMAP else t.kind, TagSize(t), if t.Mmap? then t.entrySize else 0,
                |TagBytes(t)|, found, a, fuel);
  }

  lemma EndTurn(m: Ram, at: u32, end: u32, found: bool, a: Acc, fuel: nat)
    requires At(m, at, Bytes32(TAG_END) + Bytes32(8)) && end == at + 8 && fuel > 0
    ensures ParseTags(m, at, end, found, a, fuel) == Finish(found, a)
  {
    hide Le32, At, ParseEntries, Align8, Finish, Bytes32;
    EndReadBack(m, at);
  }

  /** With all guards fitting and enough fuel the tag loop accounts for exactly the entries. */
  lemma {:induction false} TagsReadBack(m: Ram, at: u32, end: u32, ts: seq<Tag>, found: bool, a: Acc, fuel: nat)
    requires TagsOk(ts) && At(m, at, TagsBytes(ts)) && end == at + |TagsBytes(ts)|
    requires GuardsFit(ts, at) && fuel > |ts| + |AllEntries(ts)|
    ensures ParseTags(m, at, end, found, a, fuel) == Finish(found || HasMmap(ts), Fold(a, AllEntries(ts)))
    decreases |ts|
  {
    hide ParseTags, ParseEntries, TagBytes, Fold, EntriesOf, TagSize, At, TagOk, Bytes32;
    if ts == [] {
      EndTurn(m, at, end, found, a, fuel);
      FoldNothing(a);
    } else {
      var t := ts[0];
      assert t in ts && forall u | u in ts[1..] :: u in ts;
      AtSplit(m, at, TagBytes(t), TagsBytes(ts[1..]));
      RestHasEnd(ts[1..]);
      FoldConcat(a, TagEntries(t), AllEntries(ts[1..]));
      FoldNothing(a);
      OneTurn(m, at, end, t, found, a, fuel);
      if t.Mmap? {
        OneTag(m, at, t, a, fuel);
      }
      TagsReadBack(m, at + |TagBytes(t)|, end, ts[1..], found || t.Mmap?, Fold(a, TagEntries(t)), fuel - 1);
    }
  }

  // ---- Malformed structures ----

  /** Tags without an end tag. */
  ghost function PrefixBytes(ts: seq<Tag>): seq<u8>
    requires TagsOk(ts)
  {
    if ts == [] then [] else TagBytes(ts[0]) + PrefixBytes(ts[1..])
  }

  /** The tag loop comes to what follows well-formed tags with their entries accounted for. */
  lemma {:induction false} PrefixReadBack(m: Ram, at: u32, end: u32, ts: seq<Tag>, found: bool, a: Acc, fuel: nat)
    requires TagsOk(ts) && At(m, at, PrefixBytes(ts)) && at + |PrefixBytes(ts)| + 8 <= end
    requires GuardsFit(ts, at) && fuel >= |ts| + |AllEntries(ts)|
    ensures ParseTags(m, at, end, found, a, fuel) ==
            ParseTags(m, at + |PrefixBytes(ts)|, end, found || HasMmap(ts), Fold(a, AllEntries(ts)), fuel - |ts|)
    decreases |ts|
  {
    hide ParseTags, ParseEntries, TagBytes, Fold, EntriesOf, TagSize, At, TagOk, Bytes32;
    if ts == [] {
      FoldNothing(a);
    } else {
      var t := ts[0];
      assert t in ts && forall u | u in ts[1..] :: u in ts;
      AtSplit(m, at, TagBytes(t), PrefixBytes(ts[1..]));
      FoldConcat(a, TagEntries(t), AllEntries(ts[1..]));
      FoldNothing(a);
      OneTurn(m, at, end, t, found, a, fuel);
      if t.Mmap? {
        OneTag(m, at, t, a, fuel);
      }
      PrefixReadBack(m, at + |TagBytes(t)|, end, ts[1..], found || t.Mmap?, Fold(a, TagEntries(t)), fuel - 1);
    }
  }

  /** What the header of the tag at `at` makes the parser do, in the order of its checks. */
  ghost predicate Verdict(m: Ram, at: u32, end: u32, found: bool, a: Acc, r: Outcome) {
    var kind, size := Le32(m, at), Le32(m, at + 4);
    var padded := (size + 7) % 0x1_0000_0000 / 8 * 8;
    var done := if found then Parsed(a) else Panicked(NoMmapTag);
    if size < 8 then r == Panicked(TagTooSmall)
    else if (at + size) % 0x1_0000_0000 > end then r == Panicked(TagTruncated)
    else if kind == 0 then r == if size == 8 then done else Panicked(BadEndTag)
    else if kind == 6 && size < 16 then r == Panicked(MmapTooSmall)
    else if kind == 6 && Le32(m, at + 8) < 24 then r == Panicked(EntryTooSmall)
    else kind != 6 && (padded == 0 || (at + padded) % 0x1_0000_0000 > end) ==> r == Panicked(BadAlignedSize)
  }

  lemma HeaderVerdict(m: Ram, at: u32, end: u32, found: bool, a: Acc, fuel: nat)
    requires at + 8 <= end && fuel > 0
    ensures Verdict(m, at, end, found, a, ParseTags(m, at, end, found, a, fuel))
  {
    hide Le32, ParseEntries;
  }

  /** A structure of well-formed tags followed by some other tag header is judged by that header
      alone. */
  lemma FollowingTagDecides(m: Ram, base: u32, ts: seq<Tag>, fuel: nat)
    requires TagsOk(ts) && base + 8 + |PrefixBytes(ts)| + 8 <= base + Le32(m, base) < LIMIT32
    requires At(m, base + 8, PrefixBytes(ts)) && GuardsFit(ts, base + 8) && fuel > |ts| + |AllEntries(ts)|
    ensures Verdict(m, base + 8 + |PrefixBytes(ts)|, base + Le32(m, base), HasMmap(ts), Fold(Nothing(), AllEntries(ts)),
                    Parse(m, base, fuel))
  {
    hide Le32, ParseTags, Verdict, PrefixBytes, AllEntries, Fold, At, GuardsFit, HasMmap;
    var end := base + Le32(m, base);
    PrefixReadBack(m, base + 8, end, ts, false, Nothing(), fuel);
    HeaderVerdict(m, base + 8 + |PrefixBytes(ts)|, end, HasMmap(ts), Fold(Nothing(), AllEntries(ts)), fuel - |ts|);
  }

  /** A total size below 8, or one that leaves 32 bits, is refused before any tag is read. */
  lemma InfoPanics(m: Ram, base: u32, fuel: nat)
    ensures Le32(m, base) < 8 ==> Parse(m, base, fuel) == Panicked(InfoTooSmall)
    ensures Le32(m, base) >= 8 && base + Le32(m, base) >= 0x1_0000_0000 ==> Parse(m, base, fuel) == Panicked(InfoOverflow)
  {
    hide Le32, ParseTags;
  }

  /** The bytes of one memory-map tag with one usable entry, and of the end tag. */
  lemma LiteralBytes()
    ensures var t := Mmap(24, 0, [RawEntry(Entry(0x10_0000, 0x100_0000, 1), 0, [])], []);
            var entry := [0, 0, 0x10, 0, 0, 0, 0, 0,  0, 0, 0, 1, 0, 0, 0, 0,  1, 0, 0, 0,  0, 0, 0, 0];
            TagsOk([t]) && TagsBytes([t]) ==
            ([6, 0, 0, 0] + ([40, 0, 0, 0] + ([24, 0, 0, 0] + ([0, 0, 0, 0] + entry)))) + ([0, 0, 0, 0] + [8, 0, 0, 0])
  {
    hide EntryBytes, Bytes32, TagBytes, ContentBytes, EntriesBytes, TagOk;
    var t := Mmap(24, 0, [RawEntry(Entry(0x10_0000, 0x100_0000, 1), 0, [])], []);
    LiteralTag();
    LiteralEntry();
    LiteralWords();
    assert TagsOk([]) && TagsBytes([]) == Bytes32(0) + Bytes32(8);
    assert TagsBytes([t]) == TagBytes(t) + TagsBytes([]);
  }

  lemma LiteralTag()
    ensures var e := RawEntry(Entry(0x10_0000, 0x100_0000, 1), 0, []);
            var t := Mmap(24, 0, [e], []);
            TagOk(t) && TagBytes(t) == Bytes32(6) + (Bytes32(40) + (Bytes32(24) + (Bytes32(0) + EntryBytes(e))))
  {
    hide EntryBytes, Bytes32;
    var e := RawEntry(Entry(0x10_0000, 0x100_0000, 1), 0, []);
    var t := Mmap(24, 0, [e], []);
    assert EntriesBytes([]) == [] && EntriesBytes([e]) == EntryBytes(e) + [] == EntryBytes(e);
    assert ContentBytes(t) == Bytes32(24) + (Bytes32(0) + EntryBytes(e));
    assert TagSize(t) == 40 && ContentBytes(t) + t.pad == ContentBytes(t);
  }

  lemma LiteralWords()
    ensures Bytes32(0) == [0, 0, 0, 0] && Bytes32(6) == [6, 0, 0, 0] && Bytes32(8) == [8, 0, 0, 0]
    ensures Bytes32(24) == [24, 0, 0, 0] && Bytes32(40) == [40, 0, 0, 0]
  {
  }

  lemma LiteralEntry()
    ensures EntryBytes(RawEntry(Entry(0x10_0000, 0x100_0000, 1), 0, [])) ==
            [0, 0, 0x10, 0, 0, 0, 0, 0,  0, 0, 0, 1, 0, 0, 0, 0,  1, 0, 0, 0,  0, 0, 0, 0]
  {
    assert Bytes64(0x10_0000) == [0, 0, 0x10, 0, 0, 0, 0, 0];
    assert Bytes64(0x100_0000) == [0, 0, 0, 1, 0, 0, 0, 0];
    assert Bytes32(1) == [1, 0, 0, 0] && Bytes32(0) == [0, 0, 0, 0];
  }

  lemma RestHasEnd(ts: seq<Tag>)
    requires TagsOk(ts)
    ensures |TagsBytes(ts)| >= 8
    decreases |ts|
  {
    if ts != [] {
      assert forall u | u in ts[1..] :: u in ts;
      RestHasEnd(ts[1..]);
    }
  }

  /** Whatever the fuel, a parse that returns has accounted for all entries of the tags, and for more
      when some guard wraps. */
  lemma {:induction false} TagsAtLeast(m: Ram, at: u32, end: u32, ts: seq<Tag>, found: bool, a: Acc, fuel: nat)
    requires TagsOk(ts) && At(m, at, TagsBytes(ts)) && end == at + |TagsBytes(ts)|
    ensures var r := ParseTags(m, at, end, found, a, fuel);
            r.Parsed? ==>
              r.acc.totals.entries >= a.totals.entries + |AllEntries(ts)| + (if GuardsFit(ts, at) then 0 else 1)
    decreases |ts|
  {
    hide ParseTags, ParseEntries, TagBytes, TagEntries, Fold, TagSize, At, TagOk, Bytes32;
    RestHasEnd(ts);
    if fuel == 0 {
      NoFuel(m, at, end, found, a);
    } else if ts == [] {
      EndTurn(m, at, end, found, a, fuel);
    } else {
      var t := ts[0];
      assert t in ts && forall u | u in ts[1..] :: u in ts;
      AtSplit(m, at, TagBytes(t), TagsBytes(ts[1..]));
      RestHasEnd(ts[1..]);
      EntriesOfFirst(ts);
      OneTurn(m, at, end, t, found, a, fuel);
      var p := Some(a);
      if t.Mmap? {
        OneTag(m, at, t, a, fuel);
        FoldCounts(a, TagEntries(t));
        p := ParseEntries(m, at + 16, at + TagSize(t), t.entrySize, a, fuel);
      }
      if p.Some? {
        TagsAtLeast(m, at + |TagBytes(t)|, end, ts[1..], found || t.Mmap?, p.value, fuel - 1);
      }
    }
  }

  lemma NoFuel(m: Ram, at: u32, end: u32, found: bool, a: Acc)
    requires at + 8 <= end
    ensures ParseTags(m, at, end, found, a, 0) == Running
  {
  }

  lemma EntriesOfFirst(ts: seq<Tag>)
    requires ts != []
    ensures AllEntries(ts) == TagEntries(ts[0]) + AllEntries(ts[1..])
    ensures !ts[0].Mmap? ==> TagEntries(ts[0]) == []
  {
  }

  lemma InfoReadBack(m: Ram, base: u32, ts: seq<Tag>, reserved: u32)
    requires TagsOk(ts) && Serialized(m, base, ts, reserved)
    ensures Le32(m, base) == 8 + |TagsBytes(ts)| && At(m, base + 8, TagsBytes(ts))
    ensures forall fuel: nat :: Parse(m, base, fuel) ==
              ParseTags(m, base + 8, base + 8 + |TagsBytes(ts)|, false, Nothing(), fuel)
  {
    hide Le32, ParseTags, Bytes32, TagsBytes;
    var total := 8 + |TagsBytes(ts)|;
    AtSplit(m, base, Bytes32(total), Bytes32(reserved) + TagsBytes(ts));
    AtSplit(m, base + 4, Bytes32(reserved), TagsBytes(ts));
    ReadBack32(m, base, total);
  }

  /** Round trip: from a serialized structure whose guards fit the parser, given enough fuel, recovers
      exactly the entries of its memory-map tags, or reports that there is no such tag. */
  lemma ParseReadsBack(m: Ram, base: u32, ts: seq<Tag>, reserved: u32, fuel: nat)
    requires TagsOk(ts) && Serialized(m, base, ts, reserved)
    requires GuardsFit(ts, base + 8) && fuel > |ts| + |AllEntries(ts)|
    ensures Parse(m, base, fuel) ==
            if HasMmap(ts) then Parsed(Fold(Nothing(), AllEntries(ts))) else Panicked(NoMmapTag)
  {
    hide Parse, ParseTags, TagsBytes, GuardsFit, HasMmap, Fold, AllEntries;
    InfoReadBack(m, base, ts, reserved);
    TagsReadBack(m, base + 8, base + 8 + |TagsBytes(ts)|, ts, false, Nothing(), fuel);
  }

  /** If some guard does not fit, the kernel reads past that tag: every parse that returns has
      accounted for more entries than the memory map has. */
  lemma WrappedGuardMisreads(m: Ram, base: u32, ts: seq<Tag>, reserved: u32, fuel: nat)
    requires TagsOk(ts) && Serialized(m, base, ts, reserved) && !GuardsFit(ts, base + 8)
    ensures Parse(m, base, fuel).Parsed? ==> Parse(m, base, fuel).acc.totals.entries > |AllEntries(ts)|
  {
    hide Parse, ParseTags, TagsBytes, GuardsFit, AllEntries;
    InfoReadBack(m, base, ts, reserved);
    TagsAtLeast(m, base + 8, base + 8 + |TagsBytes(ts)|, ts, false, Nothing(), fuel);
  }

  /** The parser inverts the serializer on a structure if and only if the structure has a memory-map
      tag and every guard fits. */
  lemma ParseInvertsSerializer(m: Ram, base: u32, ts: seq<Tag>, reserved: u32)
    requires TagsOk(ts) && Serialized(m, base, ts, reserved)
    ensures (exists fuel: nat :: Parse(m, base, fuel) == Parsed(Fold(Nothing(), AllEntries(ts))))
            <==> HasMmap(ts) && GuardsFit(ts, base + 8)
  {
    hide Parse, Fold;
    var enough := |ts| + |AllEntries(ts)| + 1;
    FoldCounts(Nothing(), AllEntries(ts));
    if GuardsFit(ts, base + 8) {
      ParseReadsBack(m, base, ts, reserved, enough);
      if !HasMmap(ts) {
        forall fuel: nat ensures !Parse(m, base, fuel).Parsed? {
          NoMmapNoParse(m, base, ts, reserved, fuel);
        }
      }
    } else {
      forall fuel: nat ensures Parse(m, base, fuel) != Parsed(Fold(Nothing(), AllEntries(ts))) {
        WrappedGuardMisreads(m, base, ts, reserved, fuel);
      }
    }
  }

  lemma {:induction false} MoreFuel(m: Ram, at: u32, end: u32, found: bool, a: Acc, fuel: nat)
    ensures ParseTags(m, at, end, found, a, fuel) != Running ==>
              ParseTags(m, at, end, found, a, fuel + 1) == ParseTags(m, at, end, found, a, fuel)
    decreases fuel
  {
    hide Le32, ParseEntries, Align8, Finish;
    if Sum(at, 8) <= end && fuel > 0 {
      var kind, size := Le32(m, at), Le32(m, at + 4);
      var entrySize := Le32(m, at + 8);
      MoreEntryFuel(m, Sum(at, 16), Sum(at, size), entrySize, a, fuel);
      var p := if kind == TAG_MMAP then ParseEntries(m, Sum(at, 16), Sum(at, size), entrySize, a, fuel) else Some(a);
      if p.Some? {
        MoreFuel(m, Sum(at, Align8(size)), end, found || kind == TAG_MMAP, p.value, fuel - 1);
      }
    }
  }

  lemma {:induction false} MoreEntryFuel(m: Ram, at: u32, end: u32, entrySize: u32, a: Acc, fuel: nat)
    ensures ParseEntries(m, at, end, entrySize, a, fuel).Some? ==>
              ParseEntries(m, at, end, entrySize, a, fuel + 1) == ParseEntries(m, at, end, entrySize, a, fuel)
    decreases fuel
  {
    hide EntryAt, AddEntry;
    if Sum(at, entrySize) <= end && fuel > 0 {
      MoreEntryFuel(m, Sum(at, entrySize), end, entrySize, AddEntry(a, EntryAt(m, at)), fuel - 1);
    }
  }

  /** Once the loops end, more fuel changes nothing: the outcome is the kernel's own. */
  lemma {:induction false} OutcomeSettled(m: Ram, base: u32, fuel: nat, more: nat)
    requires Parse(m, base, fuel) != Running && fuel <= more
    ensures Parse(m, base, more) == Parse(m, base, fuel)
    decreases more - fuel
  {
    hide ParseTags, Le32;
    if fuel < more {
      OutcomeSettled(m, base, fuel, more - 1);
      MoreFuel(m, Sum(base, 8), Sum(base, Le32(m, base)), false, Nothing(), more - 1);
    }
  }

  lemma NoMmapNoParse(m: Ram, base: u32, ts: seq<Tag>, reserved: u32, fuel: nat)
    requires TagsOk(ts) && Serialized(m, base, ts, reserved)
    requires GuardsFit(ts, base + 8) && !HasMmap(ts)
    ensures !Parse(m, base, fuel).Parsed?
  {
    hide Parse;
    var enough := |ts| + |AllEntries(ts)| + 1 + fuel;
    ParseReadsBack(m, base, ts, reserved, enough);
    if Parse(m, base, fuel).Parsed? {
      OutcomeSettled(m, base, fuel, enough);
    }
  }

  // ---- A structure whose guard wraps ----

  /** An empty memory map, 32 bytes in all. */
  ghost function EmptyMapTags(): seq<Tag> {
    [Mmap(24, 0, [], [])]
  }

  const HIGH_BASE := 0xFFFF_FFD8

  /** The empty memory map near the top of an address space that is otherwise zero. */
  ghost function HighRam(info: seq<u8>): Ram
    requires |info| == 32
  {
    seq(LIMIT32, i requires 0 <= i < LIMIT32 => if HIGH_BASE <= i < HIGH_BASE + 32 then info[i - HIGH_BASE] else 0)
  }

  /** Entries of 24 bytes between two addresses when the last guard does not wrap. */
  lemma {:induction false} EntryLoopLength(m: Ram, at: u32, end: u32, k: nat, a: Acc, fuel: nat)
    requires end < at + 24 * k + 24 < LIMIT32 && at + 24 * k <= end && fuel >= k
    ensures var p := ParseEntries(m, at, end, 24, a, fuel);
            p.Some? && p.value.totals.entries == a.totals.entries + k
    decreases k
  {
    hide EntryAt, Account;
    if k > 0 {
      assert Sum(at, 24) == at + 24 <= end;
      EntryLoopLength(m, at + 24, end, k - 1, AddEntry(a, EntryAt(m, at)), fuel - 1);
    }
  }

  lemma EmptyMapBytes() returns (info: seq<u8>)
    ensures TagsOk(EmptyMapTags()) && AllEntries(EmptyMapTags()) == [] && |info| == 32
    ensures TagSize(EmptyMapTags()[0]) == 16 && |TagBytes(EmptyMapTags()[0])| == 16
    ensures TagsBytes(EmptyMapTags()) == TagBytes(EmptyMapTags()[0]) + (Bytes32(TAG_END) + Bytes32(8))
    ensures info == Bytes32(32) + (Bytes32(0) + TagsBytes(EmptyMapTags()))
    ensures Serialized(HighRam(info), HIGH_BASE, EmptyMapTags(), 0)
  {
    var t := EmptyMapTags()[0];
    assert TagSize(t) == 16 && TagOk(t);
    assert TagsBytes([]) == Bytes32(TAG_END) + Bytes32(8);
    info := Bytes32(32) + (Bytes32(0) + TagsBytes(EmptyMapTags()));
    var m := HighRam(info);
    assert forall i | 0 <= i < 32 :: m[HIGH_BASE + i] == info[i];
  }

  /** The memory map of this structure is empty and the structure ends below 4 GiB, yet the kernel
      comes back with 178956970 entries: the loop runs once through the whole address space. */
  lemma EmptyMapMisread(fuel: nat)
    requires fuel > 178956970
    ensures exists m: Ram ::
              && TagsOk(EmptyMapTags()) && Serialized(m, HIGH_BASE, EmptyMapTags(), 0) && AllEntries(EmptyMapTags()) == []
              && Parse(m, HIGH_BASE, fuel).Parsed? && Parse(m, HIGH_BASE, fuel).acc.totals.entries == 178956970
  {
    hide Parse, ParseTags, HighRam, TagBytes, TagsBytes, Bytes32, TagOk, Le32, EntryAt, Account;
    var info := EmptyMapBytes();
    var m, t, a := HighRam(info), EmptyMapTags()[0], Nothing();
    InfoReadBack(m, HIGH_BASE, EmptyMapTags(), 0);
    AtSplit(m, HIGH_BASE + 8, TagBytes(t), Bytes32(TAG_END) + Bytes32(8));
    OneTurn(m, HIGH_BASE + 8, HIGH_BASE + 32, t, false, a, fuel);
    var b := AddEntry(a, EntryAt(m, HIGH_BASE + 24));
    assert Sum(HIGH_BASE + 24, 24) == 8;
    EntryLoopLength(m, 8, HIGH_BASE + 24, 178956969, b, fuel - 1);
    var p := ParseEntries(m, HIGH_BASE + 24, HIGH_BASE + 24, 24, a, fuel);
    EndTurn(m, HIGH_BASE + 24, HIGH_BASE + 32, true, p.value, fuel - 1);
    assert Parse(m, HIGH_BASE, fuel) == Parsed(p.value);
  }

  // ---- Totals ----

  function KindBytes(es: seq<Entry>, available: bool): (n: nat) {
    if es == [] then 0
    else (if (es[0].kind == AVAILABLE) == available then es[0].length else 0) + KindBytes(es[1..], available)
  }

  function KindCount(es: seq<Entry>, available: bool): (n: nat) {
    if es == [] then 0
    else (if (es[0].kind == AVAILABLE) == available then 1 else 0) + KindCount(es[1..], available)
  }

  /** Both sums are additive, and one entry contributes its length and itself to those of its kind. */
  lemma {:induction false} KindsAdd(es: seq<Entry>, more: seq<Entry>, e: Entry, available: bool)
    ensures KindBytes(es + more, available) == KindBytes(es, available) + KindBytes(more, available)
    ensures KindCount(es + more, available) == KindCount(es, available) + KindCount(more, available)
    ensures KindBytes([e], available) == (if (e.kind == 1) == available then e.length else 0)
    ensures KindCount([e], available) == (if (e.kind == 1) == available then 1 else 0)
    decreases |es|
  {
    if es == [] {
      assert es + more == more;
    } else {
      assert (es + more)[1..] == es[1..] + more;
      KindsAdd(es[1..], more, e, available);
    }
  }

  lemma {:induction false} FoldFrom(a: Acc, es: seq<Entry>, u: nat, r: nat)
    requires a.totals.usableBytes == Min(u, LIMIT64 - 1) && a.totals.reservedBytes == Min(r, LIMIT64 - 1)
    ensures var f := Fold(a, es);
            && f.books == AccountAll(a.books, es)
            && f.totals.entries == a.totals.entries + |es|
            && f.totals.usable == a.totals.usable + KindCount(es, true)
            && f.totals.reserved == a.totals.reserved + KindCount(es, false)
            && f.totals.usableBytes == Min(u + KindBytes(es, true), LIMIT64 - 1)
            && f.totals.reservedBytes == Min(r + KindBytes(es, false), LIMIT64 - 1)
    decreases |es|
  {
    hide Account;
    if es != [] {
      var available := es[0].kind == AVAILABLE;
      FoldFrom(AddEntry(a, es[0]), es[1..],
               if available then u + es[0].length else u, if available then r else r + es[0].length);
    }
  }

  /** What a successful parse leaves: the books of the entries, their counts, and byte totals equal
      to the true sums capped at 2^64 - 1. */
  lemma ParsedTotals(es: seq<Entry>)
    ensures Fold(Nothing(), es) ==
            Acc(AccountAll(EmptyBooks(), es),
                Totals(|es|, KindCount(es, true), KindCount(es, false),
                       Min(KindBytes(es, true), LIMIT64 - 1), Min(KindBytes(es, false), LIMIT64 - 1)))
  {
    hide AccountAll, Fold;
    FoldFrom(Nothing(), es, 0, 0);
  }
}
