/** The two-level page tables of 32-bit paging (Intel SDM Vol. 3A, section 4.3) as the kernel keeps
    them: one directory, one identity table and three tables for the mutable window, each known by
    its address. A table is a sequence of 1024 words. */
module PageTables {
  import opened Words

  const ENTRIES := 0x400
  const TABLE_COUNT := 3
  const PRESENT_WRITABLE := 3
  const WINDOW_START := 0x0040_0000
  const WINDOW_END := 0x0100_0000

  // ---- Address and entry arithmetic ----

  function PdIndex(addr: u32): (i: nat)
    ensures i < ENTRIES
  {
    addr / 0x40_0000 % ENTRIES
  }

  function PtIndex(addr: u32): (i: nat)
    ensures i < ENTRIES
  {
    addr / PAGE % ENTRIES
  }

  function PageOffset(addr: u32): u32 { addr % PAGE }

  function FrameAddr(entry: u32): u32 { entry - entry % PAGE }

  function MakeEntry(frame: u32, flags: u32): u32 { FrameAddr(frame) + flags % PAGE }

  predicate IsPresent(entry: u32) { entry % 2 == 1 }

  /** The two indices and the offset together are the address. */
  lemma AddressSplits(addr: u32)
    ensures addr == PdIndex(addr) * 0x40_0000 + PtIndex(addr) * PAGE + PageOffset(addr)
    ensures PdIndex(addr) * ENTRIES + PtIndex(addr) == addr / PAGE
  {
  }

  /** Frame bits and flags of an entry come back out of it. */
  lemma EntryDecodes(frame: u32, flags: u32)
    ensures FrameAddr(MakeEntry(frame, flags)) == FrameAddr(frame)
    ensures MakeEntry(frame, flags) % PAGE == flags % PAGE
    ensures IsPresent(MakeEntry(frame, flags)) <==> flags % 2 == 1
  {
    var e := MakeEntry(frame, flags);
    assert e == frame / PAGE * PAGE + flags % PAGE;
    assert e % PAGE == flags % PAGE && e / PAGE == frame / PAGE;
  }

  // ---- Contents of the tables ----

  /** Page-aligned addresses of the directory, the identity table and the first of three adjacent
      tables. The walk starts from the directory itself and never looks it up by its address. */
  datatype Layout = Layout(directory: u32, identity: u32, reserved: u32) {
    function Table(k: nat): int { reserved + k * PAGE }
    ghost predicate Ok() {
      && directory % PAGE == 0 && identity % PAGE == 0 && reserved % PAGE == 0 && reserved + TABLE_COUNT * PAGE <= LIMIT32
      && forall k | 0 <= k < TABLE_COUNT :: identity != Table(k)
    }
  }

  type Table = t: seq<u32> | |t| == ENTRIES witness seq(ENTRIES, _ => 0)

  datatype Tables = Tables(dir: Table, identity: Table, reserved: seq<Table>)

  ghost predicate Empty(t: Table) {
    forall i | 0 <= i < ENTRIES :: !IsPresent(t[i])
  }

  ghost predicate EntryOk(e: u32) {
    e == 0 || e % PAGE == PRESENT_WRITABLE
  }

  /** The directory entry of window table k is present iff the table has a present entry. */
  ghost predicate Installed(layout: Layout, tables: Tables, k: nat)
    requires layout.Ok() && |tables.reserved| == TABLE_COUNT && k < TABLE_COUNT
  {
    tables.dir[k + 1] == if Empty(tables.reserved[k]) then 0 else MakeEntry(layout.Table(k), PRESENT_WRITABLE)
  }

  /** The state every sequence of calls keeps: a window PDE is present iff its table has a present
      entry, absent entries are zero, present ones carry exactly two flags, and the identity part
      and the rest of the directory are as set up. */
  ghost predicate Canonical(layout: Layout, tables: Tables) {
    && layout.Ok() && |tables.reserved| == TABLE_COUNT
    && tables.dir[0] == MakeEntry(layout.identity, PRESENT_WRITABLE)
    && (forall i | 0 <= i < ENTRIES :: tables.identity[i] == MakeEntry(i * PAGE, PRESENT_WRITABLE))
    && (forall d | TABLE_COUNT < d < ENTRIES :: tables.dir[d] == 0)
    && (forall k | 0 <= k < TABLE_COUNT :: Installed(layout, tables, k))
    && (forall k, i | 0 <= k < TABLE_COUNT && 0 <= i < ENTRIES :: EntryOk(tables.reserved[k][i]))
  }

  /** The table a directory entry points to, found by its address. */
  function TableAt(layout: Layout, tables: Tables, addr: int): Option<Table>
    requires |tables.reserved| == TABLE_COUNT
  {
    if addr == layout.identity then Some(tables.identity)
    else if addr == layout.Table(0) then Some(tables.reserved[0])
    else if addr == layout.Table(1) then Some(tables.reserved[1])
    else if addr == layout.Table(2) then Some(tables.reserved[2])
    else None
  }

  /** The walk the processor does: the frame address page `p` translates to. */
  function Walk(layout: Layout, tables: Tables, p: int): Option<int>
    requires |tables.reserved| == TABLE_COUNT && 0 <= p < ENTRIES * ENTRIES
  {
    var pde := tables.dir[p / ENTRIES];
    if !IsPresent(pde) then None
    else match TableAt(layout, tables, FrameAddr(pde))
      case None => None
      case Some(table) =>
        var pte := table[p % ENTRIES];
        if IsPresent(pte) then Some(FrameAddr(pte)) else None
  }

  predicate InWindow(p: int) {
    WINDOW_START <= p * PAGE < WINDOW_END
  }

  /** The window mapping the tables stand for: page number to frame address. */
  ghost function Mapping(tables: Tables): map<int, int>
    requires |tables.reserved| == TABLE_COUNT
  {
    map p | ENTRIES <= p < (TABLE_COUNT + 1) * ENTRIES && IsPresent(tables.reserved[p / ENTRIES - 1][p % ENTRIES])
          :: FrameAddr(tables.reserved[p / ENTRIES - 1][p % ENTRIES])
  }

  /** m says of page p what its entry says. */
  ghost predicate Agrees(tables: Tables, m: map<int, int>, p: int)
    requires |tables.reserved| == TABLE_COUNT && InWindow(p)
  {
    var e := tables.reserved[p / ENTRIES - 1][p % ENTRIES];
    (p in m <==> IsPresent(e)) && (p in m ==> m[p] == FrameAddr(e))
  }

  /** m is the mapping of the tables, page by page. */
  ghost predicate Represents(tables: Tables, m: map<int, int>) {
    && |tables.reserved| == TABLE_COUNT
    && (forall p | p in m :: InWindow(p))
    && (forall p {:trigger Agrees(tables, m, p)} | InWindow(p) :: Agrees(tables, m, p))
  }

  lemma RepresentsMapping(tables: Tables, m: map<int, int>)
    requires |tables.reserved| == TABLE_COUNT
    ensures Represents(tables, m) <==> m == Mapping(tables)
  {
    if Represents(tables, m) {
      forall p | InWindow(p) ensures p in m <==> p in Mapping(tables) {
        assert Agrees(tables, m, p);
      }
      forall p | p in m ensures m[p] == Mapping(tables)[p] {
        assert Agrees(tables, m, p);
      }
    }
  }

  /** Where a directory entry leads in a canonical state. */
  lemma DirectoryLeads(layout: Layout, tables: Tables, d: nat)
    requires Canonical(layout, tables) && d < ENTRIES
    ensures d == 0 ==>
              IsPresent(tables.dir[0]) && TableAt(layout, tables, FrameAddr(tables.dir[0])) == Some(tables.identity)
    ensures 0 < d <= TABLE_COUNT && !Empty(tables.reserved[d - 1]) ==>
              IsPresent(tables.dir[d]) && TableAt(layout, tables, FrameAddr(tables.dir[d])) == Some(tables.reserved[d - 1])
    ensures d > TABLE_COUNT || (d > 0 && Empty(tables.reserved[d - 1])) ==> !IsPresent(tables.dir[d])
  {
    hide Empty;
    if d == 0 {
      EntryDecodes(layout.identity, PRESENT_WRITABLE);
    } else if d <= TABLE_COUNT {
      EntryDecodes(layout.Table(d - 1), PRESENT_WRITABLE);
      assert Installed(layout, tables, d - 1);
    }
  }

  lemma IdentityEntry(layout: Layout, tables: Tables, i: nat)
    requires Canonical(layout, tables) && i < ENTRIES
    ensures IsPresent(tables.identity[i]) && FrameAddr(tables.identity[i]) == i * PAGE
  {
    EntryDecodes(i * PAGE, PRESENT_WRITABLE);
  }

  lemma MappingAt(tables: Tables, p: int)
    requires |tables.reserved| == TABLE_COUNT
    ensures InWindow(p) <==> ENTRIES <= p < (TABLE_COUNT + 1) * ENTRIES
    ensures p in Mapping(tables) ==> InWindow(p)
    ensures InWindow(p) ==> Agrees(tables, Mapping(tables), p)
  {
  }

  /** In a canonical state the walk yields the identity below 4 MiB, the mapping in the window, and
      nothing from 16 MiB up. */
  lemma WalkIs(layout: Layout, tables: Tables, p: int)
    requires Canonical(layout, tables) && 0 <= p < ENTRIES * ENTRIES
    ensures Walk(layout, tables, p) ==
            if p < ENTRIES then Some(p * PAGE)
            else if p in Mapping(tables) then Some(Mapping(tables)[p]) else None
    ensures p in Mapping(tables) ==> InWindow(p)
  {
    hide Canonical, Mapping, TableAt, FrameAddr, IsPresent, InWindow;
    assert |tables.reserved| == TABLE_COUNT by {
      CanonicalShape(layout, tables);
    }
    DirectoryLeads(layout, tables, p / ENTRIES);
    MappingAt(tables, p);
    if p < ENTRIES {
      IdentityEntry(layout, tables, p);
    }
  }

  lemma CanonicalShape(layout: Layout, tables: Tables)
    requires Canonical(layout, tables)
    ensures |tables.reserved| == TABLE_COUNT && layout.Ok()
  {
  }

  /** The words of every table are determined by the mapping: two canonical states with the same
      mapping agree word for word. */
  lemma MappingDeterminesWords(layout: Layout, other: Tables, tables: Tables)
    requires Canonical(layout, other) && Canonical(layout, tables) && Mapping(other) == Mapping(tables)
    ensures other == tables
  {
    forall k | 0 <= k < TABLE_COUNT ensures other.reserved[k] == tables.reserved[k] {
      forall i | 0 <= i < ENTRIES ensures other.reserved[k][i] == tables.reserved[k][i] {
        WordIsMapping(layout, other, k, i);
        WordIsMapping(layout, tables, k, i);
      }
    }
    forall d | 0 <= d < ENTRIES ensures other.dir[d] == tables.dir[d] {
      if 0 < d <= TABLE_COUNT {
        assert Installed(layout, other, d - 1) && Installed(layout, tables, d - 1);
      }
    }
    assert other.dir == tables.dir && other.identity == tables.identity && other.reserved == tables.reserved;
  }

  lemma WordIsMapping(layout: Layout, tables: Tables, k: nat, i: nat)
    requires Canonical(layout, tables) && k < TABLE_COUNT && i < ENTRIES
    ensures var p, e := (k + 1) * ENTRIES + i, tables.reserved[k][i];
            (p in Mapping(tables) <==> e != 0) && (e != 0 ==> e == Mapping(tables)[p] + PRESENT_WRITABLE)
  {
    hide Mapping, IsPresent, FrameAddr;
    var p, e := (k + 1) * ENTRIES + i, tables.reserved[k][i];
    assert p / ENTRIES - 1 == k && p % ENTRIES == i;
    MappingAt(tables, p);
    assert Agrees(tables, Mapping(tables), p);
    assert EntryOk(e);
    FlagsMeanPresent(e);
  }

  lemma FlagsMeanPresent(e: u32)
    requires EntryOk(e)
    ensures IsPresent(e) <==> e != 0
    ensures e != 0 ==> e == FrameAddr(e) + PRESENT_WRITABLE
  {
    if e != 0 {
      FlagsKernelWritable(e);
    }
  }

  // ---- Steps ----

  /** Set the entry of window page p and keep the directory in step with the table. */
  ghost function WithEntry(layout: Layout, tables: Tables, p: int, e: u32): Tables
    requires layout.Ok() && |tables.reserved| == TABLE_COUNT && InWindow(p)
  {
    var k := p / ENTRIES - 1;
    var table := tables.reserved[k][p % ENTRIES := e];
    tables.(dir := tables.dir[k + 1 := if Empty(table) then 0 else MakeEntry(layout.Table(k), PRESENT_WRITABLE)],
       reserved := tables.reserved[k := table])
  }

  lemma WithEntryCanonical(layout: Layout, tables: Tables, p: int, e: u32)
    requires Canonical(layout, tables) && InWindow(p) && EntryOk(e)
    ensures Canonical(layout, WithEntry(layout, tables, p, e))
  {
    var after, k := WithEntry(layout, tables, p, e), p / ENTRIES - 1;
    forall j | 0 <= j < TABLE_COUNT ensures Installed(layout, after, j) {
      assert Installed(layout, tables, j);
    }
    assert forall j | 0 <= j < TABLE_COUNT && j != k :: after.reserved[j] == tables.reserved[j];
  }

  lemma WithEntryMapping(layout: Layout, tables: Tables, p: int, e: u32)
    requires layout.Ok() && |tables.reserved| == TABLE_COUNT && InWindow(p)
    ensures Mapping(WithEntry(layout, tables, p, e)) ==
            if IsPresent(e) then Mapping(tables)[p := FrameAddr(e)] else Mapping(tables) - {p}
  {
    var after := WithEntry(layout, tables, p, e);
    forall q | InWindow(q)
      ensures after.reserved[q / ENTRIES - 1][q % ENTRIES] == if q == p then e else tables.reserved[q / ENTRIES - 1][q % ENTRIES]
    {
    }
  }

  function WithWord(tables: Tables, k: nat, i: nat, e: u32): Tables
    requires |tables.reserved| == TABLE_COUNT && k < TABLE_COUNT && i < ENTRIES
  {
    tables.(reserved := tables.reserved[k := tables.reserved[k][i := e]])
  }

  function WithPde(tables: Tables, d: nat, e: u32): Tables
    requires d < ENTRIES
  {
    tables.(dir := tables.dir[d := e])
  }

  /** Where a window page has its entry, and how that table is installed. */
  lemma WindowSlot(layout: Layout, tables: Tables, page: u32)
    requires Canonical(layout, tables) && InWindow(page / PAGE)
    ensures var k := page / PAGE / ENTRIES - 1;
            && 0 <= k < TABLE_COUNT && PdIndex(page) == k + 1 && PtIndex(page) == page / PAGE % ENTRIES
            && FrameAddr(layout.Table(k)) == layout.Table(k)
            && (IsPresent(tables.dir[k + 1]) <==> !Empty(tables.reserved[k]))
            && (IsPresent(tables.dir[k + 1]) ==>
                  FrameAddr(tables.dir[k + 1]) == layout.Table(k) && tables.dir[k + 1] == MakeEntry(layout.Table(k), PRESENT_WRITABLE))
            && (page / PAGE in Mapping(tables) <==> IsPresent(tables.reserved[k][PtIndex(page)]))
            && (Empty(tables.reserved[k]) ==> forall i | 0 <= i < ENTRIES :: tables.reserved[k][i] == 0)
  {
    var k := page / PAGE / ENTRIES - 1;
    assert Installed(layout, tables, k);
    EntryDecodes(layout.Table(k), PRESENT_WRITABLE);
    assert forall i | 0 <= i < ENTRIES :: EntryOk(tables.reserved[k][i]);
  }

  /** Storing a present entry under an installed table, or an absent one and taking the table out
      when it is empty, is the step on the tables. */
  lemma WordThenPde(layout: Layout, tables: Tables, p: int, e: u32)
    requires layout.Ok() && |tables.reserved| == TABLE_COUNT && InWindow(p)
    ensures var k, i, entry := p / ENTRIES - 1, p % ENTRIES, MakeEntry(layout.Table(p / ENTRIES - 1), PRESENT_WRITABLE);
            && (IsPresent(e) ==> WithEntry(layout, tables, p, e) == WithWord(WithPde(tables, k + 1, entry), k, i, e))
            && (Empty(tables.reserved[k][i := e]) ==> WithEntry(layout, tables, p, e) == WithPde(WithWord(tables, k, i, e), k + 1, 0))
            && (!Empty(tables.reserved[k][i := e]) && tables.dir[k + 1] == entry ==> WithEntry(layout, tables, p, e) == WithWord(tables, k, i, e))
  {
    var k, i := p / ENTRIES - 1, p % ENTRIES;
    if IsPresent(e) {
      assert IsPresent(tables.reserved[k][i := e][i]);
    }
  }

  datatype Op = Map(page: u32, frame: u32) | Unmap(page: u32)

  /** What a call means: a partial function on pages, changed at one page or not at all. */
  function Abstract(m: map<int, int>, op: Op): (map<int, int>, bool) {
    var p := op.page / PAGE;
    if op.page % PAGE != 0 || !InWindow(p) then (m, false)
    else match op
      case Map(_, frame) => if frame % PAGE != 0 || p in m then (m, false) else (m[p := frame], true)
      case Unmap(_) => if p !in m then (m, false) else (m - {p}, true)
  }

  ghost function Step(layout: Layout, tables: Tables, op: Op): (Tables, bool)
    requires Canonical(layout, tables)
  {
    var (_, ok) := Abstract(Mapping(tables), op);
    if !ok then (tables, false)
    else
      (WithEntry(layout, tables, op.page / PAGE, if op.Map? then MakeEntry(op.frame, PRESENT_WRITABLE) else 0), true)
  }

  /** One call refines the partial function and keeps the state canonical. */
  lemma StepRefines(layout: Layout, tables: Tables, op: Op)
    requires Canonical(layout, tables)
    ensures Canonical(layout, Step(layout, tables, op).0)
    ensures (Mapping(Step(layout, tables, op).0), Step(layout, tables, op).1) == Abstract(Mapping(tables), op)
  {
    hide Canonical, Mapping, WithEntry, MakeEntry;
    CanonicalShape(layout, tables);
    if Abstract(Mapping(tables), op).1 {
      var e := if op.Map? then MakeEntry(op.frame, PRESENT_WRITABLE) else 0;
      if op.Map? {
        EntryDecodes(op.frame, PRESENT_WRITABLE);
      }
      WithEntryCanonical(layout, tables, op.page / PAGE, e);
      WithEntryMapping(layout, tables, op.page / PAGE, e);
    }
  }

  /** What map and unmap mean for the walk. A map succeeds exactly when both addresses are multiples of
      4 KiB, the page lies in [4 MiB, 16 MiB) and the walk finds nothing there; then the walk finds the
      frame. An unmap succeeds exactly when the walk finds a frame there; then it finds nothing. The walk
      of no other page changes, and a call that fails changes no word. */
  lemma StepMeansWalk(layout: Layout, tables: Tables, op: Op)
    requires Canonical(layout, tables)
    ensures Canonical(layout, Step(layout, tables, op).0)
    ensures var (after, ok), p := Step(layout, tables, op), op.page / 0x1000;
            && (ok <==>
                && op.page % 0x1000 == 0 && 0x40_0000 <= op.page < 0x100_0000
                && match op
                   case Map(_, frame) => frame % 0x1000 == 0 && Walk(layout, tables, p) == None
                   case Unmap(_) => Walk(layout, tables, p) != None)
            && (ok ==> Walk(layout, after, p) == match op case Map(_, frame) => Some(frame) case Unmap(_) => None)
            && (forall q | 0 <= q < 0x10_0000 && (!ok || q != p) :: Walk(layout, after, q) == Walk(layout, tables, q))
            && (!ok ==> after == tables)
  {
    hide Walk, Canonical, Mapping, Step;
    StepRefines(layout, tables, op);
    StepRefused(layout, tables, op);
    var (after, ok) := Step(layout, tables, op);
    var p := op.page / 0x1000;
    WalkIs(layout, tables, p);
    WalkIs(layout, after, p);
    CanonicalShape(layout, tables);
    CanonicalShape(layout, after);
    forall q | 0 <= q < 0x10_0000 && (!ok || q != p) ensures Walk(layout, after, q) == Walk(layout, tables, q) {
      WalkIs(layout, tables, q);
      WalkIs(layout, after, q);
    }
  }

  lemma StepRefused(layout: Layout, tables: Tables, op: Op)
    requires Canonical(layout, tables)
    ensures !Step(layout, tables, op).1 ==> Step(layout, tables, op).0 == tables
  {
  }

  /** A present entry: the page is mapped, writable, for the kernel only, with no other flag. */
  predicate KernelWritable(e: u32) {
    e % 2 == 1 && e / 2 % 2 == 1 && e / 4 % 2 == 0 && e % 0x1000 == 3
  }

  lemma FlagsKernelWritable(e: u32)
    requires e % PAGE == PRESENT_WRITABLE
    ensures KernelWritable(e)
  {
    var r := 512 * (e / PAGE);
    assert e == 8 * r + 3;
    LowBits(e, r);
  }

  lemma LowBits(e: nat, r: nat)
    requires e == 8 * r + 3
    ensures e % 2 == 1 && e / 2 % 2 == 1 && e / 4 % 2 == 0
  {
    assert e / 2 == 4 * r + 1 && e / 4 == 2 * r;
  }

  lemma DirectoryKernelWritable(layout: Layout, tables: Tables, d: nat)
    requires Canonical(layout, tables) && d < ENTRIES
    ensures tables.dir[d] == 0 || KernelWritable(tables.dir[d])
  {
    hide Empty, KernelWritable, MakeEntry, IsPresent, FrameAddr;
    if d == 0 {
      EntryDecodes(layout.identity, PRESENT_WRITABLE);
      FlagsKernelWritable(tables.dir[d]);
    } else if d <= TABLE_COUNT {
      EntryDecodes(layout.Table(d - 1), PRESENT_WRITABLE);
      assert Installed(layout, tables, d - 1);
      if tables.dir[d] != 0 {
        FlagsKernelWritable(tables.dir[d]);
      }
    }
  }

  lemma WindowKernelWritable(layout: Layout, tables: Tables, k: nat, i: nat)
    requires Canonical(layout, tables) && k < TABLE_COUNT && i < ENTRIES
    ensures tables.reserved[k][i] == 0 || KernelWritable(tables.reserved[k][i])
  {
    hide KernelWritable;
    assert EntryOk(tables.reserved[k][i]);
    if tables.reserved[k][i] != 0 {
      FlagsKernelWritable(tables.reserved[k][i]);
    }
  }

  /** In every canonical state an entry of the directory or of a table is 0 or kernel-writable, and
      entry i of the identity table is i * 4096 + 3. */
  lemma EntriesKernelWritable(layout: Layout, tables: Tables, i: nat)
    requires Canonical(layout, tables) && i < ENTRIES
    ensures tables.dir[i] == 0 || KernelWritable(tables.dir[i])
    ensures forall k | 0 <= k < |tables.reserved| :: tables.reserved[k][i] == 0 || KernelWritable(tables.reserved[k][i])
    ensures tables.identity[i] == i * 0x1000 + 3 && KernelWritable(tables.identity[i])
  {
    hide KernelWritable;
    DirectoryKernelWritable(layout, tables, i);
    forall k | 0 <= k < |tables.reserved| ensures tables.reserved[k][i] == 0 || KernelWritable(tables.reserved[k][i]) {
      WindowKernelWritable(layout, tables, k, i);
    }
    EntryDecodes(i * PAGE, PRESENT_WRITABLE);
    FlagsKernelWritable(tables.identity[i]);
  }

  ghost function Run(layout: Layout, tables: Tables, ops: seq<Op>): (after: Tables)
    requires Canonical(layout, tables)
    ensures Canonical(layout, after)
    decreases |ops|
  {
    if ops == [] then tables
    else
      StepRefines(layout, tables, ops[0]);
      Run(layout, Step(layout, tables, ops[0]).0, ops[1..])
  }

  function AbstractRun(m: map<int, int>, ops: seq<Op>): map<int, int>
    decreases |ops|
  {
    if ops == [] then m else AbstractRun(Abstract(m, ops[0]).0, ops[1..])
  }

  lemma {:induction false} RunMapping(layout: Layout, tables: Tables, ops: seq<Op>)
    requires Canonical(layout, tables)
    ensures Mapping(Run(layout, tables, ops)) == AbstractRun(Mapping(tables), ops)
    decreases |ops|
  {
    if ops != [] {
      StepRefines(layout, tables, ops[0]);
      RunMapping(layout, Step(layout, tables, ops[0]).0, ops[1..]);
    }
  }

  /** After any sequence of calls every page translates as the partial function says; pages below
      4 MiB still resolve to themselves and pages from 16 MiB up stay unmapped. */
  lemma RunRefines(layout: Layout, tables: Tables, ops: seq<Op>, p: int)
    requires Canonical(layout, tables) && 0 <= p < ENTRIES * ENTRIES
    ensures var m := AbstractRun(Mapping(tables), ops);
            && Walk(layout, Run(layout, tables, ops), p) ==
               (if p < ENTRIES then Some(p * PAGE) else if p in m then Some(m[p]) else None)
            && (WINDOW_END <= p * PAGE ==> Walk(layout, Run(layout, tables, ops), p) == None)
  {
    RunMapping(layout, tables, ops);
    WalkIs(layout, Run(layout, tables, ops), p);
  }

  /** A successful map followed by unmap of the same page restores the directory and every table
      word for word. */
  lemma MapUnmapRestores(layout: Layout, tables: Tables, page: u32, frame: u32)
    requires Canonical(layout, tables) && Step(layout, tables, Map(page, frame)).1
    ensures Step(layout, tables, Map(page, frame)).0 != tables
    ensures Canonical(layout, Step(layout, tables, Map(page, frame)).0)
    ensures Step(layout, Step(layout, tables, Map(page, frame)).0, Unmap(page)) == (tables, true)
  {
    hide Mapping, WithEntry;
    var after := Step(layout, tables, Map(page, frame)).0;
    StepRefines(layout, tables, Map(page, frame));
    StepRefines(layout, after, Unmap(page));
    assert page / PAGE !in Mapping(tables) && page / PAGE in Mapping(after);
    assert Mapping(after) - {page / PAGE} == Mapping(tables);
    MappingDeterminesWords(layout, Step(layout, after, Unmap(page)).0, tables);
  }

  /** More generally, a whole run restores all words exactly when it restores the mapping. */
  lemma RunRestoresIffMappingDoes(layout: Layout, tables: Tables, ops: seq<Op>)
    requires Canonical(layout, tables)
    ensures Run(layout, tables, ops) == tables <==> AbstractRun(Mapping(tables), ops) == Mapping(tables)
  {
    RunMapping(layout, tables, ops);
    if AbstractRun(Mapping(tables), ops) == Mapping(tables) {
      MappingDeterminesWords(layout, Run(layout, tables, ops), tables);
    }
  }
}
