/** Stages 7B and 8B: the tables in memory and the calls that change or read them. */
module VirtualMemory {
  import opened Words
  import P = PageTables

  class PageTableManager {
    const layout: P.Layout
    const directory: array<u32>
    const identityTable: array<u32>
    const reservedTables: seq<array<u32>>
    /** The window mapping the tables stand for: page number to frame address. */
    ghost var mapping: map<int, int>

    /** Directory and tables are different arrays of 1024 entries. */
    ghost predicate Shaped() {
      && layout.Ok()
      && directory.Length == identityTable.Length == P.ENTRIES && directory != identityTable
      && |reservedTables| == P.TABLE_COUNT
      && (forall k | 0 <= k < P.TABLE_COUNT ::
            reservedTables[k].Length == P.ENTRIES && reservedTables[k] != directory && reservedTables[k] != identityTable)
      && (forall j, k | 0 <= j < k < P.TABLE_COUNT :: reservedTables[j] != reservedTables[k])
    }

    ghost function View(): P.Tables
      requires Shaped()
      reads directory, identityTable, reservedTables
    {
      P.Tables(directory[..], identityTable[..],
               [reservedTables[0][..], reservedTables[1][..], reservedTables[2][..]])
    }

    ghost predicate Valid()
      reads this, directory, identityTable, reservedTables
    {
      Tabled() && P.Represents(View(), mapping)
    }

    ghost predicate Tabled()
      reads directory, identityTable, reservedTables
    {
      Shaped() && P.Canonical(layout, View())
    }

    /** Static storage is zero; the setup routine then installs the identity mapping. */
    constructor (layout: P.Layout)
      requires layout.Ok()
      ensures Valid() && this.layout == layout && mapping == map[]
      ensures directory[0] == layout.identity + 3 && forall d | 1 <= d < 1024 :: directory[d] == 0
      ensures forall i | 0 <= i < 1024 :: identityTable[i] == i * 0x1000 + 3
      ensures forall k, i | 0 <= k < |reservedTables| && 0 <= i < 1024 :: reservedTables[k][i] == 0
      ensures fresh(directory) && fresh(identityTable)
      ensures forall k | 0 <= k < |reservedTables| :: fresh(reservedTables[k])
    {
      this.layout := layout;
      directory := new u32[P.ENTRIES](_ => 0);
      identityTable := new u32[P.ENTRIES](_ => 0);
      var t0 := new u32[P.ENTRIES](_ => 0);
      var t1 := new u32[P.ENTRIES](_ => 0);
      var t2 := new u32[P.ENTRIES](_ => 0);
      reservedTables := [t0, t1, t2];
      new;
      SetupEarlyIdentityPaging();
    }

    static method ClearTable(table: array<u32>)
      requires table.Length == P.ENTRIES
      modifies table
      ensures forall i | 0 <= i < P.ENTRIES :: table[i] == 0
    {
      var i := 0;
      while i < P.ENTRIES
        invariant 0 <= i <= P.ENTRIES
        invariant forall j | 0 <= j < i :: table[j] == 0
      {
        table[i] := 0;
        i := i + 1;
      }
    }

    static method TableIsEmpty(table: array<u32>) returns (empty: bool)
      requires table.Length == P.ENTRIES
      ensures empty <==> P.Empty(table[..])
    {
      var i := 0;
      while i < P.ENTRIES
        invariant 0 <= i <= P.ENTRIES
        invariant forall j | 0 <= j < i :: !P.IsPresent(table[j])
      {
        if P.IsPresent(table[i]) {
          assert P.IsPresent(table[..][i]);
          return false;
        }
        i := i + 1;
      }
      return true;
    }

    method SetupEarlyIdentityPaging()
      requires Shaped()
      requires forall k, i | 0 <= k < P.TABLE_COUNT && 0 <= i < P.ENTRIES :: reservedTables[k][i] == 0
      modifies this`mapping, directory, identityTable
      ensures Valid() && mapping == map[]
      ensures directory[0] == layout.identity + 3 && forall d | 1 <= d < 1024 :: directory[d] == 0
      ensures forall i | 0 <= i < 1024 :: identityTable[i] == i * 0x1000 + 3
    {
      ClearTable(directory);
      ClearTable(identityTable);
      var i := 0;
      while i < P.ENTRIES
        invariant 0 <= i <= P.ENTRIES
        invariant forall j | 0 <= j < i :: identityTable[j] == P.MakeEntry(j * PAGE, P.PRESENT_WRITABLE)
        invariant forall j | 0 <= j < P.ENTRIES :: directory[j] == 0
      {
        identityTable[i] := P.MakeEntry(i * PAGE, P.PRESENT_WRITABLE);
        i := i + 1;
      }
      directory[0] := P.MakeEntry(layout.identity, P.PRESENT_WRITABLE);
      ghost var before := View();
      assert forall k, j | 0 <= k < P.TABLE_COUNT && 0 <= j < P.ENTRIES :: before.reserved[k][j] == 0;
      assert forall k | 0 <= k < P.TABLE_COUNT :: P.Installed(layout, before, k);
      mapping := map[];
      assert forall p | P.InWindow(p) :: P.Agrees(before, mapping, p);
    }

    /** The directory index and table slot of an address in the mutable window. */
    method GetReservedMappingSlot(virtualAddr: u32) returns (slot: Option<(nat, nat)>)
      ensures slot == if P.InWindow(virtualAddr / PAGE)
                      then Some((P.PdIndex(virtualAddr), virtualAddr / PAGE / P.ENTRIES - 1)) else None
    {
      var startIndex := P.PdIndex(P.WINDOW_START);
      var pdIndex := P.PdIndex(virtualAddr);
      if !(P.WINDOW_START <= virtualAddr < 0x0080_0000) && !(0x0080_0000 <= virtualAddr < P.WINDOW_END) {
        return None;
      }
      if pdIndex < startIndex {
        assert false;
        return None;
      }
      var tableSlot := pdIndex - startIndex;
      if tableSlot >= P.TABLE_COUNT {
        assert false;
        return None;
      }
      return Some((pdIndex, tableSlot));
    }

    /** The table at the address a directory entry carries. */
    method PageTableFromEntry(entry: u32) returns (table: array<u32>)
      requires Shaped() && P.TableAt(layout, View(), P.FrameAddr(entry)).Some?
      ensures table.Length == P.ENTRIES
      ensures P.TableAt(layout, View(), P.FrameAddr(entry)) == Some(table[..])
    {
      var addr := P.FrameAddr(entry);
      if addr == layout.identity {
        return identityTable;
      }
      var k := 0;
      while addr != layout.Table(k)
        invariant 0 <= k < P.TABLE_COUNT
        invariant forall j | 0 <= j < k :: addr != layout.Table(j)
        decreases P.TABLE_COUNT - k
      {
        assert layout.Table(0) == layout.reserved;
        k := k + 1;
      }
      return reservedTables[k];
    }

    method ResolvePageFrame(page: u32) returns (frame: Option<u32>)
      requires Valid()
      ensures frame == if page % PAGE == 0 then P.Walk(layout, View(), page / PAGE) else None
    {
      var pdIndex, ptIndex := P.PdIndex(page), P.PtIndex(page);
      var pde := directory[pdIndex];
      if P.PageOffset(page) != 0 {
        return None;
      }
      P.AddressSplits(page);
      if !P.IsPresent(pde) {
        return None;
      }
      PresentDecodes(pdIndex);
      var table := PageTableFromEntry(pde);
      var pte := table[ptIndex];
      if !P.IsPresent(pte) {
        return None;
      }
      return Some(P.FrameAddr(pte));
    }

    method IsPageMapped(page: u32) returns (mapped: bool)
      requires Valid()
      ensures mapped <==> page % PAGE == 0 && P.Walk(layout, View(), page / PAGE).Some?
    {
      var pdIndex, ptIndex := P.PdIndex(page), P.PtIndex(page);
      var pde := directory[pdIndex];
      if P.PageOffset(page) != 0 {
        return false;
      }
      P.AddressSplits(page);
      if !P.IsPresent(pde) {
        return false;
      }
      PresentDecodes(pdIndex);
      var table := PageTableFromEntry(pde);
      return P.IsPresent(table[ptIndex]);
    }

    /** What the processor's walk finds: identity below 4 MiB, the mapping in the window, nothing above. */
    lemma WalkFollowsMapping(p: int)
      requires Valid() && 0 <= p < P.ENTRIES * P.ENTRIES
      ensures P.Walk(layout, View(), p) ==
              if p < P.ENTRIES then Some(p * PAGE) else if p in mapping then Some(mapping[p]) else None
    {
      P.RepresentsMapping(View(), mapping);
      P.WalkIs(layout, View(), p);
    }

    /** In every consistent state each entry of the directory and of the tables is 0 or maps its page
        writable and for the kernel only. */
    lemma EntriesKernelWritable(i: nat)
      requires Valid() && i < P.ENTRIES
      ensures directory[i] == 0 || P.KernelWritable(directory[i])
      ensures identityTable[i] == i * 0x1000 + 3 && P.KernelWritable(identityTable[i])
      ensures forall k | 0 <= k < |reservedTables| :: reservedTables[k][i] == 0 || P.KernelWritable(reservedTables[k][i])
    {
      hide P.KernelWritable, P.Canonical, P.Represents;
      P.EntriesKernelWritable(layout, View(), i);
      forall k | 0 <= k < |reservedTables| ensures reservedTables[k][i] == View().reserved[k][i] {
      }
    }

    /** Every present directory entry leads to one of the kernel's tables. */
    lemma PresentDecodes(d: nat)
      requires Tabled() && d < P.ENTRIES && P.IsPresent(directory[d])
      ensures P.TableAt(layout, View(), P.FrameAddr(directory[d])) ==
              Some(if d == 0 then View().identity else View().reserved[d - 1])
      ensures d <= P.TABLE_COUNT
      ensures d > 0 ==> !P.Empty(View().reserved[d - 1])
                        && P.FrameAddr(directory[d]) == layout.Table(d - 1)
    {
      if d == 0 {
        P.EntryDecodes(layout.identity, P.PRESENT_WRITABLE);
      } else {
        assert View().dir[d] == directory[d];
        assert d <= P.TABLE_COUNT;
        assert P.Installed(layout, View(), d - 1);
        P.EntryDecodes(layout.Table(d - 1), P.PRESENT_WRITABLE);
      }
    }

    method SetEntry(k: nat, i: nat, e: u32)
      requires Shaped() && k < P.TABLE_COUNT && i < P.ENTRIES
      modifies reservedTables[k]
      ensures View() == P.WithWord(old(View()), k, i, e)
    {
      reservedTables[k][i] := e;
      assert View().reserved == old(View()).reserved[k := old(View()).reserved[k][i := e]];
    }

    method SetDirectoryEntry(d: nat, e: u32)
      requires Shaped() && d < P.ENTRIES
      modifies directory
      ensures View() == P.WithPde(old(View()), d, e)
    {
      directory[d] := e;
      assert directory[..] == old(directory[..])[d := e];
    }

    /** Clearing a table about to be installed: in a canonical state it is zero already. */
    method ClearReservedTable(k: nat)
      requires Shaped() && k < P.TABLE_COUNT
      requires forall i | 0 <= i < P.ENTRIES :: View().reserved[k][i] == 0
      modifies reservedTables[k]
      ensures View() == old(View())
    {
      ghost var before := View();
      ClearTable(reservedTables[k]);
      assert reservedTables[k][..] == before.reserved[k];
      assert View().reserved == before.reserved;
    }

    /** Maps exactly when both addresses are aligned, the page is in the window and it is unmapped;
        an absent table is cleared and installed first. */
    method MapPage(page: u32, frame: u32) returns (ok: bool)
      requires Valid()
      modifies this`mapping, directory, reservedTables
      ensures Valid()
      ensures (View(), ok) == P.Step(layout, old(View()), P.Map(page, frame))
      ensures (mapping, ok) == P.Abstract(old(mapping), P.Map(page, frame))
      ensures ok <==>
              && page % 0x1000 == 0 && frame % 0x1000 == 0 && 0x40_0000 <= page < 0x100_0000
              && P.Walk(layout, old(View()), page / 0x1000) == None
      ensures ok ==> P.Walk(layout, View(), page / 0x1000) == Some(frame)
      ensures forall q | 0 <= q < 0x10_0000 && (!ok || q != page / 0x1000) ::
                P.Walk(layout, View(), q) == P.Walk(layout, old(View()), q)
      ensures !ok ==> View() == old(View())
    {
      hide P.Walk, P.Step, P.Canonical, P.Abstract, P.Represents;
      ghost var before := View();
      P.StepMeansWalk(layout, before, P.Map(page, frame));
      P.StepRefines(layout, before, P.Map(page, frame));
      P.RepresentsMapping(before, mapping);
      ok := MapWords(page, frame);
      mapping := P.Abstract(mapping, P.Map(page, frame)).0;
      P.RepresentsMapping(View(), mapping);
    }

    method MapWords(page: u32, frame: u32) returns (ok: bool)
      requires Tabled()
      modifies directory, reservedTables
      ensures Tabled() && (View(), ok) == P.Step(layout, old(View()), P.Map(page, frame))
    {
      hide P.Mapping;
      ghost var before := View();
      P.StepRefines(layout, before, P.Map(page, frame));
      if P.PageOffset(page) != 0 {
        return false;
      }
      if P.PageOffset(frame) != 0 {
        return false;
      }
      var slot := GetReservedMappingSlot(page);
      if slot.None? {
        return false;
      }
      var (pdIndex, k) := slot.value;
      P.WindowSlot(layout, before, page);
      var pde := directory[pdIndex];
      var ptIndex := P.PtIndex(page);
      var entry := P.MakeEntry(frame, P.PRESENT_WRITABLE);
      assert before.dir[k + 1] == pde;
      if !P.IsPresent(pde) {
        ClearReservedTable(k);
        SetDirectoryEntry(pdIndex, P.MakeEntry(layout.Table(k), P.PRESENT_WRITABLE));
      } else if P.FrameAddr(pde) != P.FrameAddr(layout.Table(k)) {
        assert false;
        return false;
      }
      assert View() == P.WithPde(before, k + 1, P.MakeEntry(layout.Table(k), P.PRESENT_WRITABLE)) by {
        assert P.IsPresent(pde) ==> before.dir[k + 1 := pde] == before.dir;
      }
      assert reservedTables[k][ptIndex] == View().reserved[k][ptIndex];
      if P.IsPresent(reservedTables[k][ptIndex]) {
        assert P.IsPresent(pde) && before.dir[k + 1 := pde] == before.dir;
        return false;
      }
      SetEntry(k, ptIndex, entry);
      P.EntryDecodes(frame, P.PRESENT_WRITABLE);
      P.WordThenPde(layout, before, page / PAGE, entry);
      return true;
    }

    /** Unmaps exactly when the aligned window page is mapped; a table left empty is taken out of
        the directory. */
    method UnmapPage(page: u32) returns (ok: bool)
      requires Valid()
      modifies this`mapping, directory, reservedTables
      ensures Valid()
      ensures (View(), ok) == P.Step(layout, old(View()), P.Unmap(page))
      ensures (mapping, ok) == P.Abstract(old(mapping), P.Unmap(page))
      ensures ok <==>
              && page % 0x1000 == 0 && 0x40_0000 <= page < 0x100_0000
              && P.Walk(layout, old(View()), page / 0x1000) != None
      ensures ok ==> P.Walk(layout, View(), page / 0x1000) == None
      ensures forall q | 0 <= q < 0x10_0000 && (!ok || q != page / 0x1000) ::
                P.Walk(layout, View(), q) == P.Walk(layout, old(View()), q)
      ensures !ok ==> View() == old(View())
    {
      hide P.Mapping, P.Walk, P.Step, P.Canonical, P.Abstract, P.Represents;
      ghost var before := View();
      P.StepMeansWalk(layout, before, P.Unmap(page));
      P.StepRefines(layout, before, P.Unmap(page));
      P.RepresentsMapping(before, mapping);
      ok := UnmapWords(page);
      mapping := P.Abstract(mapping, P.Unmap(page)).0;
      P.RepresentsMapping(View(), mapping);
    }

    method UnmapWords(page: u32) returns (ok: bool)
      requires Tabled()
      modifies directory, reservedTables
      ensures Tabled() && (View(), ok) == P.Step(layout, old(View()), P.Unmap(page))
    {
      hide P.Mapping;
      ghost var before := View();
      P.StepRefines(layout, before, P.Unmap(page));
      if P.PageOffset(page) != 0 {
        return false;
      }
      var slot := GetReservedMappingSlot(page);
      if slot.None? {
        return false;
      }
      var (pdIndex, k) := slot.value;
      P.WindowSlot(layout, before, page);
      var pde := directory[pdIndex];
      var ptIndex := P.PtIndex(page);
      assert before.dir[k + 1] == pde && reservedTables[k][ptIndex] == before.reserved[k][ptIndex];
      if !P.IsPresent(pde) {
        return false;
      }
      if P.FrameAddr(pde) != P.FrameAddr(layout.Table(k)) {
        assert false;
        return false;
      }
      if !P.IsPresent(reservedTables[k][ptIndex]) {
        return false;
      }
      SetEntry(k, ptIndex, 0);
      assert reservedTables[k][..] == View().reserved[k] == before.reserved[k][ptIndex := 0];
      P.WordThenPde(layout, before, page / PAGE, 0);
      var empty := TableIsEmpty(reservedTables[k]);
      if empty {
        SetDirectoryEntry(pdIndex, 0);
      }
      return true;
    }
  }
}
