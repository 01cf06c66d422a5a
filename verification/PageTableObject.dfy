/** vmmngr.c writing directory and table entries in place and drawing frames from the
    allocator object.  Physical memory is reached directly; the temporary mappings through
    which the kernel reaches an inactive directory are not part of the model. */
module PageTableObject {
  import opened Frames
  import opened FrameObject
  import opened PageTables
  import opened AddressSpaces

  class PageManager {
    const allocator: FrameAllocator
    var ram: seq<Table>

    ghost predicate Valid()
      reads this, allocator, allocator.bitmap
    {
      allocator.Valid() && Shape(ram)
    }

    ghost function View(): Space
      reads this, allocator
    {
      Space(allocator.View(), ram)
    }

    constructor (allocator: FrameAllocator, ram: seq<Table>)
      requires allocator.Valid() && Shape(ram)
      ensures Valid() && this.allocator == allocator && this.ram == ram
    {
      this.allocator := allocator;
      this.ram := ram;
    }

    method SetEntry(table: nat, i: nat, e: Entry)
      requires Shape(ram) && table < BITS && i < ENTRIES
      modifies `ram
      ensures Shape(ram) && ram == Put(old(ram), table, i, e)
    {
      ram := ram[table := ram[table][i := e]];
    }

    /** vmmngr_map */
    method Map(pd: nat, frame: nat, page: nat, flags: bv12) returns (ok: bool)
      requires Valid() && TablesInRam(ram, pd) && page < PAGES
      modifies this, allocator, allocator.bitmap
      ensures Valid() && (View(), ok) == MapPage(old(View()), pd, frame, page, flags)
    {
      hide Good, Alloc, Pointing;
      var d, t := page / 1024, page % 1024;
      var pde := ram[pd][d];
      var table := pde.frame;
      if !Present(pde) {
        AllocExact(allocator.View(), 1);
        var addr := allocator.AllocBlock();
        if addr == 0 {
          return false;
        }
        table := addr / PAGE;
        assert table != 0;
        SetEntry(pd, d, Pointing(pde, table, flags));
        ram := ram[table := Empty()];
      }
      SetEntry(table, t, Pointing(ram[table][t], frame, flags));
      assert !Present(pde) ==>
        ram == WithTable(old(ram), pd, d, Pointing(pde, table, flags), t, Pointing(ZERO, frame, flags));
      ok := true;
    }

    /** vmmngr_unmap */
    method Unmap(pd: nat, page: nat)
      requires Valid() && TablesInRam(ram, pd) && page < PAGES
      modifies `ram
      ensures Valid() && View() == UnmapPage(old(View()), pd, page)
    {
      hide Good;
      var d, t := page / 1024, page % 1024;
      var pde := ram[pd][d];
      if !Present(pde) {
        return;
      }
      if !Present(ram[pde.frame][t]) {
        return;
      }
      SetEntry(pde.frame, t, ZERO);
    }

    /** vmmngr_alloc_page_directory */
    method AllocDirectory(kernel: Table) returns (pd: nat)
      requires Valid() && |kernel| == ENTRIES
      modifies this, allocator, allocator.bitmap
      ensures Valid() && (View(), pd) == Create(old(View()), kernel)
    {
      hide Good, Alloc, Pointing;
      AllocExact(allocator.View(), 1);
      var addr := allocator.AllocBlock();
      pd := addr / PAGE;
      if addr == 0 {
        return;
      }
      assert pd != 0;
      ram := ram[pd := kernel];
      SetEntry(pd, SELF, Pointing(ram[pd][SELF], pd, 2));
      assert ram == old(ram)[pd := kernel[SELF := Pointing(kernel[SELF], pd, 2)]];
    }

    /** vmmngr_free_page_directory: everything below KERNEL_START, then the directory. */
    method FreePageDirectory(pd: nat)
      requires allocator.Shape() && Freeable(ram, pd)
      modifies allocator, allocator.bitmap
      ensures allocator.Shape() && allocator.View() == FreeDirectory(old(allocator.View()), ram, pd)
    {
      hide FreeOne, FreeLeaves, FreeTables, FreeableTable;
      ghost var f0 := allocator.View();
      TablesNone(f0, ram, pd);
      var i: nat := 0;
      while i < ENTRIES
        invariant i <= KERNEL_ENTRY && allocator.Shape() && allocator.View() == FreeTables(f0, ram, pd, i)
      {
        if i * PAGE * 1024 >= 0xc000_0000 {
          break;
        }
        TablesSnoc(f0, ram, pd, i);
        var e := ram[pd][i];
        if e != ZERO {
          FreeTable(ram[e.frame]);
          allocator.FreeBlock(e.frame * PAGE);
        }
        i := i + 1;
      }
      allocator.FreeBlock(pd * PAGE);
    }

    /** The inner loop of vmmngr_free_page_directory. */
    method FreeTable(table: Table)
      requires allocator.Shape() && FreeableTable(table)
      modifies allocator, allocator.bitmap
      ensures allocator.Shape() && allocator.View() == FreeLeaves(old(allocator.View()), table, ENTRIES)
    {
      hide FreeOne, FreeLeaves;
      ghost var f0 := allocator.View();
      LeavesNone(f0, table);
      var j: nat := 0;
      while j < ENTRIES
        invariant j <= ENTRIES && allocator.Shape() && allocator.View() == FreeLeaves(f0, table, j)
      {
        LeavesSnoc(f0, table, j);
        var frame := table[j].frame;
        if frame != 0 {
          allocator.FreeBlock(frame * PAGE);
        }
        j := j + 1;
      }
    }
  }

  lemma LeavesNone(f: Frames, table: Table)
    requires |f.bits| == BITS && FreeableTable(table)
    ensures FreeLeaves(f, table, 0) == f
  {
  }

  lemma LeavesSnoc(f: Frames, table: Table, n: nat)
    requires |f.bits| == BITS && FreeableTable(table) && n < ENTRIES
    ensures FreeLeaves(f, table, n + 1) ==
      if table[n].frame == 0 then FreeLeaves(f, table, n) else FreeOne(FreeLeaves(f, table, n), table[n].frame)
  {
  }

  lemma TablesNone(f: Frames, ram: seq<Table>, pd: nat)
    requires |f.bits| == BITS && Freeable(ram, pd)
    ensures FreeTables(f, ram, pd, 0) == f
  {
  }

  lemma TablesSnoc(f: Frames, ram: seq<Table>, pd: nat, n: nat)
    requires |f.bits| == BITS && Freeable(ram, pd) && n < KERNEL_ENTRY
    ensures var g, e := FreeTables(f, ram, pd, n), ram[pd][n];
      FreeTables(f, ram, pd, n + 1) ==
      if e == ZERO then g else FreeOne(FreeLeaves(g, ram[e.frame], ENTRIES), e.frame)
  {
  }
}
