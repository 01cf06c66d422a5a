/** Two-level page tables in physical memory (kernel/src/mem/vmmngr.c; "32-Bit Paging" of the
    Intel SDM, volume 3A): the walk of a virtual page, and which walks mapping and unmapping
    one page change.  Entry 1023 of a directory points to the directory itself. */
module PageTables {
  import opened Common
  import opened Frames

  /** A 32-bit entry: bits 31..12 and bits 11..0. */
  datatype Entry = Entry(frame: nat, flags: bv12)

  const ZERO := Entry(0, 0)
  const ENTRIES: nat := 1024
  const SELF: nat := 1023
  const PAGES: nat := 0x10_0000

  type Table = seq<Entry>

  /** Physical memory, frame by frame, and the allocator's view of it. */
  datatype Space = Space(frames: Frames, ram: seq<Table>)

  predicate Present(e: Entry) { e.flags & 1 == 1 }

  /** page_entry_add_attrib with the present bit, then page_entry_set_frame */
  function Pointing(e: Entry, frame: nat, flags: bv12): (r: Entry)
    ensures Present(r) && r.frame == frame
  {
    Entry(frame, Joined(e.flags, flags))
  }

  function Joined(before: bv12, flags: bv12): (r: bv12)
    ensures r & 1 == 1
  {
    before | (flags | 1)
  }

  // ----- flags, bit by bit -----

  predicate OddFlags(f: bv12) { f & 1 == 1 }

  function HalfFlags(f: bv12): bv12 { f >> 1 }

  function EitherFlags(f: bv12, g: bv12): bv12 { f | g }

  /** Bit j of the flags. */
  predicate Flag(f: bv12, j: nat) {
    if j == 0 then OddFlags(f) else Flag(HalfFlags(f), j - 1)
  }

  lemma EitherHalf(f: bv12, g: bv12)
    ensures HalfFlags(EitherFlags(f, g)) == EitherFlags(HalfFlags(f), HalfFlags(g))
    ensures OddFlags(EitherFlags(f, g)) <==> OddFlags(f) || OddFlags(g)
  {
  }

  lemma {:induction false} EitherFlag(f: bv12, g: bv12, j: nat)
    ensures Flag(EitherFlags(f, g), j) <==> Flag(f, j) || Flag(g, j)
    decreases j
  {
    hide OddFlags, HalfFlags, EitherFlags;
    EitherHalf(f, g);
    if j > 0 {
      EitherFlag(HalfFlags(f), HalfFlags(g), j - 1);
    }
  }

  lemma {:induction false} NoFlag(j: nat)
    ensures !Flag(0, j)
    decreases j
  {
    if j > 0 {
      assert HalfFlags(0) == 0;
      NoFlag(j - 1);
    }
  }

  lemma PresentFlag(j: nat)
    ensures Flag(1, j) <==> j == 0
  {
    assert OddFlags(1) && HalfFlags(1) == 0;
    if j > 0 {
      NoFlag(j - 1);
    }
  }

  /** A written entry is present, keeps the flags it had and gains the requested ones; no
      other bit is set. */
  lemma JoinedFlag(before: bv12, flags: bv12, j: nat)
    ensures Flag(Joined(before, flags), j) <==> j == 0 || Flag(before, j) || Flag(flags, j)
  {
    JoinedIs(before, flags);
    hide Flag, EitherFlags, Joined;
    EitherFlag(before, EitherFlags(flags, 1), j);
    EitherFlag(flags, 1, j);
    PresentFlag(j);
  }

  lemma JoinedIs(before: bv12, flags: bv12)
    ensures Joined(before, flags) == EitherFlags(before, EitherFlags(flags, 1))
  {
  }

  ghost predicate Shape(ram: seq<Table>) {
    |ram| == BITS && forall i :: 0 <= i < BITS ==> |ram[i]| == ENTRIES
  }

  /** Writing one entry of one table. */
  function Put(ram: seq<Table>, table: nat, i: nat, e: Entry): (r: seq<Table>)
    requires Shape(ram) && table < BITS && i < ENTRIES
    ensures Shape(r)
  {
    ram[table := ram[table][i := e]]
  }

  function Empty(): (r: Table)
    ensures |r| == ENTRIES && forall i :: 0 <= i < ENTRIES ==> r[i] == ZERO
  {
    seq(ENTRIES, _ => ZERO)
  }

  // ----- the walk -----

  datatype Translation = Translation(frame: nat, tableFlags: bv12, pageFlags: bv12)

  function Lookup(ram: seq<Table>, table: nat, i: nat): (e: Entry)
    requires Shape(ram) && i < ENTRIES
  {
    if table < BITS then ram[table][i] else ZERO
  }

  function Walk(ram: seq<Table>, pd: nat, page: nat): (r: Option<Translation>)
    requires Shape(ram) && page < PAGES
  {
    var pde := Lookup(ram, pd, page / 1024);
    var pte := Lookup(ram, pde.frame, page % 1024);
    if !Present(pde) || !Present(pte) then None
    else Some(Translation(pte.frame, pde.flags, pte.flags))
  }

  // ----- mapping and unmapping -----

  /** Tables lie in the memory that the allocator covers. */
  ghost predicate TablesInRam(ram: seq<Table>, pd: nat) {
    Shape(ram) && pd < BITS && forall d :: 0 <= d < ENTRIES && Present(ram[pd][d]) ==> ram[pd][d].frame < BITS
  }

  /** vmmngr_map: a missing table is allocated, pointed to and cleared. */
  ghost function MapPage(s: Space, pd: nat, frame: nat, page: nat, flags: bv12): (r: (Space, bool))
    requires Good(s.frames) && TablesInRam(s.ram, pd) && page < PAGES
  {
    var d, t := page / 1024, page % 1024;
    var pde := s.ram[pd][d];
    if Present(pde) then
      var pte := Pointing(s.ram[pde.frame][t], frame, flags);
      (s.(ram := Put(s.ram, pde.frame, t, pte)), true)
    else
      var a := Alloc(s.frames, 1);
      if a.1 == 0 then (s, false)
      else (Space(a.0, WithTable(s.ram, pd, d, Pointing(pde, a.1, flags), t, Pointing(ZERO, frame, flags))), true)
  }

  /** A new table behind entry d of the directory, clear except for entry t. */
  function WithTable(ram: seq<Table>, pd: nat, d: nat, pde: Entry, t: nat, pte: Entry): (r: seq<Table>)
    requires Shape(ram) && pd < BITS && d < ENTRIES && t < ENTRIES && pde.frame < BITS
    ensures Shape(r)
  {
    Put(ram, pd, d, pde)[pde.frame := Empty()[t := pte]]
  }

  /** vmmngr_unmap */
  function UnmapPage(s: Space, pd: nat, page: nat): (r: Space)
    requires TablesInRam(s.ram, pd) && page < PAGES
  {
    var d, t := page / 1024, page % 1024;
    var pde := s.ram[pd][d];
    if !Present(pde) || !Present(s.ram[pde.frame][t]) then s
    else s.(ram := Put(s.ram, pde.frame, t, ZERO))
  }

  /** A directory whose tables are used frames, all different and different from itself. */
  ghost predicate WellFormed(s: Space, pd: nat) {
    && Good(s.frames) && TablesInRam(s.ram, pd) && s.frames.bits[pd]
    && Present(s.ram[pd][SELF]) && s.ram[pd][SELF].frame == pd
    && (forall d :: 0 <= d < SELF && Present(s.ram[pd][d]) ==>
      s.ram[pd][d].frame != pd && s.frames.bits[s.ram[pd][d].frame])
    && (forall d, e :: 0 <= d < e < SELF && Present(s.ram[pd][d]) && Present(s.ram[pd][e]) ==>
      s.ram[pd][d].frame != s.ram[pd][e].frame)
  }

  /** Mapping fails, changing nothing, exactly when it needs a table and no frame is free. */
  lemma MapSucceedsIff(s: Space, pd: nat, frame: nat, page: nat, flags: bv12)
    requires WellFormed(s, pd) && page < PAGES
    ensures var (s', ok) := MapPage(s, pd, frame, page, flags);
      && (ok <==> Present(s.ram[pd][page / 1024]) || HasRun(s.frames.bits, s.frames.total, 1))
      && (!ok ==> s' == s)
  {
  }

  /** The frame of a created table was not in use. */
  lemma CreatedIs(s: Space, pd: nat, frame: nat, page: nat, flags: bv12)
    requires WellFormed(s, pd) && page < PAGES && !Present(s.ram[pd][page / 1024])
    requires MapPage(s, pd, frame, page, flags).1
    ensures var s', n := MapPage(s, pd, frame, page, flags).0, Alloc(s.frames, 1).1;
      && 0 < n < s.frames.total <= BITS && !s.frames.bits[n] && n != pd
      && Good(s'.frames) && s'.frames.total == s.frames.total && s'.frames.bits == s.frames.bits[n := true]
      && s'.ram == WithTable(s.ram, pd, page / 1024, Pointing(s.ram[pd][page / 1024], n, flags), page % 1024, Pointing(ZERO, frame, flags))
  {
    hide Alloc, Pointing, CountSet;
    AllocExact(s.frames, 1);
    var n := Alloc(s.frames, 1).1;
    assert !s.frames.bits[n];
    assert Fill(s.frames.bits, n, 1, true) == s.frames.bits[n := true];
  }

  lemma MapKeepsWellFormed(s: Space, pd: nat, frame: nat, page: nat, flags: bv12)
    requires WellFormed(s, pd) && page / 1024 < SELF
    requires MapPage(s, pd, frame, page, flags).1
    ensures WellFormed(MapPage(s, pd, frame, page, flags).0, pd)
  {
    hide Alloc, Pointing, CountSet, Present;
    if !Present(s.ram[pd][page / 1024]) {
      CreatedIs(s, pd, frame, page, flags);
      hide MapPage;
    }
  }

  /** The walk of the mapped page. */
  lemma MappedWalk(s: Space, pd: nat, frame: nat, page: nat, flags: bv12)
    requires WellFormed(s, pd) && page / 1024 < SELF
    requires MapPage(s, pd, frame, page, flags).1
    ensures var pde := s.ram[pd][page / 1024];
      Walk(MapPage(s, pd, frame, page, flags).0.ram, pd, page) ==
      Some(if Present(pde) then Translation(frame, pde.flags, Joined(s.ram[pde.frame][page % 1024].flags, flags))
           else Translation(frame, Joined(pde.flags, flags), Joined(0, flags)))
  {
  }

  /** The walk of any other page outside the recursive window. */
  lemma OtherWalk(s: Space, pd: nat, frame: nat, page: nat, flags: bv12, q: nat)
    requires WellFormed(s, pd) && page / 1024 < SELF
    requires MapPage(s, pd, frame, page, flags).1
    requires q != page && q / 1024 < SELF
    ensures Walk(MapPage(s, pd, frame, page, flags).0.ram, pd, q) == Walk(s.ram, pd, q)
  {
  }

  lemma ZeroAbsent()
    ensures !Present(ZERO)
  {
  }

  /** The window shows the tables: a created one appears there, and nothing else changes. */
  lemma WindowWalk(s: Space, pd: nat, frame: nat, page: nat, flags: bv12, e: nat)
    requires WellFormed(s, pd) && page / 1024 < SELF
    requires MapPage(s, pd, frame, page, flags).1 && e < ENTRIES
    ensures var s', q := MapPage(s, pd, frame, page, flags).0, 1024 * SELF + e;
      && Walk(s'.ram, pd, q) ==
         (if Present(s'.ram[pd][e]) then Some(Translation(s'.ram[pd][e].frame, s.ram[pd][SELF].flags, s'.ram[pd][e].flags)) else None)
      && (Walk(s'.ram, pd, q) != Walk(s.ram, pd, q) <==> e == page / 1024 && !Present(s.ram[pd][e]))
  {
  }

  /** The flags that a page and its table had before a mapping; a missing table has none for
      the page. */
  function TableFlags(s: Space, pd: nat, page: nat): bv12
    requires TablesInRam(s.ram, pd) && page < PAGES
  {
    s.ram[pd][page / 1024].flags
  }

  function PageFlags(s: Space, pd: nat, page: nat): bv12
    requires TablesInRam(s.ram, pd) && page < PAGES
  {
    var pde := s.ram[pd][page / 1024];
    if Present(pde) then s.ram[pde.frame][page % 1024].flags else 0
  }

  /** After a mapping the page has the present bit, the flags it had and the requested ones,
      and no other; so has the directory entry of a created table, while that of an existing
      one keeps its flags. */
  lemma MappedFlags(s: Space, pd: nat, frame: nat, page: nat, flags: bv12, j: nat)
    requires WellFormed(s, pd) && page / 1024 < SELF && MapPage(s, pd, frame, page, flags).1
    ensures var w := Walk(MapPage(s, pd, frame, page, flags).0.ram, pd, page);
      && w.Some? && w.value.frame == frame
      && (Flag(w.value.pageFlags, j) <==> j == 0 || Flag(PageFlags(s, pd, page), j) || Flag(flags, j))
      && (if Present(s.ram[pd][page / 1024]) then w.value.tableFlags == TableFlags(s, pd, page)
          else Flag(w.value.tableFlags, j) <==> j == 0 || Flag(TableFlags(s, pd, page), j) || Flag(flags, j))
  {
    hide MapPage, Walk, Present, Joined, Flag;
    MappedWalk(s, pd, frame, page, flags);
    JoinedFlag(PageFlags(s, pd, page), flags, j);
    JoinedFlag(TableFlags(s, pd, page), flags, j);
  }

  /** Whether or not a table is created, below the window one page changes and no other. */
  lemma MapChangesOneWalk(s: Space, pd: nat, frame: nat, page: nat, flags: bv12)
    requires WellFormed(s, pd) && page / 1024 < SELF && MapPage(s, pd, frame, page, flags).1
    ensures var s' := MapPage(s, pd, frame, page, flags).0;
      && WellFormed(s', pd)
      && Walk(s'.ram, pd, page).Some?
      && (forall j: nat :: Flag(Walk(s'.ram, pd, page).value.pageFlags, j) <==>
            j == 0 || Flag(PageFlags(s, pd, page), j) || Flag(flags, j))
      && (forall q: nat :: q / 1024 < SELF ==>
            if q == page then Walk(s'.ram, pd, q).Some? && Walk(s'.ram, pd, q).value.frame == frame
            else Walk(s'.ram, pd, q) == Walk(s.ram, pd, q))
  {
    hide MapPage, Walk, Present;
    MapKeepsWellFormed(s, pd, frame, page, flags);
    var s' := MapPage(s, pd, frame, page, flags).0;
    forall q: nat | q / 1024 < SELF && q != page ensures Walk(s'.ram, pd, q) == Walk(s.ram, pd, q) {
      OtherWalk(s, pd, frame, page, flags, q);
    }
    MappedWalk(s, pd, frame, page, flags);
    hide Flag;
    forall j: nat ensures Flag(Walk(s'.ram, pd, page).value.pageFlags, j) <==>
                            j == 0 || Flag(PageFlags(s, pd, page), j) || Flag(flags, j) {
      MappedFlags(s, pd, frame, page, flags, j);
    }
  }

  /** Another directory sees nothing, as long as it does not share the written table. */
  lemma OtherDirectory(s: Space, pd: nat, frame: nat, page: nat, flags: bv12, pd2: nat, q: nat)
    requires WellFormed(s, pd) && page / 1024 < SELF && MapPage(s, pd, frame, page, flags).1
    requires WellFormed(s, pd2) && pd2 != pd && q < PAGES
    requires var pde, pde2 := s.ram[pd][page / 1024], s.ram[pd2][q / 1024];
      && (Present(pde) ==> pde.frame != pd2)
      && (Present(pde2) ==> pde2.frame != pd && (Present(pde) ==> pde2.frame != pde.frame))
    ensures Walk(MapPage(s, pd, frame, page, flags).0.ram, pd2, q) == Walk(s.ram, pd2, q)
  {
  }

  /** Unmapping removes one walk and keeps the others. */
  lemma UnmapChangesOneWalk(s: Space, pd: nat, page: nat, q: nat)
    requires WellFormed(s, pd) && page / 1024 < SELF && q < PAGES
    ensures WellFormed(UnmapPage(s, pd, page), pd)
    ensures Walk(UnmapPage(s, pd, page).ram, pd, q) == if q == page then None else Walk(s.ram, pd, q)
  {
  }
}
