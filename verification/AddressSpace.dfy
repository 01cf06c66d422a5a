/** The life of a user address space (kernel/src/mem/vmmngr.c): a directory is created from
    the kernel's, frames are allocated and mapped below KERNEL_START, and the directory is
    freed.  Below KERNEL_START the tables refine a flat map from pages to frames. */
module AddressSpaces {
  import opened Common
  import opened Frames
  import opened PageTables

  /** KERNEL_START = 0xc0000000 is where directory entry 768 begins. */
  const KERNEL_ENTRY: nat := 768
  const LOW_PAGES: nat := 786432

  /** What the lower half of a directory stands for; `pending` are frames allocated for it
      that no page maps. */
  datatype Plan = Plan(pd: nat, tables: map<nat, nat>, pages: map<nat, nat>, pending: set<nat>)

  ghost predicate Points(e: Entry, frame: nat) {
    Present(e) && e.frame == frame
  }

  ghost predicate DirectoryIs(ram: seq<Table>, k: Plan) {
    && Shape(ram) && k.pd < BITS
    && (forall d: nat :: d < KERNEL_ENTRY ==>
      if d in k.tables then Points(ram[k.pd][d], k.tables[d]) else ram[k.pd][d] == ZERO)
  }

  ghost predicate TablesAre(ram: seq<Table>, k: Plan) {
    && Shape(ram)
    && (forall d: nat, t: nat :: d in k.tables && t < ENTRIES ==> TableEntryIs(ram, k, d, t))
  }

  ghost predicate TableEntryIs(ram: seq<Table>, k: Plan, d: nat, t: nat)
    requires Shape(ram) && d in k.tables && t < ENTRIES
  {
    && k.tables[d] < BITS
    && if 1024 * d + t in k.pages then Points(ram[k.tables[d]][t], k.pages[1024 * d + t])
       else ram[k.tables[d]][t] == ZERO
  }

  ghost predicate Apart(k: Plan) {
    && (forall d: nat :: d in k.tables ==> d < KERNEL_ENTRY && k.tables[d] != k.pd && k.tables[d] !in k.pending)
    && (forall d: nat, e: nat :: d in k.tables && e in k.tables && d != e ==> k.tables[d] != k.tables[e])
    && (forall p: nat :: p in k.pages ==> p / 1024 in k.tables && k.pages[p] != k.pd && k.pages[p] !in k.pending)
    && (forall p: nat, q: nat :: p in k.pages && q in k.pages && p != q ==> k.pages[p] != k.pages[q])
    && (forall p: nat, d: nat :: p in k.pages && d in k.tables ==> k.pages[p] != k.tables[d])
    && k.pd !in k.pending
  }

  /** The directory, its tables and the mapped frames. */
  function Mapped(k: Plan): set<nat> {
    {k.pd} + k.tables.Values + k.pages.Values
  }

  function Owned(k: Plan): set<nat> {
    Mapped(k) + k.pending
  }

  /** The allocator now is the allocator f0 with exactly the frames in `own` handed out. */
  ghost predicate Lent(f0: Frames, f: Frames, own: set<nat>) {
    && Good(f0) && Good(f) && f.total == f0.total
    && (forall i: nat :: i < BITS ==> f.bits[i] == (f0.bits[i] || i in own))
    && (forall x :: x in own ==> 0 < x < f0.total && !f0.bits[x])
  }

  /** Memory spells the plan. */
  ghost predicate RamIs(ram: seq<Table>, k: Plan) {
    DirectoryIs(ram, k) && TablesAre(ram, k) && TablesInRam(ram, k.pd)
  }

  lemma RamShape(ram: seq<Table>, k: Plan)
    requires RamIs(ram, k)
    ensures Shape(ram) && k.pd < BITS && TablesInRam(ram, k.pd)
  {
  }

  ghost predicate Holds(f0: Frames, s: Space, k: Plan) {
    RamIs(s.ram, k) && Apart(k) && Lent(f0, s.frames, Owned(k))
  }

  /** Below KERNEL_START the walk is the flat map. */
  lemma WalkIsMap(f0: Frames, s: Space, k: Plan, page: nat)
    requires Holds(f0, s, k) && page < LOW_PAGES
    ensures page in k.pages ==> Walk(s.ram, k.pd, page).Some? && Walk(s.ram, k.pd, page).value.frame == k.pages[page]
    ensures page !in k.pages ==> Walk(s.ram, k.pd, page).None?
  {
    hide Present, Lent, RamIs, Apart;
    RamShape(s.ram, k);
    LookupPage(s.ram, k, page);
    ZeroAbsent();
  }

  // ----- lending and returning frames -----

  lemma LendMore(f0: Frames, f: Frames, own: set<nat>, cnt: nat)
    requires Lent(f0, f, own) && Alloc(f, cnt).1 != 0
    ensures var (f', r) := Alloc(f, cnt);
      Lent(f0, f', own + Run(r, cnt)) && own !! Run(r, cnt)
  {
    hide Alloc, CountSet;
    AllocExact(f, cnt);
  }

  function Run(r: nat, cnt: nat): (run: set<nat>)
    ensures forall x: nat :: x in run <==> r <= x < r + cnt
  {
    if cnt == 0 then {} else Run(r, cnt - 1) + {r + cnt - 1}
  }

  lemma ReturnOne(f0: Frames, f: Frames, own: set<nat>, x: nat)
    requires Lent(f0, f, own) && 0 < x < f0.total && !f0.bits[x]
    ensures x < BITS && Lent(f0, FreeOne(f, x), own - {x})
  {
    hide CountSet;
    FreeOneGoodIff(f, x);
  }

  /** With nothing lent the allocator is as it was, counter included. */
  lemma NothingLent(f0: Frames, f: Frames)
    requires Lent(f0, f, {})
    ensures f == f0
  {
    hide CountSet;
    assert f.bits == f0.bits;
  }

  // ----- vmmngr_alloc_page_directory -----

  /** The kernel's directory: nothing below KERNEL_START, tables above it in memory. */
  ghost predicate KernelDirectory(t: Table) {
    && |t| == ENTRIES && (forall d :: 0 <= d < KERNEL_ENTRY ==> t[d] == ZERO)
    && (forall d :: 0 <= d < ENTRIES && Present(t[d]) ==> t[d].frame < BITS)
  }

  ghost function Create(s: Space, kernel: Table): (r: (Space, nat))
    requires Good(s.frames) && Shape(s.ram) && |kernel| == ENTRIES
  {
    var a := Alloc(s.frames, 1);
    if a.1 == 0 then (s, 0)
    else (Space(a.0, s.ram[a.1 := kernel[SELF := Pointing(kernel[SELF], a.1, 2)]]), a.1)
  }

  lemma CreateHolds(s: Space, kernel: Table)
    requires Good(s.frames) && Shape(s.ram) && KernelDirectory(kernel) && Create(s, kernel).1 != 0
    ensures var (s', pd) := Create(s, kernel); Holds(s.frames, s', Plan(pd, map[], map[], {}))
  {
    hide Alloc, CountSet, Pointing;
    var f := s.frames;
    assert Lent(f, f, {});
    LendMore(f, f, {}, 1);
    var (s', pd) := Create(s, kernel);
    assert Run(pd, 1) == {pd};
    assert Owned(Plan(pd, map[], map[], {})) == {pd} + {};
  }

  // ----- allocating, mapping, unmapping -----

  datatype Event = Take(cnt: nat) | Map(frame: nat, page: nat, flags: bv12) | Unmap(page: nat)

  /** Mapped frames are freshly allocated ones, at distinct pages below KERNEL_START. */
  ghost predicate Allowed(k: Plan, e: Event) {
    match e
    case Take(_) => true
    case Map(frame, page, _) => frame in k.pending && page < LOW_PAGES && page !in k.pages
    case Unmap(page) => page < LOW_PAGES
  }

  ghost function Step(s: Space, pd: nat, e: Event): (s': Space)
    requires Good(s.frames) && TablesInRam(s.ram, pd)
    requires (e.Map? ==> e.page < LOW_PAGES) && (e.Unmap? ==> e.page < LOW_PAGES)
  {
    match e
    case Take(cnt) => s.(frames := Alloc(s.frames, cnt).0)
    case Map(frame, page, flags) => MapPage(s, pd, frame, page, flags).0
    case Unmap(page) => UnmapPage(s, pd, page)
  }

  ghost function StepPlan(s: Space, k: Plan, e: Event): (k': Plan)
    requires Good(s.frames) && TablesInRam(s.ram, k.pd) && Allowed(k, e)
  {
    match e
    case Take(cnt) =>
      var r := Alloc(s.frames, cnt).1;
      if r == 0 then k else k.(pending := k.pending + Run(r, cnt))
    case Map(frame, page, flags) =>
      if !MapPage(s, k.pd, frame, page, flags).1 then k
      else
        var mapped := k.(pages := k.pages[page := frame], pending := k.pending - {frame});
        if Present(s.ram[k.pd][page / 1024]) then mapped
        else mapped.(tables := k.tables[page / 1024 := Alloc(s.frames, 1).1])
    case Unmap(page) =>
      if page !in k.pages then k
      else k.(pages := k.pages - {page}, pending := k.pending + {k.pages[page]})
  }

  lemma TakeHolds(f0: Frames, s: Space, k: Plan, cnt: nat)
    requires Holds(f0, s, k)
    ensures Holds(f0, Step(s, k.pd, Take(cnt)), StepPlan(s, k, Take(cnt)))
  {
    hide Alloc, CountSet, Lent, RamIs, Apart;
    RamShape(s.ram, k);
    LentGood(f0, s.frames, Owned(k));
    var r := Alloc(s.frames, cnt).1;
    AllocExact(s.frames, cnt);
    if r != 0 {
      LendMore(f0, s.frames, Owned(k), cnt);
      var k' := StepPlan(s, k, Take(cnt));
      assert Owned(k') == Owned(k) + Run(r, cnt);
      SameRam(s.ram, k, k');
      TakeApart(k, Run(r, cnt));
    }
  }

  lemma SameRam(ram: seq<Table>, k: Plan, k': Plan)
    requires RamIs(ram, k) && k'.pd == k.pd && k'.tables == k.tables && k'.pages == k.pages
    ensures RamIs(ram, k')
  {
    hide Present, Points;
    forall d: nat, t: nat | d in k.tables && t < ENTRIES ensures TableEntryIs(ram, k', d, t) {
      assert TableEntryIs(ram, k, d, t);
    }
  }

  lemma TakeApart(k: Plan, run: set<nat>)
    requires Apart(k) && Owned(k) !! run
    ensures Apart(k.(pending := k.pending + run))
  {
  }

  lemma LentGood(f0: Frames, f: Frames, own: set<nat>)
    requires Lent(f0, f, own)
    ensures Good(f0) && Good(f) && f.total == f0.total
    ensures forall x :: x in own ==> x < BITS && f.bits[x]
  {
  }

  ghost predicate SameBut(k: Plan, k': Plan, page: nat) {
    && (forall q: nat :: q != page ==> (q in k'.pages <==> q in k.pages))
    && (forall q: nat :: q != page && q in k.pages ==> k'.pages[q] == k.pages[q])
  }

  /** Writing the entry of one page in an existing table. */
  lemma LeafWrite(ram: seq<Table>, k: Plan, k': Plan, page: nat, e: Entry)
    requires RamIs(ram, k) && Apart(k) && page / 1024 in k.tables
    requires k'.pd == k.pd && k'.tables == k.tables && SameBut(k, k', page)
    requires if page in k'.pages then Points(e, k'.pages[page]) else e == ZERO
    ensures k.tables[page / 1024] < BITS && RamIs(Put(ram, k.tables[page / 1024], page % 1024, e), k')
  {
    hide Present, TableEntryIs;
    var d, t := page / 1024, page % 1024;
    TableFrame(ram, k, d);
    var ram' := Put(ram, k.tables[d], t, e);
    forall c: nat, u: nat | c in k.tables && u < ENTRIES ensures TableEntryIs(ram', k', c, u) {
      LeafWriteEntry(ram, k, k', page, e, c, u);
    }
  }

  lemma TableFrame(ram: seq<Table>, k: Plan, d: nat)
    requires RamIs(ram, k) && d in k.tables
    ensures k.tables[d] < BITS
  {
    assert TableEntryIs(ram, k, d, 0);
  }

  lemma LeafWriteEntry(ram: seq<Table>, k: Plan, k': Plan, page: nat, e: Entry, c: nat, u: nat)
    requires RamIs(ram, k) && Apart(k) && page / 1024 in k.tables && k.tables[page / 1024] < BITS
    requires k'.pd == k.pd && k'.tables == k.tables && SameBut(k, k', page)
    requires if page in k'.pages then Points(e, k'.pages[page]) else e == ZERO
    requires c in k.tables && u < ENTRIES
    ensures Shape(ram) && TableEntryIs(Put(ram, k.tables[page / 1024], page % 1024, e), k', c, u)
  {
    hide Points, RamIs, SameBut;
    RamShape(ram, k);
    var p := 1024 * c + u;
    assert p / 1024 == c && p % 1024 == u;
    assert p == page <==> c == page / 1024 && u == page % 1024;
    OtherPage(k, k', page, p);
    EntryIs(ram, k, c, u);
  }

  /** A first page in a new table. */
  lemma TableWrite(ram: seq<Table>, k: Plan, k': Plan, page: nat, pde: Entry, pte: Entry)
    requires RamIs(ram, k) && Apart(k) && page < LOW_PAGES && page / 1024 !in k.tables
    requires pde.frame < BITS && Points(pde, pde.frame) && pde.frame != k.pd && pde.frame !in k.tables.Values
    requires k'.pd == k.pd && k'.tables == k.tables[page / 1024 := pde.frame] && SameBut(k, k', page)
    requires page in k'.pages && Points(pte, k'.pages[page])
    ensures RamIs(WithTable(ram, k.pd, page / 1024, pde, page % 1024, pte), k')
  {
    hide Present;
    var d, t := page / 1024, page % 1024;
    var ram' := WithTable(ram, k.pd, d, pde, t, pte);
    forall c: nat, u: nat | c in k'.tables && u < ENTRIES ensures TableEntryIs(ram', k', c, u) {
      TableWriteEntry(ram, k, k', page, pde, pte, c, u);
    }
  }

  lemma TableWriteEntry(ram: seq<Table>, k: Plan, k': Plan, page: nat, pde: Entry, pte: Entry, c: nat, u: nat)
    requires RamIs(ram, k) && Apart(k) && page < LOW_PAGES && page / 1024 !in k.tables
    requires pde.frame < BITS && pde.frame != k.pd && pde.frame !in k.tables.Values
    requires k'.pd == k.pd && k'.tables == k.tables[page / 1024 := pde.frame] && SameBut(k, k', page)
    requires page in k'.pages && Points(pte, k'.pages[page])
    requires c in k'.tables && u < ENTRIES
    ensures TableEntryIs(WithTable(ram, k.pd, page / 1024, pde, page % 1024, pte), k', c, u)
  {
    hide Points, RamIs, Apart, SameBut;
    RamShape(ram, k);
    var p := 1024 * c + u;
    assert p / 1024 == c && p % 1024 == u;
    assert p == page <==> c == page / 1024 && u == page % 1024;
    OtherPage(k, k', page, p);
    if c != page / 1024 {
      EntryIs(ram, k, c, u);
    }
  }

  lemma OtherPage(k: Plan, k': Plan, page: nat, q: nat)
    requires SameBut(k, k', page) && Apart(k)
    ensures q != page ==> (q in k'.pages <==> q in k.pages)
    ensures q != page && q in k.pages ==> k'.pages[q] == k.pages[q] && q / 1024 in k.tables
  {
  }

  lemma EntryIs(ram: seq<Table>, k: Plan, c: nat, u: nat)
    requires RamIs(ram, k) && Apart(k) && c in k.tables && u < ENTRIES
    ensures Shape(ram) && TableEntryIs(ram, k, c, u) && k.tables[c] in k.tables.Values && k.tables[c] != k.pd
  {
  }

  lemma UnmapHolds(f0: Frames, s: Space, k: Plan, page: nat)
    requires Holds(f0, s, k) && page < LOW_PAGES
    ensures Holds(f0, Step(s, k.pd, Unmap(page)), StepPlan(s, k, Unmap(page)))
  {
    hide Alloc, CountSet, Present, Lent, RamIs, Apart, Put;
    RamShape(s.ram, k);
    LentGood(f0, s.frames, Owned(k));
    LookupPage(s.ram, k, page);
    ZeroAbsent();
    if page in k.pages {
      UnmapApart(k, page);
      LeafWrite(s.ram, k, StepPlan(s, k, Unmap(page)), page, ZERO);
    }
  }

  /** The entries that a walk of the page reads. */
  lemma LookupPage(ram: seq<Table>, k: Plan, page: nat)
    requires RamIs(ram, k) && Apart(k) && page < LOW_PAGES
    ensures page / 1024 in k.tables <==> Present(ram[k.pd][page / 1024])
    ensures page in k.pages ==> page / 1024 in k.tables
    ensures page / 1024 in k.tables ==>
      && Points(ram[k.pd][page / 1024], k.tables[page / 1024]) && k.tables[page / 1024] < BITS
      && if page in k.pages then Points(ram[k.tables[page / 1024]][page % 1024], k.pages[page])
         else ram[k.tables[page / 1024]][page % 1024] == ZERO
  {
    hide Present;
    ZeroAbsent();
    var d, t := page / 1024, page % 1024;
    assert page == 1024 * d + t;
    if d in k.tables {
      assert TableEntryIs(ram, k, d, t);
    }
  }

  lemma UnmapApart(k: Plan, page: nat)
    requires Apart(k) && page in k.pages
    ensures var k' := k.(pages := k.pages - {page}, pending := k.pending + {k.pages[page]});
      Apart(k') && Owned(k') == Owned(k) && SameBut(k, k', page)
  {
    var k' := k.(pages := k.pages - {page}, pending := k.pending + {k.pages[page]});
    forall x | x in k.pages.Values ensures x in Owned(k') {
      var p :| p in k.pages && k.pages[p] == x;
      assert p != page ==> p in k'.pages;
    }
    assert Owned(k') == Owned(k);
  }

  lemma MapApart(k: Plan, frame: nat, page: nat)
    requires Apart(k) && frame in k.pending && page !in k.pages && page / 1024 in k.tables
    ensures var k' := k.(pages := k.pages[page := frame], pending := k.pending - {frame});
      Apart(k') && Owned(k') == Owned(k)
  {
    hide Owned;
    MapOwned(k, frame, page);
  }

  lemma OwnedHas(k: Plan)
    ensures k.pd in Owned(k) && k.tables.Values <= Owned(k)
  {
  }

  lemma MapOwned(k: Plan, frame: nat, page: nat)
    requires frame in k.pending && page !in k.pages
    ensures Owned(k.(pages := k.pages[page := frame], pending := k.pending - {frame})) == Owned(k)
  {
    var k' := k.(pages := k.pages[page := frame], pending := k.pending - {frame});
    forall x | x in k.pages.Values ensures x in k'.pages.Values {
      var p :| p in k.pages && k.pages[p] == x;
      assert p in k'.pages && k'.pages[p] == x;
    }
    assert k'.pages[page] in k'.pages.Values;
    assert Owned(k') == Owned(k);
  }

  lemma TableApart(k: Plan, d: nat, n: nat)
    requires Apart(k) && d < KERNEL_ENTRY && d !in k.tables && n !in Owned(k)
    ensures var k' := k.(tables := k.tables[d := n]); Apart(k') && Owned(k') == Owned(k) + {n}
  {
    var k' := k.(tables := k.tables[d := n]);
    forall p: nat | p in k.pages ensures k.pages[p] != n && k.pages[p] in Owned(k) {
      assert k.pages[p] in k.pages.Values;
    }
    forall e: nat | e in k.tables ensures k.tables[e] != n && k.tables[e] in k'.tables.Values {
      assert k.tables[e] in k.tables.Values;
      assert e in k'.tables && k'.tables[e] == k.tables[e];
    }
    assert k'.tables[d] == n;
    forall x | x in k.tables.Values ensures x in k'.tables.Values {
      var e :| e in k.tables && k.tables[e] == x;
    }
    assert Owned(k') == Owned(k) + {n};
  }

  lemma MapHolds(f0: Frames, s: Space, k: Plan, frame: nat, page: nat, flags: bv12)
    requires Holds(f0, s, k) && Allowed(k, Map(frame, page, flags))
    ensures Holds(f0, Step(s, k.pd, Map(frame, page, flags)), StepPlan(s, k, Map(frame, page, flags)))
  {
    hide Alloc, CountSet, Present, Lent, RamIs, Apart, Put, Pointing, WithTable;
    LentGood(f0, s.frames, Owned(k));
    RamShape(s.ram, k);
    LookupPage(s.ram, k, page);
    if page / 1024 in k.tables {
      MapApart(k, frame, page);
      var pte := s.ram[k.tables[page / 1024]][page % 1024];
      LeafWrite(s.ram, k, StepPlan(s, k, Map(frame, page, flags)), page, Pointing(pte, frame, flags));
    } else if Alloc(s.frames, 1).1 != 0 {
      MapNewHolds(f0, s, k, frame, page, flags);
    }
  }

  lemma MapNewHolds(f0: Frames, s: Space, k: Plan, frame: nat, page: nat, flags: bv12)
    requires Holds(f0, s, k) && Allowed(k, Map(frame, page, flags)) && Good(s.frames) && TablesInRam(s.ram, k.pd)
    requires !Present(s.ram[k.pd][page / 1024]) && Alloc(s.frames, 1).1 != 0
    ensures Holds(f0, Step(s, k.pd, Map(frame, page, flags)), StepPlan(s, k, Map(frame, page, flags)))
  {
    hide Alloc, CountSet, Present, Lent, RamIs, Apart, Put, Pointing, WithTable, Owned;
    var d, n := page / 1024, Alloc(s.frames, 1).1;
    LookupPage(s.ram, k, page);
    LendMore(f0, s.frames, Owned(k), 1);
    assert Run(n, 1) == {n};
    TableApart(k, d, n);
    MapApart(k.(tables := k.tables[d := n]), frame, page);
    var k' := StepPlan(s, k, Map(frame, page, flags));
    OwnedHas(k);
    TableWrite(s.ram, k, k', page, Pointing(s.ram[k.pd][d], n, flags), Pointing(ZERO, frame, flags));
  }

  lemma HoldsGood(f0: Frames, s: Space, k: Plan)
    requires Holds(f0, s, k)
    ensures Good(f0) && Good(s.frames) && TablesInRam(s.ram, k.pd)
  {
  }

  lemma StepHolds(f0: Frames, s: Space, k: Plan, e: Event)
    requires Holds(f0, s, k) && Allowed(k, e)
    ensures Good(s.frames) && Holds(f0, Step(s, k.pd, e), StepPlan(s, k, e))
    ensures StepPlan(s, k, e).pd == k.pd
  {
    hide Holds, Step;
    HoldsGood(f0, s, k);
    match e
    case Take(cnt) => TakeHolds(f0, s, k, cnt);
    case Map(frame, page, flags) => MapHolds(f0, s, k, frame, page, flags);
    case Unmap(page) => UnmapHolds(f0, s, k, page);
  }

  // ----- vmmngr_free_page_directory -----

  /** Every entry that the freeing loops read names a frame of the bitmap. */
  ghost predicate Freeable(ram: seq<Table>, pd: nat) {
    && Shape(ram) && pd < BITS
    && (forall d :: 0 <= d < KERNEL_ENTRY && ram[pd][d] != ZERO ==>
      ram[pd][d].frame < BITS && FreeableTable(ram[ram[pd][d].frame]))
  }

  ghost predicate FreeableTable(t: Table) {
    |t| == ENTRIES && forall i :: 0 <= i < ENTRIES ==> t[i].frame < BITS
  }

  /** The inner loop, over the first n entries of a table. */
  function FreeLeaves(f: Frames, table: Table, n: nat): (f': Frames)
    requires |f.bits| == BITS && FreeableTable(table) && n <= ENTRIES
    ensures |f'.bits| == BITS
  {
    if n == 0 then f
    else
      var g := FreeLeaves(f, table, n - 1);
      if table[n - 1].frame == 0 then g else FreeOne(g, table[n - 1].frame)
  }

  /** The outer loop, over the first n entries of the directory. */
  function FreeTables(f: Frames, ram: seq<Table>, pd: nat, n: nat): (f': Frames)
    requires |f.bits| == BITS && Freeable(ram, pd) && n <= KERNEL_ENTRY
    ensures |f'.bits| == BITS
  {
    if n == 0 then f
    else
      var g := FreeTables(f, ram, pd, n - 1);
      var e := ram[pd][n - 1];
      if e == ZERO then g else FreeOne(FreeLeaves(g, ram[e.frame], ENTRIES), e.frame)
  }

  function FreeDirectory(f: Frames, ram: seq<Table>, pd: nat): (f': Frames)
    requires |f.bits| == BITS && Freeable(ram, pd)
  {
    FreeOne(FreeTables(f, ram, pd, KERNEL_ENTRY), pd)
  }

  function LeafFrames(table: Table, n: nat): (r: set<nat>)
    requires n <= |table|
    ensures forall i :: 0 <= i < n ==> table[i].frame in r
    ensures forall x :: x in r ==> exists i :: 0 <= i < n && table[i].frame == x
  {
    if n == 0 then {} else LeafFrames(table, n - 1) + {table[n - 1].frame}
  }

  /** Frames the loops hand to the allocator while reading n directory entries. */
  function LowerFrames(ram: seq<Table>, pd: nat, n: nat): (r: set<nat>)
    requires Freeable(ram, pd) && n <= KERNEL_ENTRY
  {
    if n == 0 then {}
    else
      var e := ram[pd][n - 1];
      LowerFrames(ram, pd, n - 1) + (if e == ZERO then {} else LeafFrames(ram[e.frame], ENTRIES) + {e.frame})
  }

  /** A frame that f0 has free, or no frame. */
  ghost predicate Returnable(f0: Frames, x: nat) {
    x == 0 || (x < f0.total && x < |f0.bits| && !f0.bits[x])
  }

  lemma {:induction false} ReturnLeaves(f0: Frames, f: Frames, own: set<nat>, table: Table, n: nat)
    requires Lent(f0, f, own) && FreeableTable(table) && n <= ENTRIES
    requires forall i :: 0 <= i < n ==> Returnable(f0, table[i].frame)
    ensures |f.bits| == BITS && Lent(f0, FreeLeaves(f, table, n), own - LeafFrames(table, n))
  {
    LentGood(f0, f, own);
    if n > 0 {
      ReturnLeaves(f0, f, own, table, n - 1);
      var x, rest := table[n - 1].frame, own - LeafFrames(table, n - 1);
      assert own - LeafFrames(table, n) == rest - {x};
      hide Lent;
      if x == 0 {
        NoZero(f0, f, own);
        assert rest - {x} == rest;
      } else {
        ReturnOne(f0, FreeLeaves(f, table, n - 1), rest, x);
      }
    }
  }

  lemma NoZero(f0: Frames, f: Frames, own: set<nat>)
    requires Lent(f0, f, own)
    ensures 0 !in own
  {
  }

  ghost predicate LowerReturnable(f0: Frames, ram: seq<Table>, pd: nat)
    requires Freeable(ram, pd)
  {
    forall d :: 0 <= d < KERNEL_ENTRY && ram[pd][d] != ZERO ==>
      ram[pd][d].frame > 0 && Returnable(f0, ram[pd][d].frame) && LeavesReturnable(f0, ram[ram[pd][d].frame])
  }

  ghost predicate LeavesReturnable(f0: Frames, table: Table) {
    forall i :: 0 <= i < |table| ==> Returnable(f0, table[i].frame)
  }

  lemma {:induction false} ReturnTables(f0: Frames, f: Frames, own: set<nat>, ram: seq<Table>, pd: nat, n: nat)
    requires Lent(f0, f, own) && Freeable(ram, pd) && n <= KERNEL_ENTRY && LowerReturnable(f0, ram, pd)
    ensures |f.bits| == BITS && Lent(f0, FreeTables(f, ram, pd, n), own - LowerFrames(ram, pd, n))
  {
    LentGood(f0, f, own);
    hide Lent, FreeOne, FreeLeaves, FreeableTable;
    if n > 0 {
      ReturnTables(f0, f, own, ram, pd, n - 1);
      var e, g, rest := ram[pd][n - 1], FreeTables(f, ram, pd, n - 1), own - LowerFrames(ram, pd, n - 1);
      if e == ZERO {
        assert own - LowerFrames(ram, pd, n) == rest;
      } else {
        var table := ram[e.frame];
        ReturnLeaves(f0, g, rest, table, ENTRIES);
        ReturnOne(f0, FreeLeaves(g, table, ENTRIES), rest - LeafFrames(table, ENTRIES), e.frame);
        assert own - LowerFrames(ram, pd, n) == rest - LeafFrames(table, ENTRIES) - {e.frame};
      }
    }
  }

  /** A directory entry or table entry of the plan names a frame that the loops can free. */
  lemma HoldsFreeable(f0: Frames, s: Space, k: Plan)
    requires Holds(f0, s, k)
    ensures Freeable(s.ram, k.pd) && LowerReturnable(f0, s.ram, k.pd)
  {
    hide Present, RamIs, Apart, Lent, FreeableTable, LeavesReturnable;
    var ram := s.ram;
    RamShape(ram, k);
    forall d: nat | d < KERNEL_ENTRY && ram[k.pd][d] != ZERO
      ensures 0 < ram[k.pd][d].frame < BITS && FreeableTable(ram[ram[k.pd][d].frame])
      ensures Returnable(f0, ram[k.pd][d].frame) && LeavesReturnable(f0, ram[ram[k.pd][d].frame])
    {
      DirectoryEntry(ram, k, d);
      TableFreeable(f0, s, k, d);
    }
  }

  lemma DirectoryEntry(ram: seq<Table>, k: Plan, d: nat)
    requires RamIs(ram, k) && d < KERNEL_ENTRY
    ensures Shape(ram) && k.pd < BITS && (d in k.tables <==> ram[k.pd][d] != ZERO)
    ensures d in k.tables ==> Points(ram[k.pd][d], k.tables[d])
  {
  }

  lemma TableFreeable(f0: Frames, s: Space, k: Plan, d: nat)
    requires Holds(f0, s, k) && d in k.tables
    ensures 0 < k.tables[d] < BITS && Shape(s.ram)
    ensures FreeableTable(s.ram[k.tables[d]]) && LeavesReturnable(f0, s.ram[k.tables[d]])
    ensures Returnable(f0, k.tables[d])
  {
    hide Present, RamIs, Apart;
    assert k.tables[d] in k.tables.Values;
    EntryIs(s.ram, k, d, 0);
    forall i: nat | i < ENTRIES
      ensures s.ram[k.tables[d]][i].frame < BITS && Returnable(f0, s.ram[k.tables[d]][i].frame)
    {
      EntryIs(s.ram, k, d, i);
      if 1024 * d + i in k.pages {
        assert k.pages[1024 * d + i] in k.pages.Values;
      }
    }
  }

  // The freed frames are the tables and the mapped frames, and none besides.

  lemma {:induction false} FreesTable(f0: Frames, s: Space, k: Plan, n: nat, d: nat)
    requires Holds(f0, s, k) && Freeable(s.ram, k.pd) && n <= KERNEL_ENTRY && d < n && d in k.tables
    ensures k.tables[d] in LowerFrames(s.ram, k.pd, n)
  {
    hide Present, RamIs, Apart, Lent, Freeable;
    if d < n - 1 {
      FreesTable(f0, s, k, n - 1, d);
    } else {
      DirectoryEntry(s.ram, k, d);
    }
  }

  lemma {:induction false} FreesPage(f0: Frames, s: Space, k: Plan, n: nat, p: nat)
    requires Holds(f0, s, k) && Freeable(s.ram, k.pd) && n <= KERNEL_ENTRY && p / 1024 < n && p in k.pages
    ensures k.pages[p] in LowerFrames(s.ram, k.pd, n)
  {
    hide Present, RamIs, Apart, Lent, Freeable;
    var d, t := p / 1024, p % 1024;
    if d < n - 1 {
      FreesPage(f0, s, k, n - 1, p);
    } else {
      DirectoryEntry(s.ram, k, d);
      ApartPage(k, p);
      TableFreeable(f0, s, k, d);
      assert 1024 * d + t == p;
      EntryIs(s.ram, k, d, t);
      var table := s.ram[k.tables[d]];
      assert table[t].frame in LeafFrames(table, ENTRIES);
    }
  }

  lemma {:induction false} FreesNoOther(f0: Frames, s: Space, k: Plan, n: nat, x: nat)
    requires Holds(f0, s, k) && Freeable(s.ram, k.pd) && n <= KERNEL_ENTRY && x in LowerFrames(s.ram, k.pd, n)
    ensures x == 0 || x in k.tables.Values + k.pages.Values
  {
    hide Present, RamIs, Apart, Lent, Freeable;
    DirectoryEntry(s.ram, k, n - 1);
    if x in LowerFrames(s.ram, k.pd, n - 1) {
      FreesNoOther(f0, s, k, n - 1, x);
    } else if x != s.ram[k.pd][n - 1].frame {
      var d := n - 1;
      TableFreeable(f0, s, k, d);
      var i :| 0 <= i < ENTRIES && s.ram[k.tables[d]][i].frame == x;
      EntryIs(s.ram, k, d, i);
      if 1024 * d + i in k.pages {
        assert k.pages[1024 * d + i] in k.pages.Values;
      }
    } else {
      assert k.tables[n - 1] in k.tables.Values;
    }
  }

  lemma FreedIsMapped(f0: Frames, s: Space, k: Plan)
    requires Holds(f0, s, k) && Freeable(s.ram, k.pd)
    ensures Owned(k) - LowerFrames(s.ram, k.pd, KERNEL_ENTRY) - {k.pd} == k.pending
  {
    hide RamIs, Freeable, LowerFrames, Lent, Holds, Apart;
    HoldsParts(f0, s, k);
    var lower := LowerFrames(s.ram, k.pd, KERNEL_ENTRY);
    forall x | x in k.tables.Values ensures x in lower {
      var d :| d in k.tables && k.tables[d] == x;
      ApartTable(k, d);
      FreesTable(f0, s, k, KERNEL_ENTRY, d);
    }
    forall x | x in k.pages.Values ensures x in lower {
      var p :| p in k.pages && k.pages[p] == x;
      ApartPage(k, p);
      FreesPage(f0, s, k, KERNEL_ENTRY, p);
    }
    forall x | x in k.pending ensures x !in lower && x != k.pd {
      ApartPending(k, x);
      if x in lower {
        FreesNoOther(f0, s, k, KERNEL_ENTRY, x);
      }
    }
    assert Owned(k) - lower - {k.pd} == k.pending;
  }

  lemma HoldsParts(f0: Frames, s: Space, k: Plan)
    requires Holds(f0, s, k)
    ensures Apart(k) && Lent(f0, s.frames, Owned(k)) && 0 !in k.pending
  {
  }

  lemma ApartTable(k: Plan, d: nat)
    requires Apart(k) && d in k.tables
    ensures d < KERNEL_ENTRY
  {
  }

  lemma ApartPage(k: Plan, p: nat)
    requires Apart(k) && p in k.pages
    ensures p / 1024 in k.tables && p / 1024 < KERNEL_ENTRY
  {
  }

  lemma ApartPending(k: Plan, x: nat)
    requires Apart(k) && x in k.pending
    ensures x != k.pd && x !in k.tables.Values && x !in k.pages.Values
  {
  }

  /** Freeing a directory takes back exactly what it maps: afterwards only pending frames
      are missing from the allocator. */
  lemma FreeReturns(f0: Frames, s: Space, k: Plan)
    requires Holds(f0, s, k)
    ensures Freeable(s.ram, k.pd) && |s.frames.bits| == BITS
    ensures Lent(f0, FreeDirectory(s.frames, s.ram, k.pd), k.pending)
  {
    hide RamIs, Freeable, LowerFrames, FreeTables, Lent, Apart, LowerReturnable;
    HoldsFreeable(f0, s, k);
    HoldsParts(f0, s, k);
    LentGood(f0, s.frames, Owned(k));
    var lower := LowerFrames(s.ram, k.pd, KERNEL_ENTRY);
    ReturnTables(f0, s.frames, Owned(k), s.ram, k.pd, KERNEL_ENTRY);
    LentOwned(f0, s.frames, Owned(k), k.pd);
    ReturnOne(f0, FreeTables(s.frames, s.ram, k.pd, KERNEL_ENTRY), Owned(k) - lower, k.pd);
    FreedIsMapped(f0, s, k);
  }

  lemma LentOwned(f0: Frames, f: Frames, own: set<nat>, x: nat)
    requires Lent(f0, f, own) && x in own
    ensures 0 < x < f0.total <= |f0.bits| && !f0.bits[x]
  {
  }

  // ----- whole lives -----

  ghost predicate IsLife(ss: seq<Space>, ks: seq<Plan>, es: seq<Event>) {
    && |ss| == |ks| == |es| + 1
    && (forall i, j :: 0 <= i < j < |ss| && j == i + 1 ==> StepsTo(ss[i], ks[i], es[i], ss[j], ks[j]))
  }

  ghost predicate StepsTo(s: Space, k: Plan, e: Event, s': Space, k': Plan) {
    && Good(s.frames) && TablesInRam(s.ram, k.pd) && Allowed(k, e)
    && s' == Step(s, k.pd, e) && k' == StepPlan(s, k, e)
  }

  lemma {:induction false} LifeHolds(f0: Frames, ss: seq<Space>, ks: seq<Plan>, es: seq<Event>, n: nat)
    requires IsLife(ss, ks, es) && Holds(f0, ss[0], ks[0]) && n < |ss|
    ensures Holds(f0, ss[n], ks[n])
  {
    hide Holds, Step, StepPlan;
    if n > 0 {
      LifeHolds(f0, ss, ks, es, n - 1);
      assert StepsTo(ss[n - 1], ks[n - 1], es[n - 1], ss[n], ks[n]);
      StepHolds(f0, ss[n - 1], ks[n - 1], es[n - 1]);
    }
  }

  /** Create a directory, allocate, map and unmap in any way, free the directory: the bitmap
      and the counter are restored exactly if and only if no allocated frame was left
      unmapped. */
  lemma LifeRestores(s: Space, kernel: Table, ss: seq<Space>, ks: seq<Plan>, es: seq<Event>)
    requires Good(s.frames) && Shape(s.ram) && KernelDirectory(kernel) && Create(s, kernel).1 != 0
    requires IsLife(ss, ks, es) && ss[0] == Create(s, kernel).0 && ks[0] == Plan(Create(s, kernel).1, map[], map[], {})
    ensures var last, k := ss[|es|], ks[|es|];
      && Freeable(last.ram, k.pd) && |last.frames.bits| == BITS
      && Lent(s.frames, FreeDirectory(last.frames, last.ram, k.pd), k.pending)
      && (FreeDirectory(last.frames, last.ram, k.pd) == s.frames <==> k.pending == {})
  {
    hide Holds, Lent, IsLife, Freeable, FreeDirectory;
    CreateHolds(s, kernel);
    assert |ss| == |es| + 1 && |ks| == |es| + 1 by { LifeLengths(ss, ks, es); }
    LifeHolds(s.frames, ss, ks, es, |es|);
    var last, k := ss[|es|], ks[|es|];
    FreeReturns(s.frames, last, k);
    var f := FreeDirectory(last.frames, last.ram, k.pd);
    if k.pending == {} {
      NothingLent(s.frames, f);
    } else {
      var x :| x in k.pending;
      LentOwned(s.frames, f, k.pending, x);
      LentGood(s.frames, f, k.pending);
    }
  }

  lemma LifeLengths(ss: seq<Space>, ks: seq<Plan>, es: seq<Event>)
    requires IsLife(ss, ks, es)
    ensures |ss| == |ks| == |es| + 1
  {
  }

  // ----- the walks of a directory, over its whole life -----

  /** The kernel's own tables are used frames, all different. */
  ghost predicate KernelTables(f: Frames, t: Table)
    requires |t| == ENTRIES
  {
    && (forall d :: 0 <= d < SELF && Present(t[d]) ==> t[d].frame < |f.bits| && f.bits[t[d].frame])
    && (forall d, e :: 0 <= d < e < SELF && Present(t[d]) && Present(t[e]) ==> t[d].frame != t[e].frame)
  }

  lemma CreateWellFormed(s: Space, kernel: Table)
    requires Good(s.frames) && Shape(s.ram) && KernelDirectory(kernel) && KernelTables(s.frames, kernel)
    requires Create(s, kernel).1 != 0
    ensures WellFormed(Create(s, kernel).0, Create(s, kernel).1)
  {
    hide Alloc, CountSet, Pointing, Present;
    AllocExact(s.frames, 1);
    var (s', pd) := Create(s, kernel);
    assert !s.frames.bits[pd];
  }

  /** Above KERNEL_START a new directory leads every page where the kernel's own does. */
  lemma CreateSharesKernel(s: Space, kernel: Table, kpd: nat, q: nat)
    requires Good(s.frames) && Shape(s.ram) && KernelDirectory(kernel) && KernelTables(s.frames, kernel)
    requires Create(s, kernel).1 != 0 && kpd < BITS && s.ram[kpd] == kernel
    requires KERNEL_ENTRY <= q / 1024 < SELF
    ensures Shape(Create(s, kernel).0.ram)
    ensures Walk(Create(s, kernel).0.ram, Create(s, kernel).1, q) == Walk(s.ram, kpd, q)
  {
    hide Alloc, CountSet, Pointing, Present;
    AllocExact(s.frames, 1);
    var (s', pd) := Create(s, kernel);
    assert !s.frames.bits[pd];
  }

  /** Its last entry points to itself, present and writable. */
  lemma CreatePointsToSelf(s: Space, kernel: Table, j: nat)
    requires Good(s.frames) && Shape(s.ram) && |kernel| == ENTRIES && Create(s, kernel).1 != 0
    ensures var (s', pd) := Create(s, kernel);
      && 0 < pd < BITS && Shape(s'.ram) && s'.ram[pd][SELF].frame == pd
      && (Flag(s'.ram[pd][SELF].flags, j) <==> j == 0 || j == 1 || Flag(kernel[SELF].flags, j))
  {
    hide Alloc, CountSet, Flag, Joined;
    AllocExact(s.frames, 1);
    JoinedFlag(kernel[SELF].flags, 2, j);
    WritableFlag(j);
  }

  lemma WritableFlag(j: nat)
    ensures Flag(2, j) <==> j == 1
  {
    assert !OddFlags(2) && HalfFlags(2) == 1;
    if j > 0 {
      PresentFlag(j - 1);
    }
  }

  /** Below the recursive window, an event changes the walk of one page at most: allocating
      changes none, mapping makes its page lead to the frame, unmapping makes it lead
      nowhere. */
  ghost predicate OneWalk(s: Space, s': Space, pd: nat, e: Event)
    requires WellFormed(s, pd) && WellFormed(s', pd) && (e.Map? ==> e.page < LOW_PAGES)
  {
    forall q: nat :: q / 1024 < SELF ==>
      if e.Map? && q == e.page && MapPage(s, pd, e.frame, e.page, e.flags).1 then
        && Walk(s'.ram, pd, q).Some? && Walk(s'.ram, pd, q).value.frame == e.frame
        && forall j: nat :: Flag(Walk(s'.ram, pd, q).value.pageFlags, j) <==>
             j == 0 || Flag(PageFlags(s, pd, q), j) || Flag(e.flags, j)
      else if e.Unmap? && q == e.page then Walk(s'.ram, pd, q) == None
      else Walk(s'.ram, pd, q) == Walk(s.ram, pd, q)
  }

  lemma TakeWellFormed(s: Space, pd: nat, cnt: nat)
    requires WellFormed(s, pd)
    ensures WellFormed(Step(s, pd, Take(cnt)), pd) && Step(s, pd, Take(cnt)).ram == s.ram
  {
    hide Alloc, CountSet, Present;
    AllocExact(s.frames, cnt);
  }

  lemma StepOneWalk(s: Space, pd: nat, e: Event)
    requires WellFormed(s, pd) && (e.Map? ==> e.page < LOW_PAGES) && (e.Unmap? ==> e.page < LOW_PAGES)
    ensures WellFormed(Step(s, pd, e), pd) && OneWalk(s, Step(s, pd, e), pd, e)
  {
    hide Alloc, CountSet, Present, Walk, MapPage, UnmapPage, WellFormed, Flag;
    WellFormedParts(s, pd);
    match e
    case Take(cnt) => TakeWellFormed(s, pd, cnt);
    case Map(frame, page, flags) =>
      MapSucceedsIff(s, pd, frame, page, flags);
      if MapPage(s, pd, frame, page, flags).1 {
        MapChangesOneWalk(s, pd, frame, page, flags);
      }
    case Unmap(page) =>
      UnmapChangesOneWalk(s, pd, page, page);
      WellFormedParts(UnmapPage(s, pd, page), pd);
      forall q: nat | q / 1024 < SELF
        ensures Walk(UnmapPage(s, pd, page).ram, pd, q) == if q == page then None else Walk(s.ram, pd, q)
      {
        UnmapChangesOneWalk(s, pd, page, q);
      }
  }

  lemma WellFormedParts(s: Space, pd: nat)
    requires WellFormed(s, pd)
    ensures Good(s.frames) && TablesInRam(s.ram, pd)
  {
  }

  lemma {:induction false} LifeWellFormed(ss: seq<Space>, ks: seq<Plan>, es: seq<Event>, n: nat)
    requires IsLife(ss, ks, es) && WellFormed(ss[0], ks[0].pd) && n < |ss|
    ensures WellFormed(ss[n], ks[n].pd) && ks[n].pd == ks[0].pd
  {
    hide WellFormed, Step, StepPlan, OneWalk;
    if n > 0 {
      LifeWellFormed(ss, ks, es, n - 1);
      assert StepsTo(ss[n - 1], ks[n - 1], es[n - 1], ss[n], ks[n]);
      PlanKeepsDirectory(ss[n - 1], ks[n - 1], es[n - 1]);
      StepOneWalk(ss[n - 1], ks[n - 1].pd, es[n - 1]);
    }
  }

  lemma PlanKeepsDirectory(s: Space, k: Plan, e: Event)
    requires Good(s.frames) && TablesInRam(s.ram, k.pd) && Allowed(k, e)
    ensures StepPlan(s, k, e).pd == k.pd
  {
    hide Alloc, MapPage;
  }

  /** Over every life of a directory that vmmngr_alloc_page_directory makes, every event
      changes the walk of its own page and of no other. */
  lemma LifeChangesOneWalk(s: Space, kernel: Table, ss: seq<Space>, ks: seq<Plan>, es: seq<Event>, n: nat)
    requires Good(s.frames) && Shape(s.ram) && KernelDirectory(kernel) && KernelTables(s.frames, kernel)
    requires Create(s, kernel).1 != 0 && n < |es|
    requires IsLife(ss, ks, es) && ss[0] == Create(s, kernel).0 && ks[0] == Plan(Create(s, kernel).1, map[], map[], {})
    ensures WellFormed(ss[n], ks[0].pd) && WellFormed(ss[n + 1], ks[0].pd) && (es[n].Map? ==> es[n].page < LOW_PAGES)
    ensures OneWalk(ss[n], ss[n + 1], ks[0].pd, es[n])
  {
    hide WellFormed, Step, StepPlan, OneWalk, Create, KernelTables;
    CreateWellFormed(s, kernel);
    LifeWellFormed(ss, ks, es, n);
    assert StepsTo(ss[n], ks[n], es[n], ss[n + 1], ks[n + 1]);
    StepOneWalk(ss[n], ks[n].pd, es[n]);
  }

  /** A frame that is allocated and never mapped is lost to the allocator. */
  lemma LifeLeaks(s: Space, kernel: Table) returns (ss: seq<Space>, ks: seq<Plan>)
    requires Good(s.frames) && Shape(s.ram) && KernelDirectory(kernel) && Create(s, kernel).1 != 0
    requires Good(Create(s, kernel).0.frames) && Alloc(Create(s, kernel).0.frames, 1).1 != 0
    ensures IsLife(ss, ks, [Take(1)]) && |ss| == |ks| == 2
    ensures Freeable(ss[1].ram, ks[1].pd) && |ss[1].frames.bits| == BITS
    ensures ss[0] == Create(s, kernel).0 && ks[0] == Plan(Create(s, kernel).1, map[], map[], {})
    ensures FreeDirectory(ss[1].frames, ss[1].ram, ks[1].pd) != s.frames
  {
    hide Holds, Alloc, Create, Freeable, FreeDirectory;
    CreateHolds(s, kernel);
    var s0, k0 := Create(s, kernel).0, Plan(Create(s, kernel).1, map[], map[], {});
    HoldsGood(s.frames, s0, k0);
    ss, ks := [s0, Step(s0, k0.pd, Take(1))], [k0, StepPlan(s0, k0, Take(1))];
    assert IsLife(ss, ks, [Take(1)]);
    assert Alloc(s0.frames, 1).1 in ks[1].pending;
    LifeRestores(s, kernel, ss, ks, [Take(1)]);
  }

  /** For instance with two frames of three free and an empty kernel directory. */
  lemma LeakExample() returns (s: Space, ss: seq<Space>, ks: seq<Plan>)
    ensures |s.frames.bits| == BITS && s.frames.total == 3 && !s.frames.bits[1] && !s.frames.bits[2]
    ensures |ss| == |ks| == 2 && IsLife(ss, ks, [Take(1)])
    ensures Freeable(ss[1].ram, ks[1].pd) && |ss[1].frames.bits| == BITS
    ensures FreeDirectory(ss[1].frames, ss[1].ram, ks[1].pd) != s.frames
  {
    hide Alloc, IsLife, Freeable, FreeDirectory, LowestRun;
    var bits := seq(BITS, i => i != 1 && i != 2);
    assert bits[0] && !bits[1] && !bits[2];
    s := Space(Frames(bits, 1, 3), seq(BITS, _ => Empty()));
    assert CountSet(bits, 1) == 1 && CountSet(bits, 2) == 1 && CountSet(bits, 3) == 1;
    AllocExact(s.frames, 1);
    assert FreeRun(bits, 1, 1);
    var s0 := Create(s, Empty()).0;
    var pd := Alloc(s.frames, 1).1;
    assert pd == 1;
    assert FreeRun(s0.frames.bits, 2, 1);
    AllocExact(s0.frames, 1);
    ZeroAbsent();
    ss, ks := LifeLeaks(s, Empty());
  }
}
