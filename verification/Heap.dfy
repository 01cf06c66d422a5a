/** The kernel heap (kernel/src/mem/heap.c): first fit over regions that tile the heap,
    each behind a header holding a magic number, the size and the previous header.

    `regions` is the abstract tiling; `mem` is the memory that holds the headers.  The
    methods walk and rewrite `mem`; they are proved to perform the tiling operations
    `AllocAt` and `FreeAt`, whose laws over whole histories are proved below. */
module Heaps {

  const U32: nat := 0x1_0000_0000
  const HEADER: nat := 12          // sizeof(heap_header_t)
  const HEAP_T: nat := 14          // sizeof(heap_t)
  const MIN_REGION_SIZE: nat := 4
  const PAGE: nat := 4096

  datatype Region = Region(addr: nat, size: nat, used: bool)

  function End(r: Region): nat {
    r.addr + HEADER + r.size
  }

  /** The regions follow one another without gap from lo to hi. */
  ghost predicate Tiled(rs: seq<Region>, lo: nat, hi: nat) {
    && rs != []
    && rs[0].addr == lo
    && (forall i, j :: 0 <= i < j < |rs| && j == i + 1 ==> rs[j].addr == End(rs[i]))
    && End(rs[|rs| - 1]) == hi
  }

  /** No two neighbours are both free. */
  ghost predicate Coalesced(rs: seq<Region>) {
    forall i, j :: 0 <= i < j < |rs| && j == i + 1 ==> rs[i].used || rs[j].used
  }

  ghost predicate Good(rs: seq<Region>, lo: nat, hi: nat) {
    Tiled(rs, lo, hi) && Coalesced(rs)
  }

  predicate Fits(r: Region, need: nat) {
    !r.used && r.size >= need
  }

  /** The first free region of at least `need` bytes, or |rs|. */
  function FirstFit(rs: seq<Region>, need: nat): (i: nat)
    ensures i <= |rs|
    ensures i < |rs| ==> Fits(rs[i], need)
    ensures forall j :: 0 <= j < i ==> !Fits(rs[j], need)
  {
    if rs == [] then 0 else if Fits(rs[0], need) then 0 else 1 + FirstFit(rs[1..], need)
  }

  /** Region i becomes used; what exceeds `size` is split off if it can hold a region. */
  function AllocAt(rs: seq<Region>, i: nat, size: nat): seq<Region>
    requires i < |rs| && rs[i].size >= size + HEADER
  {
    var r := rs[i];
    var spare := r.size - size - HEADER;
    if spare >= MIN_REGION_SIZE then
      rs[..i] + [Region(r.addr, size, true), Region(r.addr + HEADER + size, spare, false)] + rs[i + 1..]
    else rs[i := r.(used := true)]
  }

  /** Regions i and i+1 become one free region. */
  function Joined(rs: seq<Region>, i: nat): seq<Region>
    requires i + 1 < |rs|
  {
    rs[..i] + [Region(rs[i].addr, rs[i].size + HEADER + rs[i + 1].size, false)] + rs[i + 2..]
  }

  function JoinedNext(rs: seq<Region>, i: nat): seq<Region>
    requires i < |rs|
  {
    if i + 1 < |rs| && !rs[i + 1].used then Joined(rs, i) else rs
  }

  function JoinedPrev(rs: seq<Region>, i: nat): seq<Region>
    requires i < |rs|
  {
    if i > 0 && !rs[i - 1].used then Joined(rs, i - 1) else rs
  }

  /** Region i becomes free and is merged with its free neighbours. */
  function FreeAt(rs: seq<Region>, i: nat): seq<Region>
    requires i < |rs|
  {
    JoinedPrev(JoinedNext(rs[i := rs[i].(used := false)], i), i)
  }

  // ----- the tiling laws -----

  lemma AllocKeepsGood(rs: seq<Region>, i: nat, size: nat, lo: nat, hi: nat)
    requires Good(rs, lo, hi) && i < |rs| && !rs[i].used && rs[i].size >= size + HEADER
    ensures Good(AllocAt(rs, i, size), lo, hi)
    ensures i < |AllocAt(rs, i, size)| && AllocAt(rs, i, size)[i].used
    ensures size <= AllocAt(rs, i, size)[i].size < size + HEADER + MIN_REGION_SIZE
    ensures AllocAt(rs, i, size)[i].addr == rs[i].addr
  {
    if rs[i].size - size - HEADER < MIN_REGION_SIZE {
      return;
    }
    hide AllocAt;
    var t := AllocAt(rs, i, size);
    SplitAt(rs, i, size);
    forall k, l | 0 <= k < l < |t| && l == k + 1 ensures t[l].addr == End(t[k]) && (t[k].used || t[l].used) {
      SplitPair(rs, i, size, lo, hi, k);
    }
  }

  /** A block is split exactly when 16 bytes or more are left over; the free rest is what
      follows the block and its own header, and no other region changes. */
  lemma SplitIff(rs: seq<Region>, i: nat, size: nat)
    requires i < |rs| && !rs[i].used && rs[i].size >= size + HEADER
    ensures var t := AllocAt(rs, i, size);
      && t[..i] == rs[..i]
      && (rs[i].size - size >= 16 <==> |t| == |rs| + 1)
      && (rs[i].size - size < 16 <==> |t| == |rs| && t[i].size == rs[i].size && t[i + 1..] == rs[i + 1..])
      && (|t| == |rs| + 1 ==> t[i].size == size && t[i + 2..] == rs[i + 1..])
      && (|t| == |rs| + 1 ==> !t[i + 1].used && t[i + 1].addr == End(t[i]) && End(t[i + 1]) == End(rs[i]))
  {
    if rs[i].size - size >= 16 {
      SplitAt(rs, i, size);
    }
  }

  /** Neighbours after a split meet, and one of them is used. */
  lemma SplitPair(rs: seq<Region>, i: nat, size: nat, lo: nat, hi: nat, k: nat)
    requires Good(rs, lo, hi) && i < |rs| && !rs[i].used && k < |rs|
    requires rs[i].size >= size + HEADER && rs[i].size - size - HEADER >= MIN_REGION_SIZE
    ensures var t := AllocAt(rs, i, size);
      |t| == |rs| + 1 && t[k + 1].addr == End(t[k]) && (t[k].used || t[k + 1].used)
  {
    hide AllocAt, Good;
    SplitAt(rs, i, size);
    if k < i {
      Neighbours(rs, lo, hi, k);
    } else if k > i {
      Neighbours(rs, lo, hi, k - 1);
    }
  }

  lemma Neighbours(rs: seq<Region>, lo: nat, hi: nat, k: nat)
    requires Good(rs, lo, hi) && k + 1 < |rs|
    ensures rs[k + 1].addr == End(rs[k]) && (rs[k].used || rs[k + 1].used)
  {
    var l := k + 1;
    assert rs[l].addr == End(rs[k]) && (rs[k].used || rs[l].used);
  }

  /** The regions after a split, one by one. */
  lemma SplitAt(rs: seq<Region>, i: nat, size: nat)
    requires i < |rs| && rs[i].size >= size + HEADER && rs[i].size - size - HEADER >= MIN_REGION_SIZE
    ensures var t := AllocAt(rs, i, size);
      && |t| == |rs| + 1
      && t[i] == Region(rs[i].addr, size, true)
      && t[i + 1] == Region(rs[i].addr + HEADER + size, rs[i].size - size - HEADER, false)
      && (forall k :: 0 <= k < i ==> t[k] == rs[k])
      && (forall k :: i + 1 < k < |t| ==> t[k] == rs[k - 1])
  {
    var t, front, back := AllocAt(rs, i, size), rs[..i], rs[i + 1..];
    var a, b := Region(rs[i].addr, size, true), Region(rs[i].addr + HEADER + size, rs[i].size - size - HEADER, false);
    assert t == front + [a, b] + back;
    hide AllocAt;
    Middle(front, a, b, back);
    forall k | i + 1 < k < |t| ensures t[k] == rs[k - 1] {
      assert back[k - i - 2] == rs[k - 1];
    }
  }

  lemma Middle(front: seq<Region>, a: Region, b: Region, back: seq<Region>)
    ensures var t := front + [a, b] + back;
      && |t| == |front| + 2 + |back| && t[|front|] == a && t[|front| + 1] == b
      && (forall k :: 0 <= k < |front| ==> t[k] == front[k])
      && (forall k :: |front| + 1 < k < |t| ==> t[k] == back[k - |front| - 2])
  {
  }

  lemma JoinKeepsTiled(rs: seq<Region>, i: nat, lo: nat, hi: nat)
    requires Tiled(rs, lo, hi) && i + 1 < |rs|
    ensures Tiled(Joined(rs, i), lo, hi)
  {
  }

  /** Only neighbours at positions in `gaps` may both be free. */
  ghost predicate CoalescedBut(rs: seq<Region>, gaps: set<int>) {
    forall k, j :: 0 <= k < j < |rs| && j == k + 1 && k !in gaps ==> rs[k].used || rs[j].used
  }

  lemma JoinClosesGap(rs: seq<Region>, i: nat, gaps: set<int>)
    requires i + 1 < |rs| && !rs[i].used && !rs[i + 1].used
    requires CoalescedBut(rs, {i} + gaps) && (forall g :: g in gaps ==> g < i)
    ensures CoalescedBut(Joined(rs, i), gaps)
  {
  }

  lemma FreeKeepsGood(rs: seq<Region>, i: nat, lo: nat, hi: nat)
    requires Good(rs, lo, hi) && i < |rs| && rs[i].used
    ensures Good(FreeAt(rs, i), lo, hi)
  {
    var a := rs[i := rs[i].(used := false)];
    assert Tiled(a, lo, hi) && CoalescedBut(a, {i} + {i - 1});
    hide Tiled, Joined, CoalescedBut;
    var b := JoinedNext(a, i);
    if i + 1 < |a| && !a[i + 1].used {
      JoinKeepsTiled(a, i, lo, hi);
      JoinClosesGap(a, i, {i - 1});
      JoinedEntries(a, i);
    } else {
      NoGapAfter(a, i);
    }
    assert {i - 1} + {} == {i - 1};
    if i > 0 && !b[i - 1].used {
      JoinKeepsTiled(b, i - 1, lo, hi);
      JoinClosesGap(b, i - 1, {});
    } else {
      NoGapBefore(b, i);
    }
    NoGaps(FreeAt(rs, i));
  }

  lemma NoGapAfter(rs: seq<Region>, i: nat)
    requires i < |rs| && CoalescedBut(rs, {i} + {i - 1}) && (i + 1 < |rs| ==> rs[i + 1].used)
    ensures CoalescedBut(rs, {i - 1})
  {
  }

  lemma NoGapBefore(rs: seq<Region>, i: nat)
    requires i < |rs| && CoalescedBut(rs, {i - 1}) && (i > 0 ==> rs[i - 1].used)
    ensures CoalescedBut(rs, {})
  {
  }

  lemma NoGaps(rs: seq<Region>)
    requires CoalescedBut(rs, {})
    ensures Coalesced(rs)
  {
  }

  lemma JoinedEntries(rs: seq<Region>, i: nat)
    requires i + 1 < |rs|
    ensures var t := Joined(rs, i);
      && |t| == |rs| - 1 && !t[i].used && t[i].addr == rs[i].addr
      && (forall k :: 0 <= k < |t| && k != i ==> t[k] == if k < i then rs[k] else rs[k + 1])
  {
  }

  /** Freeing everything restores the single initial region. */
  lemma AllFreeIsInitial(rs: seq<Region>, lo: nat, hi: nat)
    requires Good(rs, lo, hi)
    requires forall i :: 0 <= i < |rs| ==> !rs[i].used
    ensures |rs| == 1 && rs[0].addr == lo && End(rs[0]) == hi
  {
    var k := |rs| - 1;
    var last, before := rs[k], rs[if k == 0 then 0 else k - 1];
  }

  /** The blocks of different regions never overlap. */
  lemma {:induction false} RegionsDisjoint(rs: seq<Region>, i: nat, j: nat, lo: nat, hi: nat)
    requires Tiled(rs, lo, hi) && i < j < |rs|
    ensures lo <= rs[i].addr && End(rs[i]) <= rs[j].addr && End(rs[j]) <= hi
    decreases |rs|
  {
    TiledBounds(rs, lo, hi, i, j);
    TiledBounds(rs, lo, hi, 0, i);
    TiledBounds(rs, lo, hi, j, |rs| - 1);
  }

  lemma {:induction false} TiledBounds(rs: seq<Region>, lo: nat, hi: nat, i: nat, j: nat)
    requires Tiled(rs, lo, hi) && i <= j < |rs|
    ensures i < j ==> End(rs[i]) <= rs[j].addr
    ensures rs[i].addr <= rs[j].addr
    decreases j - i
  {
    if i < j {
      TiledBounds(rs, lo, hi, i + 1, j);
      assert rs[i + 1].addr == End(rs[i]);
    }
  }

  lemma GoodTiled(rs: seq<Region>, lo: nat, hi: nat)
    requires Good(rs, lo, hi)
    ensures Tiled(rs, lo, hi)
  {
  }

  // ----- headers in memory -----

  datatype Magic = HeapFree | HeapUsed

  datatype Header = Header(magic: Magic, size: nat, prev: nat)

  type Memory = map<nat, Header>

  function HeaderOf(rs: seq<Region>, i: nat): Header
    requires i < |rs|
  {
    Header(if rs[i].used then HeapUsed else HeapFree, rs[i].size, if i == 0 then 0 else rs[i - 1].addr)
  }

  ghost predicate IsRegion(rs: seq<Region>, a: nat) {
    exists i :: 0 <= i < |rs| && rs[i].addr == a
  }

  ghost predicate HeaderOk(mem: Memory, rs: seq<Region>, i: nat)
    requires i < |rs|
  {
    rs[i].addr in mem && mem[rs[i].addr] == HeaderOf(rs, i)
  }

  /** Memory holds the header of every region (with the right prev link), and no stale
      header still carries the used magic. */
  ghost predicate Spelled(mem: Memory, rs: seq<Region>) {
    && (forall i: nat :: i < |rs| ==> HeaderOk(mem, rs, i))
    && (forall a :: a in mem && mem[a].magic == HeapUsed ==> IsRegion(rs, a))
  }

  /** HEAP_NEXT_HEADER */
  function Next(mem: Memory, h: nat): nat
    requires h in mem
  {
    h + HEADER + mem[h].size
  }

  function WithPrev(mem: Memory, h: nat, end: nat, prev: nat): Memory
    requires h < end ==> h in mem
  {
    if h < end then mem[h := mem[h].(prev := prev)] else mem
  }

  /** A header absorbs the one after it. */
  function JoinMem(mem: Memory, h: nat, end: nat): Memory
    requires h in mem && Next(mem, h) in mem
    requires var n := Next(mem, Next(mem, h)); n < end ==> n in mem
  {
    var nx := Next(mem, h);
    WithPrev(mem[h := mem[h].(size := mem[h].size + mem[nx].size + HEADER)], Next(mem, nx), end, h)
  }

  /** Distinct regions have distinct headers, all before the end of the heap. */
  lemma Addresses(rs: seq<Region>, lo: nat, hi: nat)
    requires Tiled(rs, lo, hi)
    ensures forall i, j :: 0 <= i < j < |rs| ==> rs[i].addr + HEADER <= rs[j].addr
    ensures forall i :: 0 <= i < |rs| ==> lo <= rs[i].addr && End(rs[i]) <= hi
  {
    forall i, j | 0 <= i < j < |rs| ensures rs[i].addr + HEADER <= rs[j].addr {
      TiledBounds(rs, lo, hi, i, j);
    }
    forall i | 0 <= i < |rs| ensures lo <= rs[i].addr && End(rs[i]) <= hi {
      TiledBounds(rs, lo, hi, 0, i);
      TiledBounds(rs, lo, hi, i, |rs| - 1);
    }
  }

  /** The header of region k is in memory; the next header follows it. */
  lemma HeaderAt(mem: Memory, rs: seq<Region>, lo: nat, hi: nat, k: nat)
    requires Tiled(rs, lo, hi) && Spelled(mem, rs) && k < |rs|
    ensures rs[k].addr in mem && mem[rs[k].addr] == HeaderOf(rs, k)
    ensures Next(mem, rs[k].addr) == if k + 1 < |rs| then rs[k + 1].addr else hi
  {
    assert HeaderOk(mem, rs, k);
  }

  function JoinedHeader(mem: Memory, rs: seq<Region>, i: nat, a: nat): Header
    requires i + 1 < |rs| && a in mem
  {
    if a == rs[i].addr then mem[a].(size := rs[i].size + HEADER + rs[i + 1].size)
    else if i + 2 < |rs| && a == rs[i + 2].addr then mem[a].(prev := rs[i].addr)
    else mem[a]
  }

  /** What joining writes: the size of region i and the prev link of region i + 2. */
  lemma JoinMemIs(mem: Memory, rs: seq<Region>, i: nat, lo: nat, hi: nat)
    requires Tiled(rs, lo, hi) && Spelled(mem, rs) && i + 1 < |rs|
    ensures var h := rs[i].addr;
      && h in mem && Next(mem, h) in mem
      && (var n := Next(mem, Next(mem, h)); n < hi ==> n in mem)
      && JoinMem(mem, h, hi).Keys == mem.Keys
      && (forall a :: a in mem ==> JoinMem(mem, h, hi)[a] == JoinedHeader(mem, rs, i, a))
  {
    HeaderAt(mem, rs, lo, hi, i);
    HeaderAt(mem, rs, lo, hi, i + 1);
    Addresses(rs, lo, hi);
    if i + 2 < |rs| {
      HeaderAt(mem, rs, lo, hi, i + 2);
    }
    hide Spelled, Tiled;
  }

  lemma JoinSpelled(mem: Memory, rs: seq<Region>, i: nat, lo: nat, hi: nat)
    requires Tiled(rs, lo, hi) && Spelled(mem, rs) && i + 1 < |rs| && !rs[i].used && !rs[i + 1].used
    ensures var h := rs[i].addr;
      && h in mem && Next(mem, h) in mem
      && (var n := Next(mem, Next(mem, h)); n < hi ==> n in mem)
      && Spelled(JoinMem(mem, h, hi), Joined(rs, i))
  {
    hide Tiled, Joined, JoinMem, Spelled, HeaderOk, HeaderOf;
    JoinMemIs(mem, rs, i, lo, hi);
    var m, t := JoinMem(mem, rs[i].addr, hi), Joined(rs, i);
    JoinedEntries(rs, i);
    forall k: nat | k < |t| ensures HeaderOk(m, t, k) {
      JoinHeaderOk(mem, rs, i, lo, hi, k);
    }
    forall a | a in m && m[a].magic == HeapUsed ensures IsRegion(t, a) {
      var o := UsedRegion(mem, rs, a);
      JoinKeepsUsed(mem, rs, i, lo, hi, o);
    }
    SpelledFrom(m, t);
  }

  lemma JoinHeaderOk(mem: Memory, rs: seq<Region>, i: nat, lo: nat, hi: nat, k: nat)
    requires Tiled(rs, lo, hi) && Spelled(mem, rs) && i + 1 < |rs| && !rs[i].used && !rs[i + 1].used
    requires k + 1 < |rs|
    requires var h := rs[i].addr; h in mem && Next(mem, h) in mem && (var n := Next(mem, Next(mem, h)); n < hi ==> n in mem)
    ensures HeaderOk(JoinMem(mem, rs[i].addr, hi), Joined(rs, i), k)
  {
    var o := if k <= i then k else k + 1;
    JoinMemIs(mem, rs, i, lo, hi);
    HeaderAt(mem, rs, lo, hi, o);
    JoinedIs(rs, i, k);
    Distinct(rs, lo, hi, o, i);
    if i + 2 < |rs| {
      Distinct(rs, lo, hi, o, i + 2);
    }
    if k > 0 {
      JoinedIs(rs, i, k - 1);
    }
    hide Tiled, Spelled, JoinMem, Joined;
    var m, a := JoinMem(mem, rs[i].addr, hi), rs[o].addr;
    assert a in mem && m[a] == JoinedHeader(mem, rs, i, a);
  }

  lemma Distinct(rs: seq<Region>, lo: nat, hi: nat, a: nat, b: nat)
    requires Tiled(rs, lo, hi) && a < |rs| && b < |rs|
    ensures rs[a].addr == rs[b].addr <==> a == b
  {
    if a < b {
      TiledBounds(rs, lo, hi, a, b);
    } else if b < a {
      TiledBounds(rs, lo, hi, b, a);
    }
  }

  lemma JoinedIs(rs: seq<Region>, i: nat, k: nat)
    requires i + 1 < |rs| && k + 1 < |rs|
    ensures |Joined(rs, i)| == |rs| - 1
    ensures Joined(rs, i)[k] == if k < i then rs[k] else if k > i then rs[k + 1]
            else Region(rs[i].addr, rs[i].size + HEADER + rs[i + 1].size, false)
  {
  }

  lemma JoinKeepsUsed(mem: Memory, rs: seq<Region>, i: nat, lo: nat, hi: nat, o: nat)
    requires Tiled(rs, lo, hi) && Spelled(mem, rs) && i + 1 < |rs| && !rs[i].used && !rs[i + 1].used
    requires o < |rs| && rs[o].addr in mem && mem[rs[o].addr].magic == HeapUsed
    ensures IsRegion(Joined(rs, i), rs[o].addr)
  {
    HeaderAt(mem, rs, lo, hi, o);
    assert rs[o].used;
    var k := if o < i then o else o - 1;
    assert Joined(rs, i)[k].addr == rs[o].addr;
  }

  lemma UsedRegion(mem: Memory, rs: seq<Region>, a: nat) returns (o: nat)
    requires Spelled(mem, rs) && a in mem && mem[a].magic == HeapUsed
    ensures o < |rs| && rs[o].addr == a
  {
    assert IsRegion(rs, a);
    o :| 0 <= o < |rs| && rs[o].addr == a;
  }

  lemma SpelledFrom(mem: Memory, rs: seq<Region>)
    requires forall i: nat :: i < |rs| ==> HeaderOk(mem, rs, i)
    requires forall a :: a in mem && mem[a].magic == HeapUsed ==> IsRegion(rs, a)
    ensures Spelled(mem, rs)
  {
  }

  /** A header is marked used, after splitting off a new one behind it if it is big. */
  function AllocMem(mem: Memory, h: nat, size: nat, end: nat): Memory
    requires h in mem && mem[h].size >= size + HEADER
    requires Next(mem, h) < end ==> Next(mem, h) in mem
  {
    var spare := mem[h].size - size - HEADER;
    if spare >= MIN_REGION_SIZE then
      var newh := h + HEADER + size;
      var m := WithPrev(mem[newh := Header(HeapFree, spare, h)], Next(mem, h), end, newh);
      m[h := Header(HeapUsed, size, mem[h].prev)]
    else mem[h := mem[h].(magic := HeapUsed)]
  }

  lemma AllocIs(rs: seq<Region>, i: nat, size: nat, k: nat)
    requires i < |rs| && rs[i].size >= size + HEADER && rs[i].size - size - HEADER >= MIN_REGION_SIZE && k <= |rs|
    ensures |AllocAt(rs, i, size)| == |rs| + 1
    ensures AllocAt(rs, i, size)[k] ==
      if k < i then rs[k]
      else if k == i then Region(rs[i].addr, size, true)
      else if k == i + 1 then Region(rs[i].addr + HEADER + size, rs[i].size - size - HEADER, false)
      else rs[k - 1]
  {
  }

  lemma SplitHeaderOk(mem: Memory, rs: seq<Region>, i: nat, size: nat, lo: nat, hi: nat, k: nat)
    requires Tiled(rs, lo, hi) && Spelled(mem, rs)
    requires i < |rs| && rs[i].size >= size + HEADER && rs[i].size - size - HEADER >= MIN_REGION_SIZE && k <= |rs|
    requires var h := rs[i].addr; h in mem && mem[h].size == rs[i].size && (Next(mem, h) < hi ==> Next(mem, h) in mem)
    ensures HeaderOk(AllocMem(mem, rs[i].addr, size, hi), AllocAt(rs, i, size), k)
  {
    hide Tiled, Spelled, AllocAt, AllocMem;
    AllocIs(rs, i, size, k);
    if k > 0 {
      AllocIs(rs, i, size, k - 1);
    }
    var o := if k <= i then k else k - 1;
    HeaderAt(mem, rs, lo, hi, o);
    SplitGap(rs, lo, hi, i, size, o);
    SplitMemIs(mem, rs, i, size, lo, hi, rs[o].addr);
    SplitMemIs(mem, rs, i, size, lo, hi, rs[i].addr + HEADER + size);
  }

  /** The split-off header lies strictly between region i and the next one. */
  lemma SplitGap(rs: seq<Region>, lo: nat, hi: nat, i: nat, size: nat, o: nat)
    requires Tiled(rs, lo, hi) && i < |rs| && o < |rs| && rs[i].size >= size + HEADER
    ensures rs[o].addr != rs[i].addr + HEADER + size
    ensures rs[o].addr == rs[i].addr <==> o == i
    ensures i + 1 < |rs| ==> (rs[o].addr == rs[i + 1].addr <==> o == i + 1)
  {
    Distinct(rs, lo, hi, o, i);
    if i + 1 < |rs| {
      Distinct(rs, lo, hi, o, i + 1);
    }
    if o < i {
      TiledBounds(rs, lo, hi, o, i);
    } else if i < o {
      TiledBounds(rs, lo, hi, i, o);
    }
  }

  function SplitHeader(mem: Memory, rs: seq<Region>, i: nat, size: nat, a: nat): Header
    requires i < |rs| && rs[i].size >= size + HEADER && (a in mem || a == rs[i].addr + HEADER + size)
    requires rs[i].addr in mem
  {
    var newh := rs[i].addr + HEADER + size;
    if a == rs[i].addr then Header(HeapUsed, size, mem[a].prev)
    else if a == newh then Header(HeapFree, rs[i].size - size - HEADER, rs[i].addr)
    else if i + 1 < |rs| && a == rs[i + 1].addr then mem[a].(prev := newh)
    else mem[a]
  }

  lemma SplitMemIs(mem: Memory, rs: seq<Region>, i: nat, size: nat, lo: nat, hi: nat, a: nat)
    requires Tiled(rs, lo, hi) && Spelled(mem, rs)
    requires i < |rs| && rs[i].size >= size + HEADER && rs[i].size - size - HEADER >= MIN_REGION_SIZE
    requires a in mem || a == rs[i].addr + HEADER + size
    requires var h := rs[i].addr; h in mem && mem[h].size == rs[i].size && (Next(mem, h) < hi ==> Next(mem, h) in mem)
    ensures a in AllocMem(mem, rs[i].addr, size, hi)
    ensures AllocMem(mem, rs[i].addr, size, hi)[a] == SplitHeader(mem, rs, i, size, a)
  {
    HeaderAt(mem, rs, lo, hi, i);
    if i + 1 < |rs| {
      HeaderAt(mem, rs, lo, hi, i + 1);
      TiledBounds(rs, lo, hi, i + 1, |rs| - 1);
    }
  }

  lemma MarkHeaderOk(mem: Memory, rs: seq<Region>, i: nat, used: bool, lo: nat, hi: nat, k: nat)
    requires Tiled(rs, lo, hi) && Spelled(mem, rs) && i < |rs| && k < |rs|
    requires rs[i].addr in mem
    ensures HeaderOk(mem[rs[i].addr := mem[rs[i].addr].(magic := if used then HeapUsed else HeapFree)],
                     rs[i := rs[i].(used := used)], k)
  {
    HeaderAt(mem, rs, lo, hi, i);
    HeaderAt(mem, rs, lo, hi, k);
    Distinct(rs, lo, hi, i, k);
  }

  /** Marking a region changes its magic and nothing else. */
  lemma MarkSpelled(mem: Memory, rs: seq<Region>, i: nat, used: bool, lo: nat, hi: nat)
    requires Tiled(rs, lo, hi) && Spelled(mem, rs) && i < |rs|
    ensures rs[i].addr in mem
    ensures Spelled(mem[rs[i].addr := mem[rs[i].addr].(magic := if used then HeapUsed else HeapFree)],
                    rs[i := rs[i].(used := used)])
  {
    HeaderAt(mem, rs, lo, hi, i);
    hide Tiled, Spelled, HeaderOk, HeaderOf;
    var m, t := mem[rs[i].addr := mem[rs[i].addr].(magic := if used then HeapUsed else HeapFree)], rs[i := rs[i].(used := used)];
    forall k: nat | k < |t| ensures HeaderOk(m, t, k) {
      MarkHeaderOk(mem, rs, i, used, lo, hi, k);
    }
    forall a | a in m && m[a].magic == HeapUsed ensures IsRegion(t, a) {
      if a == rs[i].addr {
        assert t[i].addr == a;
      } else {
        var o := UsedRegion(mem, rs, a);
        assert t[o].addr == a;
      }
    }
    SpelledFrom(m, t);
  }

  lemma AllocSpelled(mem: Memory, rs: seq<Region>, i: nat, size: nat, lo: nat, hi: nat)
    requires Tiled(rs, lo, hi) && Spelled(mem, rs) && i < |rs| && rs[i].size >= size + HEADER
    ensures var h := rs[i].addr;
      && h in mem && mem[h].size == rs[i].size
      && (Next(mem, h) < hi ==> Next(mem, h) in mem)
      && Spelled(AllocMem(mem, h, size, hi), AllocAt(rs, i, size))
  {
    HeaderAt(mem, rs, lo, hi, i);
    if i + 1 < |rs| {
      HeaderAt(mem, rs, lo, hi, i + 1);
    }
    if rs[i].size - size - HEADER < MIN_REGION_SIZE {
      MarkSpelled(mem, rs, i, true, lo, hi);
      return;
    }
    var m, t := AllocMem(mem, rs[i].addr, size, hi), AllocAt(rs, i, size);
    AllocIs(rs, i, size, i);
    forall k: nat | k < |t| ensures HeaderOk(m, t, k) {
      SplitHeaderOk(mem, rs, i, size, lo, hi, k);
    }
    forall a | a in m && m[a].magic == HeapUsed ensures IsRegion(t, a) {
      if a == rs[i].addr {
        assert t[i].addr == a;
      } else {
        var o := UsedRegion(mem, rs, a);
        AllocIs(rs, i, size, if o < i then o else o + 1);
        assert t[if o < i then o else o + 1].addr == a;
      }
    }
    SpelledFrom(m, t);
  }
}
