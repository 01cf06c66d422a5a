/** heap_alloc and heap_free on the memory that holds the headers. */
module HeapObject {
  import opened Heaps

  function Wrap32(x: int): nat {
    x % U32
  }

  lemma Wrap32Small(x: int)
    requires 0 <= x < U32
    ensures Wrap32(x) == x
  {
  }

  /** The page count heap_contract settles on for a heap of `total` bytes. */
  function ContractPages(total: nat, minSize: nat, wanted: nat): nat {
    if total - wanted * PAGE < minSize then (if total < minSize then 0 else (total - minSize) / PAGE) else wanted
  }

  class Heap {
    const start: nat
    const minSize: nat
    const end: nat
    var mem: Memory
    ghost var regions: seq<Region>

    /** A heap at its minimum size, tiled by `regions`, with every header in place. */
    ghost predicate Valid()
      reads this
    {
      && end == start + minSize < U32
      && Good(regions, start + HEAP_T, end)
      && Spelled(mem, regions)
    }

    /** heap_new */
    constructor (start: nat, size: nat)
      requires HEAP_T + HEADER <= size && start + size < U32
      ensures Valid() && this.start == start && end == start + size
      ensures regions == [Region(start + HEAP_T, size - HEAP_T - HEADER, false)]
    {
      this.start, minSize, end := start, size, start + size;
      var first := start + HEAP_T;
      mem := map[first := Header(HeapFree, size - HEAP_T - HEADER, 0)];
      regions := [Region(first, size - HEAP_T - HEADER, false)];
      new;
      assert HeaderOk(mem, regions, 0);
    }

    /** First fit: a block is returned exactly when some free region holds size + header,
        as 32 bits count it, and it is the block of the first such region (otherwise `r`
        is 0: the heap cannot grow).  For the twelve sizes where size + header overflows
        that block is not inside the heap; for all others this is `AllocAt`. */
    method Alloc(size: nat) returns (r: nat)
      requires Valid() && size < U32
      modifies this
      ensures size + HEADER < U32 ==> Valid()
      ensures var i := FirstFit(old(regions), Wrap32(size + HEADER));
        if i == |old(regions)| then r == 0 && regions == old(regions) && mem == old(mem)
        else r == old(regions)[i].addr + HEADER && (size + HEADER < U32 ==> regions == AllocAt(old(regions), i, size))
      ensures size + HEADER < U32 ==> Wrap32(size + HEADER) == size + HEADER
      ensures r != 0 ==> (r + size <= end <==> size + HEADER < U32)
    {
      hide Wrap32, Spelled, AllocAt, Good;
      var regSize := Wrap32(size + HEADER);
      var h, i := Search(regSize);
      FirstFitIs(regions, regSize, i);
      if size + HEADER < U32 {
        Wrap32Small(size + HEADER);
      }
      if h >= end {
        return 0;
      }
      ghost var lo := start + HEAP_T;
      GoodTiled(regions, lo, end);
      HeaderAt(mem, regions, lo, end, i);
      if i + 1 < |regions| {
        HeaderAt(mem, regions, lo, end, i + 1);
      }
      if size + HEADER < U32 {
        AllocFits(regions, i, size, lo, end);
        AllocSpelled(mem, regions, i, size, lo, end);
        AllocKeepsGood(regions, i, size, lo, end);
        hide AllocMem;
        Carve(h, size);
        regions := AllocAt(regions, i, size);
      } else {
        Carve(h, size);
      }
      r := h + HEADER;
    }

    /** Splits the header at h if enough is left over, and marks it used. */
    method Carve(h: nat, size: nat)
      requires h in mem && (Next(mem, h) < end ==> Next(mem, h) in mem)
      modifies `mem
      ensures size + HEADER <= old(mem)[h].size && Next(old(mem), h) < U32 ==> mem == AllocMem(old(mem), h, size, end)
    {
      if size + HEADER <= mem[h].size && Next(mem, h) < U32 {
        Wrap32Small(mem[h].size - size - HEADER);
        Wrap32Small(h + HEADER + size);
      }
      hide Wrap32;
      var spare := Wrap32(mem[h].size - size - HEADER);
      var prev, n := mem[h].prev, Next(mem, h);
      if spare >= MIN_REGION_SIZE {
        var newh := Wrap32(h + HEADER + size);
        mem := mem[newh := Header(HeapFree, spare, h)];
        if n < end {
          mem := mem[n := mem[n].(prev := newh)];
        }
        mem := mem[h := Header(HeapUsed, size, prev)];
      } else {
        mem := mem[h := mem[h].(magic := HeapUsed)];
      }
    }

    /** The walking loop: the first header that is free and big enough, or the end. */
    method Search(need: nat) returns (h: nat, ghost i: nat)
      requires Valid()
      ensures i <= |regions| && h == (if i < |regions| then regions[i].addr else end)
      ensures h >= end <==> i == |regions|
      ensures i < |regions| ==> Fits(regions[i], need) && h >= HEAP_T && h + HEADER <= end
      ensures forall j :: 0 <= j < i ==> !Fits(regions[j], need)
    {
      hide Spelled, Coalesced;
      ghost var lo := start + HEAP_T;
      h, i := start + HEAP_T, 0;
      Addresses(regions, lo, end);
      while h < end
        invariant i <= |regions| && h == (if i < |regions| then regions[i].addr else end)
        invariant forall j :: 0 <= j < i ==> !Fits(regions[j], need)
        decreases |regions| - i
      {
        HeaderAt(mem, regions, lo, end, i);
        if mem[h].magic == HeapFree && mem[h].size >= need {
          return;
        }
        h := Next(mem, h);
        i := i + 1;
      }
    }

    /** Frees the block at `addr` and merges it with free neighbours.  An address that is
        not a live block is ignored. */
    method Free(addr: nat)
      requires Valid()
      modifies this
      ensures Valid()
      ensures forall i: nat :: i < |old(regions)| && old(regions)[i].used && addr == old(regions)[i].addr + HEADER ==>
                regions == FreeAt(old(regions), i)
      ensures (forall i: nat :: i < |old(regions)| && old(regions)[i].used ==> addr != old(regions)[i].addr + HEADER) ==>
                regions == old(regions) && mem == old(mem)
    {
      hide Spelled, Good, Tiled, Joined;
      ghost var lo := start + HEAP_T;
      ghost var before := regions;
      GoodTiled(regions, lo, end);
      if addr < HEADER || addr - HEADER !in mem || mem[addr - HEADER].magic != HeapUsed {
        forall i: nat | i < |regions| && regions[i].used ensures addr != regions[i].addr + HEADER {
          HeaderAt(mem, regions, lo, end, i);
        }
        return;
      }
      var h := addr - HEADER;
      ghost var i := UsedRegion(mem, regions, h);
      HeaderAt(mem, regions, lo, end, i);
      FreeKeepsGood(regions, i, lo, end);
      OnlyIndex(regions, lo, end, i);
      var prevh := mem[h].prev;
      var nexth := Next(mem, h);
      MarkSpelled(mem, regions, i, false, lo, end);
      MarkTiled(regions, i, lo, end);
      mem := mem[h := mem[h].(magic := HeapFree)];
      regions := regions[i := regions[i].(used := false)];
      MergeNext(h, nexth, i);
      MergePrev(h, prevh, i);
      assert regions == FreeAt(before, i);
      NothingToContract(end - start, minSize, (end - start) * 2 / 5 / PAGE);
    }

    method MergeNext(h: nat, nexth: nat, ghost i: nat)
      requires Tiled(regions, start + HEAP_T, end) && Spelled(mem, regions)
      requires i < |regions| && h == regions[i].addr && !regions[i].used
      requires nexth == (if i + 1 < |regions| then regions[i + 1].addr else end)
      modifies this
      ensures Tiled(regions, start + HEAP_T, end) && Spelled(mem, regions)
      ensures regions == JoinedNext(old(regions), i)
      ensures i < |regions| && h == regions[i].addr && !regions[i].used
      ensures i > 0 ==> regions[i - 1] == old(regions)[i - 1]
    {
      ghost var lo := start + HEAP_T;
      Addresses(regions, lo, end);
      if i + 1 < |regions| {
        HeaderAt(mem, regions, lo, end, i + 1);
      }
      hide Spelled, Tiled;
      if nexth < end && mem[nexth].magic == HeapFree {
        JoinSpelled(mem, regions, i, lo, end);
        JoinKeepsTiled(regions, i, lo, end);
        JoinedEntries(regions, i);
        HeaderAt(mem, regions, lo, end, i);
        mem := JoinMem(mem, h, end);
        regions := Joined(regions, i);
      }
    }

    method MergePrev(h: nat, prevh: nat, ghost i: nat)
      requires Tiled(regions, start + HEAP_T, end) && Spelled(mem, regions)
      requires i < |regions| && h == regions[i].addr && !regions[i].used
      requires prevh == (if i == 0 then 0 else regions[i - 1].addr)
      modifies this
      ensures Tiled(regions, start + HEAP_T, end) && Spelled(mem, regions)
      ensures regions == JoinedPrev(old(regions), i)
    {
      ghost var lo := start + HEAP_T;
      Addresses(regions, lo, end);
      if i > 0 {
        HeaderAt(mem, regions, lo, end, i - 1);
      }
      hide Spelled, Tiled;
      if prevh != 0 && mem[prevh].magic == HeapFree {
        JoinSpelled(mem, regions, i - 1, lo, end);
        JoinKeepsTiled(regions, i - 1, lo, end);
        HeaderAt(mem, regions, lo, end, i);
        mem := JoinMem(mem, prevh, end);
        regions := Joined(regions, i - 1);
      }
    }
  }

  /** A request for 2^32 - 1 bytes is granted by any new heap with room for 11. */
  method OversizedBlock(start: nat, size: nat) returns (r: nat)
    requires HEAP_T + HEADER + 11 <= size && start + size < U32
    ensures r != 0 && r + (U32 - 1) > start + size
  {
    hide Spelled, Good;
    var heap := new Heap(start, size);
    r := heap.Alloc(U32 - 1);
    assert Wrap32(U32 - 1 + HEADER) == 11;
  }

  lemma {:induction false} FirstFitIs(rs: seq<Region>, need: nat, i: nat)
    requires i <= |rs| && (i < |rs| ==> Fits(rs[i], need))
    requires forall j :: 0 <= j < i ==> !Fits(rs[j], need)
    ensures FirstFit(rs, need) == i
  {
  }

  lemma AllocFits(rs: seq<Region>, i: nat, size: nat, lo: nat, hi: nat)
    requires Tiled(rs, lo, hi) && i < |rs| && rs[i].size >= size + HEADER
    ensures rs[i].addr + HEADER + size <= End(rs[i]) <= hi
  {
    TiledBounds(rs, lo, hi, i, |rs| - 1);
  }

  lemma OnlyIndex(rs: seq<Region>, lo: nat, hi: nat, i: nat)
    requires Tiled(rs, lo, hi) && i < |rs|
    ensures forall k: nat :: k < |rs| && rs[k].addr == rs[i].addr ==> k == i
  {
    forall k: nat | k < |rs| && rs[k].addr == rs[i].addr ensures k == i {
      Distinct(rs, lo, hi, k, i);
    }
  }

  lemma MarkTiled(rs: seq<Region>, i: nat, lo: nat, hi: nat)
    requires Tiled(rs, lo, hi) && i < |rs|
    ensures Tiled(rs[i := rs[i].(used := false)], lo, hi)
  {
  }

  /** At its minimum size a heap gives no page back: the contraction that heap_free may
      request (line 258) always comes down to zero pages. */
  lemma NothingToContract(total: nat, minSize: nat, wanted: nat)
    requires total == minSize
    ensures wanted > 0 ==> ContractPages(total, minSize, wanted) == 0
  {
  }
}
