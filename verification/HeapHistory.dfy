/** Laws of the heap over every history of allocations and frees. */
module HeapHistory {
  import opened Heaps

  /** Sizes for which size + header does not overflow; Heap.Alloc says what the others do. */
  type Size = n: nat | n + HEADER < U32

  datatype Call = Alloc(size: Size) | Free(addr: nat)

  /** The tiling, and what the callers hold: each live block with the size asked for. */
  datatype State = State(rs: seq<Region>, live: map<nat, nat>)

  /** The index of the region whose block starts at `addr`, or |rs|. */
  function IndexOf(rs: seq<Region>, addr: nat): (i: nat)
    ensures i <= |rs|
    ensures i < |rs| ==> rs[i].used && rs[i].addr + HEADER == addr
    ensures i == |rs| ==> forall k :: 0 <= k < |rs| && rs[k].used ==> rs[k].addr + HEADER != addr
  {
    if rs == [] then 0
    else if rs[0].used && rs[0].addr + HEADER == addr then 0
    else 1 + IndexOf(rs[1..], addr)
  }

  function Do(s: State, c: Call): State {
    match c
    case Alloc(size) =>
      var i := FirstFit(s.rs, size + HEADER);
      if i == |s.rs| then s
      else State(AllocAt(s.rs, i, size), s.live[s.rs[i].addr + HEADER := size])
    case Free(addr) =>
      var i := IndexOf(s.rs, addr);
      if i == |s.rs| then s else State(FreeAt(s.rs, i), s.live - {addr})
  }

  function Run(s: State, calls: seq<Call>): State {
    if calls == [] then s else Do(Run(s, calls[..|calls| - 1]), calls[|calls| - 1])
  }

  function Fresh(lo: nat, hi: nat): State
    requires lo + HEADER <= hi
  {
    State([Region(lo, hi - lo - HEADER, false)], map[])
  }

  /** A block of the size asked for, or with less left over than a region needs. */
  predicate Snug(r: Region, size: nat) {
    size <= r.size < size + HEADER + MIN_REGION_SIZE
  }

  /** The live blocks are exactly the used regions, each big enough and none wasteful. */
  ghost predicate Matches(s: State) {
    && (forall r :: r in s.rs && r.used ==> r.addr + HEADER in s.live && Snug(r, s.live[r.addr + HEADER]))
    && (forall a :: a in s.live ==> IndexOf(s.rs, a) < |s.rs|)
  }

  ghost predicate Inv(s: State, lo: nat, hi: nat) {
    Good(s.rs, lo, hi) && Matches(s)
  }

  /** Allocation adds one used region and touches no other. */
  lemma AllocUsed(rs: seq<Region>, i: nat, size: nat, r: Region)
    requires i < |rs| && rs[i].size >= size + HEADER && !rs[i].used && r.used
    ensures r in AllocAt(rs, i, size) <==> r in rs || r == AllocAt(rs, i, size)[i]
  {
  }

  lemma JoinUsed(rs: seq<Region>, i: nat, r: Region)
    requires i + 1 < |rs| && !rs[i].used && !rs[i + 1].used && r.used
    ensures r in Joined(rs, i) <==> r in rs
  {
  }

  /** Freeing removes one used region and touches no other, whatever is merged. */
  lemma FreeUsed(rs: seq<Region>, i: nat, r: Region, lo: nat, hi: nat)
    requires Tiled(rs, lo, hi) && i < |rs| && rs[i].used && r.used
    ensures r in FreeAt(rs, i) <==> r in rs && r != rs[i]
  {
    var a := rs[i := rs[i].(used := false)];
    assert r in a <==> r in rs && r != rs[i] by {
      if r in rs && r != rs[i] {
        var k :| 0 <= k < |rs| && rs[k] == r;
        assert a[k] == r;
      }
      if r in a {
        var k :| 0 <= k < |a| && a[k] == r;
        assert rs[k] == r;
        Distinct(rs, lo, hi, i, k);
      }
    }
    if i + 1 < |a| && !a[i + 1].used {
      JoinUsed(a, i, r);
      JoinedEntries(a, i);
    }
    var b := JoinedNext(a, i);
    if i > 0 && !b[i - 1].used {
      JoinUsed(b, i - 1, r);
    }
  }

  lemma Found(rs: seq<Region>, r: Region)
    requires r in rs && r.used
    ensures IndexOf(rs, r.addr + HEADER) < |rs|
  {
  }

  lemma LiveBlock(s: State, a: nat) returns (r: Region)
    requires Matches(s) && a in s.live
    ensures r in s.rs && r.used && r.addr + HEADER == a
  {
    r := s.rs[IndexOf(s.rs, a)];
  }

  lemma UsedBlock(s: State, r: Region)
    requires Matches(s) && r in s.rs && r.used
    ensures r.addr + HEADER in s.live && Snug(r, s.live[r.addr + HEADER])
  {
    hide IndexOf;
  }

  /** The used regions of t are those of s and b, which starts where none of them does. */
  ghost predicate Gained(s: State, t: State, b: Region) {
    && (forall r: Region :: r.used ==> (r in t.rs <==> r in s.rs || r == b))
    && (forall r :: r in s.rs && r.used ==> r.addr != b.addr)
  }

  lemma AddBlock(s: State, t: State, b: Region, size: nat)
    requires Matches(s) && b.used && Snug(b, size) && t.live == s.live[b.addr + HEADER := size] && Gained(s, t, b)
    ensures Matches(t)
  {
    hide IndexOf, Gained, Matches;
    forall a | a in t.live ensures IndexOf(t.rs, a) < |t.rs| {
      AddLive(s, t, b, size, a);
    }
    forall r | r in t.rs && r.used ensures r.addr + HEADER in t.live && Snug(r, t.live[r.addr + HEADER]) {
      AddUsed(s, t, b, size, r);
    }
    MatchesIf(t);
  }

  lemma AddLive(s: State, t: State, b: Region, size: nat, a: nat)
    requires Matches(s) && b.used && t.live == s.live[b.addr + HEADER := size] && Gained(s, t, b) && a in t.live
    ensures IndexOf(t.rs, a) < |t.rs|
  {
    hide IndexOf, Matches;
    if a == b.addr + HEADER {
      Found(t.rs, b);
    } else {
      var r := LiveBlock(s, a);
      Found(t.rs, r);
    }
  }

  lemma AddUsed(s: State, t: State, b: Region, size: nat, r: Region)
    requires Matches(s) && Snug(b, size) && t.live == s.live[b.addr + HEADER := size] && Gained(s, t, b)
    requires r in t.rs && r.used
    ensures r.addr + HEADER in t.live && Snug(r, t.live[r.addr + HEADER])
  {
    hide IndexOf, Matches;
    if r != b {
      UsedBlock(s, r);
    }
  }

  /** The used regions of t are those of s without b, and none of them starts where b does. */
  ghost predicate Dropped(s: State, t: State, b: Region) {
    && (forall r: Region :: r.used ==> (r in t.rs <==> r in s.rs && r != b))
    && (forall r :: r in s.rs && r.used && r != b ==> r.addr != b.addr)
  }

  lemma DropBlock(s: State, t: State, b: Region)
    requires Matches(s) && t.live == s.live - {b.addr + HEADER} && Dropped(s, t, b)
    ensures Matches(t)
  {
    hide IndexOf, Dropped, Matches;
    forall a | a in t.live ensures IndexOf(t.rs, a) < |t.rs| {
      DropLive(s, t, b, a);
    }
    forall r | r in t.rs && r.used ensures r.addr + HEADER in t.live && Snug(r, t.live[r.addr + HEADER]) {
      DropUsed(s, t, b, r);
    }
    MatchesIf(t);
  }

  lemma DropLive(s: State, t: State, b: Region, a: nat)
    requires Matches(s) && t.live == s.live - {b.addr + HEADER} && Dropped(s, t, b) && a in t.live
    ensures IndexOf(t.rs, a) < |t.rs|
  {
    hide IndexOf, Matches;
    var r := LiveBlock(s, a);
    Found(t.rs, r);
  }

  lemma DropUsed(s: State, t: State, b: Region, r: Region)
    requires Matches(s) && t.live == s.live - {b.addr + HEADER} && Dropped(s, t, b) && r in t.rs && r.used
    ensures r.addr + HEADER in t.live && Snug(r, t.live[r.addr + HEADER])
  {
    hide IndexOf, Matches;
    UsedBlock(s, r);
  }

  lemma MatchesIf(t: State)
    requires forall a :: a in t.live ==> IndexOf(t.rs, a) < |t.rs|
    requires forall r :: r in t.rs && r.used ==> r.addr + HEADER in t.live && Snug(r, t.live[r.addr + HEADER])
    ensures Matches(t)
  {
    hide IndexOf;
  }

  lemma OtherAddresses(rs: seq<Region>, lo: nat, hi: nat, i: nat)
    requires Tiled(rs, lo, hi) && i < |rs|
    ensures forall r :: r in rs && r != rs[i] ==> r.addr != rs[i].addr
  {
    forall r | r in rs && r != rs[i] ensures r.addr != rs[i].addr {
      var k :| 0 <= k < |rs| && rs[k] == r;
      Distinct(rs, lo, hi, i, k);
    }
  }

  lemma AllocMatches(s: State, size: Size, lo: nat, hi: nat)
    requires Inv(s, lo, hi)
    ensures Inv(Do(s, Alloc(size)), lo, hi)
  {
    hide Good, AllocAt, Matches, FirstFit, IndexOf;
    var i := FirstFit(s.rs, size + HEADER);
    if i == |s.rs| {
      return;
    }
    GoodTiled(s.rs, lo, hi);
    OtherAddresses(s.rs, lo, hi, i);
    AllocKeepsGood(s.rs, i, size, lo, hi);
    var t, b := Do(s, Alloc(size)), AllocAt(s.rs, i, size)[i];
    forall r: Region | r.used ensures r in t.rs <==> r in s.rs || r == b {
      AllocUsed(s.rs, i, size, r);
    }
    forall r | r in s.rs && r.used ensures r.addr != b.addr {
      assert r != s.rs[i];
    }
    assert Gained(s, t, b);
    AddBlock(s, t, b, size);
  }

  lemma FreeMatches(s: State, addr: nat, lo: nat, hi: nat)
    requires Inv(s, lo, hi)
    ensures Inv(Do(s, Free(addr)), lo, hi)
  {
    hide Good, FreeAt, Matches, IndexOf, Tiled;
    var i := IndexOf(s.rs, addr);
    if i == |s.rs| {
      return;
    }
    GoodTiled(s.rs, lo, hi);
    OtherAddresses(s.rs, lo, hi, i);
    FreeKeepsGood(s.rs, i, lo, hi);
    var t := Do(s, Free(addr));
    forall r: Region | r.used ensures r in t.rs <==> r in s.rs && r != s.rs[i] {
      FreeUsed(s.rs, i, r, lo, hi);
    }
    assert Dropped(s, t, s.rs[i]);
    DropBlock(s, t, s.rs[i]);
  }

  lemma {:induction false} RunKeeps(s: State, calls: seq<Call>, lo: nat, hi: nat)
    requires Inv(s, lo, hi)
    ensures Inv(Run(s, calls), lo, hi)
  {
    hide Good, Matches, Do;
    if calls != [] {
      var t, c := Run(s, calls[..|calls| - 1]), calls[|calls| - 1];
      RunKeeps(s, calls[..|calls| - 1], lo, hi);
      match c
      case Alloc(size) => AllocMatches(t, size, lo, hi);
      case Free(addr) => FreeMatches(t, addr, lo, hi);
    }
  }

  /** Two live blocks never overlap, and both lie inside the heap. */
  lemma LiveBlocksDisjoint(s: State, lo: nat, hi: nat, a: nat, b: nat)
    requires Inv(s, lo, hi) && a in s.live && b in s.live && a < b
    ensures lo <= a && a + s.live[a] <= b && b + s.live[b] <= hi
  {
    hide Tiled, Matches, Coalesced, IndexOf;
    var i := LiveRegion(s, a);
    var j := LiveRegion(s, b);
    TiledStart(s.rs, lo, hi, i);
    TiledStart(s.rs, lo, hi, j);
    if j <= i {
      TiledBounds(s.rs, lo, hi, j, i);
    } else {
      TiledBounds(s.rs, lo, hi, i, j);
    }
  }

  lemma LiveRegion(s: State, a: nat) returns (i: nat)
    requires Matches(s) && a in s.live
    ensures i < |s.rs| && s.rs[i].used && s.rs[i].addr + HEADER == a && Snug(s.rs[i], s.live[a])
  {
    i := IndexOf(s.rs, a);
    assert s.rs[i] in s.rs;
  }

  lemma TiledStart(rs: seq<Region>, lo: nat, hi: nat, i: nat)
    requires Tiled(rs, lo, hi) && i < |rs|
    ensures lo <= rs[i].addr && End(rs[i]) <= hi
  {
    TiledBounds(rs, lo, hi, 0, i);
    TiledBounds(rs, lo, hi, i, |rs| - 1);
  }

  lemma NobodyLive(s: State)
    requires Matches(s) && s.live == map[]
    ensures forall i :: 0 <= i < |s.rs| ==> !s.rs[i].used
  {
  }

  /** The heap theorem.  After any history of allocations and frees, of any such sizes and
      any addresses: the regions tile the heap with no two free neighbours, the live blocks
      are the used regions, big enough and with less than 16 bytes to spare, and once everything has been freed the heap
      is the single region it started as. */
  lemma EveryHistory(lo: nat, hi: nat, calls: seq<Call>)
    requires lo + HEADER <= hi
    ensures var t := Run(Fresh(lo, hi), calls);
      && Inv(t, lo, hi)
      && (t.live == map[] ==> t == Fresh(lo, hi))
  {
    hide Matches, Run, Good;
    FreshInv(lo, hi);
    RunKeeps(Fresh(lo, hi), calls, lo, hi);
    var t := Run(Fresh(lo, hi), calls);
    if t.live == map[] {
      NobodyLive(t);
      AllFreeIsInitial(t.rs, lo, hi);
      assert t.rs == [t.rs[0]];
    }
  }

  lemma FreshInv(lo: nat, hi: nat)
    requires lo + HEADER <= hi
    ensures Inv(Fresh(lo, hi), lo, hi)
  {
  }
}
