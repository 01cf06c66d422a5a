/** The directory code itself: nested scans over the blocks of the chain, in place. */
module RamDirObject {
  import opened Common
  import opened RamDirs

  datatype Error = Ok | Existed | NoSpace | NotFound

  /** Blocks of 128 slots, concatenated. */
  function Flat(blocks: seq<seq<Slot>>): (r: seq<Slot>)
    requires forall b :: 0 <= b < |blocks| ==> |blocks[b]| == SLOTS
    ensures |r| == SLOTS * |blocks|
  {
    if blocks == [] then [] else Flat(blocks[..|blocks| - 1]) + blocks[|blocks| - 1]
  }

  lemma {:induction false} FlatAt(blocks: seq<seq<Slot>>, b: nat, e: nat)
    requires forall i :: 0 <= i < |blocks| ==> |blocks[i]| == SLOTS
    requires b < |blocks| && e < SLOTS
    ensures Flat(blocks)[SLOTS * b + e] == blocks[b][e]
  {
    if b < |blocks| - 1 {
      FlatAt(blocks[..|blocks| - 1], b, e);
    }
  }

  lemma {:induction false} FlatPrefix(blocks: seq<seq<Slot>>, n: nat)
    requires forall i :: 0 <= i < |blocks| ==> |blocks[i]| == SLOTS
    requires n <= |blocks|
    ensures Flat(blocks[..n]) == Flat(blocks)[..SLOTS * n]
  {
    if n < |blocks| {
      var front := blocks[..|blocks| - 1];
      FlatPrefix(front, n);
      assert front[..n] == blocks[..n];
    } else {
      assert blocks[..n] == blocks;
    }
  }

  lemma {:induction false} FlatUpdate(blocks: seq<seq<Slot>>, b: nat, e: nat, s: Slot)
    requires forall i :: 0 <= i < |blocks| ==> |blocks[i]| == SLOTS
    requires b < |blocks| && e < SLOTS
    ensures Flat(blocks[b := blocks[b][e := s]]) == Flat(blocks)[SLOTS * b + e := s]
  {
    var n := |blocks| - 1;
    var t := blocks[b := blocks[b][e := s]];
    if b < n {
      FlatUpdate(blocks[..n], b, e, s);
      assert t[..n] == blocks[..n][b := blocks[b][e := s]];
    } else {
      assert t[..n] == blocks[..n];
    }
  }

  /** Adding takes the very last slot of the chain. */
  predicate NeedsBlock(body: seq<Slot>) {
    FirstHole(body) == |body| && |body| % SLOTS == SLOTS - 1
  }

  class Directory {
    var blocks: seq<seq<Slot>>
    ghost var body: seq<Slot>

    /** The chain is the canonical layout of `body`. */
    ghost predicate Shape()
      reads this
    {
      && (forall b :: 0 <= b < |blocks| ==> |blocks[b]| == SLOTS)
      && NoEnd(body)
      && Flat(blocks) == Canon(body)
    }

    ghost predicate Valid()
      reads this
    {
      Shape() && IsBody(body) && UniqueIds(body)
    }

    constructor ()
      ensures Valid() && body == []
    {
      blocks := [Ends(SLOTS)];
      body := [];
      new;
      FlatPrefix(blocks, 1);
      assert blocks[..0] == [];
    }

    /** Reading a slot of the chain. */
    lemma SlotAt(b: nat, e: nat)
      requires Shape() && b < |blocks| && e < SLOTS
      ensures blocks[b][e] == if SLOTS * b + e < |body| then body[SLOTS * b + e] else End
      ensures |blocks| == |body| / SLOTS + 1
      ensures SLOTS * b + e >= |body| ==> b == |blocks| - 1
    {
      FlatAt(blocks, b, e);
    }

    /** Lines 434-460: the duplicate check and the first free slot, in one pass. */
    method Scan(name: string) returns (dup: bool, b: nat, e: nat)
      requires Shape()
      ensures dup <==> Named(body, name)
      ensures !dup ==> b < |blocks| && e < SLOTS && SLOTS * b + e == FirstHole(body)
    {
      hide Flat;
      var found := false;
      b, e := 0, 0;
      var cur: nat := 0;
      BlockCount();
      while cur < |blocks|
        invariant cur <= |blocks|
        invariant ScanInv(name, SLOTS * cur, found, b, e)
      {
        var id: nat := 0;
        while id < SLOTS
          invariant id <= SLOTS
          invariant ScanInv(name, SLOTS * cur + id, found, b, e)
        {
          SlotAt(cur, id);
          var slot := blocks[cur][id];
          if slot == End || slot == Empty {
            if !found {
              found, b, e := true, cur, id;
            }
            if slot == End {
              break;
            }
          } else if slot.node.name == name {
            return true, b, e;
          }
          id := id + 1;
        }
        cur := cur + 1;
      }
      dup := false;
    }

    /** No slot before p has the name; the first free slot before p, if any, is known. */
    ghost predicate ScanInv(name: string, p: nat, found: bool, b: nat, e: nat)
      reads this
      requires Shape()
    {
      && (forall k :: 0 <= k < |body| && k < p && body[k].Entry? ==> body[k].node.name != name)
      && (found ==> b < |blocks| && e < SLOTS && SLOTS * b + e == FirstHole(body))
      && (!found ==> p <= FirstHole(body))
    }

    lemma BlockCount()
      requires Shape()
      ensures |blocks| == |body| / SLOTS + 1 && |body| < SLOTS * |blocks| && SLOTS * (|blocks| - 1) <= |body|
    {
    }

    /** `nodeOk`, `blockOk`: whether the two allocations would succeed. */
    method Add(name: string, id: nat, nodeOk: bool, blockOk: bool) returns (err: Error)
      requires Valid()
      requires forall k :: 0 <= k < |body| && body[k].Entry? ==> body[k].node.id != id
      modifies this
      ensures Valid()
      ensures err == Existed <==> old(Named(body, name))
      ensures err == NoSpace <==> (!old(Named(body, name)) && (!nodeOk || (!blockOk && old(NeedsBlock(body)))))
      ensures err in {Ok, Existed, NoSpace}
      ensures err == Ok ==> body == Added(old(body), Node(id, Trunc(name)))
      ensures err != Ok ==> body == old(body) && blocks == old(blocks)
    {
      var dup, b, e := Scan(name);
      if dup {
        return Existed;
      }
      if !nodeOk {
        return NoSpace;
      }
      var node := Node(id, Trunc(name));
      BlockCount();
      SlotAt(b, e);
      if blocks[b][e] == End && e == SLOTS - 1 && !blockOk {
        return NoSpace;
      }
      hide Flat, Canon, Added, FirstHole;
      AddedIsInsert(body, node);
      AddedUniqueIds(body, node);
      Insert(b, e, node);
      err := Ok;
    }

    /** Writes the entry into the first free slot; the last slot gets a new block first. */
    method Insert(b: nat, e: nat, node: Node)
      requires Shape() && IsBody(Added(body, node))
      requires b < |blocks| && e < SLOTS && SLOTS * b + e == FirstHole(body)
      modifies this
      ensures Shape() && body == Added(old(body), node)
    {
      hide Flat, Canon, FirstHole, Added;
      SlotAt(b, e);
      assert (SLOTS * b + e) % SLOTS == e;
      assert blocks[b][e] == End <==> FirstHole(body) == |body|;
      CanonAdded(body, node);
      if blocks[b][e] == End {
        if e < SLOTS - 1 {
          SlotAt(b, e + 1);
          assert blocks[b][e + 1 := End] == blocks[b];
          assert blocks[b := blocks[b]] == blocks;
          blocks := blocks[b := blocks[b][e + 1 := End]];
        } else {
          FlatAppend(blocks, Ends(SLOTS));
          blocks := blocks + [Ends(SLOTS)];
        }
      }
      FlatUpdate(blocks, b, e, Entry(node));
      assert Flat(blocks)[SLOTS * b + e := Entry(node)] == Canon(Added(body, node));
      blocks := blocks[b := blocks[b][e := Entry(node)]];
      body := Added(body, node);
    }

    /** Lines 552-577: the slot that holds the node. */
    method Locate(id: nat) returns (found: bool, b: nat, e: nat)
      requires Shape()
      ensures found <==> Find(body, id) < |body|
      ensures found ==> b < |blocks| && e < SLOTS && SLOTS * b + e == Find(body, id)
    {
      hide Flat, Canon;
      BlockCount();
      b := 0;
      while b < |blocks|
        invariant b <= |blocks|
        invariant SLOTS * b <= Find(body, id) || (b == |blocks| && Find(body, id) == |body|)
      {
        e := 0;
        while e < SLOTS
          invariant e <= SLOTS
          invariant SLOTS * b + e <= Find(body, id)
        {
          SlotAt(b, e);
          var slot := blocks[b][e];
          if slot == End {
            break;
          }
          if slot != Empty && slot.node.id == id {
            FoundAt(body, id, SLOTS * b + e);
            return true, b, e;
          }
          e := e + 1;
        }
        b := b + 1;
      }
      return false, 0, 0;
    }

    /** Removes the entry of a node; a hole is left unless the end moves back over it. */
    method Remove(id: nat) returns (err: Error)
      requires Valid()
      modifies this
      ensures Valid()
      ensures err == NotFound <==> old(Find(body, id) == |body|)
      ensures err == NotFound ==> body == old(body) && blocks == old(blocks)
      ensures err != NotFound ==> err == Ok && body == Removed(old(body), Find(old(body), id))
    {
      hide Flat, Canon, Find, Strip, Removed, UniqueIds;
      var found, b, e := Locate(id);
      if !found {
        return NotFound;
      }
      RemovedIsDelete(body, SLOTS * b + e);
      Vacate(b, e);
      err := Ok;
    }

    /** Lines 588-602. */
    method Vacate(b: nat, e: nat)
      requires Shape() && IsBody(body)
      requires b < |blocks| && e < SLOTS && SLOTS * b + e < |body|
      modifies this
      ensures Shape() && body == Removed(old(body), SLOTS * b + e)
    {
      hide Flat, Canon, Strip;
      ghost var i, before := SLOTS * b + e, body;
      BlockCount();
      if e < SLOTS - 1 {
        SlotAt(b, e + 1);
        if blocks[b][e + 1] == End {
          // the last entry of the directory: the end marker moves onto it
          CanonShrinks(body);
          Write(b, e, End, body[..i]);
          StripCut(before);
          if e == 0 || blocks[b][e - 1] == Empty {
            FixEmptyEntries();
          } else {
            SlotAt(b, e - 1);
            StripDone(body);
          }
        } else {
          CanonUpdate(body, i, Empty);
          Write(b, e, Empty, body[i := Empty]);
          StripDone(body);
        }
      } else {
        CanonUpdate(body, i, Empty);
        Write(b, e, Empty, body[i := Empty]);
        FixEmptyEntries();
      }
    }

    method Write(b: nat, e: nat, s: Slot, ghost t: seq<Slot>)
      requires Shape() && b < |blocks| && e < SLOTS && NoEnd(t)
      requires Canon(t) == Canon(body)[SLOTS * b + e := s]
      modifies this
      ensures Shape() && body == t && blocks == old(blocks)[b := old(blocks)[b][e := s]]
    {
      hide Flat, Canon;
      FlatUpdate(blocks, b, e, s);
      blocks := blocks[b := blocks[b][e := s]];
      body := t;
    }

    /** ramfs_iterate_directory.  The iterator stands on slot `index` of block `b`; a fresh
        one has b = 0 and index = -1.  Yields the next live entry, or None at the end, and
        the state in which the iterator is left. */
    method Iterate(b: nat, index: int) returns (node: Option<Node>, b': nat, index': int)
      requires Valid() && b < |blocks| && -1 <= index < SLOTS
      ensures (node, b', index') == IterStep(body, b, index)
    {
      hide Flat, Canon, UniqueIds, NextLive, IterStep;
      BlockCount();
      ghost var p := SLOTS * b + index + 1;
      var block := b;
      node, b', index' := None, b, index + 1;
      if index' == SLOTS {
        block := block + 1;
        if block == |blocks| {
          IterPast(body, b, index);
          return;
        }
        index' := 0;
      }
      SlotAt(block, index');
      while blocks[block][index'] == Empty
        invariant block < |blocks| && 0 <= index' < SLOTS && p <= SLOTS * block + index'
        invariant SLOTS * block + index' <= Max(p, |body|)
        invariant forall k :: p <= k < SLOTS * block + index' ==> body[k] == Empty
        invariant blocks[block][index'] == if SLOTS * block + index' < |body| then body[SLOTS * block + index'] else End
        decreases |body| - (SLOTS * block + index')
      {
        index' := index' + 1;
        if index' == SLOTS {
          block := block + 1;
          if block == |blocks| {
            return;
          }
          index' := 0;
        }
        SlotAt(block, index');
      }
      SlotNumber(block, index');
      IterIs(body, b, index, SLOTS * block + index');
      if blocks[block][index'] == End {
        return;
      }
      b' := block;
      node := Some(blocks[block][index'].node);
    }

    /** Lines 529-550: whether a directory about to be removed is reported not empty. */
    method TestNotEmpty() returns (notEmpty: bool)
      requires Valid()
      ensures notEmpty <==> ReportsNotEmpty(body)
    {
      hide Flat, Canon, UniqueIds;
      BlockCount();
      var b: nat := 0;
      while b < |blocks|
        invariant b <= |blocks|
        invariant forall k :: 0 <= k < SLOTS * b && k < |body| ==> IsDot(body[k])
      {
        var e: nat := 0;
        while e < SLOTS
          invariant e <= SLOTS
          invariant forall k :: 0 <= k < SLOTS * b + e && k < |body| ==> IsDot(body[k])
        {
          SlotAt(b, e);
          if blocks[b][e] == End {
            break;
          }
          if !IsDot(blocks[b][e]) {
            assert !IsDot(body[SLOTS * b + e]);
            return true;
          }
          e := e + 1;
        }
        b := b + 1;
      }
      return false;
    }

    /** fix_empty_entries: the run of holes before the end becomes end markers, and the
        blocks after its first one are freed. */
    method FixEmptyEntries()
      requires Shape()
      modifies this
      ensures Shape() && body == Strip(old(body))
    {
      hide Flat, Canon, Strip;
      var has, sb, se := TrailingHoles();
      if !has {
        StripDone(body);
        return;
      }
      ghost var start := SLOTS * sb + se;
      ghost var before := body;
      FlatPrefix(blocks, sb + 1);
      CanonCut(before, start);
      ghost var cut := Canon(before)[..SLOTS * (sb + 1)];
      ghost var target := Canon(before[..start]);
      var i := se;
      assert blocks[..sb + 1][..sb] == blocks[..sb];
      var kept := blocks[..sb + 1];
      while i < SLOTS
        invariant se <= i <= SLOTS
        invariant |kept| == sb + 1 && forall k :: 0 <= k < |kept| ==> |kept[k]| == SLOTS
        invariant Flat(kept) == cut[..start] + Ends(i - se) + cut[SLOTS * sb + i..]
      {
        FlatUpdate(kept, sb, i, End);
        kept := kept[sb := kept[sb][i := End]];
        i := i + 1;
      }
      blocks := kept;
      body := before[..start];
    }

    /** The scanning loop of fix_empty_entries. */
    method TrailingHoles() returns (has: bool, sb: nat, se: nat)
      requires Shape()
      ensures has <==> body != [] && body[|body| - 1] == Empty
      ensures has ==> sb < |blocks| && se < SLOTS && SLOTS * sb + se == |Strip(body)|
    {
      hide Flat, Canon;
      BlockCount();
      has, sb, se := false, 0, 0;
      var b: nat := 0;
      while b < |blocks|
        invariant b <= |blocks|
        invariant b < |blocks| ==> HolesUpTo(body, SLOTS * b, has, SLOTS * sb + se) && SLOTS * b <= |body|
        invariant b == |blocks| ==> HolesUpTo(body, |body|, has, SLOTS * sb + se)
        invariant sb < |blocks| && se < SLOTS
      {
        var e: nat := 0;
        while e < SLOTS
          invariant e <= SLOTS && SLOTS * b + e <= |body|
          invariant HolesUpTo(body, SLOTS * b + e, has, SLOTS * sb + se)
          invariant sb < |blocks| && se < SLOTS
        {
          SlotAt(b, e);
          if blocks[b][e] == End {
            StripAt(body, has, SLOTS * sb + se);
            return;
          }
          if blocks[b][e] == Empty {
            if !has {
              has, sb, se := true, b, e;
            }
          } else {
            has := false;
          }
          e := e + 1;
        }
        b := b + 1;
      }
      StripAt(body, has, SLOTS * sb + se);
    }
  }

  /** Before slot p: if `has`, a run of holes from `start` reaches p; else none does. */
  ghost predicate HolesUpTo(body: seq<Slot>, p: nat, has: bool, start: nat) {
    && p <= |body|
    && (has ==> start < p && (forall k :: start <= k < p ==>
      body[k] == Empty) && (start > 0 ==> body[start - 1] != Empty))
    && (!has ==> (p > 0 ==> body[p - 1] != Empty))
  }

  lemma {:induction false} StripAt(body: seq<Slot>, has: bool, start: nat)
    requires HolesUpTo(body, |body|, has, start)
    ensures has <==> body != [] && body[|body| - 1] == Empty
    ensures has ==> |Strip(body)| == start
  {
  }

  lemma StripDone(body: seq<Slot>)
    requires body != [] ==> body[|body| - 1] != Empty
    ensures Strip(body) == body
  {
  }

  lemma StripCut(body: seq<Slot>)
    requires body != []
    ensures Strip(body[|body| - 1 := Empty]) == Strip(body[..|body| - 1])
  {
  }

  lemma {:induction false} FoundAt(body: seq<Slot>, id: nat, i: nat)
    requires i < |body| && body[i].Entry? && body[i].node.id == id && i <= Find(body, id)
    ensures Find(body, id) == i
  {
  }

  /** Dropping the last entry of a body puts one end marker more, in the same blocks,
      unless the entry was the last slot of a block. */
  lemma CanonShrinks(body: seq<Slot>)
    requires body != [] && |body| % SLOTS != 0
    ensures Canon(body[..|body| - 1]) == Canon(body)[|body| - 1 := End]
  {
  }

  /** Cutting at `start`: its block, with end markers from there on, and nothing after. */
  lemma CanonCut(body: seq<Slot>, start: nat)
    requires start < |body|
    ensures var n := SLOTS * (start / SLOTS + 1);
      n <= |Canon(body)| && Canon(body[..start]) == Canon(body)[..start] + Ends(n - start)
  {
  }

  lemma FlatAppend(blocks: seq<seq<Slot>>, last: seq<Slot>)
    requires (forall i :: 0 <= i < |blocks| ==> |blocks[i]| == SLOTS) && |last| == SLOTS
    ensures Flat(blocks + [last]) == Flat(blocks) + last
  {
  }

  /** The layout of a grown body: one slot changes, and a full last block gets a successor. */
  lemma CanonAdded(body: seq<Slot>, node: Node)
    ensures var h := FirstHole(body);
      Canon(Added(body, node)) ==
        if h == |body| && h % SLOTS == SLOTS - 1 then (Canon(body) + Ends(SLOTS))[h := Entry(node)]
        else Canon(body)[h := Entry(node)]
  {
    hide Canon;
    var h := FirstHole(body);
    if h == |body| {
      CanonGrows(body, Entry(node));
    } else {
      CanonUpdate(body, h, Entry(node));
    }
  }

  lemma CanonUpdate(body: seq<Slot>, h: nat, s: Slot)
    requires h < |body|
    ensures Canon(body[h := s]) == Canon(body)[h := s]
  {
  }

  lemma CanonGrows(body: seq<Slot>, s: Slot)
    ensures var h := |body|;
      Canon(body + [s]) ==
        if h % SLOTS == SLOTS - 1 then (Canon(body) + Ends(SLOTS))[h := s] else Canon(body)[h := s]
  {
  }

  function Max(a: int, b: int): int {
    if a < b then b else a
  }

  /** One call of the iterator: what it yields and where it is left.  At the end the slot
      number moves to the end marker and the block does not. */
  function IterStep(body: seq<Slot>, b: nat, index: int): (Option<Node>, nat, int)
    requires -1 <= index < SLOTS
  {
    var p := SLOTS * b + index + 1;
    var q := if p <= |body| then NextLive(body, p) else |body|;
    if q < |body| then (Some(body[q].node), q / SLOTS, q % SLOTS)
    else if p <= |body| then (None, b, |body| % SLOTS)
    else (None, b, index + 1)
  }

  lemma SlotNumber(b: nat, e: nat)
    requires e < SLOTS
    ensures (SLOTS * b + e) / SLOTS == b && (SLOTS * b + e) % SLOTS == e
  {
  }

  /** The scan stopped at slot r: past the holes, at an entry or at an end marker. */
  lemma IterIs(body: seq<Slot>, b: nat, index: int, r: nat)
    requires -1 <= index < SLOTS && SLOTS * b + index + 1 <= r <= Max(SLOTS * b + index + 1, |body|)
    requires forall k :: SLOTS * b + index + 1 <= k < r ==> body[k] == Empty
    requires r < |body| ==> body[r].Entry?
    ensures IterStep(body, b, index) ==
      if r < |body| then (Some(body[r].node), r / SLOTS, r % SLOTS)
      else if r == |body| then (None, b, |body| % SLOTS)
      else (None, b, index + 1)
  {
    hide NextLive;
    var p := SLOTS * b + index + 1;
    if p <= |body| {
      var q := NextLive(body, p);
      assert q == r;
    }
  }

  lemma IterPast(body: seq<Slot>, b: nat, index: int)
    requires -1 <= index < SLOTS && SLOTS * b + index + 1 > |body|
    ensures IterStep(body, b, index) == (None, b, index + 1)
  {
  }

  /** Asked again after the end, an iterator answers "end" again exactly when its directory
      is empty or the last entry is not the last slot of a block; otherwise it starts over
      inside that block. */
  lemma EndRepeatsIff(body: seq<Slot>, b: nat, index: int)
    requires IsBody(body) && -1 <= index < SLOTS && SLOTS * b + index + 1 == |body| && (index == -1 ==> b == 0)
    ensures var (node, b', index') := IterStep(body, b, index);
      && node == None && b' == b && 0 <= index' < SLOTS
      && (IterStep(body, b', index').0 == None <==> |body| % SLOTS != 0 || body == [])
  {
    hide NextLive, IterStep;
    IterIs(body, b, index, |body|);
    if index == SLOTS - 1 {
      SlotNumber(b + 1, 0);
      var q := NextLive(body, SLOTS * b + 1);
      assert q <= |body| - 1;
      IterIs(body, b, 0, q);
    } else {
      SlotNumber(b, index + 1);
      IterPast(body, b, index + 1);
    }
  }

  /** For instance with exactly one full block: after the end it yields entry 1 again. */
  lemma FullBlockStartsOver(body: seq<Slot>)
    requires |body| == SLOTS && body[1].Entry?
    ensures IterStep(body, 0, SLOTS - 1) == (None, 0, 0)
    ensures IterStep(body, 0, 0) == (Some(body[1].node), 0, 1)
  {
    hide NextLive, IterStep;
    IterIs(body, 0, SLOTS - 1, SLOTS);
    IterIs(body, 0, 0, 1);
  }

  /** And an iterator left on the last slot of the last block next reads past the block. */
  lemma EndRunsOff(body: seq<Slot>, b: nat)
    requires SLOTS * b <= |body| < SLOTS * b + SLOTS - 1
    ensures IterStep(body, b, SLOTS - 1) == (None, b, SLOTS)
  {
  }
}
