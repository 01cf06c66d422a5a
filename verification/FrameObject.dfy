/** pmmngr.c with its static bitmap of 32-bit words, its counters and its scanning loops. */
module FrameObject {
  import opened Common
  import opened Bits
  import opened Frames

  const WORDS: nat := 24576
  const PAGE: nat := 4096

  /** The words spell the bits, 32 to a word from the lowest. */
  ghost predicate Spells(words: seq<bv32>, bits: seq<bool>) {
    && |words| == WORDS && |bits| == BITS
    && forall i: nat :: i < BITS ==> bits[i] == Bit(words[i / 32], i % 32)
  }

  lemma SpellsAt(words: seq<bv32>, bits: seq<bool>, i: nat, j: nat)
    requires Spells(words, bits) && i < WORDS && j < 32
    ensures bits[32 * i + j] == Bit(words[i], j)
  {
    hide Bit;
    assert (32 * i + j) / 32 == i && (32 * i + j) % 32 == j;
  }

  lemma SpellsSet(words: seq<bv32>, bits: seq<bool>, i: nat)
    requires Spells(words, bits) && i < BITS
    ensures i / 32 < WORDS && Spells(words[i / 32 := Or(words[i / 32], Mask(i % 32))], bits[i := true])
  {
    hide Bit, Or, Mask;
    var words' := words[i / 32 := Or(words[i / 32], Mask(i % 32))];
    forall k: nat | k < BITS ensures bits[i := true][k] == Bit(words'[k / 32], k % 32) {
      SetEffect(words[i / 32], i % 32, k % 32);
    }
  }

  lemma SpellsUnset(words: seq<bv32>, bits: seq<bool>, i: nat)
    requires Spells(words, bits) && i < BITS
    ensures i / 32 < WORDS && Spells(words[i / 32 := Minus(words[i / 32], Mask(i % 32))], bits[i := false])
  {
    hide Bit, Minus, Mask;
    var words' := words[i / 32 := Minus(words[i / 32], Mask(i % 32))];
    forall k: nat | k < BITS ensures bits[i := false][k] == Bit(words'[k / 32], k % 32) {
      UnsetEffect(words[i / 32], i % 32, k % 32);
    }
  }

  lemma SpellsFull(words: seq<bv32>, bits: seq<bool>)
    requires |words| == WORDS && |bits| == BITS
    requires (forall i :: 0 <= i < WORDS ==> words[i] == 0xffffffff) && forall i :: 0 <= i < BITS ==> bits[i]
    ensures Spells(words, bits)
  {
    hide Bit;
    forall k: nat | k < BITS ensures bits[k] == Bit(words[k / 32], k % 32) {
      FullWord(k % 32);
    }
  }

  class FrameAllocator {
    const bitmap: array<bv32>
    var used: nat
    var total: nat
    ghost var bits: seq<bool>

    ghost predicate Shape()
      reads this, bitmap
    {
      bitmap.Length == WORDS && |bits| == BITS && Spells(bitmap[..], bits) && total <= BITS
    }

    ghost function View(): Frames
      reads this
    {
      Frames(bits, used, total)
    }

    ghost predicate Valid()
      reads this, bitmap
    {
      Shape() && Good(View())
    }

    /** pmmngr_init: everything counts as used. */
    constructor (size: nat)
      requires size / PAGE <= BITS
      ensures Valid() && fresh(bitmap)
      ensures total == size / PAGE && used == total && forall i :: 0 <= i < BITS ==> bits[i]
    {
      hide Spells, CountSet;
      total := size / PAGE;
      used := size / PAGE;
      bits := seq(BITS, _ => true);
      bitmap := new bv32[WORDS](_ => 0xffffffff);
      new;
      SpellsFull(bitmap[..], bits);
      CountFull(bits, total);
    }

    method SetBit(i: nat)
      requires Shape() && i < BITS
      modifies this`bits, bitmap
      ensures Shape() && bits == old(bits)[i := true]
    {
      hide Spells, Or, Mask;
      SpellsSet(bitmap[..], bits, i);
      bits := bits[i := true];
      bitmap[i / 32] := Or(bitmap[i / 32], Mask(i % 32));
    }

    method UnsetBit(i: nat)
      requires Shape() && i < BITS
      modifies this`bits, bitmap
      ensures Shape() && bits == old(bits)[i := false]
    {
      hide Spells, Minus, Mask;
      SpellsUnset(bitmap[..], bits, i);
      bits := bits[i := false];
      bitmap[i / 32] := Minus(bitmap[i / 32], Mask(i % 32));
    }

    method TestBit(i: nat) returns (b: bool)
      requires Shape() && i < BITS
      ensures b == bits[i]
    {
      hide Bit;
      b := Bit(bitmap[i / 32], i % 32);
    }

    /** find_first_free_block: whole words of ones are skipped, and the padding of the last
        word is never offered. */
    method FindFirstFreeBlock() returns (r: int)
      requires Shape()
      ensures r == -1 <==> LowestRun(bits, total, 1, 0) == None
      ensures r != -1 ==> r >= 0 && LowestRun(bits, total, 1, 0) == Some(r)
    {
      hide Bit, Spells, Mask, Meets, LowestRun;
      var chunks: nat := (total + 31) / 32;
      for i := 0 to chunks
        invariant forall k :: 0 <= k < 32 * i && k < total ==> bits[k]
      {
        if bitmap[i] == 0xffffffff {
          FullChunk(bitmap[..], bits, i);
          continue;
        }
        for j := 0 to 32
          invariant forall k :: 0 <= k < 32 * i + j && k < total ==> bits[k]
        {
          var bit: nat := 32 * i + j;
          if bit >= total {
            NoneFree(bits, total);
            return -1;
          }
          SpellsAt(bitmap[..], bits, i, j);
          TestsAgree(bitmap[i], j);
          if !Meets(bitmap[i], Mask(j)) {
            FirstFree(bits, total, bit);
            return bit;
          }
        }
      }
      NoneFree(bits, total);
      r := -1;
    }

    /** find_first_free: after a run breaks at i + k the search goes on at i + k + 1. */
    method FindFirstFree(cnt: nat) returns (r: int)
      requires Shape()
      ensures r == -1 <==> cnt == 0 || LowestRun(bits, total, cnt, 0) == None
      ensures r != -1 ==> r >= 0 && LowestRun(bits, total, cnt, 0) == Some(r)
    {
      hide Spells, LowestRun;
      if cnt == 0 {
        return -1;
      }
      if cnt == 1 {
        r := FindFirstFreeBlock();
        return;
      }
      if cnt > total {
        return -1;
      }
      var i: nat := 0;
      while i <= total - cnt
        invariant LowestRun(bits, total, cnt, 0) == LowestRun(bits, total, cnt, i)
        decreases total - i
      {
        var u := TestBit(i);
        if !u {
          var k: nat := 1;
          while k < cnt
            invariant 1 <= k <= cnt && FreeRun(bits, i, k)
          {
            u := TestBit(i + k);
            if u {
              break;
            }
            k := k + 1;
          }
          if k == cnt {
            RunHere(bits, total, cnt, i);
            return i;
          }
          SkipUsed(bits, total, cnt, i, i + k);
          i := i + k;
        } else {
          SkipUsed(bits, total, cnt, i, i);
        }
        i := i + 1;
      }
      r := -1;
    }

    /** pmmngr_update_usage: the counter becomes the number of set bits below total,
        whatever it was. */
    method UpdateUsage()
      requires Shape()
      modifies this`used
      ensures Shape() && used == CountSet(bits, total)
    {
      hide Bit, Spells, Mask, Meets, CountSet;
      used := 0;
      CountNone(bits);
      var chunks: nat := (total + 31) / 32;
      for i := 0 to chunks
        invariant Shape() && used == CountSet(bits, Least(32 * i, total))
      {
        if bitmap[i] == 0xffffffff {
          var inChunk := 32;
          if i == chunks - 1 {
            inChunk := total % 32;
            if inChunk == 0 {
              inChunk := 32;
            }
          }
          if inChunk == 32 {
            FullChunk(bitmap[..], bits, i);
            CountChunk(bits, 32 * i, 32);
            used := used + 32;
            continue;
          }
        }
        var j: nat := 0;
        while j < 32
          invariant j <= 32 && Shape() && used == CountSet(bits, Least(32 * i + j, total))
        {
          if 32 * i + j >= total {
            break;
          }
          SpellsAt(bitmap[..], bits, i, j);
          TestsAgree(bitmap[i], j);
          CountNext(bits, 32 * i + j);
          if Meets(bitmap[i], Mask(j)) {
            used := used + 1;
          }
          j := j + 1;
        }
      }
    }

    /** pmmngr_init_region: the region becomes free except frame 0. */
    method InitRegion(base: nat, size: nat)
      requires Shape() && base / PAGE + size / PAGE <= BITS
      modifies this`bits, bitmap
      ensures Shape() && bits == Fill(old(bits), base / PAGE, size / PAGE, false)[0 := true]
    {
      hide Spells, Fill;
      var start: nat, block: nat := base / PAGE, size / PAGE;
      ghost var n: nat := 0;
      FillNone(bits, start, false);
      while block > 0
        invariant n + block == size / PAGE && start == base / PAGE + n
        invariant Shape() && bits == Fill(old(bits), base / PAGE, n, false)
      {
        FillSnoc(old(bits), base / PAGE, n, false);
        UnsetBit(start);
        start, block, n := start + 1, block - 1, n + 1;
      }
      SetBit(0);
    }

    /** pmmngr_deinit_region: the region becomes used. */
    method DeinitRegion(base: nat, size: nat)
      requires Shape() && base / PAGE + size / PAGE <= BITS
      modifies this`bits, bitmap
      ensures Shape() && bits == Fill(old(bits), base / PAGE, size / PAGE, true)
    {
      hide Spells, Fill;
      var start: nat, block: nat := base / PAGE, size / PAGE;
      ghost var n: nat := 0;
      FillNone(bits, start, true);
      while block > 0
        invariant n + block == size / PAGE && start == base / PAGE + n
        invariant Shape() && bits == Fill(old(bits), base / PAGE, n, true)
      {
        FillSnoc(old(bits), base / PAGE, n, true);
        SetBit(start);
        start, block, n := start + 1, block - 1, n + 1;
      }
    }

    /** pmmngr_alloc_block: the usage shortcut never hides a free frame. */
    method AllocBlock() returns (addr: nat)
      requires Valid()
      modifies this`bits, this`used, bitmap
      ensures Valid()
      ensures (View(), addr / PAGE) == Alloc(old(View()), 1) && addr % PAGE == 0
    {
      hide Spells, CountSet, LowestRun;
      ghost var f := View();
      AllocExact(f, 1);
      if total == used {
        ShortcutExact(f, 1);
        return 0;
      }
      var frame := FindFirstFreeBlock();
      if frame == -1 {
        return 0;
      }
      FillNone(bits, frame, true);
      FillSnoc(bits, frame, 0, true);
      SetBit(frame);
      addr := frame * PAGE;
      used := used + 1;
    }

    /** pmmngr_alloc_multi_block, with the 32-bit sum of the usage test. */
    method AllocMultiBlock(cnt: nat) returns (addr: nat)
      requires Valid() && cnt < 0x1_0000_0000
      modifies this`bits, this`used, bitmap
      ensures Valid()
      ensures (View(), addr / PAGE) == Alloc(old(View()), cnt) && addr % PAGE == 0
    {
      hide Spells, CountSet, LowestRun, Fill;
      ghost var f := View();
      AllocExact(f, cnt);
      if (used + cnt) % 0x1_0000_0000 > total {
        ShortcutExact(f, cnt);
        return 0;
      }
      var found := FindFirstFree(cnt);
      if found == -1 {
        return 0;
      }
      var frame: nat := found;
      ghost var b := bits;
      FillNone(b, frame, true);
      for i := 0 to cnt
        invariant Shape() && bits == Fill(b, frame, i, true) && used == old(used) && total == old(total)
      {
        FillSnoc(b, frame, i, true);
        SetBit(frame + i);
      }
      addr := frame * PAGE;
      used := used + cnt;
    }

    /** pmmngr_free_block */
    method FreeBlock(addr: nat)
      requires Shape() && addr / PAGE < BITS
      modifies this`bits, this`used, bitmap
      ensures Shape() && View() == FreeOne(old(View()), addr / PAGE)
      ensures forall i :: 0 <= i < BITS ==>
        (bits[i] <==> old(bits)[i] && !(addr / PAGE > 0 && i == addr / PAGE))
    {
      hide Spells;
      var frame := addr / PAGE;
      if frame == 0 {
        return;
      }
      var u := TestBit(frame);
      if u {
        UnsetBit(frame);
        used := if used == 0 then 0xffffffff else used - 1;
      }
    }

    /** pmmngr_free_multi_block stops at the end of memory. */
    method FreeMultiBlock(addr: nat, cnt: nat)
      requires Valid()
      modifies this`bits, this`used, bitmap
      ensures Valid()
      ensures View() == FreeRunOf(old(View()), addr / PAGE, Reached(old(View()), addr / PAGE, cnt))
      ensures total == old(total)
      ensures forall i :: 0 <= i < BITS ==>
        (bits[i] <==> old(bits)[i] && !(0 < addr / PAGE <= i < addr / PAGE + cnt && i < total))
    {
      hide Spells, CountSet, FreeRunOf;
      var frame := addr / PAGE;
      ghost var f := View();
      FreeNone(f, frame);
      if frame == 0 {
        return;
      }
      var i: nat := 0;
      while i < cnt
        invariant i <= cnt && Valid() && total == f.total
        invariant i > 0 ==> frame + i <= total
        invariant View() == FreeRunOf(f, frame, i)
      {
        if frame + i >= total {
          break;
        }
        FreeSnoc(f, frame, i);
        var u := TestBit(frame + i);
        if u {
          CountPositive(bits, total, frame + i);
          UnsetBit(frame + i);
          used := used - 1;
        }
        i := i + 1;
      }
    }
  }

  /** Allocating a run and freeing it, through the two calls, changes nothing. */
  method AllocThenFree(a: FrameAllocator, cnt: nat) returns (addr: nat)
    requires a.Valid() && cnt < 0x1_0000_0000
    modifies a, a.bitmap
    ensures a.Valid() && a.View() == old(a.View())
    ensures addr != 0 <==> cnt > 0 && HasRun(old(a.bits), old(a.total), cnt)
  {
    hide Spells, CountSet, LowestRun, Fill, Alloc, FreeRunOf;
    ghost var f := a.View();
    AllocExact(f, cnt);
    addr := a.AllocMultiBlock(cnt);
    if addr != 0 {
      ghost var r := addr / PAGE;
      assert addr == r * PAGE && r != 0;
      ghost var g := a.View();
      FillIs(f.bits, r, cnt, true);
      a.FreeMultiBlock(addr, cnt);
      assert a.bits == f.bits;
    }
  }

  lemma FillIs(b: seq<bool>, r: nat, n: nat, v: bool)
    requires r + n <= |b|
    ensures forall i :: 0 <= i < |b| ==> Fill(b, r, n, v)[i] == if r <= i < r + n then v else b[i]
  {
  }

  function Least(a: nat, b: nat): nat {
    if a <= b then a else b
  }

  lemma FullChunk(words: seq<bv32>, bits: seq<bool>, i: nat)
    requires |words| == WORDS && |bits| == BITS && Spells(words, bits) && i < WORDS && words[i] == 0xffffffff
    ensures forall k :: 32 * i <= k < 32 * i + 32 ==> bits[k]
  {
    hide Bit, Spells;
    forall k | 32 * i <= k < 32 * i + 32 ensures bits[k] {
      SpellsAt(words, bits, i, k - 32 * i);
      FullWord(k - 32 * i);
    }
  }

  lemma CountNone(b: seq<bool>)
    ensures CountSet(b, 0) == 0
  {
  }

  lemma CountNext(b: seq<bool>, n: nat)
    requires n < |b|
    ensures CountSet(b, n + 1) == CountSet(b, n) + (if b[n] then 1 else 0)
  {
  }

  lemma {:induction false} CountChunk(b: seq<bool>, n: nat, m: nat)
    requires n + m <= |b| && forall k :: n <= k < n + m ==> b[k]
    ensures CountSet(b, n + m) == CountSet(b, n) + m
  {
    if m > 0 {
      CountChunk(b, n, m - 1);
    }
  }

  lemma NoneFree(b: seq<bool>, total: nat)
    requires total <= |b| && forall k :: 0 <= k < total ==> b[k]
    ensures LowestRun(b, total, 1, 0) == None
  {
    hide LowestRun;
    forall s: nat | s < total ensures !FreeRun(b, s, 1) {
      assert b[s];
    }
  }

  lemma FirstFree(b: seq<bool>, total: nat, r: nat)
    requires r < total <= |b| && !b[r] && forall k :: 0 <= k < r ==> b[k]
    ensures LowestRun(b, total, 1, 0) == Some(r)
  {
    hide LowestRun;
    assert FreeRun(b, r, 1);
    var run := LowestRun(b, total, 1, 0);
    assert run.Some? ==> !b[run.value];
  }

  lemma RunHere(b: seq<bool>, total: nat, cnt: nat, r: nat)
    requires r + cnt <= total <= |b| && FreeRun(b, r, cnt)
    ensures LowestRun(b, total, cnt, r) == Some(r)
  {
  }

  /** When the usage test refuses, no run of that length is free. */
  lemma ShortcutExact(f: Frames, cnt: nat)
    requires Good(f) && f.used + cnt > f.total
    ensures LowestRun(f.bits, f.total, cnt, 0) == None
  {
    hide LowestRun, CountSet;
    var run := LowestRun(f.bits, f.total, cnt, 0);
    if run.Some? {
      RunLeavesRoom(f.bits, f.total, run.value, cnt);
    }
  }

  lemma FreeNone(f: Frames, frame: nat)
    requires Good(f)
    ensures FreeRunOf(f, frame, 0) == f
  {
  }

  lemma FreeSnoc(f: Frames, frame: nat, n: nat)
    requires Good(f) && 0 < frame && frame + n < f.total
    ensures FreeRunOf(f, frame, n + 1) == FreeOne(FreeRunOf(f, frame, n), frame + n)
  {
  }

  lemma FillNone(b: seq<bool>, r: nat, v: bool)
    requires r <= |b|
    ensures Fill(b, r, 0, v) == b
  {
  }

  lemma FillSnoc(b: seq<bool>, r: nat, n: nat, v: bool)
    requires r + n < |b|
    ensures Fill(b, r, n + 1, v) == Fill(b, r, n, v)[r + n := v]
  {
  }
}
