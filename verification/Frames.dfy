/** The physical frame allocator of kernel/src/mem/pmmngr.c on values: a bit per frame, a
    cached number of frames in use, and the lowest free run of a given length. */
module Frames {
  import opened Common

  /** bitmap[24576] of 32-bit words */
  const BITS: nat := 786432

  datatype Frames = Frames(bits: seq<bool>, used: nat, total: nat)

  /** Set bits below n. */
  function CountSet(b: seq<bool>, n: nat): (c: nat)
    requires n <= |b|
    ensures c <= n
  {
    if n == 0 then 0 else CountSet(b, n - 1) + (if b[n - 1] then 1 else 0)
  }

  /** The counter is the number of set bits below total, and frame 0 is never handed out. */
  ghost predicate Good(f: Frames) {
    && |f.bits| == BITS && f.total <= BITS && f.bits[0]
    && f.used == CountSet(f.bits, f.total)
  }

  lemma {:induction false} CountUpdate(b: seq<bool>, n: nat, i: nat, v: bool)
    requires n <= |b| && i < |b|
    ensures CountSet(b[i := v], n) == CountSet(b, n) +
      (if i >= n || b[i] == v then 0 else if v then 1 else -1)
  {
    if n > 0 {
      CountUpdate(b, n - 1, i, v);
    }
  }

  /** At most n - cnt bits below n are set when cnt of them in a row are clear. */
  lemma {:induction false} RunLeavesRoom(b: seq<bool>, n: nat, r: nat, cnt: nat)
    requires n <= |b| && r + cnt <= n && FreeRun(b, r, cnt)
    ensures CountSet(b, n) + cnt <= n
  {
    if r + cnt < n {
      RunLeavesRoom(b, n - 1, r, cnt);
    } else if cnt > 0 {
      RunLeavesRoom(b, n - 1, r, cnt - 1);
    }
  }

  lemma {:induction false} CountPositive(b: seq<bool>, n: nat, i: nat)
    requires i < n <= |b| && b[i]
    ensures CountSet(b, n) > 0
  {
    if i < n - 1 {
      CountPositive(b, n - 1, i);
    }
  }

  /** With every bit below n set the count is n. */
  lemma {:induction false} CountFull(b: seq<bool>, n: nat)
    requires n <= |b| && forall i :: 0 <= i < n ==> b[i]
    ensures CountSet(b, n) == n
  {
    if n > 0 {
      CountFull(b, n - 1);
    }
  }

  // ----- the lowest free run -----

  ghost predicate FreeRun(b: seq<bool>, r: nat, cnt: nat) {
    r + cnt <= |b| && forall i :: r <= i < r + cnt ==> !b[i]
  }

  ghost predicate IsLowestRun(b: seq<bool>, total: nat, cnt: nat, r: nat) {
    && r + cnt <= total && FreeRun(b, r, cnt)
    && forall s: nat :: s < r ==> !FreeRun(b, s, cnt)
  }

  ghost predicate HasRun(b: seq<bool>, total: nat, cnt: nat) {
    exists r: nat :: r + cnt <= total && FreeRun(b, r, cnt)
  }

  /** The first free run at or after `from` that ends by `total`. */
  ghost function LowestRun(b: seq<bool>, total: nat, cnt: nat, from: nat): (r: Option<nat>)
    requires total <= |b|
    ensures r.Some? ==> from <= r.value && r.value + cnt <= total && FreeRun(b, r.value, cnt)
    ensures r.Some? ==> forall s: nat :: from <= s < r.value ==> !FreeRun(b, s, cnt)
    ensures r.None? ==> forall s: nat :: from <= s && s + cnt <= total ==> !FreeRun(b, s, cnt)
    decreases total - from
  {
    if from + cnt > total then None
    else if FreeRun(b, from, cnt) then Some(from)
    else if from < total then LowestRun(b, total, cnt, from + 1)
    else None
  }

  /** A used bit at p rules out every run that would contain it. */
  lemma {:induction false} SkipUsed(b: seq<bool>, total: nat, cnt: nat, from: nat, p: nat)
    requires total <= |b| && from <= p < from + cnt && p < |b| && b[p]
    ensures LowestRun(b, total, cnt, from) == LowestRun(b, total, cnt, p + 1)
    decreases p - from
  {
  }

  // ----- the operations -----

  function Fill(b: seq<bool>, r: nat, n: nat, v: bool): (b': seq<bool>)
    requires r + n <= |b|
    ensures |b'| == |b|
    ensures forall i :: 0 <= i < |b| ==> b'[i] == if r <= i < r + n then v else b[i]
  {
    if n == 0 then b else Fill(b, r, n - 1, v)[r + n - 1 := v]
  }

  /** Setting a clear run, or clearing a set one, moves the count by its length. */
  lemma {:induction false} CountFill(b: seq<bool>, r: nat, n: nat, v: bool, total: nat)
    requires r + n <= total <= |b| && forall i :: r <= i < r + n ==> b[i] != v
    ensures v ==> CountSet(Fill(b, r, n, v), total) == CountSet(b, total) + n
    ensures !v ==> CountSet(Fill(b, r, n, v), total) == CountSet(b, total) - n
  {
    if n > 0 {
      CountFill(b, r, n - 1, v, total);
      CountUpdate(Fill(b, r, n - 1, v), total, r + n - 1, v);
    }
  }

  /** pmmngr_alloc_block and pmmngr_alloc_multi_block; frame 0 stands for failure. */
  ghost function Alloc(f: Frames, cnt: nat): (r: (Frames, nat))
    requires Good(f)
    ensures r.1 < BITS
  {
    var run := LowestRun(f.bits, f.total, cnt, 0);
    if cnt == 0 || run.None? then (f, 0)
    else (Frames(Fill(f.bits, run.value, cnt, true), f.used + cnt, f.total), run.value)
  }

  /** A request succeeds exactly when a free run of that length exists; it then takes the
      lowest one, which never starts at frame 0. */
  lemma AllocExact(f: Frames, cnt: nat)
    requires Good(f)
    ensures var (f', r) := Alloc(f, cnt);
      && Good(f') && f'.total == f.total
      && (r != 0 <==> cnt > 0 && HasRun(f.bits, f.total, cnt))
      && (r == 0 ==> f' == f)
      && (r != 0 ==>
            && IsLowestRun(f.bits, f.total, cnt, r)
            && f'.bits == Fill(f.bits, r, cnt, true) && f'.used == f.used + cnt)
  {
    hide CountSet, LowestRun;
    var run := LowestRun(f.bits, f.total, cnt, 0);
    if cnt > 0 && run.Some? {
      CountFill(f.bits, run.value, cnt, true, f.total);
    }
  }

  /** pmmngr_free_block, with the 32-bit counter. */
  function FreeOne(f: Frames, frame: nat): (f': Frames)
    requires frame < |f.bits|
  {
    if frame == 0 || !f.bits[frame] then f
    else Frames(f.bits[frame := false], if f.used == 0 then 0xffffffff else f.used - 1, f.total)
  }

  /** Freeing one frame keeps the counter exact precisely when the frame is below total, or
      the call does nothing. */
  lemma FreeOneGoodIff(f: Frames, frame: nat)
    requires Good(f) && frame < BITS
    ensures Good(FreeOne(f, frame)) <==> frame < f.total || frame == 0 || !f.bits[frame]
  {
    hide CountSet;
    CountUpdate(f.bits, f.total, frame, false);
    if frame < f.total && f.bits[frame] {
      CountPositive(f.bits, f.total, frame);
    }
  }

  /** After pmmngr_init the padding bits above total are set, so freeing an address past the
      end of memory makes the counter wrong. */
  lemma FreePastEndBreaksCount(total: nat)
    requires 0 < total < BITS
    ensures var f := Frames(seq(BITS, _ => true), total, total);
      Good(f) && !Good(FreeOne(f, total))
  {
    hide CountSet;
    var f := Frames(seq(BITS, _ => true), total, total);
    CountFull(f.bits, total);
    FreeOneGoodIff(f, total);
  }

  /** Frames of a run that pmmngr_free_multi_block reaches before the end of memory. */
  function Reached(f: Frames, frame: nat, cnt: nat): nat {
    if frame == 0 || frame >= f.total then 0
    else if cnt <= f.total - frame then cnt else f.total - frame
  }

  /** pmmngr_free_multi_block keeps the counter exact for every argument. */
  function FreeRunOf(f: Frames, frame: nat, n: nat): (f': Frames)
    requires Good(f) && (n > 0 ==> 0 < frame && frame + n <= f.total)
    ensures Good(f') && f'.total == f.total
    ensures n > 0 ==> f'.bits == Fill(f.bits, frame, n, false)
    ensures n == 0 ==> f' == f
  {
    if n == 0 then f
    else
      var f1 := FreeRunOf(f, frame, n - 1);
      FreeOneGoodIff(f1, frame + n - 1);
      FreeOne(f1, frame + n - 1)
  }

  /** Allocating a run and freeing it gives back the same bitmap and counter. */
  lemma AllocFreeRestores(f: Frames, cnt: nat)
    requires Good(f) && Alloc(f, cnt).1 != 0
    ensures var (f', r) := Alloc(f, cnt);
      Good(f') && r + cnt <= f'.total && FreeRunOf(f', r, cnt) == f
  {
    hide CountSet, LowestRun;
    AllocExact(f, cnt);
    var (f', r) := Alloc(f, cnt);
    assert FreeRunOf(f', r, cnt).bits == f.bits;
  }
}
