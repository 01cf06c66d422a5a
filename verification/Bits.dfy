/** One bit of a 32-bit word, as kernel/src/mem/pmmngr.c reads and writes it: what `|=`,
    `&= ~` and `& bit` with the mask 1 << j do to every bit of the word.  The operators are
    wrapped in functions so that the inductions over bit positions stay symbolic. */
module Bits {
  predicate Odd(w: bv32) { w & 1 == 1 }

  function Half(w: bv32): bv32 { w >> 1 }

  function Or(w: bv32, m: bv32): bv32 { w | m }

  function Minus(w: bv32, m: bv32): bv32 { w & !m }

  predicate Meets(w: bv32, m: bv32) { w & m != 0 }

  function Mask(j: nat): bv32
    requires j < 32
  {
    (1 as bv32) << j
  }

  /** (w >> j) & 1, the shift taken one place at a time. */
  predicate Bit(w: bv32, j: nat) {
    if j == 0 then Odd(w) else Bit(Half(w), j - 1)
  }

  lemma MaskZero()
    ensures Mask(0) == 1
  {
  }

  lemma MaskHalf(j: nat)
    requires 0 < j < 32
    ensures Half(Mask(j)) == Mask(j - 1)
  {
    hide Mask, Half;
    MaskByAmount(j);
    MaskByAmount(j - 1);
    AmountBefore(j);
    AmountRange(j);
    ShiftHalf(j as bv6);
  }

  // The shift amount as the six bits in which a 32-bit shift takes it.

  lemma MaskByAmount(j: nat)
    requires j < 32
    ensures Mask(j) == (1 as bv32) << (j as bv6)
  {
  }

  lemma ShiftHalf(k: bv6)
    requires 0 < k < 32
    ensures Half((1 as bv32) << k) == (1 as bv32) << (k - 1)
  {
  }

  lemma AmountRange(j: nat)
    requires 0 < j < 32
    ensures 0 < (j as bv6) < 32
  {
  }

  lemma AmountValue(j: nat)
    requires j < 32
    ensures (j as bv6) as int == j
  {
  }

  lemma Decrement(k: bv6)
    requires k > 0
    ensures (k - 1) as int == k as int - 1
  {
  }

  lemma AmountBefore(j: nat)
    requires 0 < j < 32
    ensures (j as bv6) - 1 == (j - 1) as bv6
  {
    var k, l := j as bv6, (j - 1) as bv6;
    AmountValue(j);
    AmountValue(j - 1);
    AmountRange(j);
    Decrement(k);
    assert ((k - 1) as int) as bv6 == k - 1;
    assert (l as int) as bv6 == l;
  }

  lemma MaskEven(j: nat)
    requires 0 < j < 32
    ensures !Odd(Mask(j))
  {
  }

  lemma OrOne(w: bv32)
    ensures Odd(Or(w, 1)) && Half(Or(w, 1)) == Half(w)
  {
  }

  lemma MinusOne(w: bv32)
    ensures !Odd(Minus(w, 1)) && Half(Minus(w, 1)) == Half(w)
  {
  }

  lemma MeetsOne(w: bv32)
    ensures Meets(w, 1) == Odd(w)
  {
  }

  lemma HalfOr(w: bv32, m: bv32)
    ensures Half(Or(w, m)) == Or(Half(w), Half(m))
  {
  }

  lemma HalfMinus(w: bv32, m: bv32)
    ensures Half(Minus(w, m)) == Minus(Half(w), Half(m))
  {
  }

  lemma OddOr(w: bv32, m: bv32)
    requires !Odd(m)
    ensures Odd(Or(w, m)) == Odd(w)
  {
  }

  lemma OddMinus(w: bv32, m: bv32)
    requires !Odd(m)
    ensures Odd(Minus(w, m)) == Odd(w)
  {
  }

  lemma MeetsHalf(w: bv32, m: bv32)
    requires !Odd(m)
    ensures Meets(Half(w), Half(m)) == Meets(w, m)
  {
  }

  /** Setting bit j sets that bit and keeps the others. */
  lemma {:induction false} SetEffect(w: bv32, j: nat, k: nat)
    requires j < 32 && k < 32
    ensures Bit(Or(w, Mask(j)), k) <==> k == j || Bit(w, k)
    decreases k
  {
    hide Mask, Odd, Half, Or;
    if j == 0 {
      MaskZero();
      OrOne(w);
    } else {
      MaskHalf(j);
      MaskEven(j);
      HalfOr(w, Mask(j));
      OddOr(w, Mask(j));
      if k > 0 {
        SetEffect(Half(w), j - 1, k - 1);
      }
    }
  }

  /** Clearing bit j clears that bit and keeps the others. */
  lemma {:induction false} UnsetEffect(w: bv32, j: nat, k: nat)
    requires j < 32 && k < 32
    ensures Bit(Minus(w, Mask(j)), k) <==> k != j && Bit(w, k)
    decreases k
  {
    hide Mask, Odd, Half, Minus;
    if j == 0 {
      MaskZero();
      MinusOne(w);
    } else {
      MaskHalf(j);
      MaskEven(j);
      HalfMinus(w, Mask(j));
      OddMinus(w, Mask(j));
      if k > 0 {
        UnsetEffect(Half(w), j - 1, k - 1);
      }
    }
  }

  /** The two ways the allocator tests a bit agree. */
  lemma {:induction false} TestsAgree(w: bv32, j: nat)
    requires j < 32
    ensures Bit(w, j) <==> Meets(w, Mask(j))
    decreases j
  {
    hide Mask, Odd, Half, Meets;
    if j == 0 {
      MaskZero();
      MeetsOne(w);
    } else {
      MaskHalf(j);
      MaskEven(j);
      MeetsHalf(w, Mask(j));
      TestsAgree(Half(w), j - 1);
    }
  }

  /** A word equal to 0xffffffff has no clear bit. */
  lemma FullWord(j: nat)
    requires j < 32
    ensures Bit(0xffffffff, j)
  {
    hide Mask;
    TestsAgree(0xffffffff, j);
    MaskNonzero(j);
    FullMeets(Mask(j));
  }

  lemma FullMeets(m: bv32)
    requires m != 0
    ensures Meets(0xffffffff, m)
  {
  }

  lemma MaskNonzero(j: nat)
    requires j < 32
    ensures Mask(j) != 0
  {
  }
}
