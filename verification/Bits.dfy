/** Unsigned bit arithmetic as the C code uses it, on unbounded naturals.
    `Xor` is defined digit by digit, so the buddy computation `idx ^ (1 << order)`
    (lab7/src/memory.c:117) is modelled as written and its arithmetic meaning is proved. */
module Bits {

  /** 1 << k */
  function Pow2(k: nat): (p: nat)
    ensures p >= 1
  {
    if k == 0 then 1 else 2 * Pow2(k - 1)
  }

  /** a ^ b, one binary digit at a time */
  function Xor(a: nat, b: nat): nat
    decreases a + b
  {
    if a == 0 && b == 0 then 0
    else (if a % 2 == b % 2 then 0 else 1) + 2 * Xor(a / 2, b / 2)
  }

  /** i is a multiple of 2^k: its k low binary digits are zero */
  predicate Aligned(i: nat, k: nat) {
    k == 0 || (i % 2 == 0 && Aligned(i / 2, k - 1))
  }

  lemma {:induction false} XorZero(a: nat)
    ensures Xor(a, 0) == a
  {
    if a != 0 {
      XorZero(a / 2);
    }
  }

  lemma {:induction false} AlignedWeaken(i: nat, j: nat, k: nat)
    requires j <= k && Aligned(i, k)
    ensures Aligned(i, j)
  {
    if j > 0 {
      AlignedWeaken(i / 2, j - 1, k - 1);
    }
  }

  lemma {:induction false} Pow2Monotone(j: nat, k: nat)
    requires j <= k
    ensures Pow2(j) <= Pow2(k)
  {
    if j < k {
      Pow2Monotone(j, k - 1);
    }
  }

  lemma DoublePow2(k: nat)
    ensures Pow2(k + 1) == 2 * Pow2(k)
  {
  }

  lemma FlipLowBit(i: nat)
    ensures Xor(i, 1) == if i % 2 == 0 then i + 1 else i - 1
    ensures Pow2(0) == 1 && Aligned(i, 1) == (i % 2 == 0)
  {
    XorZero(i / 2);
    assert Xor(i, 1) == (if i % 2 == 1 then 0 else 1) + 2 * Xor(i / 2, 0);
    assert Aligned(i / 2, 0);
  }

  /** The buddy of an aligned block is the adjacent block of the same size inside the
      enclosing block of twice the size; taking the buddy twice gives the block back. */
  lemma {:induction false} BuddyIsSibling(i: nat, k: nat)
    requires Aligned(i, k)
    ensures var b := Xor(i, Pow2(k));
            && Aligned(b, k)
            && (if Aligned(i, k + 1) then b == i + Pow2(k) else i >= Pow2(k) && b == i - Pow2(k))
            && Aligned(if i < b then i else b, k + 1)
            && Xor(b, Pow2(k)) == i
  {
    if k == 0 {
      FlipLowBit(i);
      FlipLowBit(Xor(i, 1));
    } else {
      BuddyIsSibling(i / 2, k - 1);
      assert Pow2(k) / 2 == Pow2(k - 1) && Pow2(k) % 2 == 0;
      assert Xor(i, Pow2(k)) == 2 * Xor(i / 2, Pow2(k - 1));
      var b := Xor(i, Pow2(k));
      assert b / 2 == Xor(i / 2, Pow2(k - 1));
      assert Xor(b, Pow2(k)) == 2 * Xor(b / 2, Pow2(k - 1));
    }
  }

  /** Two aligned blocks are nested or disjoint. */
  lemma {:induction false} NestedOrDisjoint(a: nat, j: nat, b: nat, k: nat)
    requires j <= k && Aligned(a, j) && Aligned(b, k)
    ensures a + Pow2(j) <= b || b + Pow2(k) <= a || (b <= a && a + Pow2(j) <= b + Pow2(k))
  {
    if j > 0 {
      NestedOrDisjoint(a / 2, j - 1, b / 2, k - 1);
    }
  }

  /** A block holds its buddy or its sibling half: the two halves of a block of size 2^(k+1). */
  lemma {:induction false} UpperHalf(i: nat, k: nat)
    requires Aligned(i, k + 1)
    ensures Aligned(i, k) && Aligned(i + Pow2(k), k) && !Aligned(i + Pow2(k), k + 1)
    ensures Xor(i, Pow2(k)) == i + Pow2(k) && Xor(i + Pow2(k), Pow2(k)) == i
  {
    AlignedWeaken(i, k, k + 1);
    BuddyIsSibling(i, k);
    if Aligned(i + Pow2(k), k + 1) {
      BuddyIsSibling(i + Pow2(k), k);
    }
  }
}
