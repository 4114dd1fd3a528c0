/** Go's bitwise operators on n-bit unsigned integers, defined on the natural numbers
    that the integers denote: ^ and | bit by bit, unary - as 2^n - a (wrapping), and
    >> by repeated halving. */
module Bits {

  function Pow2(n: nat): (r: nat)
    ensures r > 0
  {
    if n == 0 then 1 else 2 * Pow2(n - 1)
  }

  /** The bits of an n-bit word: a natural number below 2^n. */
  predicate IsWord(a: int, n: nat)
  {
    0 <= a < Pow2(n)
  }

  /** a ^ b on n-bit words: bit i of the result is set when exactly one of the bits
      i of a and b is set. */
  function Xor(a: nat, b: nat, n: nat): (r: nat)
    ensures IsWord(r, n)
  {
    if n == 0 then 0
    else 2 * Xor(a / 2, b / 2, n - 1) + (if a % 2 == b % 2 then 0 else 1)
  }

  /** a | b on n-bit words: bit i of the result is set when either bit i is set. */
  function Or(a: nat, b: nat, n: nat): (r: nat)
    ensures IsWord(r, n)
  {
    if n == 0 then 0
    else 2 * Or(a / 2, b / 2, n - 1) + (if a % 2 == 1 || b % 2 == 1 then 1 else 0)
  }

  /** -a on an n-bit unsigned word: two's-complement negation, wrapping modulo 2^n. */
  function Neg(a: nat, n: nat): (r: nat)
    requires IsWord(a, n)
    ensures IsWord(r, n)
    ensures (a + r) % Pow2(n) == 0
  {
    if a == 0 then 0 else Pow2(n) - a
  }

  /** a >> k on an unsigned word: k halvings, each dropping the lowest bit. */
  function Shr(a: nat, k: nat): (r: nat)
    ensures r <= a
  {
    if k == 0 then a else Shr(a / 2, k - 1)
  }

  /** XOR with 2^(n-1) flips the top bit of an n-bit word. */
  lemma {:induction false} XorTopBit(a: nat, n: nat)
    requires n > 0 && IsWord(a, n)
    ensures Xor(a, Pow2(n - 1), n) == if a < Pow2(n - 1) then a + Pow2(n - 1) else a - Pow2(n - 1)
  {
    if n == 1 {
      assert Xor(a, 1, 1) == 2 * Xor(a / 2, 0, 0) + (if a % 2 == 1 then 0 else 1);
    } else {
      XorTopBit(a / 2, n - 1);
      assert Pow2(n - 1) == 2 * Pow2(n - 2);
    }
  }

  /** XOR with the all-ones word complements every bit. */
  lemma {:induction false} XorOnes(a: nat, n: nat)
    requires IsWord(a, n)
    ensures Xor(a, Pow2(n) - 1, n) == Pow2(n) - 1 - a
  {
    if n > 0 {
      XorOnes(a / 2, n - 1);
      assert (Pow2(n) - 1) / 2 == Pow2(n - 1) - 1 && (Pow2(n) - 1) % 2 == 1;
    }
  }

  /** OR with zero leaves a word unchanged. */
  lemma {:induction false} OrZero(b: nat, n: nat)
    requires IsWord(b, n)
    ensures Or(0, b, n) == b
  {
    if n > 0 {
      OrZero(b / 2, n - 1);
    }
  }

  /** OR with the all-ones word gives the all-ones word. */
  lemma {:induction false} OrOnes(b: nat, n: nat)
    ensures Or(Pow2(n) - 1, b, n) == Pow2(n) - 1
  {
    if n > 0 {
      OrOnes(b / 2, n - 1);
      assert (Pow2(n) - 1) / 2 == Pow2(n - 1) - 1 && (Pow2(n) - 1) % 2 == 1;
    }
  }

  /** Shifting an n-bit word right by n-1 leaves its top bit. */
  lemma {:induction false} ShrTopBit(a: nat, n: nat)
    requires n > 0 && IsWord(a, n)
    ensures Shr(a, n - 1) == if a < Pow2(n - 1) then 0 else 1
  {
    if n > 1 {
      ShrTopBit(a / 2, n - 1);
    }
  }

  /** The radix-sort transform a ^ (-(a >> (n-1)) | 1 << (n-1)) on an n-bit word:
      a word with its top bit set is complemented, any other word gets its top bit set. */
  lemma RadixFlip(a: nat, n: nat)
    requires n > 0 && IsWord(a, n)
    ensures Xor(a, Or(Neg(Shr(a, n - 1), n), Pow2(n - 1), n), n)
         == if a < Pow2(n - 1) then a + Pow2(n - 1) else Pow2(n) - 1 - a
  {
    if a < Pow2(n - 1) {
      RadixFlipClear(a, n);
    } else {
      RadixFlipSet(a, n);
    }
  }

  lemma RadixFlipClear(a: nat, n: nat)
    requires n > 0 && a < Pow2(n - 1)
    ensures Xor(a, Or(Neg(Shr(a, n - 1), n), Pow2(n - 1), n), n) == a + Pow2(n - 1)
  {
    ShrTopBit(a, n);
    OrZero(Pow2(n - 1), n);
    XorTopBit(a, n);
  }

  lemma RadixFlipSet(a: nat, n: nat)
    requires n > 0 && Pow2(n - 1) <= a < Pow2(n)
    ensures Xor(a, Or(Neg(Shr(a, n - 1), n), Pow2(n - 1), n), n) == Pow2(n) - 1 - a
  {
    ShrTopBit(a, n);
    OrOnes(Pow2(n - 1), n);
    XorOnes(a, n);
  }
}
