/** Powers of two and the Fibonacci hash that picks a bucket. */
module Hashing {

  function Pow2(b: nat): (p: nat)
    ensures p >= 1
  {
    if b == 0 then 1 else 2 * Pow2(b - 1)
  }

  lemma {:induction false} Pow2Sum(a: nat, b: nat)
    ensures Pow2(a + b) == Pow2(a) * Pow2(b)
  {
    if a > 0 {
      Pow2Sum(a - 1, b);
      assert Pow2(a + b) == 2 * Pow2(a - 1 + b);
      assert 2 * (Pow2(a - 1) * Pow2(b)) == 2 * Pow2(a - 1) * Pow2(b);
    }
  }

  const WORD: nat := 0x1_0000_0000_0000_0000

  const GOLDEN: nat := 11400714819323198485

  /** The multiplier is the word over the golden ratio, rounded down. */
  lemma MultiplierIsGolden()
    ensures GOLDEN * (GOLDEN + WORD) <= WORD * WORD < (GOLDEN + 1) * (GOLDEN + 1 + WORD)
  {
  }

  /** Fibonacci hashing on 64-bit words: the upper `bits` bits of the product. */
  function HashBits(h: nat, bits: nat): nat
    requires bits <= 64
  {
    if bits == 0 then 0 else Quotient(h * GOLDEN % WORD, Pow2(64 - bits))
  }

  function Quotient(x: nat, q: nat): nat
    requires q > 0
  {
    x / q
  }

  /** It is the upper bits: cut off the lower ones, and this is what is left of the product. */
  lemma HashBitsAreUpper(h: nat, bits: nat)
    requires 0 < bits <= 64
    ensures var q, low := HashBits(h, bits), Pow2(64 - bits); q * low <= h * GOLDEN % WORD < q * low + low
  {
    QuotientTimes(h * GOLDEN % WORD, Pow2(64 - bits));
  }

  lemma QuotientTimes(x: nat, q: nat)
    requires q > 0
    ensures Quotient(x, q) * q <= x < Quotient(x, q) * q + q
  {
  }

  lemma HashBitsInRange(h: nat, bits: nat)
    requires bits <= 64
    ensures HashBits(h, bits) < Pow2(bits)
  {
    var x := h * GOLDEN % WORD;
    WordSplits(x, bits);
    QuotientBound(x, Pow2(bits), Pow2(64 - bits));
  }

  lemma WordSplits(x: nat, bits: nat)
    requires bits <= 64 && x < WORD
    ensures x < Pow2(bits) * Pow2(64 - bits)
  {
    WordIsPow2();
    Pow2Sum(bits, 64 - bits);
  }

  lemma WordIsPow2()
    ensures Pow2(64) == WORD
  {
    assert Pow2(8) == 0x100;
    Pow2Sum(8, 8);
    assert Pow2(16) == 0x1_0000;
    Pow2Sum(16, 16);
    assert Pow2(32) == 0x1_0000_0000;
    Pow2Sum(32, 32);
  }

  lemma QuotientBound(x: nat, p: nat, q: nat)
    requires q > 0 && x < p * q
    ensures Quotient(x, q) < p
  {
  }

  lemma {:induction false} Pow2Exceeds(b: nat)
    ensures Pow2(b) > b
  {
    if b > 0 {
      Pow2Exceeds(b - 1);
    }
  }
}
