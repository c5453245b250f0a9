/** Two's-complement bit operations on unbounded integers, as C's int promotion gives
    them to the 8-bit and clock-sized operands of the models. */
module Bits {
  import opened Arith

  type Byte = b: int | 0 <= b < 256

  function Pow2(k: nat): (p: nat)
    ensures p >= 1
  {
    if k == 0 then 1 else 2 * Pow2(k - 1)
  }

  /** x & m, bit by bit; Euclidean division makes it right for negative x too. */
  function And(x: int, m: nat): (r: nat)
    ensures r <= m
    decreases m
  {
    if m == 0 then 0 else (if m % 2 == 1 then x % 2 else 0) + 2 * And(x / 2, m / 2)
  }

  lemma {:induction false} Halves(x: int, p: nat)
    requires p >= 1
    ensures x % (2 * p) == x % 2 + 2 * ((x / 2) % p)
  {
    var q, r := (x / 2) / p, (x / 2) % p;
    assert x / 2 == p * q + r;
    assert (2 * p) * q == 2 * (p * q);
    UniqueRemainder(x, q, x % 2 + 2 * r, 2 * p);
  }

  /** The k lowest bits of x. */
  function LowBits(x: int, k: nat): nat
    decreases k
  {
    if k == 0 then 0 else x % 2 + 2 * LowBits(x / 2, k - 1)
  }

  lemma {:induction false} LowBitsMod(x: int, k: nat)
    ensures LowBits(x, k) == x % Pow2(k)
    decreases k
  {
    if k > 0 {
      LowBitsMod(x / 2, k - 1);
      Halves(x, Pow2(k - 1));
    }
  }

  lemma {:induction false} AndLowBits(x: int, k: nat)
    ensures And(x, Pow2(k) - 1) == LowBits(x, k)
    decreases k
  {
    if k > 0 {
      AndLowBits(x / 2, k - 1);
      var m := Pow2(k) - 1;
      assert m % 2 == 1 && m / 2 == Pow2(k - 1) - 1;
    }
  }

  /** Masking with 2^k - 1 is the remainder modulo 2^k, also of a negative difference. */
  lemma AndMask(x: int, k: nat)
    ensures And(x, Pow2(k) - 1) == x % Pow2(k)
  {
    AndLowBits(x, k);
    LowBitsMod(x, k);
  }

  lemma {:induction false} Pow2Adds(a: nat, b: nat)
    ensures Pow2(a + b) == Pow2(a) * Pow2(b)
  {
    if a > 0 {
      Pow2Adds(a - 1, b);
      assert 2 * (Pow2(a - 1) * Pow2(b)) == (2 * Pow2(a - 1)) * Pow2(b);
    }
  }
}
