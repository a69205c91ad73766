/** Exact integer arithmetic on powers of two: `1 << k`, Python's `int.bit_length`
    and the integer part of `math.log2` on positive lengths. */
module PowersOfTwo {

  /** 2^k, Python's `1 << k` and `2**k`. */
  function Pow2(k: nat): (p: nat)
    ensures p >= 1
  {
    if k == 0 then 1 else 2 * Pow2(k - 1)
  }

  /** Python's `int.bit_length()` on a non-negative integer: the number of binary digits. */
  function BitLength(n: nat): nat
  {
    if n == 0 then 0 else 1 + BitLength(n / 2)
  }

  /** n is one of 1, 2, 4, 8, ... */
  predicate IsPowerOfTwo(n: int)
    decreases if n < 0 then 0 else n
  {
    n == 1 || (n > 1 && n % 2 == 0 && IsPowerOfTwo(n / 2))
  }

  /** floor(log2(n)) for n >= 1, the integer that `int(math.log2(n))` is meant to give. */
  function FloorLog2(n: nat): (k: nat)
    requires n >= 1
    ensures Pow2(k) <= n < Pow2(k + 1)
  {
    if n == 1 then 0 else 1 + FloorLog2(n / 2)
  }

  lemma {:induction false} Pow2Monotone(j: nat, k: nat)
    requires j <= k
    ensures Pow2(j) <= Pow2(k)
  {
    if j < k {
      Pow2Monotone(j, k - 1);
    }
  }

  /** n has b binary digits exactly when 2^(b-1) <= n < 2^b. */
  lemma {:induction false} BitLengthBounds(n: nat)
    requires n >= 1
    ensures BitLength(n) >= 1
    ensures Pow2(BitLength(n) - 1) <= n < Pow2(BitLength(n))
  {
    if n > 1 {
      BitLengthBounds(n / 2);
    }
  }

  /** Every 2^k is a power of two and its floor log2 is k. */
  lemma {:induction false} Pow2IsPowerOfTwo(k: nat)
    ensures IsPowerOfTwo(Pow2(k))
    ensures FloorLog2(Pow2(k)) == k
  {
    if k > 0 {
      Pow2IsPowerOfTwo(k - 1);
      assert Pow2(k) / 2 == Pow2(k - 1);
    }
  }

  /** The recursive predicate agrees with the test `2**int(log2(n)) == n` of the builder. */
  lemma {:induction false} IsPowerOfTwoIff(n: nat)
    requires n >= 1
    ensures IsPowerOfTwo(n) <==> Pow2(FloorLog2(n)) == n
  {
    if n > 1 {
      IsPowerOfTwoIff(n / 2);
      if Pow2(FloorLog2(n)) == n {
        assert Pow2(FloorLog2(n / 2)) == n / 2;
      }
    }
  }

  /** A power of two is 2^(its floor log2). */
  lemma {:induction false} PowerOfTwoIsPow2(n: int)
    requires IsPowerOfTwo(n)
    ensures n >= 1 && Pow2(FloorLog2(n)) == n
  {
    if n > 1 {
      PowerOfTwoIsPow2(n / 2);
      IsPowerOfTwoIff(n);
    }
  }

  /** Distinct exponents give distinct powers of two. */
  lemma {:induction false} Pow2Injective(j: nat, k: nat)
    requires Pow2(j) == Pow2(k)
    ensures j == k
  {
    Pow2IsPowerOfTwo(j);
    Pow2IsPowerOfTwo(k);
  }
}
