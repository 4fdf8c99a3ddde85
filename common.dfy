/** Types and facts shared by the containers and the election ledger. */
module Common {

  /** The C `uint64_t`. */
  newtype uint64 = x: int | 0 <= x < 0x1_0000_0000_0000_0000

  /** A C pointer result that may be NULL: `None` stands for NULL. */
  datatype Option<T> = None | Some(value: T)

  /** n is 1, 2, 4, 8, ... */
  predicate IsPow2(n: nat)
  {
    if n <= 1 then n == 1 else n % 2 == 0 && IsPow2(n / 2)
  }

  /** p is the least power of two that is at least n. */
  ghost predicate IsLeastPow2AtLeast(p: nat, n: nat)
  {
    IsPow2(p) && n <= p && forall q :: IsPow2(q) && n <= q ==> p <= q
  }

  lemma DoublePow2(p: nat)
    requires IsPow2(p)
    ensures IsPow2(2 * p)
  {
    assert (2 * p) / 2 == p;
  }

  /** A power of two above half of another power of two is at least that one. */
  lemma {:induction false} Pow2AboveHalf(p: nat, q: nat)
    requires IsPow2(p) && IsPow2(q) && p / 2 < q
    ensures p <= q
  {
    if p > 1 && q > 1 {
      assert 2 * (p / 2) == p;
      assert 2 * (q / 2) == q;
      assert (p / 2) / 2 < q / 2;
      Pow2AboveHalf(p / 2, q / 2);
    }
  }

  /**
   * The loop `p = 1; while (p < n) p <<= 1;` that both the hash table
   * (clamp_capacity) and the selection tree (next_pow2) run ends in the least
   * power of two that is at least n.
   */
  lemma LeastPow2Step(p: nat, n: nat)
    requires IsPow2(p) && n <= p && (p == 1 || p / 2 < n)
    ensures IsLeastPow2AtLeast(p, n)
  {
    forall q | IsPow2(q) && n <= q
      ensures p <= q
    {
      if p != 1 {
        Pow2AboveHalf(p, q);
      }
    }
  }
}
