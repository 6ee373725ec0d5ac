/** The 64-bit candidate masks of src/sql_text.rs, as numbers read bit by bit. */
module BitMask {

  type Mask = nat

  /** `mask & (1 << j) != 0`. */
  predicate Has(mask: Mask, j: nat)
    decreases j
  {
    if j == 0 then mask % 2 == 1 else Has(mask / 2, j - 1)
  }

  /** `mask | (1 << j)`. */
  function With(mask: Mask, j: nat): Mask
    decreases j
  {
    if j == 0 then (if mask % 2 == 1 then mask else mask + 1) else 2 * With(mask / 2, j - 1) + mask % 2
  }

  function Pow2(n: nat): nat {
    if n == 0 then 1 else 2 * Pow2(n - 1)
  }

  lemma {:induction false} HasWith(mask: Mask, j: nat, k: nat)
    ensures Has(With(mask, j), k) <==> k == j || Has(mask, k)
    decreases j
  {
    if j > 0 {
      assert With(mask, j) / 2 == With(mask / 2, j - 1);
      if k > 0 {
        HasWith(mask / 2, j - 1, k - 1);
      }
    } else {
      assert With(mask, 0) / 2 == mask / 2;
    }
  }

  lemma {:induction false} ZeroHasNone(j: nat)
    ensures !Has(0, j)
  {
    if j > 0 {
      ZeroHasNone(j - 1);
    }
  }

  /** A mask is determined by its bits. */
  lemma {:induction false} SameBitsSameMask(a: Mask, b: Mask)
    requires forall j: nat :: Has(a, j) <==> Has(b, j)
    ensures a == b
    decreases a + b
  {
    if a > 0 || b > 0 {
      forall j: nat
        ensures Has(a / 2, j) <==> Has(b / 2, j)
      {
        assert Has(a, j + 1) <==> Has(b, j + 1);
      }
      SameBitsSameMask(a / 2, b / 2);
      assert Has(a, 0) <==> Has(b, 0);
    }
  }

  lemma {:induction false} NonZeroHasBit(mask: Mask) returns (j: nat)
    requires mask != 0
    ensures Has(mask, j)
  {
    if mask % 2 == 1 {
      j := 0;
    } else {
      var k := NonZeroHasBit(mask / 2);
      j := k + 1;
    }
  }

  /** Setting one of the low `n` bits keeps a mask of `n` bits. */
  lemma {:induction false} WithFits(mask: Mask, j: nat, n: nat)
    requires mask < Pow2(n) && j < n
    ensures With(mask, j) < Pow2(n)
    decreases j
  {
    if j > 0 {
      WithFits(mask / 2, j - 1, n - 1);
    }
  }
}
