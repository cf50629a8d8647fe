/** Powers of two and products, for the modules that size trees, matrices and page blocks. */
module Arithmetic {
  function Pow2(k: nat): (p: nat)
    ensures p >= 1
  {
    if k == 0 then 1 else 2 * Pow2(k - 1)
  }

  ghost predicate IsPowerOfTwo(x: nat) {
    exists k: nat :: x == Pow2(k)
  }

  lemma PowerOfTwo(k: nat)
    ensures IsPowerOfTwo(Pow2(k))
  {
  }

  lemma {:induction false} Pow2Monotone(j: nat, k: nat)
    requires j <= k
    ensures Pow2(j) <= Pow2(k)
    ensures j < k ==> Pow2(j) < Pow2(k)
  {
    if j < k {
      Pow2Monotone(j, k - 1);
    }
  }

  lemma MulMonotone(x: int, y: int, n: nat)
    requires x <= y
    ensures x * n <= y * n
  {
  }

  lemma OneMore(n: int, w: int)
    ensures (n + 1) * w == n * w + w
  {
  }

  lemma DivModInside(p: nat, q: nat, x: nat)
    requires x < p * q
    ensures q > 0 && x / q < p && x % q < q && x / q * q + x % q == x
  {
    if p <= x / q {
      MulMonotone(p, x / q, q);
    }
  }

  /** The digits of a number below p * q * w. */
  lemma DivModTwice(p: nat, q: nat, w: nat, x: nat) returns (i: nat, j: nat, k: nat)
    requires x < p * q * w
    ensures i < p && j < q && k < w && (i * q + j) * w + k == x
  {
    MulMonotone(0, p, q);
    DivModInside(p * q, w, x);
    var y := x / w;
    DivModInside(p, q, y);
    i, j, k := y / q, y % q, x % w;
    assert i * q + j == y;
  }

  lemma OffsetBound(p: nat, q: nat, i: nat, r: nat)
    requires i < p && r < q
    ensures i * q + r < p * q
  {
    MulMonotone(i + 1, p, q);
  }

  /** Quotient and remainder determine a number. */
  lemma OffsetInjective(w: nat, i: nat, r: nat, i': nat, r': nat)
    requires r < w && r' < w && i * w + r == i' * w + r'
    ensures i == i' && r == r'
  {
    if i < i' {
      MulMonotone(i + 1, i', w);
    } else if i' < i {
      MulMonotone(i' + 1, i, w);
    }
  }
}
