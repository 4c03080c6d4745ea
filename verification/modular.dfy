/** Facts about Euclidean division by a positive length that the extender's
    proofs rely on: an index shifted by whole copies of the input keeps its
    residue, and the residue/quotient pair advances by one step per index. */
module Modular {

  /** Shifting an index by `copies` whole lengths does not change its residue. */
  lemma {:induction false} ModAfterCopies(copies: nat, len: nat, i: nat)
    requires len > 0
    ensures (copies * len + i) % len == i % len
    decreases copies
  {
    if copies > 0 {
      ModAfterCopies(copies - 1, len, i);
      assert copies * len + i == ((copies - 1) * len + i) + len;
      ModAddLength((copies - 1) * len + i, len);
    }
  }

  /** Adding one length to an index keeps its residue. */
  lemma ModAddLength(i: nat, len: nat)
    requires len > 0
    ensures (i + len) % len == i % len
  {
    var q, r := i / len, i % len;
    assert i + len == (q + 1) * len + r;
    DivModUnique(i + len, len, q + 1, r);
  }

  /** Moving from index `n` to `n + 1`: either the residue wraps to zero and
      the quotient grows by one, or the residue grows by one and the quotient
      stays. */
  lemma DivModStep(n: nat, len: nat)
    requires len > 0
    ensures n % len == len - 1 ==> (n + 1) % len == 0 && (n + 1) / len == n / len + 1
    ensures n % len < len - 1 ==> (n + 1) % len == n % len + 1 && (n + 1) / len == n / len
  {
    var q, r := n / len, n % len;
    assert n == q * len + r;
    if r == len - 1 {
      assert n + 1 == (q + 1) * len + 0;
      DivModUnique(n + 1, len, q + 1, 0);
    } else {
      assert n + 1 == q * len + (r + 1);
      DivModUnique(n + 1, len, q, r + 1);
    }
  }

  /** Quotient and residue are determined by any decomposition `q * len + r`
      with `0 <= r < len`. */
  lemma DivModUnique(n: nat, len: nat, q: nat, r: nat)
    requires len > 0 && r < len && n == q * len + r
    ensures n / len == q && n % len == r
  {
    var q', r' := n / len, n % len;
    assert n == q' * len + r';
    if q < q' {
      MulMonotone(q + 1, q', len);
      assert false;
    } else if q' < q {
      MulMonotone(q' + 1, q, len);
      assert false;
    }
  }

  /** One copy fewer is one length less. */
  lemma MulPred(count: nat, len: nat)
    requires count > 0
    ensures count * len == (count - 1) * len + len
  {
  }

  /** Multiplication by a natural number is monotone. */
  lemma MulMonotone(a: nat, b: nat, len: nat)
    requires a <= b
    ensures a * len <= b * len
  {
  }
}
