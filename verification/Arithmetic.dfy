/** Division of a flattened index by its row length. */
module Arithmetic {

  lemma {:induction false} MultipleAtLeast(k: int, n: int)
    requires k >= 1 && n >= 0
    ensures k * n >= n
    decreases k
  {
    if k > 1 {
      MultipleAtLeast(k - 1, n);
      Distribute(k - 1, 1, n);
    }
  }

  lemma Distribute(a: int, b: int, n: int)
    ensures (a + b) * n == a * n + b * n
  {
  }

  lemma DivModUnique(q: int, d: int, n: int, i: int, r: int)
    requires q * n + i == d * n + r && 0 <= i < n && 0 <= r < n
    ensures q == d && i == r
  {
    if q > d {
      Distribute(q - d, d, n);
      MultipleAtLeast(q - d, n);
    } else if q < d {
      Distribute(d - q, q, n);
      MultipleAtLeast(d - q, n);
    }
  }

  /** Entry i of row q, in rows of n. */
  lemma FlatIndex(q: nat, n: nat, i: nat)
    requires i < n
    ensures (q * n + i) % n == i && (q * n + i) / n == q
  {
    var x := q * n + i;
    DivModUnique(q, x / n, n, i, x % n);
  }
}
