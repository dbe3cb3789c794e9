/** Facts about products and remainders that several modules need. */
module Arithmetic {
  lemma MulMono(a: nat, b: nat, c: nat)
    requires a <= b
    ensures a * c <= b * c
  {
  }

  lemma ModUnique(size: nat, q: nat, r: nat)
    requires r < size
    ensures (q * size + r) % size == r
  {
    var n := q * size + r;
    var p, t := n / size, n % size;
    assert n == p * size + t;
    if p > q { MulMono(q + 1, p, size); }
    if p < q { MulMono(p + 1, q, size); }
  }
}
