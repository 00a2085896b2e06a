/** Facts about division that the solver does not find on its own. */
module Arithmetic {

  lemma MulMonotone(a: int, b: int, d: int)
    requires a <= b && 0 <= d
    ensures a * d <= b * d
  {
  }

  /** A quotient and a remainder in range are the quotient and the remainder. */
  lemma DivModUnique(q: int, r: int, d: int)
    requires 0 <= r < d
    ensures (q * d + r) / d == q && (q * d + r) % d == r
  {
    var x := q * d + r;
    var e := x / d;
    assert x == e * d + x % d;
    if e < q {
      MulMonotone(e + 1, q, d);
    } else if q < e {
      MulMonotone(q + 1, e, d);
    }
  }

  lemma Distribute(a: int, b: int, c: int)
    ensures (a + b) * c == a * c + b * c
  {
  }

  lemma Associate(a: int, b: int, c: int)
    ensures (a * b) * c == a * (b * c)
  {
  }

  /** Items of size `s`, `n` to a block: item `index` starts in block `index / n`, after `index % n` others. */
  lemma ItemInBlock(index: nat, n: int, s: int)
    requires n > 0 && s > 0
    ensures n * s > 0 && 0 <= (index % n) * s && (index % n) * s + s <= n * s
    ensures index * s == (index / n) * (n * s) + (index % n) * s
    ensures (index * s) / (n * s) == index / n
  {
    var q, r := index / n, index % n;
    assert index == q * n + r;
    Distribute(q * n, r, s);
    Associate(q, n, s);
    MulMonotone(0, r, s);
    MulMonotone(r + 1, n, s);
    Distribute(r, 1, s);
    MulMonotone(1, n, s);
    DivModUnique(q, r * s, n * s);
  }
}
