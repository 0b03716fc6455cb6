/** Small facts about products and quotients of naturals. */
module Arithmetic {
  lemma MulMono(a: nat, b: nat, d: nat)
    requires a <= b
    ensures a * d <= b * d
  {
  }

  lemma MulStrict(a: nat, b: nat, d: nat)
    requires a < b && d > 0
    ensures a * d < b * d
  {
  }

  lemma QuotientIs(x: nat, d: nat, k: nat)
    requires d > 0 && k * d <= x < k * d + d
    ensures x / d == k
  {
    var q := x / d;
    assert q * d <= x < q * d + d;
    if q < k {
      MulMono(q + 1, k, d);
    } else if k < q {
      MulMono(k + 1, q, d);
    }
  }

  lemma QuotientMono(x: nat, y: nat, d: nat)
    requires d > 0 && x <= y
    ensures x / d <= y / d
  {
    var q, r := x / d, y / d;
    assert q * d <= x && y < r * d + d;
    if r < q {
      MulMono(r + 1, q, d);
    }
  }

  lemma QuotientBelow(x: nat, d: nat, k: nat)
    requires d > 0 && x < k * d
    ensures x / d < k
  {
    var q := x / d;
    assert q * d <= x;
    if k <= q {
      MulMono(k, q, d);
    }
  }
}
