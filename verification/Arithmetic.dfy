/** Facts of non-linear arithmetic that the models share. */
module Arithmetic {

  lemma MulStep(a: int, s: int)
    ensures (a + 1) * s == a * s + s
  {
  }

  lemma MulMonotone(a: int, b: int, s: nat)
    requires a <= b
    ensures a * s <= b * s
  {
  }

  lemma MulAtLeast(t: int, d: int)
    requires d > 0
    ensures t >= 1 ==> t * d >= d
    ensures t <= -1 ==> t * d <= -d
  {
  }

  /** Quotient and remainder are unique. */
  lemma ModUnique(n: int, d: int, q: int, r: int)
    requires d > 0 && 0 <= r < d && n == q * d + r
    ensures n % d == r && n / d == q
  {
    var t := q - n / d;
    assert t * d == n % d - r by { assert t * d == q * d - (n / d) * d; }
    MulAtLeast(t, d);
  }

  /** The remainder by a product, from the remainder and the quotient by one of its factors. */
  lemma ModSplit(n: nat, k: nat, d: nat)
    requires k > 0 && d > 0
    ensures n % k + k * (n / k % d) == n % (k * d)
  {
    var q, r := n / k / d, n / k % d;
    assert n == q * (k * d) + (k * r + n % k) by {
      assert n / k == d * q + r;
      assert k * (d * q + r) == q * (k * d) + k * r;
    }
    assert k * r + k <= k * d by { assert k * (r + 1) == k * r + k; MulMonotone(r + 1, d, k); }
    assert 0 <= k * r by { MulMonotone(0, r, k); }
    ModUnique(n, k * d, q, k * r + n % k);
  }
}
