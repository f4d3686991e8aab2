/** Facts about products and quotients that the other modules share. */
module Arith {

  lemma MulLe(a: nat, b: nat, k: nat)
    requires a <= b
    ensures a * k <= b * k
  {
  }

  lemma MulBoth(a: nat, b: nat, c: nat, d: nat)
    requires a <= b && c <= d
    ensures a * c <= b * d
  {
    assert a * c <= b * c;
    assert b * c <= b * d;
  }

  lemma SameSum(k: nat, q: int, r: nat, q': int, r': nat)
    requires r < k && r' < k && q * k + r == q' * k + r'
    ensures q == q' && r == r'
  {
    var d := q - q';
    assert d * k == q * k - q' * k;
    LargeMultiple(d, k);
  }

  /** A multiple of `k` other than zero is at least `k` away from it. */
  lemma LargeMultiple(d: int, k: int)
    requires k >= 0
    ensures d > 0 ==> d * k >= k
    ensures d < 0 ==> d * k <= -k
  {
    if d > 0 {
      MulBoth(1, d, k, k);
    } else if d < 0 {
      MulBoth(1, -d, k, k);
      assert (-d) * k == -(d * k);
    }
  }

  /** Quotient and remainder are determined by their defining equation. */
  lemma DivUnique(a: int, k: nat, q: int, r: nat)
    requires k > 0 && r < k && a == q * k + r
    ensures a / k == q && a % k == r
  {
    SameSum(k, q, r, a / k, a % k);
  }
}
