/** Facts about integer division shared by the other modules. */
module Arith {

  lemma MulAtLeast(k: int, n: int)
    requires 1 <= k && 0 < n
    ensures n <= k * n
  {
  }

  /** Quotient and remainder are the only pair that fits. */
  lemma DivModUnique(x: int, n: int, q: int, r: int)
    requires 0 <= r < n && x == q * n + r
    ensures x / n == q && x % n == r
  {
    var q', r' := x / n, x % n;
    assert (q - q') * n == r' - r && (q' - q) * n == r - r';
    if q - q' >= 1 { MulAtLeast(q - q', n); }
    if q' - q >= 1 { MulAtLeast(q' - q, n); }
  }

  lemma MulMonotone(q: nat, a: nat, b: nat)
    requires a <= b
    ensures q * a <= q * b
  {
  }

  lemma DivSmaller(n: nat, b: nat)
    requires 2 <= b <= n
    ensures 1 <= n / b < n && n == n / b * b + n % b
  {
    var q := n / b;
    MulMonotone(q, 2, b);
  }
}
