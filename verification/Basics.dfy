/** What several components share. */
module Basics {
  datatype Option<+T> = None | Some(value: T)

  function Min(a: int, b: int): int {
    if a <= b then a else b
  }

  function Max(a: int, b: int): int {
    if a >= b then a else b
  }

  lemma MulMono(a: nat, b: nat, w: nat)
    requires a <= b
    ensures a * w <= b * w
  {
  }

  /** Division and remainder of a number known to lie in the `k`-th stretch of length `s`. */
  lemma Quotient(s: nat, k: nat, x: nat)
    requires s > 0 && s * k <= x < s * (k + 1)
    ensures x / s == k && x % s == x - s * k
  {
    assert x - s * k == x % s + s * (x / s - k);
    if x / s < k {
      MulMono(x / s + 1, k, s);
    } else if k < x / s {
      MulMono(k + 1, x / s, s);
    }
  }
}
