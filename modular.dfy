/** Index arithmetic shared by the rotation and window models. */
module Modular {

  /** Reduction modulo n of an index below 2n: a cyclic index wraps at most once. */
  lemma ModBelowTwice(x: int, n: int)
    requires 0 <= x < 2 * n
    ensures x % n == if x < n then x else x - n
  {
    var q, r := x / n, x % n;
    assert x == q * n + r && 0 <= r < n;
    if x < n {
      assert q * n < n;
      assert q == 0;
    } else {
      assert q * n > 0 && q * n < 2 * n;
      assert q == 1;
    }
  }
}
