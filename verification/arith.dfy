/** Integer facts shared by the other modules. */
module Arith {

  lemma MulSign(d: int, e: int)
    requires d > 0
    ensures e >= 1 ==> d * e >= d
    ensures e <= -1 ==> d * e <= -d
  {
  }

  /** Quotient and remainder are the only pair that recompose `x`. */
  lemma DivIs(x: int, d: int, q: int, r: int)
    requires d > 0 && x == d * q + r && 0 <= r < d
    ensures x / d == q && x % d == r
  {
    MulSign(d, x / d - q);
    assert d * (x / d - q) == r - x % d;
  }

  lemma MulNext(n: int, d: int)
    ensures (n + 1) * d == n * d + d
  {
  }
}
