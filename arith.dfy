/** Facts about multiplication that the solver does not find on its own. */
module Arith {
  /** Multiplying by a non-negative factor keeps the order. */
  lemma MulLe(x: int, y: int, m: int)
    requires x <= y && m >= 0
    ensures x * m <= y * m
  {
    assert y * m == x * m + (y - x) * m;
  }
}
