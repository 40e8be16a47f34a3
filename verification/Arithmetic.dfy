/** Small facts about products and quotients that the solver is better told than left to find. */
module Arithmetic {
  lemma MulMonotone(a: int, b: int, k: int)
    requires a <= b && 0 <= k
    ensures a * k <= b * k
  {
  }

  lemma CancelFactor(a: int, b: int, k: int)
    requires k > 0 && a * k == b * k
    ensures a == b
  {
  }

  lemma DivBounds(a: int, b: int)
    requires b > 0
    ensures (a / b) * b <= a < (a / b + 1) * b
  {
  }
}
