/** Facts about multiplication and division of naturals that the solver does
    not find unaided. */
module Arith {

  lemma MulMonotone(a: nat, b: nat, n: nat)
    ensures a <= b ==> a * n <= b * n
  {
  }

  /** Quotients bracketed by `p * n <= a` and `b < (q + 1) * n` keep the order of `a <= b`. */
  lemma DivisionMonotone(a: nat, b: nat, p: nat, q: nat, n: nat)
    requires 0 < n && a <= b
    requires p * n <= a && b < (q + 1) * n
    ensures p <= q
  {
    MulMonotone(q + 1, p, n);
  }
}
