/** Nonlinear arithmetic facts shared by the index and tile computations. */
module Arith {

  /** Products of non-negative numbers are monotone. */
  lemma MulMono(a: nat, b: nat, c: nat, d: nat)
    requires a <= b && c <= d
    ensures a * c <= b * d
  {
    assert b * c - a * c == (b - a) * c;
    assert b * d - b * c == b * (d - c);
  }
}
