/** Arithmetic facts the nonlinear proofs of several modules share. */
module Arith {
  /** Multiplication distributes over a sum in its left factor. */
  lemma MulAddRight(a: int, b: int, t: int)
    ensures (a + b) * t == a * t + b * t
  {
  }
}
