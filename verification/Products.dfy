/** Laws of multiplication that proofs name instead of leaving them to the solver. */
module Products {

  lemma MulMonotone(k: nat, x: int, y: int)
    requires x <= y
    ensures k * x <= k * y
    ensures x * k <= y * k
  {
  }

  lemma Associate(x: int, y: int, z: int)
    ensures (x * y) * z == x * (y * z) == y * (x * z)
    ensures (x * y) * z == (x * z) * y
  {
  }
}
