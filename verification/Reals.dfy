/** Laws of real products, named so that proofs can call for one at a time. */
module Reals {
  lemma Regroup(s: real, a: real, b: real)
    ensures s * (a * b) == (s * a) * b == a * (s * b)
  {
  }

  lemma Distribute(a: real, b: real, c: real)
    ensures a * (b + c) == a * b + a * c
    ensures (b + c) * a == b * a + c * a
  {
  }

  lemma DistributeMinus(a: real, b: real, c: real)
    ensures a * (b - c) == a * b - a * c
  {
  }

  lemma SameProduct(s: real, a: real, b: real)
    requires a == b
    ensures s * a == s * b
  {
  }
}
