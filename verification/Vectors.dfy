/** Vectors of three reals, and the finite sums of vectors the integrator is built from. */
module Vectors {
  import opened Reals

  datatype Vec = Vec(x: real, y: real, z: real)

  const ZERO := Vec(0.0, 0.0, 0.0)

  function Add(a: Vec, b: Vec): Vec { Vec(a.x + b.x, a.y + b.y, a.z + b.z) }

  function Sub(a: Vec, b: Vec): Vec { Vec(a.x - b.x, a.y - b.y, a.z - b.z) }

  function Neg(a: Vec): Vec { Vec(-a.x, -a.y, -a.z) }

  function Scale(s: real, a: Vec): Vec { Vec(s * a.x, s * a.y, s * a.z) }

  function Minor(a: real, b: real, c: real, d: real): real { a * b - c * d }

  function Cross(a: Vec, b: Vec): Vec {
    Vec(Minor(a.y, b.z, a.z, b.y), Minor(a.z, b.x, a.x, b.z), Minor(a.x, b.y, a.y, b.x))
  }

  function NormSquared(a: Vec): real { a.x * a.x + a.y * a.y + a.z * a.z }

  // ---- components of a cross product --------------------------------------------------

  /** A factor of one component of a cross product, taken into either vector. */
  lemma MinorScale(s: real, m: real, a: real, b: real, c: real, d: real)
    requires m == Minor(a, b, c, d)
    ensures s * m == Minor(a, s * b, c, s * d) == Minor(s * a, b, s * c, d)
  {
    SameProduct(s, m, a * b - c * d);
    DistributeMinus(s, a * b, c * d);
    Regroup(s, a, b);
    Regroup(s, c, d);
  }

  lemma MinorAdd(a: real, b: real, b': real, c: real, d: real, d': real)
    ensures Minor(a, b + b', c, d + d') == Minor(a, b, c, d) + Minor(a, b', c, d')
    ensures Minor(b + b', a, d + d', c) == Minor(b, a, d, c) + Minor(b', a, d', c)
  {
    Distribute(a, b, b');
    Distribute(c, d, d');
  }

  // ---- sums and scaling ---------------------------------------------------------------

  lemma ScaleAdd(s: real, a: Vec, b: Vec)
    ensures Scale(s, Add(a, b)) == Add(Scale(s, a), Scale(s, b))
  {
    Distribute(s, a.x, b.x);
    Distribute(s, a.y, b.y);
    Distribute(s, a.z, b.z);
  }

  lemma ScaleSub(s: real, a: Vec, b: Vec)
    ensures Scale(s, Sub(a, b)) == Sub(Scale(s, a), Scale(s, b))
  {
    DistributeMinus(s, a.x, b.x);
    DistributeMinus(s, a.y, b.y);
    DistributeMinus(s, a.z, b.z);
  }

  lemma ScaleScale(s: real, t: real, a: Vec)
    ensures Scale(s, Scale(t, a)) == Scale(s * t, a)
  {
    Regroup(s, t, a.x);
    Regroup(s, t, a.y);
    Regroup(s, t, a.z);
  }

  lemma ScaleSwap(s: real, t: real, a: Vec)
    ensures Scale(s, Scale(t, a)) == Scale(t, Scale(s, a))
  {
    Regroup(s, t, a.x);
    Regroup(s, t, a.y);
    Regroup(s, t, a.z);
  }

  lemma ScaleSum(s: real, t: real, a: Vec)
    ensures Add(Scale(s, a), Scale(t, a)) == Scale(s + t, a)
  {
    Distribute(a.x, s, t);
    Distribute(a.y, s, t);
    Distribute(a.z, s, t);
  }

  lemma ScaleNeg(s: real, a: Vec)
    ensures Scale(s, Neg(a)) == Neg(Scale(s, a))
  {
  }

  lemma NegNeg(a: Vec)
    ensures Neg(Neg(a)) == a
  {
  }

  lemma NegZero()
    ensures Neg(ZERO) == ZERO
  {
  }

  lemma NegNorm(a: Vec)
    ensures NormSquared(Neg(a)) == NormSquared(a)
  {
  }

  lemma SubOpposite(a: Vec, b: Vec)
    ensures Sub(a, b) == Neg(Sub(b, a))
  {
  }

  lemma AddSwap(a: Vec, b: Vec, c: Vec, d: Vec)
    ensures Add(Add(a, b), Add(c, d)) == Add(Add(a, c), Add(b, d))
  {
  }

  lemma AddZero(a: Vec)
    ensures Add(a, ZERO) == a
  {
  }

  lemma ScaleZero(s: real, a: Vec)
    ensures Scale(s, ZERO) == ZERO && Scale(0.0, a) == ZERO
  {
  }

  // ---- cross products -----------------------------------------------------------------

  lemma CrossAdd(a: Vec, b: Vec, c: Vec)
    ensures Cross(a, Add(b, c)) == Add(Cross(a, b), Cross(a, c))
  {
    MinorAdd(a.y, b.z, c.z, a.z, b.y, c.y);
    MinorAdd(a.z, b.x, c.x, a.x, b.z, c.z);
    MinorAdd(a.x, b.y, c.y, a.y, b.x, c.x);
    hide Minor;
  }

  lemma CrossAddLeft(a: Vec, b: Vec, c: Vec)
    ensures Cross(Add(a, b), c) == Add(Cross(a, c), Cross(b, c))
  {
    MinorAdd(c.z, a.y, b.y, c.y, a.z, b.z);
    MinorAdd(c.x, a.z, b.z, c.z, a.x, b.x);
    MinorAdd(c.y, a.x, b.x, c.x, a.y, b.y);
    hide Minor;
  }

  lemma CrossScale(s: real, a: Vec, b: Vec)
    ensures Cross(a, Scale(s, b)) == Scale(s, Cross(a, b))
  {
    MinorScale(s, Cross(a, b).x, a.y, b.z, a.z, b.y);
    MinorScale(s, Cross(a, b).y, a.z, b.x, a.x, b.z);
    MinorScale(s, Cross(a, b).z, a.x, b.y, a.y, b.x);
    hide Minor;
  }

  lemma CrossScaleLeft(s: real, a: Vec, b: Vec)
    ensures Cross(Scale(s, a), b) == Scale(s, Cross(a, b))
  {
    MinorScale(s, Cross(a, b).x, a.y, b.z, a.z, b.y);
    MinorScale(s, Cross(a, b).y, a.z, b.x, a.x, b.z);
    MinorScale(s, Cross(a, b).z, a.x, b.y, a.y, b.x);
    hide Minor;
  }

  lemma CrossNeg(a: Vec, b: Vec)
    ensures Cross(a, Neg(b)) == Neg(Cross(a, b))
  {
  }

  lemma CrossSelf(a: Vec)
    ensures Cross(a, a) == ZERO
  {
  }

  /** A vector crossed with the displacement to another is the same seen from either end. */
  lemma CrossDisplacement(a: Vec, b: Vec)
    ensures Cross(a, Sub(b, a)) == Cross(b, Sub(b, a))
  {
  }

  /** The sum of `T(i, 0) .. T(i, k - 1)`. */
  ghost function RowSum(T: (nat, nat) -> Vec, i: nat, k: nat): Vec {
    if k == 0 then ZERO else Add(RowSum(T, i, k - 1), T(i, k - 1))
  }

  /** The sum of `T(0, j) .. T(k - 1, j)`. */
  ghost function ColumnSum(T: (nat, nat) -> Vec, j: nat, k: nat): Vec {
    if k == 0 then ZERO else Add(ColumnSum(T, j, k - 1), T(k - 1, j))
  }

  /** The sum of `T(i, j)` over `i < a` and `j < b`. */
  ghost function RectangleSum(T: (nat, nat) -> Vec, a: nat, b: nat): Vec {
    if a == 0 then ZERO else Add(RectangleSum(T, a - 1, b), RowSum(T, a - 1, b))
  }

  ghost predicate Antisymmetric(T: (nat, nat) -> Vec, n: nat) {
    forall i: nat, j: nat :: i < n && j < n ==> T(i, j) == Neg(T(j, i))
  }

  lemma {:induction false} WidenRectangle(T: (nat, nat) -> Vec, a: nat, b: nat)
    ensures RectangleSum(T, a, b + 1) == Add(RectangleSum(T, a, b), ColumnSum(T, b, a))
  {
    if a != 0 {
      WidenRectangle(T, a - 1, b);
    }
  }

  lemma {:induction false} ColumnMirrorsRow(T: (nat, nat) -> Vec, n: nat, k: nat)
    requires Antisymmetric(T, n + 1) && k <= n
    ensures ColumnSum(T, n, k) == Neg(RowSum(T, n, k))
  {
    if k != 0 {
      ColumnMirrorsRow(T, n, k - 1);
      assert T(k - 1, n) == Neg(T(n, k - 1));
    }
  }

  /** Action and reaction cancel: an antisymmetric double sum is zero. */
  lemma {:induction false} AntisymmetricSumVanishes(T: (nat, nat) -> Vec, n: nat)
    requires Antisymmetric(T, n)
    ensures RectangleSum(T, n, n) == ZERO
  {
    if n != 0 {
      AntisymmetricSumVanishes(T, n - 1);
      WidenRectangle(T, n - 1, n - 1);
      ColumnMirrorsRow(T, n - 1, n - 1);
      assert T(n - 1, n - 1) == Neg(T(n - 1, n - 1));
    }
  }
}
