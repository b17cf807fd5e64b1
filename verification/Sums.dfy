/** Finite sums of reals, left to right, and what does not depend on their order. */
module Sums {

  /** The sum of `f(v[0]) .. f(v[|v| - 1])`, added in that order. */
  function SumBy(v: seq<real>, f: real -> real): real {
    if v == [] then 0.0 else SumBy(v[..|v| - 1], f) + f(v[|v| - 1])
  }

  function Sum(v: seq<real>): real { SumBy(v, x => x) }

  lemma SumByAppend(v: seq<real>, x: real, f: real -> real)
    ensures SumBy(v + [x], f) == SumBy(v, f) + f(x)
  {
    assert (v + [x])[..|v|] == v;
  }

  lemma {:induction false} SumByConcat(a: seq<real>, b: seq<real>, f: real -> real)
    ensures SumBy(a + b, f) == SumBy(a, f) + SumBy(b, f)
    decreases |b|
  {
    if b == [] {
      assert a + b == a;
    } else {
      assert (a + b)[..|a + b| - 1] == a + b[..|b| - 1];
      SumByConcat(a, b[..|b| - 1], f);
    }
  }

  function Without(v: seq<real>, i: nat): (r: seq<real>)
    requires i < |v|
    ensures |r| == |v| - 1
  {
    v[..i] + v[i + 1..]
  }

  lemma SplitAt(v: seq<real>, i: nat)
    requires i < |v|
    ensures v == v[..i] + [v[i]] + v[i + 1..]
  {
  }

  lemma SumByWithout(v: seq<real>, i: nat, f: real -> real)
    requires i < |v|
    ensures SumBy(v, f) == SumBy(Without(v, i), f) + f(v[i])
  {
    hide SumBy;
    var before, after := v[..i], v[i + 1..];
    SplitAt(v, i);
    SumByConcat(before + [v[i]], after, f);
    SumByAppend(before, v[i], f);
    SumByConcat(before, after, f);
  }

  lemma MultisetWithout(v: seq<real>, i: nat)
    requires i < |v|
    ensures multiset(Without(v, i)) == multiset(v) - multiset{v[i]}
  {
    SplitAt(v, i);
  }

  lemma SameLength(a: seq<real>, b: seq<real>)
    requires multiset(a) == multiset(b)
    ensures |a| == |b|
  {
    assert |a| == |multiset(a)| == |multiset(b)| == |b|;
  }

  lemma Matching(a: seq<real>, b: seq<real>) returns (i: nat)
    requires a != [] && multiset(a) == multiset(b)
    ensures i < |b| && b[i] == a[|a| - 1]
  {
    assert a[|a| - 1] in multiset(b);
    i :| 0 <= i < |b| && b[i] == a[|a| - 1];
  }

  /** Take the last term of one list and its equal out of the other: permutations stay permutations. */
  lemma Peel(a: seq<real>, b: seq<real>, f: real -> real) returns (x: seq<real>, y: seq<real>)
    requires a != [] && multiset(a) == multiset(b)
    ensures multiset(x) == multiset(y) && |x| == |a| - 1
    ensures SumBy(a, f) - SumBy(x, f) == SumBy(b, f) - SumBy(y, f)
  {
    hide SumBy, Without;
    var i := Matching(a, b);
    x, y := Without(a, |a| - 1), Without(b, i);
    MultisetWithout(a, |a| - 1);
    MultisetWithout(b, i);
    SumByWithout(a, |a| - 1, f);
    SumByWithout(b, i, f);
  }

  /** A sum does not depend on the order of its terms. */
  lemma {:induction false} SumByPermuted(a: seq<real>, b: seq<real>, f: real -> real)
    requires multiset(a) == multiset(b)
    ensures |a| == |b| && SumBy(a, f) == SumBy(b, f)
    decreases |a|
  {
    SameLength(a, b);
    if a != [] {
      hide SumBy;
      var x, y := Peel(a, b, f);
      SumByPermuted(x, y, f);
    }
  }
}
