/** One-pass statistics over trial outputs, by Welford's recurrence, over exact reals. */
module MonteCarlo {
  import opened Reals
  import opened Results
  import opened Sums

  /** The largest finite float64, 2^1024 - 2^971. */
  const MAX_FLOAT64 := (Pow2(1024) - Pow2(971)) as real

  function Pow2(k: nat): int { if k == 0 then 1 else 2 * Pow2(k - 1) }

  /** Every value that could be read is a finite float64. */
  ghost predicate InFloatRange(trials: seq<Option<real>>) {
    forall i :: 0 <= i < |trials| && trials[i].Some? ==> -MAX_FLOAT64 <= trials[i].value <= MAX_FLOAT64
  }

  // ---- the statistics meant -----------------------------------------------------------

  function Mean(v: seq<real>): real
    requires v != []
  {
    Sum(v) / |v| as real
  }

  function Square(x: real): real { x * x }

  /** The sum of squared distances from `c`. */
  function Spread(v: seq<real>, c: real): real { SumBy(v, x => Square(x - c)) }

  function Variance(v: seq<real>): real
    requires v != []
  {
    Spread(v, Mean(v)) / |v| as real
  }

  ghost predicate IsLeast(m: real, v: seq<real>) { m in v && forall i :: 0 <= i < |v| ==> m <= v[i] }

  ghost predicate IsGreatest(m: real, v: seq<real>) { m in v && forall i :: 0 <= i < |v| ==> v[i] <= m }

  // ---- Welford's recurrence -----------------------------------------------------------

  lemma {:induction false} SpreadExpands(v: seq<real>, c: real)
    ensures Spread(v, c) == SumBy(v, Square) - 2.0 * c * Sum(v) + |v| as real * (c * c)
  {
    if v != [] {
      var n, x, init := |v|, v[|v| - 1], v[..|v| - 1];
      SpreadExpands(init, c);
      assert Square(x - c) == Square(x) - 2.0 * c * x + c * c by {
        SquareOfDifference(x, c);
      }
      assert 2.0 * c * Sum(v) == 2.0 * c * Sum(init) + 2.0 * c * x;
      assert n as real * (c * c) == (n - 1) as real * (c * c) + c * c;
    }
  }

  lemma SquareOfDifference(x: real, c: real)
    ensures Square(x - c) == Square(x) - 2.0 * c * x + c * c
  {
  }

  /** One update of the running mean and the running sum of squares, `k` counting the new value. */
  lemma WelfordStep(v: seq<real>, x: real, mean: real, mean': real)
    requires v != [] ==> mean == Mean(v)
    requires v == [] ==> mean == 0.0
    requires mean' == mean + (x - mean) / (|v| + 1) as real
    ensures mean' == Mean(v + [x])
    ensures Spread(v + [x], mean') == Spread(v, mean) + (x - mean) * (x - mean')
  {
    var n := |v| as real;
    SumByAppend(v, x, y => y);
    assert n * mean == Sum(v);
    assert (n + 1.0) * mean' == n * mean + x by {
      assert (n + 1.0) * ((x - mean) / (n + 1.0)) == x - mean;
    }
    MeanFromProduct(v + [x], mean');
    SumByAppend(v, x, Square);
    SpreadExpands(v, mean);
    SpreadExpands(v + [x], mean');
    WelfordAlgebra(n, mean, mean', x, SumBy(v, Square), Sum(v));
  }

  lemma MeanFromProduct(v: seq<real>, m: real)
    requires v != [] && |v| as real * m == Sum(v)
    ensures m == Mean(v)
  {
  }

  lemma WelfordAlgebra(n: real, m: real, m': real, x: real, squares: real, sum: real)
    requires sum == n * m && (n + 1.0) * m' == sum + x
    ensures squares + x * x - 2.0 * m' * (sum + x) + (n + 1.0) * (m' * m')
         == squares - 2.0 * m * sum + n * (m * m) + (x - m) * (x - m')
  {
    assert (n + 1.0) * (m' * m') == m' * (sum + x) by { assert (n + 1.0) * (m' * m') == m' * ((n + 1.0) * m'); }
    assert n * (m * m) == m * sum by { assert n * (m * m) == m * (n * m); }
    assert (x - m) * (x - m') == x * x - x * m' - m * x + m * m';
    assert m * ((n + 1.0) * m') == m * (sum + x);
    assert m * ((n + 1.0) * m') == m' * (n * m) + m * m';
  }

  // ---- bounds -------------------------------------------------------------------------

  lemma {:induction false} SumBounds(v: seq<real>, lo: real, hi: real)
    requires forall i :: 0 <= i < |v| ==> lo <= v[i] <= hi
    ensures |v| as real * lo <= Sum(v) <= |v| as real * hi
  {
    if v != [] {
      SumBounds(v[..|v| - 1], lo, hi);
      assert |v| as real * lo == (|v| - 1) as real * lo + lo;
      assert |v| as real * hi == (|v| - 1) as real * hi + hi;
    }
  }

  lemma MeanBetween(v: seq<real>, lo: real, hi: real)
    requires v != [] && forall i :: 0 <= i < |v| ==> lo <= v[i] <= hi
    ensures lo <= Mean(v) <= hi
  {
    SumBounds(v, lo, hi);
    DivideBounds(Sum(v), |v| as real, lo, hi);
  }

  lemma DivideBounds(s: real, n: real, lo: real, hi: real)
    requires n > 0.0 && n * lo <= s <= n * hi
    ensures lo <= s / n <= hi
  {
    var q := s / n;
    assert n * q == s;
    Cancel(n, lo, q);
    Cancel(n, q, hi);
  }

  lemma Cancel(n: real, a: real, b: real)
    requires n > 0.0 && n * a <= n * b
    ensures a <= b
  {
    if a > b {
      ProductPositive(n, a - b);
    }
  }

  lemma ProductPositive(a: real, b: real)
    requires a > 0.0 && b > 0.0
    ensures a * b > 0.0
  {
  }

  lemma {:induction false} SpreadNonNegative(v: seq<real>, c: real)
    ensures Spread(v, c) >= 0.0
  {
    if v != [] {
      SpreadNonNegative(v[..|v| - 1], c);
      SquareNonNegative(v[|v| - 1] - c);
    }
  }

  lemma SquareNonNegative(x: real)
    ensures Square(x) >= 0.0
  {
  }

  /** A value between two ends is below the chord of its square. */
  lemma SquareBelowChord(x: real, lo: real, hi: real)
    requires lo <= x <= hi
    ensures Square(x) <= (lo + hi) * x - lo * hi
  {
    ProductNonNegative(hi - x, x - lo);
    assert (hi - x) * (x - lo) == (lo + hi) * x - x * x - lo * hi;
  }

  lemma ProductNonNegative(a: real, b: real)
    requires a >= 0.0 && b >= 0.0
    ensures a * b >= 0.0
  {
  }

  lemma OneMore(k: nat, c: real)
    ensures (k + 1) as real * c == k as real * c + c
  {
  }

  lemma {:induction false} SquaresBounded(v: seq<real>, lo: real, hi: real)
    requires forall i :: 0 <= i < |v| ==> lo <= v[i] <= hi
    ensures SumBy(v, Square) <= (lo + hi) * Sum(v) - |v| as real * (lo * hi)
  {
    hide Square;
    if v != [] {
      var x, init := v[|v| - 1], v[..|v| - 1];
      SquaresBounded(init, lo, hi);
      SquareBelowChord(x, lo, hi);
      Distribute(lo + hi, Sum(init), x);
      OneMore(|init|, lo * hi);
    }
  }

  /** The population variance lies between zero and (max - mean)(mean - min). */
  lemma VarianceBounds(v: seq<real>, lo: real, hi: real)
    requires v != [] && forall i :: 0 <= i < |v| ==> lo <= v[i] <= hi
    ensures 0.0 <= Variance(v) <= (hi - Mean(v)) * (Mean(v) - lo)
  {
    hide SumBy;
    var n, m := |v| as real, Mean(v);
    SpreadNonNegative(v, m);
    SquaresBounded(v, lo, hi);
    SpreadExpands(v, m);
    assert Sum(v) == n * m;
    hide Spread, Sum, Mean, Square;
    BhatiaDavis(n, m, lo, hi, Sum(v), SumBy(v, Square), Spread(v, m));
    DivideBounds(Spread(v, m), n, 0.0, (hi - m) * (m - lo));
  }

  lemma BhatiaDavis(n: real, m: real, lo: real, hi: real, sum: real, squares: real, spread: real)
    requires sum == n * m && squares <= (lo + hi) * sum - n * (lo * hi)
    requires spread == squares - 2.0 * m * sum + n * (m * m)
    ensures spread <= n * ((hi - m) * (m - lo))
  {
    assert 2.0 * m * sum == 2.0 * (n * (m * m));
    assert (lo + hi) * sum == n * ((lo + hi) * m);
    Chord(m, lo, hi);
    Distribute(n, (lo + hi) * m - lo * hi, -(m * m));
    Distribute(n, (lo + hi) * m, -(lo * hi));
  }

  lemma Chord(m: real, lo: real, hi: real)
    ensures (lo + hi) * m - lo * hi - m * m == (hi - m) * (m - lo)
  {
  }

  // ---- order --------------------------------------------------------------------------

  /** The same trials in another order give the same count, mean, variance and extremes. */
  lemma OrderIrrelevant(a: seq<real>, b: seq<real>, least: real, greatest: real)
    requires a != [] && multiset(a) == multiset(b)
    ensures |a| == |b| && b != [] && Mean(a) == Mean(b) && Variance(a) == Variance(b)
    ensures IsLeast(least, a) <==> IsLeast(least, b)
    ensures IsGreatest(greatest, a) <==> IsGreatest(greatest, b)
  {
    SumByPermuted(a, b, x => x);
    SumByPermuted(a, b, x => Square(x - Mean(a)));
    SameMembers(a, b);
    SameMembers(b, a);
  }

  lemma SameMembers(a: seq<real>, b: seq<real>)
    requires multiset(a) == multiset(b)
    ensures forall i :: 0 <= i < |a| ==> a[i] in b
  {
    forall i | 0 <= i < |a| ensures a[i] in b {
      assert a[i] in multiset(a);
    }
  }

  /** The bound is reached by two trials: they are one deviation from their mean on either side. */
  lemma VarianceOfTwo(a: real, b: real)
    ensures Mean([a, b]) == (a + b) / 2.0 && Variance([a, b]) == (a - b) / 2.0 * ((a - b) / 2.0)
  {
    var m := (a + b) / 2.0;
    SumOfTwo(a, b, x => x);
    assert Mean([a, b]) == m;
    SumOfTwo(a, b, x => Square(x - Mean([a, b])));
    assert Square(a - m) == (a - b) / 2.0 * ((a - b) / 2.0) && Square(b - m) == (a - b) / 2.0 * ((a - b) / 2.0);
  }

  lemma SumOfTwo(a: real, b: real, f: real -> real)
    ensures SumBy([a, b], f) == f(a) + f(b)
  {
    SumByAppend([], a, f);
    SumByAppend([a], b, f);
    assert [] + [a] == [a] && [a] + [b] == [a, b];
  }

  // ---- the code -----------------------------------------------------------------------

  datatype Interval = Interval(level: real, lower: real, upper: real)

  datatype Stats = Stats(
    mean: real, count: nat, min: real, max: real,
    variance: Option<real>, stdDev: Option<real>, interval: Option<Interval>)

  datatype AggregateError = MissingOutputField | BadTrial(index: nat) | NoTrials

  function LookupZScore(level: real): real {
    if level == 0.80 then 1.282
    else if level == 0.85 then 1.440
    else if level == 0.90 then 1.645
    else if level == 0.95 then 1.960
    else if level == 0.99 then 2.576
    else if level >= 0.99 then 2.576
    else if level >= 0.95 then 1.960 + (level - 0.95) / (0.99 - 0.95) * (2.576 - 1.960)
    else if level >= 0.90 then 1.645 + (level - 0.90) / (0.95 - 0.90) * (1.960 - 1.645)
    else 1.282
  }

  lemma ZScoreRange(level: real)
    ensures 1.282 <= LookupZScore(level) <= 2.576
  {
  }

  /** The point at `level` on the straight line through two points. */
  function Interpolated(level: real, low: real, atLow: real, high: real, atHigh: real): real
    requires low != high
  {
    atLow + (level - low) / (high - low) * (atHigh - atLow)
  }

  /**
   * The quantiles of the table at its own levels, straight lines between 90, 95 and 99%, the last value
   * above, and the value of 80% below except at 85%.
   */
  lemma ZScoreTable(level: real)
    ensures LookupZScore(0.80) == 1.282 && LookupZScore(0.85) == 1.440 && LookupZScore(0.90) == 1.645
    ensures LookupZScore(0.95) == 1.960 && LookupZScore(0.99) == 2.576
    ensures 0.90 <= level <= 0.95 ==> LookupZScore(level) == Interpolated(level, 0.90, 1.645, 0.95, 1.960)
    ensures 0.95 <= level <= 0.99 ==> LookupZScore(level) == Interpolated(level, 0.95, 1.960, 0.99, 2.576)
    ensures level > 0.99 ==> LookupZScore(level) == LookupZScore(0.99)
    ensures level < 0.90 && level != 0.85 ==> LookupZScore(level) == LookupZScore(0.80)
  {
  }

  /** From 90 to 99% a higher level asks for a strictly wider interval; above, it asks for the same one. */
  lemma ZScoreIncreases(a: real, b: real)
    requires 0.90 <= a < b
    ensures LookupZScore(a) <= LookupZScore(b)
    ensures b <= 0.99 ==> LookupZScore(a) < LookupZScore(b)
  {
    ZScoreTable(a);
    ZScoreTable(b);
  }

  /** A higher level gets a smaller value exactly from 85%, which is in the table, to one below 90%, which is not. */
  lemma ZScoreMonotoneExactlyWhen(a: real, b: real)
    requires a < b
    ensures LookupZScore(a) <= LookupZScore(b) <==> !(a == 0.85 && b < 0.90)
  {
    ZScoreTable(a);
    ZScoreTable(b);
    ZScoreRange(a);
    ZScoreRange(b);
    if a >= 0.90 {
      ZScoreIncreases(a, b);
    }
  }

  ghost predicate IsSqrt(sqrt: real -> real) {
    forall x :: x >= 0.0 ==> sqrt(x) >= 0.0 && sqrt(x) * sqrt(x) == x
  }

  /** The values of the trials, when every one of them could be extracted. */
  function Values(trials: seq<Option<real>>): (v: seq<real>)
    requires forall i :: 0 <= i < |trials| ==> trials[i].Some?
    ensures |v| == |trials|
  {
    seq(|trials|, i requires 0 <= i < |trials| => trials[i].value)
  }

  /** What the reported statistics have to do with the trial values. */
  ghost predicate Describes(s: Stats, v: seq<real>) {
    && v != [] && s.count == |v| && s.mean == Mean(v)
    && IsLeast(s.min, v) && IsGreatest(s.max, v)
    && s.min <= s.mean <= s.max
    && (s.variance.Some? ==>
          && s.variance.value == Variance(v) && s.variance.value * |v| as real == Spread(v, s.mean)
          && 0.0 <= s.variance.value <= (s.max - s.mean) * (s.mean - s.min))
    && (s.stdDev.Some? ==>
          s.variance.Some? && s.stdDev.value >= 0.0 && s.stdDev.value * s.stdDev.value == s.variance.value)
    && (s.interval.Some? ==>
          var i := s.interval.value; i.lower <= s.mean <= i.upper && s.mean - i.lower == i.upper - s.mean)
  }

  /** An empty aggregator type means "all". */
  predicate WantsVariance(aggregatorType: string) {
    aggregatorType == "variance" || aggregatorType == "all" || aggregatorType == ""
  }

  predicate WantsInterval(aggregatorType: string) {
    aggregatorType == "confidence_interval" || aggregatorType == "all" || aggregatorType == ""
  }

  /** One trial more; `count` includes it. */
  method Update(count: nat, mean: real, m2: real, v: real, ghost seen: seq<real>) returns (newMean: real, newM2: real)
    requires count == |seen| + 1 && m2 == Spread(seen, mean)
    requires if seen == [] then mean == 0.0 else mean == Mean(seen)
    ensures newMean == Mean(seen + [v]) && newM2 == Spread(seen + [v], newMean)
  {
    hide Mean, Spread;
    var delta := v - mean;
    newMean := mean + delta / count as real;
    var delta2 := v - newMean;
    newM2 := m2 + delta * delta2;
    WelfordStep(seen, v, mean, newMean);
  }

  method Accumulate(trials: seq<Option<real>>)
    returns (bad: Option<nat>, n: nat, mean: real, m2: real, minV: real, maxV: real)
    requires InFloatRange(trials)
    ensures bad.Some? ==>
      bad.value < |trials| && trials[bad.value].None? && forall i :: 0 <= i < bad.value ==> trials[i].Some?
    ensures bad.None? ==> (forall i :: 0 <= i < |trials| ==> trials[i].Some?) && n == |trials|
    ensures bad.None? && n > 0 ==>
      var v := Values(trials); mean == Mean(v) && m2 == Spread(v, mean) && IsLeast(minV, v) && IsGreatest(maxV, v)
  {
    hide MAX_FLOAT64, Spread, Mean, Values;
    n, mean, m2, minV, maxV := 0, 0.0, 0.0, MAX_FLOAT64, -MAX_FLOAT64;
    ghost var seen: seq<real> := [];
    SpreadOfNothing();
    for i := 0 to |trials|
      invariant n == i == |seen|
      invariant forall k :: 0 <= k < i ==> trials[k].Some? && seen[k] == trials[k].value
      invariant m2 == Spread(seen, mean)
      invariant if seen == [] then mean == 0.0 else mean == Mean(seen)
      invariant forall k :: 0 <= k < |seen| ==> minV <= seen[k] <= maxV
      invariant seen == [] ==> minV == MAX_FLOAT64 && maxV == -MAX_FLOAT64
      invariant seen != [] ==> minV in seen && maxV in seen
    {
      if trials[i].None? {
        return Some(i), n, mean, m2, minV, maxV;
      }
      var v := trials[i].value;
      n := n + 1;
      mean, m2 := Update(n, mean, m2, v, seen);
      if v < minV {
        minV := v;
      }
      if v > maxV {
        maxV := v;
      }
      seen := seen + [v];
    }
    bad := None;
    ValuesAre(trials, seen);
  }

  lemma ValuesAre(trials: seq<Option<real>>, v: seq<real>)
    requires |v| == |trials| && forall i :: 0 <= i < |v| ==> trials[i].Some? && v[i] == trials[i].value
    ensures v == Values(trials)
  {
  }

  lemma SpreadOfNothing()
    ensures Spread([], 0.0) == 0.0
  {
  }

  method AggregateMonteCarlo(trials: seq<Option<real>>, aggregatorType: string, outputField: string,
                             confidenceLevel: Option<real>, sqrt: real -> real)
    returns (r: Result<Stats, AggregateError>)
    requires IsSqrt(sqrt)
    requires InFloatRange(trials)
    ensures outputField == "" ==> r == Err(MissingOutputField)
    ensures outputField != "" && trials == [] ==> r == Err(NoTrials)
    ensures r.Ok? <==> outputField != "" && trials != [] && forall i :: 0 <= i < |trials| ==> trials[i].Some?
    ensures r.Err? && r.error.BadTrial? ==> var i := r.error.index;
      i < |trials| && trials[i].None? && forall k :: 0 <= k < i ==> trials[k].Some?
    ensures r.Ok? ==> Describes(r.value, Values(trials))
    ensures r.Ok? ==>
      (r.value.variance.Some? <==> aggregatorType == "" || aggregatorType == "all" || aggregatorType == "variance")
    ensures r.Ok? ==> (r.value.stdDev.Some? <==> r.value.variance.Some?)
    ensures r.Ok? ==>
      (r.value.interval.Some? <==>
         |trials| > 1
         && (aggregatorType == "" || aggregatorType == "all" || aggregatorType == "confidence_interval"))
    ensures r.Ok? && r.value.interval.Some? ==>
      var v, i := Values(trials), r.value.interval.value;
      && i.level == (if confidenceLevel.Some? && confidenceLevel.value > 0.0 then confidenceLevel.value else 0.95)
      && i.upper - r.value.mean == LookupZScore(i.level) * (sqrt(Variance(v)) / sqrt(|v| as real))
  {
    hide MAX_FLOAT64, Mean, Spread, LookupZScore, Values;
    var level := 0.95;
    if confidenceLevel.Some? && confidenceLevel.value > 0.0 {
      level := confidenceLevel.value;
    }
    if outputField == "" {
      return Err(MissingOutputField);
    }
    var bad, n, mean, m2, minV, maxV := Accumulate(trials);
    if bad.Some? {
      return Err(BadTrial(bad.value));
    }
    if n == 0 {
      return Err(NoTrials);
    }
    ghost var v := Values(trials);
    var variance := 0.0;
    if n > 1 {
      variance := m2 / n as real;
    }
    if n == 1 {
      SingleSpread(v);
    }
    MeanBetween(v, minV, maxV);
    VarianceBounds(v, minV, maxV);
    var stdDev := sqrt(variance);
    var interval := None;
    if WantsInterval(aggregatorType) && n > 1 {
      var z := LookupZScore(level);
      var margin := z * (stdDev / sqrt(n as real));
      ZScoreRange(level);
      MarginNonNegative(z, stdDev, sqrt(n as real));
      interval := Some(Interval(level, mean - margin, mean + margin));
    }
    var withVariance := WantsVariance(aggregatorType);
    r := Ok(Stats(mean, n, minV, maxV, if withVariance then Some(variance) else None,
                  if withVariance then Some(stdDev) else None, interval));
  }

  lemma SingleSpread(v: seq<real>)
    requires |v| == 1
    ensures Variance(v) == 0.0
  {
    SumByAppend([], v[0], x => x);
    assert [] + [v[0]] == v;
    assert Mean(v) == v[0];
    SumByAppend([], v[0], x => Square(x - v[0]));
  }

  lemma MarginNonNegative(z: real, d: real, s: real)
    requires z >= 0.0 && d >= 0.0 && s * s > 0.0 && s >= 0.0
    ensures z * (d / s) >= 0.0
  {
    assert s > 0.0;
    assert d / s >= 0.0;
  }
}
