/**
 * The gravitational n-body example: direct pairwise forces and a kick-drift-kick leapfrog,
 * over exact reals. The power `r2 ** -1.5` is a parameter `invR3`; nothing below depends on
 * which function it is, only on its being applied to the softened squared distance.
 */
module NBody {
  import opened Reals
  import opened Vectors

  const G := 1.0
  const SOFTENING := 0.01

  /** Positions, velocities and the accelerations carried from one step to the next. */
  datatype System = System(pos: seq<Vec>, vel: seq<Vec>, acc: seq<Vec>)

  ghost predicate Sized(s: System, n: nat) { |s.pos| == n && |s.vel| == n && |s.acc| == n }

  // ---- forces -------------------------------------------------------------------------

  function SoftenedR2(pos: seq<Vec>, i: nat, j: nat): real
    requires i < |pos| && j < |pos|
  {
    NormSquared(Sub(pos[j], pos[i])) + SOFTENING * SOFTENING
  }

  /** What body `j` contributes to the acceleration of body `i` (nothing to its own). */
  function PairTerm(pos: seq<Vec>, masses: seq<real>, invR3: real -> real, i: nat, j: nat): Vec
    requires |pos| == |masses| && i < |pos| && j < |pos|
  {
    if i == j then ZERO else Scale(masses[j], Scale(invR3(SoftenedR2(pos, i, j)), Sub(pos[j], pos[i])))
  }

  function PairSum(pos: seq<Vec>, masses: seq<real>, invR3: real -> real, i: nat, k: nat): Vec
    requires |pos| == |masses| && i < |pos| && k <= |pos|
  {
    if k == 0 then ZERO
    else Add(PairSum(pos, masses, invR3, i, k - 1), PairTerm(pos, masses, invR3, i, k - 1))
  }

  function Accelerations(pos: seq<Vec>, masses: seq<real>, invR3: real -> real): (acc: seq<Vec>)
    requires |pos| == |masses|
    ensures |acc| == |pos|
  {
    seq(|pos|, i requires 0 <= i < |pos| => Scale(G, PairSum(pos, masses, invR3, i, |pos|)))
  }

  // ---- totals -------------------------------------------------------------------------

  function TotalMass(masses: seq<real>, k: nat): real
    requires k <= |masses|
  {
    if k == 0 then 0.0 else TotalMass(masses, k - 1) + masses[k - 1]
  }

  /** The sum of `masses[i] * v[i]` over `i < k`: momentum when `v` holds velocities. */
  function Weighted(masses: seq<real>, v: seq<Vec>, k: nat): Vec
    requires |masses| == |v| && k <= |v|
  {
    if k == 0 then ZERO else Add(Weighted(masses, v, k - 1), Scale(masses[k - 1], v[k - 1]))
  }

  /** The sum of `masses[i] * (pos[i] x v[i])` over `i < k`. */
  function Turning(masses: seq<real>, pos: seq<Vec>, v: seq<Vec>, k: nat): Vec
    requires |masses| == |pos| == |v| && k <= |v|
  {
    if k == 0 then ZERO
    else Add(Turning(masses, pos, v, k - 1), Scale(masses[k - 1], Cross(pos[k - 1], v[k - 1])))
  }

  function Momentum(masses: seq<real>, vel: seq<Vec>): Vec
    requires |masses| == |vel|
  {
    Weighted(masses, vel, |vel|)
  }

  function AngularMomentum(masses: seq<real>, pos: seq<Vec>, vel: seq<Vec>): Vec
    requires |masses| == |pos| == |vel|
  {
    Turning(masses, pos, vel, |vel|)
  }

  function CenterOfMass(masses: seq<real>, pos: seq<Vec>): Vec
    requires |masses| == |pos| && TotalMass(masses, |masses|) != 0.0
  {
    Scale(1.0 / TotalMass(masses, |masses|), Weighted(masses, pos, |pos|))
  }

  // ---- the integrator -----------------------------------------------------------------

  function AddScaled(v: seq<Vec>, h: real, a: seq<Vec>): (r: seq<Vec>)
    requires |v| == |a|
    ensures |r| == |v|
  {
    seq(|v|, i requires 0 <= i < |v| => Add(v[i], Scale(h, a[i])))
  }

  function Step(s: System, masses: seq<real>, dt: real, invR3: real -> real): (r: System)
    requires Sized(s, |masses|)
    ensures Sized(r, |masses|)
  {
    var half := AddScaled(s.vel, 0.5 * dt, s.acc);
    var pos := AddScaled(s.pos, dt, half);
    var acc := Accelerations(pos, masses, invR3);
    System(pos, AddScaled(half, 0.5 * dt, acc), acc)
  }

  function Run(s: System, masses: seq<real>, dt: real, invR3: real -> real, steps: nat): (r: System)
    requires Sized(s, |masses|)
    ensures Sized(r, |masses|)
  {
    if steps == 0 then s else Step(Run(s, masses, dt, invR3, steps - 1), masses, dt, invR3)
  }

  /** The carried accelerations are those of the carried positions. */
  ghost predicate Coherent(s: System, masses: seq<real>, invR3: real -> real) {
    Sized(s, |masses|) && s.acc == Accelerations(s.pos, masses, invR3)
  }

  // ---- forces cancel ------------------------------------------------------------------

  lemma {:induction false} WeightedTerms(masses: seq<real>, pos: seq<Vec>, invR3: real -> real,
                                         T: (nat, nat) -> Vec, i: nat, k: nat)
    requires |masses| == |pos| && i < |pos| && k <= |pos|
    requires forall j: nat :: j < |pos| ==> T(i, j) == Scale(masses[i], PairTerm(pos, masses, invR3, i, j))
    ensures RowSum(T, i, k) == Scale(masses[i], PairSum(pos, masses, invR3, i, k))
  {
    if k != 0 {
      WeightedTerms(masses, pos, invR3, T, i, k - 1);
      ScaleAdd(masses[i], PairSum(pos, masses, invR3, i, k - 1), PairTerm(pos, masses, invR3, i, k - 1));
    }
  }

  lemma {:induction false} WeightedAccelerations(masses: seq<real>, pos: seq<Vec>, invR3: real -> real,
                                                 T: (nat, nat) -> Vec, k: nat)
    requires |masses| == |pos| && k <= |pos|
    requires forall i: nat, j: nat :: i < |pos| && j < |pos| ==>
      T(i, j) == Scale(masses[i], PairTerm(pos, masses, invR3, i, j))
    ensures Weighted(masses, Accelerations(pos, masses, invR3), k) == RectangleSum(T, k, |pos|)
  {
    if k != 0 {
      WeightedAccelerations(masses, pos, invR3, T, k - 1);
      WeightedTerms(masses, pos, invR3, T, k - 1, |pos|);
    }
  }

  lemma SoftenedR2Symmetric(pos: seq<Vec>, i: nat, j: nat)
    requires i < |pos| && j < |pos|
    ensures SoftenedR2(pos, i, j) == SoftenedR2(pos, j, i)
  {
    SubOpposite(pos[i], pos[j]);
    NegNorm(Sub(pos[j], pos[i]));
  }

  lemma OwnTerm(masses: seq<real>, pos: seq<Vec>, invR3: real -> real, i: nat)
    requires |masses| == |pos| && i < |pos|
    ensures PairTerm(pos, masses, invR3, i, i) == ZERO
  {
  }

  /** Newton's third law for the weighted pair terms. */
  lemma ForcesOppose(masses: seq<real>, pos: seq<Vec>, invR3: real -> real, i: nat, j: nat)
    requires |masses| == |pos| && i < |pos| && j < |pos|
    ensures Scale(masses[i], PairTerm(pos, masses, invR3, i, j))
         == Neg(Scale(masses[j], PairTerm(pos, masses, invR3, j, i)))
  {
    hide Scale, Neg, Sub, SoftenedR2;
    if i == j {
      OwnTerm(masses, pos, invR3, i);
      ScaleZero(masses[i], ZERO);
      NegZero();
    } else {
      var d := Sub(pos[j], pos[i]);
      var pull := Scale(invR3(SoftenedR2(pos, i, j)), d);
      SoftenedR2Symmetric(pos, i, j);
      SubOpposite(pos[i], pos[j]);
      ScaleNeg(invR3(SoftenedR2(pos, i, j)), d);
      ScaleNeg(masses[i], pull);
      ScaleNeg(masses[j], Scale(masses[i], pull));
      NegNeg(Scale(masses[j], Scale(masses[i], pull)));
      ScaleSwap(masses[i], masses[j], pull);
    }
  }

  /** Internal forces add up to nothing. */
  lemma ForcesSumToZero(masses: seq<real>, pos: seq<Vec>, invR3: real -> real)
    requires |masses| == |pos|
    ensures Momentum(masses, Accelerations(pos, masses, invR3)) == ZERO
  {
    var n := |pos|;
    var T: (nat, nat) -> Vec := (i: nat, j: nat) =>
      if i < n && j < n then Scale(masses[i], PairTerm(pos, masses, invR3, i, j)) else ZERO;
    forall i: nat, j: nat | i < n && j < n ensures T(i, j) == Neg(T(j, i)) {
      ForcesOppose(masses, pos, invR3, i, j);
    }
    AntisymmetricSumVanishes(T, n);
    WeightedAccelerations(masses, pos, invR3, T, n);
  }

  lemma {:induction false} TurningTerms(masses: seq<real>, pos: seq<Vec>, invR3: real -> real,
                                        T: (nat, nat) -> Vec, i: nat, k: nat)
    requires |masses| == |pos| && i < |pos| && k <= |pos|
    requires forall j: nat :: j < |pos| ==>
      T(i, j) == Cross(pos[i], Scale(masses[i], PairTerm(pos, masses, invR3, i, j)))
    ensures RowSum(T, i, k) == Scale(masses[i], Cross(pos[i], PairSum(pos, masses, invR3, i, k)))
  {
    if k != 0 {
      var before, term := PairSum(pos, masses, invR3, i, k - 1), PairTerm(pos, masses, invR3, i, k - 1);
      TurningTerms(masses, pos, invR3, T, i, k - 1);
      CrossScale(masses[i], pos[i], term);
      CrossAdd(pos[i], before, term);
      ScaleAdd(masses[i], Cross(pos[i], before), Cross(pos[i], term));
    }
  }

  lemma {:induction false} TurningAccelerations(masses: seq<real>, pos: seq<Vec>, invR3: real -> real,
                                                T: (nat, nat) -> Vec, k: nat)
    requires |masses| == |pos| && k <= |pos|
    requires forall i: nat, j: nat :: i < |pos| && j < |pos| ==>
      T(i, j) == Cross(pos[i], Scale(masses[i], PairTerm(pos, masses, invR3, i, j)))
    ensures Turning(masses, pos, Accelerations(pos, masses, invR3), k) == RectangleSum(T, k, |pos|)
  {
    if k != 0 {
      TurningAccelerations(masses, pos, invR3, T, k - 1);
      TurningTerms(masses, pos, invR3, T, k - 1, |pos|);
    }
  }

  /** A force along the line joining two bodies turns one as much as it turns back the other. */
  lemma TorquesOppose(masses: seq<real>, pos: seq<Vec>, invR3: real -> real, i: nat, j: nat)
    requires |masses| == |pos| && i < |pos| && j < |pos|
    ensures Cross(pos[i], Scale(masses[i], PairTerm(pos, masses, invR3, i, j)))
         == Neg(Cross(pos[j], Scale(masses[j], PairTerm(pos, masses, invR3, j, i))))
  {
    hide Scale, Cross, Neg, Sub, SoftenedR2;
    var force := Scale(masses[i], PairTerm(pos, masses, invR3, i, j));
    ForcesOppose(masses, pos, invR3, i, j);
    CrossNeg(pos[j], Scale(masses[j], PairTerm(pos, masses, invR3, j, i)));
    if i != j {
      var pull := Scale(invR3(SoftenedR2(pos, i, j)), Sub(pos[j], pos[i]));
      SamePullFromBothEnds(pos[i], pos[j], invR3(SoftenedR2(pos, i, j)));
      CrossScale(masses[j], pos[i], pull);
      CrossScale(masses[j], pos[j], pull);
      CrossScale(masses[i], pos[i], Scale(masses[j], pull));
      CrossScale(masses[i], pos[j], Scale(masses[j], pull));
    }
  }

  lemma SamePullFromBothEnds(a: Vec, b: Vec, f: real)
    ensures Cross(a, Scale(f, Sub(b, a))) == Cross(b, Scale(f, Sub(b, a)))
  {
    CrossDisplacement(a, b);
    CrossScale(f, a, Sub(b, a));
    CrossScale(f, b, Sub(b, a));
  }

  /** Internal torques add up to nothing. */
  lemma TorquesSumToZero(masses: seq<real>, pos: seq<Vec>, invR3: real -> real)
    requires |masses| == |pos|
    ensures AngularMomentum(masses, pos, Accelerations(pos, masses, invR3)) == ZERO
  {
    var n := |pos|;
    var T: (nat, nat) -> Vec := (i: nat, j: nat) =>
      if i < n && j < n then Cross(pos[i], Scale(masses[i], PairTerm(pos, masses, invR3, i, j))) else ZERO;
    forall i: nat, j: nat | i < n && j < n ensures T(i, j) == Neg(T(j, i)) {
      TorquesOppose(masses, pos, invR3, i, j);
    }
    AntisymmetricSumVanishes(T, n);
    TurningAccelerations(masses, pos, invR3, T, n);
  }

  // ---- kicks and drifts ---------------------------------------------------------------

  lemma {:induction false} WeightedAddScaled(masses: seq<real>, v: seq<Vec>, h: real, a: seq<Vec>, k: nat)
    requires |masses| == |v| == |a| && k <= |v|
    ensures Weighted(masses, AddScaled(v, h, a), k) == Add(Weighted(masses, v, k), Scale(h, Weighted(masses, a, k)))
  {
    hide Add, Scale;
    if k == 0 {
      ScaleZero(h, ZERO);
      AddZero(ZERO);
    } else {
      var m, x, y := masses[k - 1], v[k - 1], a[k - 1];
      var before, gained := Weighted(masses, v, k - 1), Weighted(masses, a, k - 1);
      WeightedAddScaled(masses, v, h, a, k - 1);
      ScaleAdd(m, x, Scale(h, y));
      ScaleSwap(m, h, y);
      ScaleAdd(h, gained, Scale(m, y));
      AddSwap(before, Scale(h, gained), Scale(m, x), Scale(h, Scale(m, y)));
    }
  }

  lemma {:induction false} TurningKick(masses: seq<real>, pos: seq<Vec>, v: seq<Vec>, h: real, a: seq<Vec>, k: nat)
    requires |masses| == |pos| == |v| == |a| && k <= |v|
    ensures Turning(masses, pos, AddScaled(v, h, a), k)
         == Add(Turning(masses, pos, v, k), Scale(h, Turning(masses, pos, a, k)))
  {
    hide Add, Scale, Cross;
    if k == 0 {
      ScaleZero(h, ZERO);
      AddZero(ZERO);
    } else {
      var m, p, x, y := masses[k - 1], pos[k - 1], v[k - 1], a[k - 1];
      var before, gained := Turning(masses, pos, v, k - 1), Turning(masses, pos, a, k - 1);
      TurningKick(masses, pos, v, h, a, k - 1);
      CrossAdd(p, x, Scale(h, y));
      CrossScale(h, p, y);
      ScaleAdd(m, Cross(p, x), Scale(h, Cross(p, y)));
      ScaleSwap(m, h, Cross(p, y));
      ScaleAdd(h, gained, Scale(m, Cross(p, y)));
      AddSwap(before, Scale(h, gained), Scale(m, Cross(p, x)), Scale(h, Scale(m, Cross(p, y))));
    }
  }

  lemma {:induction false} TurningDrift(masses: seq<real>, pos: seq<Vec>, h: real, v: seq<Vec>, k: nat)
    requires |masses| == |pos| == |v| && k <= |v|
    ensures Turning(masses, AddScaled(pos, h, v), v, k) == Turning(masses, pos, v, k)
  {
    hide Add, Scale, Cross;
    if k != 0 {
      var p, x := pos[k - 1], v[k - 1];
      TurningDrift(masses, pos, h, v, k - 1);
      CrossAddLeft(p, Scale(h, x), x);
      CrossScaleLeft(h, x, x);
      CrossSelf(x);
      ScaleZero(h, x);
      AddZero(Cross(p, x));
    }
  }

  // ---- conservation -------------------------------------------------------------------

  /** A kick by the accelerations of the current positions changes neither total. */
  lemma KickConserves(masses: seq<real>, pos: seq<Vec>, vel: seq<Vec>, h: real, invR3: real -> real)
    requires |masses| == |pos| == |vel|
    ensures var kicked := AddScaled(vel, h, Accelerations(pos, masses, invR3));
            && Momentum(masses, kicked) == Momentum(masses, vel)
            && AngularMomentum(masses, pos, kicked) == AngularMomentum(masses, pos, vel)
  {
    var acc, n := Accelerations(pos, masses, invR3), |masses|;
    ForcesSumToZero(masses, pos, invR3);
    WeightedAddScaled(masses, vel, h, acc, n);
    TorquesSumToZero(masses, pos, invR3);
    TurningKick(masses, pos, vel, h, acc, n);
    assert Scale(h, ZERO) == ZERO;
  }

  /** The mass-weighted position after `t` units of time of uniform motion. */
  ghost function Drifted(masses: seq<real>, s: System, t: real): Vec
    requires Sized(s, |masses|)
  {
    Add(Weighted(masses, s.pos, |masses|), Scale(t, Momentum(masses, s.vel)))
  }

  lemma StepConserves(s: System, masses: seq<real>, dt: real, invR3: real -> real)
    requires Coherent(s, masses, invR3)
    ensures var r := Step(s, masses, dt, invR3);
            && Coherent(r, masses, invR3)
            && Momentum(masses, r.vel) == Momentum(masses, s.vel)
            && AngularMomentum(masses, r.pos, r.vel) == AngularMomentum(masses, s.pos, s.vel)
            && Weighted(masses, r.pos, |masses|) == Drifted(masses, s, dt)
  {
    hide Add, Scale, Weighted, Turning, Accelerations, AddScaled;
    var half := AddScaled(s.vel, 0.5 * dt, s.acc);
    var pos := AddScaled(s.pos, dt, half);
    KickConserves(masses, s.pos, s.vel, 0.5 * dt, invR3);
    WeightedAddScaled(masses, s.pos, dt, half, |masses|);
    TurningDrift(masses, s.pos, dt, half, |masses|);
    KickConserves(masses, pos, half, 0.5 * dt, invR3);
  }

  ghost function Elapsed(dt: real, steps: nat): real { steps as real * dt }

  lemma ElapsedNext(dt: real, steps: nat)
    ensures Elapsed(dt, 0) == 0.0
    ensures Elapsed(dt, steps + 1) == Elapsed(dt, steps) + dt
  {
  }

  lemma DriftZero(masses: seq<real>, s: System)
    requires Sized(s, |masses|)
    ensures Drifted(masses, s, 0.0) == Weighted(masses, s.pos, |masses|)
  {
    assert Scale(0.0, Momentum(masses, s.vel)) == ZERO;
  }

  lemma DriftOnce(masses: seq<real>, s: System, r: System, t: real, dt: real)
    requires Sized(s, |masses|) && Sized(r, |masses|)
    requires Weighted(masses, r.pos, |masses|) == Drifted(masses, s, t)
    requires Momentum(masses, r.vel) == Momentum(masses, s.vel)
    ensures Drifted(masses, r, dt) == Drifted(masses, s, t + dt)
  {
    ScaleSum(t, dt, Momentum(masses, s.vel));
  }

  /**
   * Over any number of steps the total momentum and the total angular momentum do not change,
   * and the mass-weighted position moves along a straight line at the constant momentum.
   */
  lemma {:induction false} RunConserves(s: System, masses: seq<real>, dt: real, invR3: real -> real, steps: nat)
    requires Coherent(s, masses, invR3)
    ensures var r := Run(s, masses, dt, invR3, steps);
            && Coherent(r, masses, invR3)
            && Momentum(masses, r.vel) == Momentum(masses, s.vel)
            && AngularMomentum(masses, r.pos, r.vel) == AngularMomentum(masses, s.pos, s.vel)
            && Weighted(masses, r.pos, |masses|) == Drifted(masses, s, Elapsed(dt, steps))
  {
    hide Elapsed, Add, Scale, Weighted, Turning, Accelerations, AddScaled, Step;
    if steps == 0 {
      DriftZero(masses, s);
      ElapsedNext(dt, 0);
    } else {
      var before := Run(s, masses, dt, invR3, steps - 1);
      RunConserves(s, masses, dt, invR3, steps - 1);
      StepConserves(before, masses, dt, invR3);
      DriftOnce(masses, s, before, Elapsed(dt, steps - 1), dt);
      ElapsedNext(dt, steps - 1);
    }
  }

  /** With no net momentum the centre of mass stays exactly where it was. */
  lemma CenterOfMassFixed(s: System, masses: seq<real>, dt: real, invR3: real -> real, steps: nat)
    requires Coherent(s, masses, invR3) && TotalMass(masses, |masses|) != 0.0
    requires Momentum(masses, s.vel) == ZERO
    ensures CenterOfMass(masses, Run(s, masses, dt, invR3, steps).pos) == CenterOfMass(masses, s.pos)
  {
    RunConserves(s, masses, dt, invR3, steps);
  }

  // ---- time reversal ------------------------------------------------------------------

  function Negated(v: seq<Vec>): (r: seq<Vec>)
    ensures |r| == |v|
  {
    seq(|v|, i requires 0 <= i < |v| => Neg(v[i]))
  }

  function Reversed(s: System): System { s.(vel := Negated(s.vel)) }

  lemma KickUndone(v: Vec, h: real, a: Vec)
    ensures Add(Neg(Add(v, Scale(h, a))), Scale(h, a)) == Neg(v)
  {
  }

  lemma DriftUndone(p: Vec, h: real, v: Vec)
    ensures Add(Add(p, Scale(h, v)), Scale(h, Neg(v))) == p
  {
    ScaleNeg(h, v);
  }

  /** Stepping, turning every velocity round and stepping again undoes the first step. */
  lemma StepReverses(s: System, masses: seq<real>, dt: real, invR3: real -> real)
    requires Coherent(s, masses, invR3)
    ensures Step(Reversed(Step(s, masses, dt, invR3)), masses, dt, invR3) == Reversed(s)
  {
    hide Add, Scale, Neg, Accelerations;
    var half := AddScaled(s.vel, 0.5 * dt, s.acc);
    var r := Step(s, masses, dt, invR3);
    var back := AddScaled(Negated(r.vel), 0.5 * dt, r.acc);
    forall i | 0 <= i < |s.pos|
      ensures back[i] == Negated(half)[i]
      ensures AddScaled(r.pos, dt, Negated(half))[i] == s.pos[i]
      ensures AddScaled(Negated(half), 0.5 * dt, s.acc)[i] == Negated(s.vel)[i]
    {
      KickUndone(half[i], 0.5 * dt, r.acc[i]);
      DriftUndone(s.pos[i], dt, half[i]);
      KickUndone(s.vel[i], 0.5 * dt, s.acc[i]);
    }
    assert back == Negated(half);
    assert AddScaled(r.pos, dt, back) == s.pos;
    assert AddScaled(back, 0.5 * dt, s.acc) == Negated(s.vel);
  }

  lemma {:induction false} RunFromFront(s: System, masses: seq<real>, dt: real, invR3: real -> real, steps: nat)
    requires Sized(s, |masses|) && steps > 0
    ensures Run(s, masses, dt, invR3, steps) == Run(Step(s, masses, dt, invR3), masses, dt, invR3, steps - 1)
  {
    if steps > 1 {
      RunFromFront(s, masses, dt, invR3, steps - 1);
    }
  }

  /**
   * Exact time reversal: run any number of steps, negate every velocity, run as many again,
   * and the starting positions come back with the starting velocities negated.
   */
  lemma {:induction false} RunReverses(s: System, masses: seq<real>, dt: real, invR3: real -> real, steps: nat)
    requires Coherent(s, masses, invR3)
    ensures Run(Reversed(Run(s, masses, dt, invR3, steps)), masses, dt, invR3, steps) == Reversed(s)
  {
    hide Step, Accelerations, Weighted, Turning, Negated;
    if steps != 0 {
      var before := Run(s, masses, dt, invR3, steps - 1);
      RunConserves(s, masses, dt, invR3, steps - 1);
      StepReverses(before, masses, dt, invR3);
      RunFromFront(Reversed(Run(s, masses, dt, invR3, steps)), masses, dt, invR3, steps);
      RunReverses(s, masses, dt, invR3, steps - 1);
    }
  }

  // ---- the program --------------------------------------------------------------------

  lemma PairTermAsComputed(pos: seq<Vec>, masses: seq<real>, invR3: real -> real, i: nat, j: nat)
    requires |pos| == |masses| && i < |pos| && j < |pos|
    ensures var invR := if j == i then 0.0 else invR3(SoftenedR2(pos, i, j));
            Scale(masses[j] * invR, Sub(pos[j], pos[i])) == PairTerm(pos, masses, invR3, i, j)
  {
    var invR := if j == i then 0.0 else invR3(SoftenedR2(pos, i, j));
    ScaleScale(masses[j], invR, Sub(pos[j], pos[i]));
    ScaleZero(masses[j] * invR, Sub(pos[j], pos[i]));
    ScaleZero(masses[j], Sub(pos[j], pos[i]));
    assert invR == 0.0 ==> masses[j] * invR == 0.0;
    hide Scale, SoftenedR2, Sub;
  }

  /** The weighted displacements from body `i`, its own weight zeroed, summed in order. */
  method PullOn(pos: seq<Vec>, masses: seq<real>, invR3: real -> real, i: nat) returns (sum: Vec)
    requires |pos| == |masses| && i < |pos|
    ensures sum == PairSum(pos, masses, invR3, i, |pos|)
  {
    hide NormSquared, PairTerm, SoftenedR2;
    sum := ZERO;
    for j := 0 to |masses|
      invariant sum == PairSum(pos, masses, invR3, i, j)
    {
      var invR := if j == i then 0.0 else invR3(SoftenedR2(pos, i, j));
      PairTermAsComputed(pos, masses, invR3, i, j);
      sum := Add(sum, Scale(masses[j] * invR, Sub(pos[j], pos[i])));
    }
  }

  method ComputeAccelerations(pos: seq<Vec>, masses: seq<real>, invR3: real -> real) returns (acc: array<Vec>)
    requires |pos| == |masses|
    ensures fresh(acc) && acc[..] == Accelerations(pos, masses, invR3)
  {
    acc := new Vec[|masses|](_ => ZERO);
    for i := 0 to |masses|
      invariant forall k :: 0 <= k < i ==> acc[k] == Accelerations(pos, masses, invR3)[k]
    {
      var sum := PullOn(pos, masses, invR3, i);
      acc[i] := Scale(G, sum);
    }
  }

  method LeapfrogStep(pos: seq<Vec>, vel: seq<Vec>, acc: seq<Vec>, masses: seq<real>, dt: real, invR3: real -> real)
    returns (posNew: seq<Vec>, velNew: seq<Vec>, accNew: seq<Vec>)
    requires |pos| == |vel| == |acc| == |masses|
    ensures System(posNew, velNew, accNew) == Step(System(pos, vel, acc), masses, dt, invR3)
  {
    var velHalf := AddScaled(vel, 0.5 * dt, acc);
    posNew := AddScaled(pos, dt, velHalf);
    var filled := ComputeAccelerations(posNew, masses, invR3);
    accNew := filled[..];
    velNew := AddScaled(velHalf, 0.5 * dt, accNew);
  }

  lemma {:induction false} PositiveTotal(masses: seq<real>, k: nat)
    requires k <= |masses| && forall i :: 0 <= i < |masses| ==> masses[i] > 0.0
    ensures TotalMass(masses, k) >= 0.0
    ensures k > 0 ==> TotalMass(masses, k) > 0.0
  {
    if k != 0 {
      PositiveTotal(masses, k - 1);
    }
  }

  /** Every velocity less the momentum per unit of mass. */
  function Centred(masses: seq<real>, vel: seq<Vec>): seq<Vec>
    requires |masses| == |vel| && TotalMass(masses, |masses|) != 0.0
  {
    var shift := Scale(1.0 / TotalMass(masses, |masses|), Momentum(masses, vel));
    seq(|vel|, i requires 0 <= i < |vel| => Sub(vel[i], shift))
  }

  lemma {:induction false} ShiftMomentum(masses: seq<real>, vel: seq<Vec>, moved: seq<Vec>, shift: Vec, k: nat)
    requires |masses| == |vel| == |moved| && k <= |vel|
    requires forall i :: 0 <= i < |vel| ==> moved[i] == Sub(vel[i], shift)
    ensures Weighted(masses, moved, k) == Sub(Weighted(masses, vel, k), Scale(TotalMass(masses, k), shift))
  {
    if k != 0 {
      ShiftMomentum(masses, vel, moved, shift, k - 1);
      ScaleSub(masses[k - 1], vel[k - 1], shift);
      ScaleSum(TotalMass(masses, k - 1), masses[k - 1], shift);
    }
  }

  /** Centring leaves no net momentum. */
  lemma CentringRemovesMomentum(masses: seq<real>, vel: seq<Vec>)
    requires |masses| == |vel| && TotalMass(masses, |masses|) != 0.0
    ensures Momentum(masses, Centred(masses, vel)) == ZERO
  {
    var total, momentum := TotalMass(masses, |masses|), Momentum(masses, vel);
    ShiftMomentum(masses, vel, Centred(masses, vel), Scale(1.0 / total, momentum), |vel|);
    ScaleScale(total, 1.0 / total, momentum);
    assert total * (1.0 / total) == 1.0;
  }

  /**
   * Centring followed by `numSteps` steps. The reported drift of the centre of mass is exactly
   * zero, the total momentum ends at zero, and the angular momentum is what it was after centring.
   */
  method RunSimulation(pos0: seq<Vec>, vel0: seq<Vec>, masses: seq<real>, dt: real, numSteps: nat, invR3: real -> real)
    returns (ghost start: System, end: System, comInitial: Vec, comFinal: Vec)
    requires |pos0| == |vel0| == |masses| > 0
    requires forall i :: 0 <= i < |masses| ==> masses[i] > 0.0
    ensures TotalMass(masses, |masses|) != 0.0
    ensures Coherent(start, masses, invR3) && start.pos == pos0
    ensures start.vel == Centred(masses, vel0)
    ensures end == Run(start, masses, dt, invR3, numSteps)
    ensures Momentum(masses, end.vel) == ZERO
    ensures AngularMomentum(masses, end.pos, end.vel) == AngularMomentum(masses, pos0, start.vel)
    ensures comInitial == CenterOfMass(masses, pos0) && comFinal == CenterOfMass(masses, end.pos)
    ensures Sub(comFinal, comInitial) == ZERO
  {
    PositiveTotal(masses, |masses|);
    var totalMass := TotalMass(masses, |masses|);
    var shift := Scale(1.0 / totalMass, Momentum(masses, vel0));
    var vel := seq(|vel0|, i requires 0 <= i < |vel0| => Sub(vel0[i], shift));
    CentringRemovesMomentum(masses, vel0);
    comInitial := CenterOfMass(masses, pos0);
    var pos := pos0;
    var a := ComputeAccelerations(pos, masses, invR3);
    var acc := a[..];
    start := System(pos, vel, acc);
    for step := 0 to numSteps
      invariant |pos| == |vel| == |acc| == |masses|
      invariant System(pos, vel, acc) == Run(start, masses, dt, invR3, step)
    {
      pos, vel, acc := LeapfrogStep(pos, vel, acc, masses, dt, invR3);
    }
    end := System(pos, vel, acc);
    RunConserves(start, masses, dt, invR3, numSteps);
    CenterOfMassFixed(start, masses, dt, invR3, numSteps);
    comFinal := CenterOfMass(masses, pos);
  }

  // ---- a step in coordinates ----------------------------------------------------------

  function Coord(v: Vec, axis: nat): real { if axis == 0 then v.x else if axis == 1 then v.y else v.z }

  /** The squared distance of two points, softened by 0.01 squared. */
  function Softened(a: Vec, b: Vec): real {
    (b.x - a.x) * (b.x - a.x) + (b.y - a.y) * (b.y - a.y) + (b.z - a.z) * (b.z - a.z) + 0.0001
  }

  /** What the first `k` bodies pull body `i` by along an axis: each towards itself, weighted by its mass. */
  function Pull(pos: seq<Vec>, masses: seq<real>, invR3: real -> real, i: nat, k: nat, axis: nat): real
    requires |pos| == |masses| && i < |pos| && k <= |pos|
  {
    if k == 0 then 0.0
    else
      Pull(pos, masses, invR3, i, k - 1, axis)
      + if i == k - 1 then 0.0
        else masses[k - 1] * (invR3(Softened(pos[i], pos[k - 1])) * (Coord(pos[k - 1], axis) - Coord(pos[i], axis)))
  }

  lemma CoordLinear(s: real, a: Vec, b: Vec, axis: nat)
    ensures Coord(Add(a, b), axis) == Coord(a, axis) + Coord(b, axis)
    ensures Coord(Sub(a, b), axis) == Coord(a, axis) - Coord(b, axis)
    ensures Coord(Scale(s, a), axis) == s * Coord(a, axis)
    ensures Coord(ZERO, axis) == 0.0
  {
  }

  lemma SameDistance(pos: seq<Vec>, i: nat, j: nat)
    requires i < |pos| && j < |pos|
    ensures SoftenedR2(pos, i, j) == Softened(pos[i], pos[j])
  {
  }

  lemma ScaledTwice(m: real, f: real, a: Vec, b: Vec, axis: nat)
    ensures Coord(Scale(m, Scale(f, Sub(a, b))), axis) == m * (f * (Coord(a, axis) - Coord(b, axis)))
  {
  }

  lemma PairTermAlong(pos: seq<Vec>, masses: seq<real>, invR3: real -> real, i: nat, j: nat, axis: nat)
    requires |pos| == |masses| && i < |pos| && j < |pos| && i != j
    ensures Coord(PairTerm(pos, masses, invR3, i, j), axis)
         == masses[j] * (invR3(Softened(pos[i], pos[j])) * (Coord(pos[j], axis) - Coord(pos[i], axis)))
  {
    hide Coord, Scale, Sub, SoftenedR2, Softened;
    SameDistance(pos, i, j);
    ScaledTwice(masses[j], invR3(Softened(pos[i], pos[j])), pos[j], pos[i], axis);
  }

  lemma {:induction false} PairSumAlong(pos: seq<Vec>, masses: seq<real>, invR3: real -> real,
                                        i: nat, k: nat, axis: nat)
    requires |pos| == |masses| && i < |pos| && k <= |pos|
    ensures Coord(PairSum(pos, masses, invR3, i, k), axis) == Pull(pos, masses, invR3, i, k, axis)
  {
    hide Coord, Add, PairTerm, Softened;
    CoordLinear(0.0, ZERO, ZERO, axis);
    if k != 0 {
      var term := PairTerm(pos, masses, invR3, i, k - 1);
      PairSumAlong(pos, masses, invR3, i, k - 1, axis);
      CoordLinear(0.0, PairSum(pos, masses, invR3, i, k - 1), term, axis);
      if i == k - 1 { OwnTerm(masses, pos, invR3, i); } else { PairTermAlong(pos, masses, invR3, i, k - 1, axis); }
    }
  }

  /** The computed accelerations, coordinate by coordinate. */
  lemma AccelerationAlong(pos: seq<Vec>, masses: seq<real>, invR3: real -> real, i: nat, axis: nat)
    requires |pos| == |masses| && i < |pos|
    ensures Coord(Accelerations(pos, masses, invR3)[i], axis) == Pull(pos, masses, invR3, i, |pos|, axis)
  {
    PairSumAlong(pos, masses, invR3, i, |pos|, axis);
  }

  function Nudged(p: real, h: real, v: real): real { p + h * v }

  lemma AddScaledAlong(v: seq<Vec>, h: real, a: seq<Vec>, i: nat, axis: nat)
    requires |v| == |a| && i < |v|
    ensures Coord(AddScaled(v, h, a)[i], axis) == Nudged(Coord(v[i], axis), h, Coord(a[i], axis))
  {
  }

  /** Where uniformly accelerated motion takes a coordinate. */
  function Moved(p: real, v: real, dt: real, pull: real): real { p + dt * v + dt * dt / 2.0 * pull }

  /** The velocity after half of `dt` under each of two pulls. */
  function Sped(v: real, dt: real, before: real, after: real): real { v + dt / 2.0 * (before + after) }

  lemma HalfKickThenDrift(p: real, v: real, a: real, b: real, dt: real)
    ensures p + dt * (v + 0.5 * dt * a) == Moved(p, v, dt, a)
    ensures v + 0.5 * dt * a + 0.5 * dt * b == Sped(v, dt, a, b)
  {
    Distribute(dt, v, 0.5 * dt * a);
    Regroup(dt, 0.5 * dt, a);
    Distribute(0.5 * dt, a, b);
  }

  lemma KickDriftKick(p: real, v: real, a: real, b: real, dt: real, half: real, q: real, w: real)
    requires half == Nudged(v, 0.5 * dt, a) && q == Nudged(p, dt, half) && w == Nudged(half, 0.5 * dt, b)
    ensures q == Moved(p, v, dt, a) && w == Sped(v, dt, a, b)
  {
    hide Moved, Sped;
    HalfKickThenDrift(p, v, a, b, dt);
    SameProduct(dt, half, v + 0.5 * dt * a);
  }

  /**
   * One step, from the pairwise pulls alone: positions move as under the pull at the start, and velocities
   * change by the mean of the pulls at the start and at the end.
   */
  lemma StepLaws(s: System, masses: seq<real>, dt: real, invR3: real -> real, i: nat, axis: nat)
    requires Coherent(s, masses, invR3) && i < |masses|
    ensures var r := Step(s, masses, dt, invR3);
      var before, after := Pull(s.pos, masses, invR3, i, |masses|, axis), Pull(r.pos, masses, invR3, i, |masses|, axis);
      && Coord(r.pos[i], axis) == Moved(Coord(s.pos[i], axis), Coord(s.vel[i], axis), dt, before)
      && Coord(r.vel[i], axis) == Sped(Coord(s.vel[i], axis), dt, before, after)
      && Coord(r.acc[i], axis) == after
  {
    hide Coord, AddScaled, Accelerations, Pull, Moved, Sped, Nudged;
    var half := AddScaled(s.vel, 0.5 * dt, s.acc);
    var pos := AddScaled(s.pos, dt, half);
    var acc := Accelerations(pos, masses, invR3);
    AccelerationAlong(s.pos, masses, invR3, i, axis);
    AccelerationAlong(pos, masses, invR3, i, axis);
    AddScaledAlong(s.vel, 0.5 * dt, s.acc, i, axis);
    AddScaledAlong(s.pos, dt, half, i, axis);
    AddScaledAlong(half, 0.5 * dt, acc, i, axis);
    KickDriftKick(Coord(s.pos[i], axis), Coord(s.vel[i], axis), Coord(s.acc[i], axis), Coord(acc[i], axis), dt,
                  Coord(half[i], axis), Coord(pos[i], axis), Coord(AddScaled(half, 0.5 * dt, acc)[i], axis));
  }

  lemma UnderOnePull(p: real, v: real, dt: real, pull: real)
    ensures Moved(p, v, dt, pull) == p + dt * v + dt * dt / 2.0 * pull
    ensures Sped(v, dt, pull, pull) == v + dt * pull
  {
    Distribute(dt / 2.0, pull, pull);
  }

  /** When the pull is the same at both ends the step is exactly uniformly accelerated motion. */
  lemma UniformPullIsExact(s: System, masses: seq<real>, dt: real, invR3: real -> real, i: nat, axis: nat, pull: real)
    requires Coherent(s, masses, invR3) && i < |masses|
    requires Pull(s.pos, masses, invR3, i, |masses|, axis) == pull
    requires Pull(Step(s, masses, dt, invR3).pos, masses, invR3, i, |masses|, axis) == pull
    ensures var r := Step(s, masses, dt, invR3);
      var p, v := Coord(s.pos[i], axis), Coord(s.vel[i], axis);
      && Coord(r.pos[i], axis) == p + dt * v + dt * dt / 2.0 * pull
      && Coord(r.vel[i], axis) == v + dt * pull
  {
    hide Coord, Step, Pull, Moved, Sped;
    StepLaws(s, masses, dt, invR3, i, axis);
    UnderOnePull(Coord(s.pos[i], axis), Coord(s.vel[i], axis), dt, pull);
  }

  // ---- totals in coordinates ----------------------------------------------------------

  /** The sum of mass times coordinate over the first `k` bodies. */
  function Moment(masses: seq<real>, v: seq<Vec>, k: nat, axis: nat): real
    requires |masses| == |v| && k <= |v|
  {
    if k == 0 then 0.0 else Moment(masses, v, k - 1, axis) + masses[k - 1] * Coord(v[k - 1], axis)
  }

  lemma {:induction false} WeightedAlong(masses: seq<real>, v: seq<Vec>, k: nat, axis: nat)
    requires |masses| == |v| && k <= |v|
    ensures Coord(Weighted(masses, v, k), axis) == Moment(masses, v, k, axis)
  {
    hide Coord, Add, Scale;
    CoordLinear(0.0, ZERO, ZERO, axis);
    if k != 0 {
      WeightedAlong(masses, v, k - 1, axis);
      CoordLinear(masses[k - 1], v[k - 1], ZERO, axis);
      CoordLinear(0.0, Weighted(masses, v, k - 1), Scale(masses[k - 1], v[k - 1]), axis);
    }
  }

  /** What one body adds to the angular momentum, from its coordinates. */
  function Spin(m: real, a: Vec, b: Vec, x: nat, y: nat): real {
    m * (Coord(a, x) * Coord(b, y) - Coord(a, y) * Coord(b, x))
  }

  /** The sum of the first `k` bodies' parts of the angular momentum about the axis that follows `x` and `y`. */
  function Swing(masses: seq<real>, pos: seq<Vec>, v: seq<Vec>, k: nat, x: nat, y: nat): real
    requires |masses| == |pos| == |v| && k <= |v|
  {
    if k == 0 then 0.0 else Swing(masses, pos, v, k - 1, x, y) + Spin(masses[k - 1], pos[k - 1], v[k - 1], x, y)
  }

  lemma CrossAlong(m: real, a: Vec, b: Vec)
    ensures Scale(m, Cross(a, b)) == Vec(Spin(m, a, b, 1, 2), Spin(m, a, b, 2, 0), Spin(m, a, b, 0, 1))
  {
  }

  /** Linear and angular momentum are what mechanics calls so. */
  lemma {:induction false} TurningAlong(masses: seq<real>, pos: seq<Vec>, v: seq<Vec>, k: nat)
    requires |masses| == |pos| == |v| && k <= |v|
    ensures Turning(masses, pos, v, k) ==
      Vec(Swing(masses, pos, v, k, 1, 2), Swing(masses, pos, v, k, 2, 0), Swing(masses, pos, v, k, 0, 1))
  {
    hide Spin, Cross, Scale;
    if k != 0 {
      TurningAlong(masses, pos, v, k - 1);
      CrossAlong(masses[k - 1], pos[k - 1], v[k - 1]);
    }
  }

  /** The centre of mass times the total mass is the sum of mass times position. */
  lemma CenterOfMassAlong(masses: seq<real>, pos: seq<Vec>, axis: nat)
    requires |masses| == |pos| && TotalMass(masses, |masses|) != 0.0
    ensures TotalMass(masses, |masses|) * Coord(CenterOfMass(masses, pos), axis) == Moment(masses, pos, |pos|, axis)
  {
    var total, w := TotalMass(masses, |masses|), Weighted(masses, pos, |pos|);
    WeightedAlong(masses, pos, |pos|, axis);
    CoordLinear(1.0 / total, w, ZERO, axis);
    hide Coord, Weighted, Scale, Moment;
    Undo(total, Coord(w, axis));
    SameProduct(total, Coord(CenterOfMass(masses, pos), axis), (1.0 / total) * Coord(w, axis));
  }

  lemma Undo(total: real, c: real)
    requires total != 0.0
    ensures total * ((1.0 / total) * c) == c
  {
    Regroup(total, 1.0 / total, c);
    assert total * (1.0 / total) == 1.0;
  }

  /** Bodies all at one point have their centre of mass there. */
  lemma {:induction false} MomentOfOnePoint(masses: seq<real>, pos: seq<Vec>, k: nat, axis: nat, c: real)
    requires |masses| == |pos| && k <= |pos| && forall i :: 0 <= i < |pos| ==> Coord(pos[i], axis) == c
    ensures Moment(masses, pos, k, axis) == TotalMass(masses, k) * c
  {
    hide Coord;
    if k != 0 {
      MomentOfOnePoint(masses, pos, k - 1, axis, c);
      SameProduct(masses[k - 1], Coord(pos[k - 1], axis), c);
      Distribute(c, TotalMass(masses, k - 1), masses[k - 1]);
    }
  }
}
