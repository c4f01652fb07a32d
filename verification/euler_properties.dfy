/**
 * Properties of forward Euler trajectories: they are determined by their inputs,
 * time advances linearly, constant derivatives give linear growth, and the
 * degenerate inputs (no steps, zero step size) behave as the recurrence says.
 */
module EulerProperties {
  import opened Euler

  /** Two trajectories satisfying the same recurrence agree on entries 0..i. */
  lemma {:induction false} AgreeUpTo(f: Derivative, t0: real, y0: real, h: real, n: nat,
                                     a: Trajectory, b: Trajectory, i: nat)
    requires IsEulerTrajectory(f, t0, y0, h, n, a)
    requires IsEulerTrajectory(f, t0, y0, h, n, b)
    requires i <= n
    ensures a.tVals[i] == b.tVals[i] && a.yVals[i] == b.yVals[i]
  {
    if i > 0 {
      AgreeUpTo(f, t0, y0, h, n, a, b, i - 1);
      assert IsForwardStep(f, h, a, i - 1) && IsForwardStep(f, h, b, i - 1);
    }
  }

  /**
   * Reproducibility: the inputs determine the trajectory. Any trajectory that
   * satisfies the Euler recurrence is the one Integrate builds, and conversely.
   */
  lemma IntegrateIsTheOnlyTrajectory(f: Derivative, t0: real, y0: real, h: real, n: nat, tr: Trajectory)
    ensures IsEulerTrajectory(f, t0, y0, h, n, tr) <==> tr == Integrate(f, t0, y0, h, n)
  {
    if IsEulerTrajectory(f, t0, y0, h, n, tr) {
      var it := Integrate(f, t0, y0, h, n);
      forall i | 0 <= i <= n ensures tr.tVals[i] == it.tVals[i] && tr.yVals[i] == it.yVals[i] {
        AgreeUpTo(f, t0, y0, h, n, tr, it, i);
      }
      assert tr.tVals == it.tVals && tr.yVals == it.yVals;
    }
  }

  /** Time advances linearly: tVals[i] == t0 + i*h for every index. */
  lemma {:induction false} TimeIsLinear(f: Derivative, t0: real, y0: real, h: real, n: nat,
                                        tr: Trajectory, i: nat)
    requires IsEulerTrajectory(f, t0, y0, h, n, tr)
    requires i <= n
    ensures tr.tVals[i] == t0 + (i as real) * h
  {
    if i > 0 {
      TimeIsLinear(f, t0, y0, h, n, tr, i - 1);
      assert IsForwardStep(f, h, tr, i - 1);
      assert (i as real) * h == ((i - 1) as real) * h + h;
    }
  }

  /** With a constant derivative k the state grows linearly: yVals[i] == y0 + i*h*k. */
  lemma {:induction false} ConstantDerivativeIsLinear(f: Derivative, k: real, t0: real, y0: real, h: real,
                                                      n: nat, tr: Trajectory, i: nat)
    requires forall t, y :: f(t, y) == k
    requires IsEulerTrajectory(f, t0, y0, h, n, tr)
    requires i <= n
    ensures tr.yVals[i] == y0 + (i as real) * h * k
  {
    if i > 0 {
      ConstantDerivativeIsLinear(f, k, t0, y0, h, n, tr, i - 1);
      assert IsForwardStep(f, h, tr, i - 1);
      assert Slope(f, tr.tVals[i - 1], tr.yVals[i - 1]) == k;
      assert (i as real) * h * k == ((i - 1) as real) * h * k + h * k;
    }
  }

  /** A derivative that is zero everywhere leaves the state at y0. */
  lemma {:induction false} ZeroDerivativeKeepsState(f: Derivative, t0: real, y0: real, h: real,
                                                    n: nat, tr: Trajectory, i: nat)
    requires forall t, y :: f(t, y) == 0.0
    requires IsEulerTrajectory(f, t0, y0, h, n, tr)
    requires i <= n
    ensures tr.yVals[i] == y0
  {
    ConstantDerivativeIsLinear(f, 0.0, t0, y0, h, n, tr, i);
  }

  /**
   * The step size is not special-cased: with h == 0 time never advances, and
   * since every increment is h * f(...) == 0 the state never moves either.
   */
  lemma {:induction false} ZeroStepSizeIsConstant(f: Derivative, t0: real, y0: real,
                                                  n: nat, tr: Trajectory, i: nat)
    requires IsEulerTrajectory(f, t0, y0, 0.0, n, tr)
    requires i <= n
    ensures tr.tVals[i] == t0 && tr.yVals[i] == y0
  {
    if i > 0 {
      ZeroStepSizeIsConstant(f, t0, y0, n, tr, i - 1);
      assert IsForwardStep(f, 0.0, tr, i - 1);
    }
  }

  /** With no steps the trajectory is exactly ([t0], [y0]). */
  lemma ZeroStepsIsInitialCondition(f: Derivative, t0: real, y0: real, h: real, tr: Trajectory)
    ensures IsEulerTrajectory(f, t0, y0, h, 0, tr) <==> tr == Trajectory([t0], [y0])
  {
  }

  /**
   * Each step only appends: the first m + 1 entries of an n-step trajectory are
   * the m-step trajectory, so running fewer steps gives a prefix of the result.
   */
  lemma {:induction false} PrefixIsShorterRun(f: Derivative, t0: real, y0: real, h: real, n: nat, m: nat)
    requires m <= n
    ensures Integrate(f, t0, y0, h, m)
         == Trajectory(Integrate(f, t0, y0, h, n).tVals[..m + 1], Integrate(f, t0, y0, h, n).yVals[..m + 1])
  {
    var full := Integrate(f, t0, y0, h, n);
    var prefix := Trajectory(full.tVals[..m + 1], full.yVals[..m + 1]);
    forall i | 0 <= i < m ensures IsForwardStep(f, h, prefix, i) {
      assert IsForwardStep(f, h, full, i);
    }
    assert IsEulerTrajectory(f, t0, y0, h, m, prefix);
    IntegrateIsTheOnlyTrajectory(f, t0, y0, h, m, prefix);
  }
}
