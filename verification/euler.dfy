/**
 * Explicit (forward) Euler integration of a scalar ODE  dy/dt = f(t, y).
 *
 * Numbers are modelled as `real`: the recurrences below hold exactly, with no
 * floating-point rounding. The derivative is a total function supplied by the caller.
 */
module Euler {

  /** The caller-supplied derivative: (time, state) -> rate of change. */
  type Derivative = (real, real) -> real

  /** Two index-aligned sequences: tVals[i] is the time at which yVals[i] is the state. */
  datatype Trajectory = Trajectory(tVals: seq<real>, yVals: seq<real>)

  /**
   * The derivative evaluated at the point (t, y). The specification functions call
   * `f` through this heap-free function so that their applications of `f` and the
   * method's application of `f` (which the verifier ties to the current heap) can
   * be equated by one assertion in the loop of `Euler`.
   */
  function Slope(f: Derivative, t: real, y: real): real
  {
    f(t, y)
  }

  /**
   * `tr` is the forward Euler trajectory of `n` steps of size `h` from (t0, y0):
   * both sequences have n + 1 entries, index 0 holds the initial condition, and
   * every step evaluates `f` at the CURRENT pair before advancing time.
   */
  ghost predicate IsEulerTrajectory(f: Derivative, t0: real, y0: real, h: real, n: nat, tr: Trajectory)
  {
    && |tr.tVals| == n + 1
    && |tr.yVals| == n + 1
    && tr.tVals[0] == t0
    && tr.yVals[0] == y0
    && forall i :: 0 <= i < n ==> IsForwardStep(f, h, tr, i)
  }

  /**
   * Entry i + 1 of `tr` is one forward Euler step from entry i: the derivative is
   * taken at (tVals[i], yVals[i]), then time advances by h.
   */
  ghost predicate IsForwardStep(f: Derivative, h: real, tr: Trajectory, i: nat)
    requires i + 1 < |tr.tVals| && i + 1 < |tr.yVals|
  {
    && tr.yVals[i + 1] == tr.yVals[i] + h * Slope(f, tr.tVals[i], tr.yVals[i])
    && tr.tVals[i + 1] == tr.tVals[i] + h
  }

  /**
   * The trajectory of `n` Euler steps, built by extending the trajectory of
   * `n - 1` steps with one more step from its last point.
   */
  function Integrate(f: Derivative, t0: real, y0: real, h: real, n: nat): (tr: Trajectory)
    ensures IsEulerTrajectory(f, t0, y0, h, n, tr)
  {
    if n == 0 then Trajectory([t0], [y0])
    else
      var prev := Integrate(f, t0, y0, h, n - 1);
      var t, y := prev.tVals[n - 1], prev.yVals[n - 1];
      var tr := Trajectory(prev.tVals + [t + h], prev.yVals + [y + h * Slope(f, t, y)]);
      assert forall i :: 0 <= i < n ==> IsForwardStep(f, h, tr, i) by {
        forall i | 0 <= i < n - 1 ensures IsForwardStep(f, h, tr, i) {
          assert IsForwardStep(f, h, prev, i);
        }
      }
      tr
  }

  /**
   * The integrator: allocates two zero-filled arrays of length nSteps + 1, writes
   * the initial condition at index 0 and marches forward, each step reading the
   * entries the previous step wrote. The nonnegativity of the step count is the
   * precondition carried by its type `nat`.
   */
  method Euler(f: Derivative, t0: real, y0: real, h: real, nSteps: nat)
    returns (tVals: array<real>, yVals: array<real>)
    ensures fresh(tVals) && fresh(yVals) && tVals != yVals
    ensures tVals.Length == nSteps + 1 && yVals.Length == nSteps + 1
    ensures IsEulerTrajectory(f, t0, y0, h, nSteps, Trajectory(tVals[..], yVals[..]))
    ensures Trajectory(tVals[..], yVals[..]) == Integrate(f, t0, y0, h, nSteps)
  {
    tVals := new real[nSteps + 1](_ => 0.0);
    yVals := new real[nSteps + 1](_ => 0.0);

    tVals[0] := t0;
    yVals[0] := y0;

    // the trajectory the loop fills in, entry by entry
    ghost var tr := Integrate(f, t0, y0, h, nSteps);

    for i := 0 to nSteps
      // entries 0..i hold their final values
      invariant forall j :: 0 <= j <= i ==> tVals[j] == tr.tVals[j] && yVals[j] == tr.yVals[j]
      // entries past i still hold the zero they were allocated with
      invariant forall j :: i < j <= nSteps ==> tVals[j] == 0.0 && yVals[j] == 0.0
    {
      assert IsForwardStep(f, h, tr, i);
      assert f(tVals[i], yVals[i]) == Slope(f, tr.tVals[i], tr.yVals[i]);
      yVals[i + 1] := yVals[i] + h * f(tVals[i], yVals[i]);
      tVals[i + 1] := tVals[i] + h;
    }
    assert tVals[..] == tr.tVals && yVals[..] == tr.yVals;
  }
}
