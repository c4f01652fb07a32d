# Forward Euler integrator

A Dafny model of the explicit (forward) Euler integrator `euler(f, t0, y0, h, n_steps)`
of `Project1/eulers.py`. It approximates the solution of the scalar ODE
dy/dt = f(t, y) from the initial condition (t0, y0) by taking `n_steps` fixed steps
of size `h`, and returns two index-aligned arrays of times and states.

The model has two files:

- `euler.dfy` (module `Euler`) holds the integrator itself. The method `Euler` allocates two zero-filled
  arrays of length `nSteps + 1`, writes the initial condition at index 0 and runs the
  forward-stepping loop. Each step reads the entries the previous step wrote. The
  method is proved against two specifications. `IsEulerTrajectory` is the recurrence
  stated pointwise. `Integrate` is a recursive function that builds the trajectory one
  step at a time. The loop invariants (not the method's contract) also state the
  frame: after step `i`, entries `0..i+1` hold their final values and every later
  entry still holds the zero it was allocated with.
- `euler_properties.dfy` (module `EulerProperties`) holds lemmas about every
  trajectory that satisfies the recurrence. Because the method's result satisfies
  it, they apply to what the method returns.

Numbers are `real`, so every recurrence and closed form holds exactly. The derivative
`f` is a total Dafny function value of type `(real, real) -> real`. The requirement
that `n_steps` be nonnegative is the `nat` type of the `nSteps` parameter. In the
source, `n_steps == -1` makes the write at index 0 fail on an empty array, and smaller
values make the allocation itself invalid.

With `h == 0` the source performs no special handling. Time stays at `t0`. Even
where `f` is nonzero, every state increment is multiplied by `h`, so for every real
value `f` returns the state stays at `y0` as well (`ZeroStepSizeIsConstant`).

## Model

| member | source | states |
|---|---|---|
| Euler.Euler | Project1/eulers.py:4-30 | Returns two new, distinct arrays of length n_steps + 1. They hold t0 and y0 at index 0, and each later entry is one forward step from the previous one: y[i+1] = y[i] + h*f(t[i], y[i]) and t[i+1] = t[i] + h. The contents equal the recursive specification `Integrate`. |
| Euler.Integrate | Project1/eulers.py:19-30 | The trajectory built step by step has length n + 1 in both sequences, starts at (t0, y0), and satisfies the forward recurrence at every index below n. The derivative is taken at the current pair before time advances. |
| EulerProperties.AgreeUpTo | Project1/eulers.py:26-28 | Two trajectories satisfying the same recurrence from the same inputs agree at every index up to n. |
| EulerProperties.IntegrateIsTheOnlyTrajectory | Project1/eulers.py:19-30 | Reproducibility: a pair of sequences satisfies the Euler recurrence for (f, t0, y0, h, n) if and only if it equals the trajectory `Integrate` builds, so the inputs determine the result. |
| EulerProperties.TimeIsLinear | Project1/eulers.py:28 | Time advances linearly: t[i] == t0 + i*h for every i <= n. |
| EulerProperties.ConstantDerivativeIsLinear | Project1/eulers.py:27 | For a derivative that is the constant k everywhere, y[i] == y0 + i*h*k for every i <= n. |
| EulerProperties.ZeroDerivativeKeepsState | Project1/eulers.py:27 | For a derivative that is zero everywhere, every y[i] == y0. |
| EulerProperties.ZeroStepSizeIsConstant | Project1/eulers.py:27-28 | With h == 0, which is not special-cased, every t[i] == t0 and every y[i] == y0. |
| EulerProperties.ZeroStepsIsInitialCondition | Project1/eulers.py:19-30 | With n_steps == 0 the result satisfies the recurrence if and only if it is exactly ([t0], [y0]). |
| EulerProperties.PrefixIsShorterRun | Project1/eulers.py:26-28 | Each step only appends. The first m + 1 entries of the n-step trajectory are the m-step trajectory, for every m <= n. |

## Left out

- The demonstration under `if __name__ == "__main__"` (Project1/eulers.py:34-62) is left out. It defines an example derivative, prints a table and plots with matplotlib; all of that is I/O and presentation.
- The example derivative 7*t^2*(y-4)^(3/5) is left out. It is the caller's function, not part of the integrator. Called with the numpy float64 values `euler` passes it, it returns `nan` for y < 4 (a fractional power of a negative base); see the line on infinite and NaN values.
- IEEE-754 float64 rounding is left out. The model works over exact reals, so accumulated rounding error in `t0 + i*h` and in the states is not modelled.
- Infinite and NaN values are left out. If `f` returns `nan`, or returns `inf` when `h == 0`, then `h * f(...)` is `nan`, and that `nan` carries through every later state; in particular the state does not stay at `y0` when `h == 0`. With `h != 0` and `f` returning `inf`, the product is an infinity.
- Exceptions raised by `f` are left out, and so is how they propagate out of the loop. `f` is modelled as a total function returning a real. A non-real or non-finite result of `f`, and what numpy does on storing it into the float array, are left out.
- numpy's type coercion on assignment into a float array is left out.
- The result type is modelled as two Dafny arrays rather than numpy arrays. The postcondition says both arrays are newly allocated and distinct from each other, as the two separate allocations in the source make them.
