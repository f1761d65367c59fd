# DifferentialEquations — a verified Dafny model

This project models the numeric engine of `DifferentialEquations.py`, a small
library that solves ordinary differential equations numerically. The model
works over Dafny `real`.

- **Primitives** (module `StepFormula`, file `StepFormula.dfy`):
  - `Diferencial` evaluates equation `i` of a system on the whole state vector.
  - `MetodoNumerico` is the linear step `m*(x - x0) + y0`.
  - `GeneralHeun` is Heun's predictor–corrector step.
- **Single-equation solvers** (module `SingleEquation`):
  - `ExplicitEuler` and `Heun` append one point per partition of the uniform
    grid `x0 + h*i`, where `h = (xf - x0)/N`.
  - `ImplicitEuler` recomputes the whole trajectory sweep after sweep, up to
    `G - 1` sweeps. It may stop early only after its second sweep, and only
    when the convergence test passes. Because the test compares the list
    with itself, it always passes for `tol >= 0`, so exactly `max(0, min(G - 1, 2))`
    sweeps run then. For a negative `tol` and a positive `N` all `G - 1`
    sweeps run.
  - The model keeps the source's in-place list updates: `Y` is an `array`.
    The "previous sweep" `y_ant` is the *same* array, because the source
    binds both names to one list. See Findings.
- **Coupled-system solver** (module `CoupledSystem`): `SolveEdoEuler` advances
  N equations in lock-step.
  - `Values` and `dydx` are arrays updated in place.
  - Every derivative of a step is taken from the state vector before that step.
  - One point per grid abscissa after the first is appended to every trajectory.
- **Fixed-point solver** (module `FixedPoint`): `GaussSeidel` solves
  `y_i = g_i(y_1, ..., y_N)` by whole-vector substitution sweeps.
  - Every equation of a sweep reads a copy of the previous sweep's vector.
  - The solver stops at the first sweep that moves no component by more than
    `error`.

Callables are total Dafny arrows:
- a scalar derivative is `(real, real) -> real`;
- an equation of a system is `seq<real> -> real`, applied to the whole state
  vector. This is how the source passes `*Values`.

The source's dictionaries `Equations` and `InitialValues` are sequences, taken
in the order the source reads them. The model requires them to have equal
length; "## Left out" says what the source does otherwise.

`N_Partitions` is an `int`. A negative value is modelled as the code treats
it:
- a negative `N` makes every `range` empty;
- so `X = []`;
- `ExplicitEuler` and `Heun` return `Y = [y0]`;
- `ImplicitEuler` returns `Y = []`.

The step predicates (`ExplicitEulerStep`, `HeunStep`, `AliasedStep`,
`LockStepAt`, …) are specification predicates. Their meaning is stated by the
methods' postconditions and by the lemmas listed below.

## Model

| member | source | states |
|---|---|---|
| StepFormula.Diferencial | DifferentialEquations.py:6-7 | definition: equation `i` applied to the whole state vector |
| StepFormula.GeneralHeun | DifferentialEquations.py:15-19 | the step moves `yi` by `h` times the mean of `k1`, the slope at the start, and `k2`, the slope at the end predicted by the linear step along `k1`. The four Heun lemmas below state what this means |
| StepFormula.MetodoNumerico | DifferentialEquations.py:10-11 | the result is the ordinate at `x` of the line of slope `m` through `(x0, y0)`: `y0` at `x0`, slope `m` elsewhere |
| StepFormula.LinearStepIsIncrement | DifferentialEquations.py:84 | a linear step from `t - passo` to `t` adds `m * passo`, whatever `t` is |
| StepFormula.LinearStepsCompose | DifferentialEquations.py:10-11 | two linear steps along one slope equal one step over the joined interval |
| StepFormula.LinearStepExactOnLine | DifferentialEquations.py:10-11 | started on the line `y = k*x + b` with slope `k`, the linear step lands on the same line |
| StepFormula.EulerStepOnExponential | DifferentialEquations.py:96 | on `dy/dx = y` one explicit Euler step multiplies `y` by `1 + h` |
| StepFormula.HeunAveragesTwoLinearSteps | DifferentialEquations.py:15-19 | a Heun step is the mean of the linear step along the start slope and the linear step along the slope at the Euler-predicted end |
| StepFormula.HeunConstantSlope | DifferentialEquations.py:15-19 | with a constant derivative `c` a Heun step moves by exactly `c*h` |
| StepFormula.HeunIsTrapezoidRule | DifferentialEquations.py:15-19 | when the derivative depends on `x` only, a Heun step is the trapezoidal rule over the step |
| StepFormula.HeunOnExponential | DifferentialEquations.py:15-19 | on `dy/dx = y` a Heun step multiplies `y` by `1 + h + h²/2` |
| SingleEquation.UniformGrid | DifferentialEquations.py:91-92 | the grid has `len(range(0, N+1))` points, runs from `x0` to `xf` for positive `N`, and consecutive points are `h` apart |
| SingleEquation.ExplicitEuler | DifferentialEquations.py:90-97 | returns the uniform grid and a trajectory of `N + 1` points (one if `N < 0`) that starts at `y0` and has `Y[i] = Y[i-1] + h*f(X[i-1], Y[i-1])` at every point |
| SingleEquation.Heun | DifferentialEquations.py:123-130 | returns the uniform grid and a trajectory of `N + 1` points (one if `N < 0`) that starts at `y0` and has `Y[i] = General_Heun(f, X[i-1], Y[i-1], h)` at every point |
| SingleEquation.ConvergenceFlag | DifferentialEquations.py:111-114 | the flag is 0 or 1, and it is 1 exactly when each of the first `m` points moved by at most `tol` |
| SingleEquation.AliasedSweep | DifferentialEquations.py:108-109 | one sweep through the aliased `y_ant` keeps `Y[0]` and leaves `Y[i] = Y[i-1] + h*f(X[i], Y[i-1])` at every point, with `Y[i-1]` already updated |
| SingleEquation.ImplicitEuler | DifferentialEquations.py:101-119 | returns the uniform grid and `N + 1` points with `Y[0] = y0`; every point is `y0` when the sweep budget is at most 1, and otherwise the aliased sweep recurrence holds. None runs when `G <= 1`. Otherwise exactly `min(G-1, 2)` sweeps run when `tol >= 0` or `N <= 0`, and `G-1` sweeps run otherwise. Every executed sweep leaves the same trajectory |
| SingleEquation.RelaxationSweep | DifferentialEquations.py:108-109 | corrected sweep: `Y[i] = Y[i-1] + h*f(X[i], prev[i])` at every point, reading the copy `prev` of the previous sweep |
| SingleEquation.ImplicitEulerCorrected | DifferentialEquations.py:101-119 | corrected relaxation. The result is `RelaxationIterate` after `sweeps` sweeps, and `previous` is the iterate one sweep earlier. It reports convergence exactly at the first sweep from the second on whose test passes (`SettlesAt`), within budget: on convergence that sweep passed and no earlier one from 2 on did; otherwise the full budget of `G - 1` sweeps ran and none from 2 on passed. On convergence every point is within `tol` of the previous sweep, and with `tol = 0` the result solves the implicit Euler equations |
| SingleEquation.RelaxUntilSettled | DifferentialEquations.py:107-118 | the sweep loop of the corrected relaxation: the array ends as the iterate after `sweeps` sweeps, with the same convergence and budget outcomes as `ImplicitEulerCorrected`: it stops at the first sweep from 2 on whose test passes, or after `G - 1` sweeps of which none from 2 on passed |
| SingleEquation.SweepAndTest | DifferentialEquations.py:108-114 | one corrected sweep followed by the convergence test: the array becomes the next iterate, and the flag is 1 exactly when that sweep moved no point by more than `tol` |
| SingleEquation.RelaxedSweep | DifferentialEquations.py:108-109 | one corrected sweep as a function of the copy it reads: it keeps the first point and satisfies the corrected step at every later point |
| SingleEquation.RelaxationIterate | DifferentialEquations.py:104-109 | the trajectory after `k` corrected sweeps from the constant start `[y0]*(N+1)`; its first point is always `y0` |
| SingleEquation.RelaxationStepsDetermineSweep | DifferentialEquations.py:108-109 | any sequence that keeps the first point and satisfies every corrected step is that sweep: a sweep is determined by the copy it reads |
| SingleEquation.ExactlySettledRelaxationSolvesImplicitEuler | DifferentialEquations.py:111-118 | a corrected sweep that moves no point solves the implicit Euler equations |
| SingleEquation.RelaxationOnExponentialExample | DifferentialEquations.py:101-119 | on `dy/dx = y`, `y(0) = 1`, over `[0, 0.5]` with one partition, the corrected relaxation has `Y[1] = 2 - (1/2)^k` after `k` sweeps, approaching the implicit Euler solution 2 |
| SingleEquation.RelaxationOnExponentialSettlesAt | DifferentialEquations.py:111-116 | on the same `dy/dx = y` problem, the test passes at corrected sweep `s` exactly when `(1/2)^s <= tol` |
| SingleEquation.RelaxationOnExponentialStopsAtSweep2 | DifferentialEquations.py:107-118 | on the same `dy/dx = y` problem with `tol = 1` and `G = 10`, the corrected relaxation's contract forces convergence at sweep 2 with `Y = [1, 1.75]` |
| SingleEquation.AliasedSweepAgreesAt | DifferentialEquations.py:107-109 | two trajectories that follow the aliased sweep from the same start agree at every point |
| SingleEquation.AliasedSweepDeterminedByStart | DifferentialEquations.py:107-118 | a sweep after the first recomputes exactly the same trajectory |
| SingleEquation.ExplicitEulerAgreesAt | DifferentialEquations.py:95-96 | the explicit Euler recurrence and the start value determine the trajectory |
| SingleEquation.GridPoint | DifferentialEquations.py:92 | grid point `i` lies `i*h` after `x0` |
| SingleEquation.IncrementsOnGridGiveLine | DifferentialEquations.py:92-96 | a trajectory that moves by `h*k` per grid step lies on the line `y0 + k*(x - x0)` |
| SingleEquation.ExplicitEulerExactOnConstantSlope | DifferentialEquations.py:90-97 | with a constant derivative `k`, every point of `ExplicitEuler`'s trajectory is on the exact line `y0 + k*(X[i] - x0)` |
| SingleEquation.ExplicitEulerOnExponential | DifferentialEquations.py:95-96 | on `dy/dx = y`, `Y[i] = Y[0] * (1 + h)^i` |
| SingleEquation.HeunExactOnConstantSlope | DifferentialEquations.py:123-130 | with a constant derivative `k`, every point of `Heun`'s trajectory is on the exact line |
| SingleEquation.HeunOnExponential | DifferentialEquations.py:128-129 | on `dy/dx = y`, `Y[i] = Y[0] * (1 + h + h²/2)^i` |
| SingleEquation.ImplicitEulerExactOnConstantSlope | DifferentialEquations.py:101-119 | with a constant derivative `k`, the library's implicit Euler also lands on the exact line when at least one sweep runs (`G >= 2`) |
| SingleEquation.AliasedSweepIsExplicitWhenAutonomous | DifferentialEquations.py:108-109 | when `f` does not depend on `x` and at least one sweep runs (`G >= 2`), the library's implicit Euler trajectory is the explicit Euler trajectory |
| SingleEquation.ImplicitEulerAliasingCounterexample | DifferentialEquations.py:105-118 | on `dy/dx = y`, `y(0) = 1`, over `[0, 0.5]` with one partition, the library's result has `Y[1] = 1.5`, which does not satisfy the implicit Euler equation |
| SingleEquation.ImplicitEulerEquationExactOnConstantSlope | DifferentialEquations.py:101-103 | with a constant derivative, any solution of the implicit Euler equations is the exact line |
| CoupledSystem.StateAt | DifferentialEquations.py:84-85 | definition: the state vector at point `k` has one entry per equation, namely point `k` of each trajectory, in order. `Values` holds this vector for the last point |
| CoupledSystem.TrajectoryLength | DifferentialEquations.py:74-77 | definition: `max(1, len(grid))` points, the initial value plus one point per abscissa after the first |
| CoupledSystem.NextState | DifferentialEquations.py:79-84 | definition: the state after one lock-step, where each component moves by `passo` times its equation evaluated on the whole pre-step state |
| CoupledSystem.AppendColumnStates | DifferentialEquations.py:85 | appending one point to every trajectory keeps the earlier state vectors and makes the new points the last state vector |
| CoupledSystem.LockStepExtends | DifferentialEquations.py:77-85 | appending the next lock-step state to trajectories that follow the recurrence keeps the recurrence, now one point longer |
| CoupledSystem.AdvanceInPlace | DifferentialEquations.py:79-85 | one step in place: the new `Values` is the pre-step vector moved by `passo` times each derivative taken on the pre-step vector, and that vector is appended to the trajectories |
| CoupledSystem.SolveEdoEuler | DifferentialEquations.py:23-86 | returns one trajectory per equation, each of `max(1, len(grid))` points, starting at its initial value. Point `k` of trajectory `i` is point `k-1` plus `passo * Equations[i](state at k-1)` |
| CoupledSystem.LockStepAgreesAt | DifferentialEquations.py:77-85 | two trajectory sets that follow the lock-step recurrence from the same initial state agree at every point |
| CoupledSystem.LockStepDeterminedByStart | DifferentialEquations.py:77-85 | the recurrence and the initial state determine `SolveEDO_Euler`'s result completely |
| CoupledSystem.ConstantDerivativeGivesLine | DifferentialEquations.py:79-85 | an equation with constant derivative `c` gives the line `F[i][k] = F[i][0] + passo*c*k`, whatever the other equations do |
| CoupledSystem.DecoupledEquationIsExplicitEuler | DifferentialEquations.py:79-85 | an equation that reads only its own unknown follows the single-equation explicit Euler recurrence with step `passo` |
| CoupledSystem.DecoupledEquationMatchesExplicitEuler | DifferentialEquations.py:79-97 | such an equation's trajectory is exactly the explicit Euler trajectory from the same start with the same step |
| FixedPoint.Sweep | DifferentialEquations.py:144-145 | a sweep yields one value per equation |
| FixedPoint.Iterate | DifferentialEquations.py:142-149 | zero sweeps leave the initial vector; any later iterate has one value per equation |
| FixedPoint.GaussSeidel | DifferentialEquations.py:133-153 | a result has one value per equation and equals every equation applied to the previous iterate. It satisfies the error bound in every component, and no earlier sweep did. `None` means no sweep within the budget satisfied it |
| FixedPoint.SettledWithoutErrorIsFixedPoint | DifferentialEquations.py:147 | with `error = 0`, the settled iterate is an exact fixed point of the system |
| FixedPoint.FixedPointIsKept | DifferentialEquations.py:142-149 | once an iterate is a fixed point, every later iterate equals it |
| FixedPoint.HalfSystemFixedPoint | DifferentialEquations.py:133-153 | for `y1 = y2/2 + 1`, `y2 = y1/2 + 1`, the vector (2, 2) is the one and only fixed point |
| FixedPoint.HalfSystemIterate | DifferentialEquations.py:142-149 | from (0, 0), both components after `k` sweeps are `2 - 2*(1/2)^k` |
| FixedPoint.HalfSystemSweepMove | DifferentialEquations.py:144-147 | from (0, 0), sweep `s` moves each component by `(1/2)^(s-1)` and leaves it that far below 2 |
| FixedPoint.HalfSystemConvergence | DifferentialEquations.py:142-149 | from (0, 0), the solver settles at sweep `s` exactly when `(1/2)^(s-1) <= error` |
| FixedPoint.HalfSystemSettledNearSolution | DifferentialEquations.py:142-153 | from (0, 0), the returned iterate is within `error` of the solution (2, 2) |
| FixedPoint.HalfSystemSettlesAtSweep21 | DifferentialEquations.py:142-153 | from (0, 0) with `error = 1e-6`, the solver settles at sweep 21 and not before |

## Left out

- Floating point: all arithmetic is on exact reals, so rounding is not modelled. Accuracy against the exact solution and truncation order are not claimed.
- SolveEdoEuler: the abscissae are an input `grid` instead of `np.arange(0, X_final, passo)`, whose length depends on float accumulation. The trajectories depend only on the grid's length, because over the reals `MetodoNumerico(m, t, t - passo, v) = v + m*passo` for every `t`.
- GaussSeidel: the source loops until it converges and never stops on a system that does not converge. The model takes a sweep budget `maxSweeps` and returns `None` when that budget runs out without convergence, so it states partial correctness only.
- GaussSeidel: the iteration counter `N` (DifferentialEquations.py:140, 150-152) and the commented-out prints are not modelled. The ghost out-parameter `sweeps` records the number of sweeps instead.
- ImplicitEuler: `sweeps` is a ghost record of the trajectory after every executed sweep. It is not part of the source's result.
- ImplicitEulerCorrected and RelaxUntilSettled: `previous` (the copy the last sweep read) and `sweeps` (the number of sweeps run) are ghost records. They are not part of any result the source returns.
- Dictionary insertion order: `Equations` and `InitialValues` are sequences, taken in the order the source reads them.
- SolveEdoEuler and GaussSeidel: both require `InitialValues` to have exactly one value per equation. A shorter list makes `SolveEDO_Euler` fail with an `IndexError` when it builds `Functions` (DifferentialEquations.py:72). In `Gauss_Seidel` a shorter list fails at `Eq[i](*Ant)` (DifferentialEquations.py:145): a callable with one parameter per equation raises a `TypeError` there, and only a callable that accepts fewer arguments gets through to the `IndexError` of `Res[i] = ...`. A longer list runs in the source whenever the callables accept that many arguments, because the loops cover `len(Equations)` components only. The extra values then pass through unchanged, and `Gauss_Seidel` returns them. The model does not cover such longer lists.
- ExplicitEuler, Heun, ImplicitEuler and ImplicitEulerCorrected: all require `n != 0`. With `N_Partitions = 0` the source fails with a division by zero when it computes `h`, and that failure is not modelled.
- The docstring's rules on lambda and comma syntax (DifferentialEquations.py:56-66) are rules of Python syntax, not behaviour.
- DifferentialEquations.py has no coupled Heun solver, and none is modelled.
- numpy itself is not modelled.

## Findings

| source | as written | input that shows it | evidently intended | confidence | as-written member | corrected member |
|---|---|---|---|---|---|---|
| DifferentialEquations.py:105-118 | The sweep reads `y_ant[i + 0]`, the previous point, where the implicit equation needs the point being computed. On top of that, `y_ant = Y` binds the "previous sweep" to the list being overwritten. The index `i + 0` alone makes the result the explicit scheme `Y[i+1] = Y[i] + h*f(X[i+1], Y[i])`: through the alias it comes out in a single sweep, and with a true copy the sweeps converge to it. The alias alone makes the test at :113 compare the list with itself, so the loop stops after its second sweep for any `tol >= 0`. The test also checks only `N` of the `N + 1` points | `f(x, y) = y`, `x0 = 0`, `xf = 0.5`, `N = 1`, `y0 = 1`, `G = 3`, `tol = 0` gives `Y = [1, 1.5]`. The implicit Euler equation `Y[1] = 1 + 0.5*Y[1]` gives `Y[1] = 2` | both causes are fixed: each sweep reads a copy of the previous sweep at the point being computed, so `Y[i+1] = Y[i] + h*f(X[i+1], y_ant[i+1])`. The test compares all `N + 1` points, and a fixed point with `tol = 0` solves the implicit equations | not executed; high | SingleEquation.ImplicitEulerAliasingCounterexample | SingleEquation.ImplicitEulerCorrected |
