/** The coupled-system solver: N equations `dy_i/dx = f_i(y_1, ..., y_N)`
    advanced together by explicit Euler over a given grid, every derivative of
    a step being taken from the state vector before the step. */
module CoupledSystem {
  import opened StepFormula
  import SingleEquation

  /** Every trajectory of `F` has `m` points. */
  predicate Trajectories(F: seq<seq<real>>, m: nat)
  {
    forall i :: 0 <= i < |F| ==> |F[i]| == m
  }

  /** The state vector at grid point `k`: point `k` of every trajectory, in
      equation order. */
  function StateAt(F: seq<seq<real>>, k: nat): (v: seq<real>)
    requires forall i :: 0 <= i < |F| ==> k < |F[i]|
    ensures |v| == |F|
    ensures forall i :: 0 <= i < |F| ==> v[i] == F[i][k]
  {
    seq(|F|, i requires 0 <= i < |F| => F[i][k])
  }

  /** Number of points of every trajectory: the initial value plus one point
      per grid abscissa after the first. */
  function TrajectoryLength(grid: seq<real>): (m: nat)
    ensures m >= 1
    ensures |grid| >= 1 ==> m == |grid|
  {
    if |grid| == 0 then 1 else |grid|
  }

  /** Point `k` of trajectory `i` is point `k - 1` moved by `passo` times the
      derivative of equation `i` on the whole state vector at point `k - 1`. */
  predicate LockStepAt(equations: seq<seq<real> -> real>, F: seq<seq<real>>, m: nat, passo: real, i: int, k: int)
  {
    |F| == |equations| && Trajectories(F, m) && 0 <= i < |F| && 1 <= k < m
    && F[i][k] == F[i][k - 1] + passo * Diferencial(equations, StateAt(F, k - 1), i)
  }

  /** `F` is `|equations|` trajectories of `m` points that follow the
      lock-step explicit Euler recurrence. */
  predicate LockStepEuler(equations: seq<seq<real> -> real>, F: seq<seq<real>>, m: nat, passo: real)
  {
    |F| == |equations| && Trajectories(F, m)
    && forall i, k :: 0 <= i < |F| && 1 <= k < m ==> LockStepAt(equations, F, m, passo, i, k)
  }

  /** `F` with `column` appended as one more point of every trajectory. */
  function AppendColumn(F: seq<seq<real>>, column: seq<real>): (G: seq<seq<real>>)
    requires |column| == |F|
    ensures |G| == |F|
    ensures forall i :: 0 <= i < |F| ==> G[i] == F[i] + [column[i]]
  {
    seq(|F|, i requires 0 <= i < |F| => F[i] + [column[i]])
  }

  /** Appending a column keeps the earlier state vectors and makes the
      column the last one. */
  lemma AppendColumnStates(F: seq<seq<real>>, m: nat, column: seq<real>)
    requires Trajectories(F, m) && |column| == |F|
    ensures Trajectories(AppendColumn(F, column), m + 1)
    ensures StateAt(AppendColumn(F, column), m) == column
    ensures forall k :: 0 <= k < m ==> StateAt(AppendColumn(F, column), k) == StateAt(F, k)
  {
  }

  /** The state vector one lock-step after `state`: every component moves by
      `passo` times its derivative on the whole of `state`. */
  function NextState(equations: seq<seq<real> -> real>, state: seq<real>, passo: real): (next: seq<real>)
    requires |state| == |equations|
    ensures |next| == |state|
    ensures forall j :: 0 <= j < |state| ==> next[j] == state[j] + passo * Diferencial(equations, state, j)
  {
    seq(|state|, j requires 0 <= j < |state| => state[j] + passo * Diferencial(equations, state, j))
  }

  /** Appending the next state to trajectories that follow the recurrence gives
      trajectories one point longer that still follow it. */
  lemma LockStepExtends(equations: seq<seq<real> -> real>, F: seq<seq<real>>, m: nat, passo: real, column: seq<real>)
    requires LockStepEuler(equations, F, m, passo) && m > 0
    requires column == NextState(equations, StateAt(F, m - 1), passo)
    ensures LockStepEuler(equations, AppendColumn(F, column), m + 1, passo)
    ensures StateAt(AppendColumn(F, column), m) == column
  {
    var G := AppendColumn(F, column);
    var longer := m + 1;
    AppendColumnStates(F, m, column);
    forall i, k | 0 <= i < |F| && 1 <= k < longer
      ensures LockStepAt(equations, G, longer, passo, i, k)
    {
      if k < m {
        assert LockStepAt(equations, F, m, passo, i, k);
        assert StateAt(G, k - 1) == StateAt(F, k - 1);
      } else {
        assert StateAt(G, k - 1) == StateAt(F, k - 1);
      }
    }
  }

  /** One step of the solver in place: every derivative is taken from the
      state before the step, then every component is moved along its slope
      and appended to its trajectory. */
  method AdvanceInPlace(equations: seq<seq<real> -> real>, values: array<real>, dydx: array<real>, t: real, passo: real,
                        functions: seq<seq<real>>)
    returns (next: seq<seq<real>>)
    requires values != dydx && values.Length == dydx.Length == |equations| == |functions|
    modifies values, dydx
    ensures values[..] == NextState(equations, old(values[..]), passo)
    ensures next == AppendColumn(functions, values[..])
  {
    var size := |equations|;
    ghost var pre := values[..];
    for i := 0 to size
      invariant values[..] == pre
      invariant forall j :: 0 <= j < i ==> dydx[j] == Diferencial(equations, pre, j)
    {
      dydx[i] := Diferencial(equations, values[..], i);
    }
    next := functions;
    for i := 0 to size
      invariant |next| == size
      invariant forall j :: 0 <= j < size ==> dydx[j] == Diferencial(equations, pre, j)
      invariant forall j :: 0 <= j < i ==> values[j] == pre[j] + passo * Diferencial(equations, pre, j)
      invariant forall j :: i <= j < size ==> values[j] == pre[j]
      invariant forall j :: 0 <= j < i ==> next[j] == functions[j] + [values[j]]
      invariant forall j :: i <= j < size ==> next[j] == functions[j]
    {
      LinearStepIsIncrement(dydx[i], t, passo, values[i]);
      values[i] := MetodoNumerico(dydx[i], t, t - passo, values[i]);
      next := next[i := next[i] + [values[i]]];
    }
    ghost var moved := NextState(equations, pre, passo);
    forall j | 0 <= j < size
      ensures values[j] == moved[j]
    {
    }
    assert values[..] == moved;
  }

  /** The lock-step explicit Euler solver over the abscissae `grid`: returns one
      trajectory per equation, each starting at its initial value and gaining one
      point per abscissa after the first. */
  method SolveEdoEuler(equations: seq<seq<real> -> real>, initialValues: seq<real>, grid: seq<real>, passo: real)
    returns (functions: seq<seq<real>>)
    requires |initialValues| == |equations|
    ensures |functions| == |equations|
    ensures Trajectories(functions, TrajectoryLength(grid))
    ensures forall i :: 0 <= i < |functions| ==> functions[i][0] == initialValues[i]
    ensures LockStepEuler(equations, functions, TrajectoryLength(grid), passo)
  {
    var size := |equations|;
    var values := new real[size];
    forall i | 0 <= i < size {
      values[i] := initialValues[i];
    }
    functions := seq(size, i requires 0 <= i < size => [initialValues[i]]);
    var dydx := new real[size];
    var k := 1;
    while k < |grid|
      invariant 1 <= k <= TrajectoryLength(grid)
      invariant |functions| == size && Trajectories(functions, k)
      invariant forall i :: 0 <= i < size ==> functions[i][0] == initialValues[i]
      invariant values[..] == StateAt(functions, k - 1)
      invariant LockStepEuler(equations, functions, k, passo)
    {
      ghost var before := functions;
      functions := AdvanceInPlace(equations, values, dydx, grid[k], passo, functions);
      LockStepExtends(equations, before, k, passo, values[..]);
      k := k + 1;
    }
  }

  /** Two lock-step trajectory sets with the same initial state agree at every
      point: the recurrence determines the solver's result. */
  lemma {:induction false} LockStepAgreesAt(equations: seq<seq<real> -> real>, F: seq<seq<real>>, G: seq<seq<real>>, m: nat, passo: real, k: nat)
    requires LockStepEuler(equations, F, m, passo) && LockStepEuler(equations, G, m, passo)
    requires m > 0 && StateAt(F, 0) == StateAt(G, 0)
    requires k < m
    ensures StateAt(F, k) == StateAt(G, k)
  {
    if k > 0 {
      LockStepAgreesAt(equations, F, G, m, passo, k - 1);
      forall i | 0 <= i < |F|
        ensures F[i][k] == G[i][k]
      {
        assert LockStepAt(equations, F, m, passo, i, k);
        assert LockStepAt(equations, G, m, passo, i, k);
      }
    }
  }

  lemma LockStepDeterminedByStart(equations: seq<seq<real> -> real>, F: seq<seq<real>>, G: seq<seq<real>>, m: nat, passo: real)
    requires LockStepEuler(equations, F, m, passo) && LockStepEuler(equations, G, m, passo)
    requires m > 0 && StateAt(F, 0) == StateAt(G, 0)
    ensures F == G
  {
    forall i | 0 <= i < |F|
      ensures F[i] == G[i]
    {
      forall k | 0 <= k < m
        ensures F[i][k] == G[i][k]
      {
        LockStepAgreesAt(equations, F, G, m, passo, k);
      }
    }
  }

  /** When equation `i` has the constant derivative `c`, its trajectory is the
      line `F[i][k] = F[i][0] + c * passo * k`, whatever the other equations do. */
  lemma ConstantDerivativeGivesLine(equations: seq<seq<real> -> real>, F: seq<seq<real>>, m: nat, passo: real, i: nat, c: real)
    requires LockStepEuler(equations, F, m, passo) && i < |F|
    requires forall v :: equations[i](v) == c
    ensures forall k :: 0 <= k < m ==> F[i][k] == F[i][0] + passo * c * (k as real)
  {
    var d := passo * c;
    forall j | 1 <= j < |F[i]|
      ensures GrowsBy(F[i], d, j)
    {
      assert LockStepAt(equations, F, m, passo, i, j);
    }
    forall k | 0 <= k < m
      ensures F[i][k] == F[i][0] + passo * c * (k as real)
    {
      ConstantIncrementGivesLine(F[i], d, k);
    }
  }

  /** When equation `i` reads only its own unknown, `dy_i/dx = g(y_i)`, its
      trajectory follows the single-equation explicit Euler recurrence with
      step `passo`, on any abscissae. */
  lemma DecoupledEquationIsExplicitEuler(equations: seq<seq<real> -> real>, F: seq<seq<real>>, m: nat, passo: real, i: nat,
                                         f: (real, real) -> real, g: real -> real, xs: seq<real>)
    requires LockStepEuler(equations, F, m, passo) && i < |F|
    requires forall v :: |v| == |equations| ==> equations[i](v) == g(v[i])
    requires forall x, y :: f(x, y) == g(y)
    requires m <= |xs| + 1
    ensures SingleEquation.ExplicitEulerRecurrence(f, xs, F[i], passo)
  {
    forall k | 1 <= k < |F[i]|
      ensures SingleEquation.ExplicitEulerStep(f, xs, F[i], passo, k)
    {
      assert LockStepAt(equations, F, m, passo, i, k);
      var state := StateAt(F, k - 1);
      var x, y := xs[k - 1], F[i][k - 1];
      assert equations[i](state) == g(y);
      assert f(x, y) == g(y);
    }
  }

  /** A decoupled equation of the system yields exactly the trajectory of the
      single-equation explicit Euler solver started from the same value with the
      same step. */
  lemma DecoupledEquationMatchesExplicitEuler(equations: seq<seq<real> -> real>, F: seq<seq<real>>, m: nat, passo: real, i: nat,
                                              f: (real, real) -> real, g: real -> real, xs: seq<real>, ys: seq<real>)
    requires LockStepEuler(equations, F, m, passo) && i < |F|
    requires forall v :: |v| == |equations| ==> equations[i](v) == g(v[i])
    requires forall x, y :: f(x, y) == g(y)
    requires m <= |xs| + 1
    requires |ys| == m && m > 0 && ys[0] == F[i][0] && SingleEquation.ExplicitEulerRecurrence(f, xs, ys, passo)
    ensures F[i] == ys
  {
    DecoupledEquationIsExplicitEuler(equations, F, m, passo, i, f, g, xs);
    forall k | 0 <= k < m
      ensures F[i][k] == ys[k]
    {
      SingleEquation.ExplicitEulerAgreesAt(f, xs, passo, F[i], ys, k);
    }
  }
}
