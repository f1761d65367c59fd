/** Solvers for one scalar ODE `dy/dx = f(x, y)` on the uniform grid of
    `n` partitions of `[x0, xf]`: explicit Euler, Heun, and the relaxation
    ("implicit") Euler of the library, together with a corrected relaxation.
    Each returns the grid and the trajectory over it. */
module SingleEquation {
  import opened StepFormula

  /** The partition width `h = (xf - x0) / n`. */
  function StepSize(x0: real, xf: real, n: int): real
    requires n != 0
  {
    (xf - x0) / (n as real)
  }

  /** The grid `x0 + h*i` for `i` in `range(0, n + 1)`: for a positive `n` it runs
      from `x0` to `xf` in equal steps of `h`; for a negative `n` it is empty. */
  function UniformGrid(x0: real, xf: real, n: int): (xs: seq<real>)
    requires n != 0
    ensures |xs| == RangeLen(0, n + 1)
    ensures n > 0 ==> xs[0] == x0 && xs[n] == xf
    ensures forall i :: 1 <= i < |xs| ==> xs[i] - xs[i - 1] == StepSize(x0, xf, n)
  {
    seq(RangeLen(0, n + 1), i => x0 + StepSize(x0, xf, n) * (i as real))
  }

  /** Point `i` is one explicit Euler step from point `i - 1`. */
  predicate ExplicitEulerStep(f: (real, real) -> real, xs: seq<real>, ys: seq<real>, h: real, i: int)
  {
    1 <= i < |ys| && i - 1 < |xs| && ys[i] == ys[i - 1] + h * f(xs[i - 1], ys[i - 1])
  }

  predicate ExplicitEulerRecurrence(f: (real, real) -> real, xs: seq<real>, ys: seq<real>, h: real)
  {
    forall i :: 1 <= i < |ys| ==> ExplicitEulerStep(f, xs, ys, h, i)
  }

  /** Point `i` is one Heun step from point `i - 1`. */
  predicate HeunStep(f: (real, real) -> real, xs: seq<real>, ys: seq<real>, h: real, i: int)
  {
    1 <= i < |ys| && i - 1 < |xs| && ys[i] == GeneralHeun(f, xs[i - 1], ys[i - 1], h)
  }

  predicate HeunRecurrence(f: (real, real) -> real, xs: seq<real>, ys: seq<real>, h: real)
  {
    forall i :: 1 <= i < |ys| ==> HeunStep(f, xs, ys, h, i)
  }

  /** What one sweep of the library's implicit Euler leaves at point `i`:
      since the "previous sweep" it reads is the list being written, point
      `i` is computed from point `i - 1` as already updated, with the slope
      taken at the abscissa of point `i`. */
  predicate AliasedStep(f: (real, real) -> real, xs: seq<real>, ys: seq<real>, h: real, i: int)
  {
    1 <= i < |ys| && i < |xs| && ys[i] == ys[i - 1] + h * f(xs[i], ys[i - 1])
  }

  predicate AliasedSweepRecurrence(f: (real, real) -> real, xs: seq<real>, ys: seq<real>, h: real)
  {
    forall i :: 1 <= i < |ys| ==> AliasedStep(f, xs, ys, h, i)
  }

  /** The implicit Euler equation at point `i`: the slope of the step is
      taken at its end point. */
  predicate ImplicitEulerStep(f: (real, real) -> real, xs: seq<real>, ys: seq<real>, h: real, i: int)
  {
    1 <= i < |ys| && i < |xs| && ys[i] == ys[i - 1] + h * f(xs[i], ys[i])
  }

  predicate ImplicitEulerEquation(f: (real, real) -> real, xs: seq<real>, ys: seq<real>, h: real)
  {
    forall i :: 1 <= i < |ys| ==> ImplicitEulerStep(f, xs, ys, h, i)
  }

  method ExplicitEuler(f: (real, real) -> real, x0: real, xf: real, y0: real, n: int)
    returns (xs: seq<real>, ys: seq<real>)
    requires n != 0
    ensures xs == UniformGrid(x0, xf, n)
    ensures |ys| == if n < 0 then 1 else n + 1
    ensures ys[0] == y0
    ensures ExplicitEulerRecurrence(f, xs, ys, StepSize(x0, xf, n))
  {
    var h := (xf - x0) / (n as real);
    xs := UniformGrid(x0, xf, n);
    ys := [y0];
    var i := 1;
    while i < n + 1
      invariant 1 <= i <= if n < 0 then 1 else n + 1
      invariant |ys| == i && ys[0] == y0
      invariant ExplicitEulerRecurrence(f, xs, ys, h)
    {
      ghost var done := ys;
      ys := ys + [ys[i - 1] + h * f(xs[i - 1], ys[i - 1])];
      forall j | 1 <= j < i
        ensures ExplicitEulerStep(f, xs, ys, h, j)
      {
        assert ExplicitEulerStep(f, xs, done, h, j);
      }
      assert ExplicitEulerStep(f, xs, ys, h, i);
      i := i + 1;
    }
  }

  method Heun(f: (real, real) -> real, x0: real, xf: real, y0: real, n: int)
    returns (xs: seq<real>, ys: seq<real>)
    requires n != 0
    ensures xs == UniformGrid(x0, xf, n)
    ensures |ys| == if n < 0 then 1 else n + 1
    ensures ys[0] == y0
    ensures HeunRecurrence(f, xs, ys, StepSize(x0, xf, n))
  {
    var h := (xf - x0) / (n as real);
    xs := UniformGrid(x0, xf, n);
    ys := [y0];
    var i := 1;
    while i < n + 1
      invariant 1 <= i <= if n < 0 then 1 else n + 1
      invariant |ys| == i && ys[0] == y0
      invariant HeunRecurrence(f, xs, ys, h)
    {
      ghost var done := ys;
      ys := ys + [GeneralHeun(f, xs[i - 1], ys[i - 1], h)];
      forall j | 1 <= j < i
        ensures HeunStep(f, xs, ys, h, j)
      {
        assert HeunStep(f, xs, done, h, j);
      }
      assert HeunStep(f, xs, ys, h, i);
      i := i + 1;
    }
  }

  /** How many sweeps the library's implicit Euler runs. The difference it
      tests is always zero, so a non-negative `tol` (or an empty sweep) lets
      it stop after its second sweep; only a negative `tol` keeps it going
      for the whole budget of `iterations - 1` sweeps. */
  function AliasedSweepCount(tol: real, n: int, iterations: int): nat
  {
    if iterations <= 1 then 0
    else if tol >= 0.0 || n <= 0 then (if iterations - 1 < 2 then iterations - 1 else 2)
    else iterations - 1
  }

  /** The convergence test of the relaxation: 1 when each of the first `m`
      points moved by at most `tol` since the previous sweep, 0 otherwise. */
  method ConvergenceFlag(ys: seq<real>, previous: seq<real>, tol: real, m: int) returns (controle: int)
    requires m <= |ys| && m <= |previous|
    ensures controle == 0 || controle == 1
    ensures controle == 1 <==> forall j :: 0 <= j < m ==> Abs(ys[j] - previous[j]) <= tol
  {
    controle := 1;
    var i := 0;
    while i < m
      invariant 0 <= i <= RangeLen(0, m)
      invariant controle == 0 || controle == 1
      invariant controle == 1 <==> forall j :: 0 <= j < i ==> Abs(ys[j] - previous[j]) <= tol
    {
      if Abs(ys[i] - previous[i]) > tol {
        controle := 0;
      }
      i := i + 1;
    }
  }

  /** One sweep of the library's implicit Euler over `y`, reading the previous
      sweep through `yAnt`, which is the same array. Point 0 is never written. */
  method AliasedSweep(f: (real, real) -> real, xs: seq<real>, h: real, y: array<real>, yAnt: array<real>, n: int)
    requires yAnt == y && y.Length == RangeLen(0, n + 1) && |xs| == y.Length
    modifies y
    ensures n > 0 ==> y[0] == old(y[0])
    ensures n <= 0 ==> y[..] == old(y[..])
    ensures AliasedSweepRecurrence(f, xs, y[..], h)
  {
    var i := 0;
    while i < n
      invariant 0 <= i && (n > 0 ==> i <= n)
      invariant n > 0 ==> y[0] == old(y[0])
      invariant n <= 0 ==> y[..] == old(y[..])
      invariant forall j :: 1 <= j <= i ==> AliasedStep(f, xs, y[..], h, j)
    {
      ghost var done := y[..];
      y[i + 1] := y[i] + h * f(xs[i + 1], yAnt[i + 0]);
      forall j | 1 <= j <= i
        ensures AliasedStep(f, xs, y[..], h, j)
      {
        assert AliasedStep(f, xs, done, h, j);
      }
      assert AliasedStep(f, xs, y[..], h, i + 1);
      i := i + 1;
    }
  }

  /** The library's implicit Euler, with the previous-sweep list bound to the
      very list that each sweep overwrites. `sweeps` records the trajectory
      after each executed sweep. */
  method ImplicitEuler(f: (real, real) -> real, x0: real, xf: real, y0: real, tol: real, n: int, iterations: int)
    returns (xs: seq<real>, ys: seq<real>, ghost sweeps: seq<seq<real>>)
    requires n != 0
    ensures xs == UniformGrid(x0, xf, n)
    ensures |ys| == RangeLen(0, n + 1)
    ensures n > 0 ==> ys[0] == y0
    ensures iterations <= 1 ==> forall i :: 0 <= i < |ys| ==> ys[i] == y0
    ensures iterations > 1 ==> AliasedSweepRecurrence(f, xs, ys, StepSize(x0, xf, n))
    ensures |sweeps| == AliasedSweepCount(tol, n, iterations)
    ensures forall k :: 0 <= k < |sweeps| ==> sweeps[k] == ys
  {
    var h := (xf - x0) / (n as real);
    xs := UniformGrid(x0, xf, n);
    var y := new real[RangeLen(0, n + 1)](_ => y0);
    var yAnt := y;
    sweeps := [];
    var it := 1;
    while it < iterations
      invariant yAnt == y && y.Length == RangeLen(0, n + 1)
      invariant 1 <= it <= if iterations < 1 then 1 else iterations
      invariant |sweeps| == it - 1
      invariant it > 2 ==> tol < 0.0 && n > 0
      invariant n > 0 ==> y[0] == y0
      invariant |sweeps| == 0 ==> forall j :: 0 <= j < y.Length ==> y[j] == y0
      invariant |sweeps| > 0 ==> AliasedSweepRecurrence(f, xs, y[..], h)
      invariant forall k :: 0 <= k < |sweeps| ==> sweeps[k] == y[..]
    {
      ghost var before := y[..];
      AliasedSweep(f, xs, h, y, yAnt, n);
      if |sweeps| > 0 {
        AliasedSweepDeterminedByStart(f, xs, h, before, y[..]);
      }
      var controle := ConvergenceFlag(y[..], yAnt[..], tol, n);
      assert controle == 1 <==> tol >= 0.0 || n <= 0 by {
        if n > 0 {
          assert Abs(y[..][0] - yAnt[..][0]) == 0.0;
        }
      }
      sweeps := sweeps + [y[..]];
      if it > 1 && controle == 1 {
        break;
      }
      yAnt := y;
      it := it + 1;
    }
    ys := y[..];
  }

  /** Point `i` of one sweep of the corrected relaxation: the slope is taken
      at point `i` of the copy `prev` of the previous sweep. */
  predicate RelaxationStep(f: (real, real) -> real, xs: seq<real>, ys: seq<real>, prev: seq<real>, h: real, i: int)
  {
    1 <= i < |ys| && i < |xs| && i < |prev| && ys[i] == ys[i - 1] + h * f(xs[i], prev[i])
  }

  /** One sweep of the corrected relaxation over `y`, reading the copy `yAnt`
      of the previous sweep. Point 0 is never written. */
  method RelaxationSweep(f: (real, real) -> real, xs: seq<real>, h: real, y: array<real>, yAnt: seq<real>, n: int)
    requires y.Length == RangeLen(0, n + 1) == |xs| == |yAnt|
    modifies y
    ensures y.Length > 0 ==> y[0] == old(y[0])
    ensures forall j :: 1 <= j < y.Length ==> RelaxationStep(f, xs, y[..], yAnt, h, j)
    ensures old(y[..]) == yAnt ==> y[..] == RelaxedSweep(f, xs, h, yAnt)
  {
    var i := 0;
    while i < n
      invariant 0 <= i && (n > 0 ==> i <= n)
      invariant y.Length > 0 ==> y[0] == old(y[0])
      invariant forall j :: 1 <= j <= i ==> RelaxationStep(f, xs, y[..], yAnt, h, j)
    {
      ghost var done := y[..];
      y[i + 1] := y[i] + h * f(xs[i + 1], yAnt[i + 1]);
      forall j | 1 <= j <= i
        ensures RelaxationStep(f, xs, y[..], yAnt, h, j)
      {
        assert RelaxationStep(f, xs, done, yAnt, h, j);
      }
      assert RelaxationStep(f, xs, y[..], yAnt, h, i + 1);
      i := i + 1;
    }
    if old(y[..]) == yAnt {
      RelaxationStepsDetermineSweep(f, xs, h, yAnt, y[..]);
    }
  }

  /** Point `i` of one corrected sweep that reads the copy `prev` of the
      previous sweep: point 0 keeps `prev[0]`, and each later point adds
      `h * f` at the grid point and the previous sweep's value there. */
  function RelaxedPoint(f: (real, real) -> real, xs: seq<real>, h: real, prev: seq<real>, i: nat): real
    requires i < |prev| <= |xs|
    decreases i
  {
    if i == 0 then prev[0] else RelaxedPoint(f, xs, h, prev, i - 1) + h * f(xs[i], prev[i])
  }

  /** One corrected sweep as a whole: it keeps the first point and satisfies
      `RelaxationStep` at every later point. */
  function RelaxedSweep(f: (real, real) -> real, xs: seq<real>, h: real, prev: seq<real>): (next: seq<real>)
    requires |prev| <= |xs|
    ensures |next| == |prev|
    ensures |next| > 0 ==> next[0] == prev[0]
    ensures forall j :: 1 <= j < |next| ==> RelaxationStep(f, xs, next, prev, h, j)
  {
    seq(|prev|, i requires 0 <= i < |prev| => RelaxedPoint(f, xs, h, prev, i))
  }

  /** The trajectory after `k` corrected sweeps from the constant start `y0`. */
  function RelaxationIterate(f: (real, real) -> real, xs: seq<real>, h: real, y0: real, k: nat): (ys: seq<real>)
    ensures |ys| == |xs|
    ensures |ys| > 0 ==> ys[0] == y0
    decreases k
  {
    if k == 0 then seq(|xs|, _ => y0) else RelaxedSweep(f, xs, h, RelaxationIterate(f, xs, h, y0, k - 1))
  }

  /** A sequence that keeps the first point of `prev` and satisfies
      `RelaxationStep` everywhere is the corrected sweep of `prev`, point by point. */
  lemma {:induction false} RelaxationStepsAgreeAt(f: (real, real) -> real, xs: seq<real>, h: real, prev: seq<real>, ys: seq<real>, i: nat)
    requires |ys| == |prev| <= |xs| && i < |ys| && ys[0] == prev[0]
    requires forall j :: 1 <= j < |ys| ==> RelaxationStep(f, xs, ys, prev, h, j)
    ensures ys[i] == RelaxedPoint(f, xs, h, prev, i)
  {
    if i > 0 {
      RelaxationStepsAgreeAt(f, xs, h, prev, ys, i - 1);
      assert RelaxationStep(f, xs, ys, prev, h, i);
    }
  }

  /** A corrected sweep is determined by the copy it reads: any sequence that
      keeps the first point and satisfies every step is `RelaxedSweep`. */
  lemma RelaxationStepsDetermineSweep(f: (real, real) -> real, xs: seq<real>, h: real, prev: seq<real>, ys: seq<real>)
    requires |ys| == |prev| <= |xs| && (|ys| > 0 ==> ys[0] == prev[0])
    requires forall j :: 1 <= j < |ys| ==> RelaxationStep(f, xs, ys, prev, h, j)
    ensures ys == RelaxedSweep(f, xs, h, prev)
  {
    forall i | 0 <= i < |ys|
      ensures ys[i] == RelaxedSweep(f, xs, h, prev)[i]
    {
      RelaxationStepsAgreeAt(f, xs, h, prev, ys, i);
    }
  }

  /** Sweep `s` (counted from 1) of the corrected relaxation passes the
      convergence test: no point moved by more than `tol`. */
  predicate SettlesAt(f: (real, real) -> real, xs: seq<real>, h: real, y0: real, tol: real, s: nat)
    requires s >= 1
  {
    var before := RelaxationIterate(f, xs, h, y0, s - 1);
    var after := RelaxationIterate(f, xs, h, y0, s);
    forall j :: 0 <= j < |xs| ==> Abs(after[j] - before[j]) <= tol
  }

  /** Sweep `k + 1` of the corrected relaxation over `y`, which holds the
      iterate after `k` sweeps and of which `yAnt` is a copy, followed by the
      convergence test of that sweep. */
  method SweepAndTest(f: (real, real) -> real, xs: seq<real>, h: real, y0: real, tol: real, n: int, y: array<real>, yAnt: seq<real>, ghost k: nat)
    returns (controle: int)
    requires y.Length == RangeLen(0, n + 1) == |xs|
    requires y[..] == yAnt == RelaxationIterate(f, xs, h, y0, k)
    modifies y
    ensures y[..] == RelaxationIterate(f, xs, h, y0, k + 1)
    ensures controle == 0 || controle == 1
    ensures controle == 1 <==> SettlesAt(f, xs, h, y0, tol, k + 1)
  {
    RelaxationSweep(f, xs, h, y, yAnt, n);
    controle := ConvergenceFlag(y[..], yAnt, tol, n + 1);
  }

  /** The sweep loop of the corrected relaxation over `y`, which holds the
      constant start on entry: at most `iterations - 1` sweeps, stopping at
      the first sweep after the first whose points all moved by at most `tol`.
      On exit `y` holds the iterate after `sweeps` sweeps and `previous` the
      copy the last sweep read. */
  method RelaxUntilSettled(f: (real, real) -> real, xs: seq<real>, h: real, y0: real, tol: real, n: int, iterations: int, y: array<real>)
    returns (converged: bool, ghost previous: seq<real>, ghost sweeps: nat)
    requires y.Length == RangeLen(0, n + 1) == |xs|
    requires y[..] == RelaxationIterate(f, xs, h, y0, 0)
    modifies y
    ensures |previous| == y.Length
    ensures y[..] == RelaxationIterate(f, xs, h, y0, sweeps)
    ensures sweeps >= 1 ==> previous == RelaxationIterate(f, xs, h, y0, sweeps - 1)
    ensures converged ==> 2 <= sweeps < iterations
    ensures converged ==> forall i :: 0 <= i < y.Length ==> Abs(y[i] - previous[i]) <= tol
    ensures !converged ==> sweeps == RangeLen(1, iterations)
    ensures converged ==> SettlesAt(f, xs, h, y0, tol, sweeps)
    ensures converged ==> forall s :: 2 <= s < sweeps ==> !SettlesAt(f, xs, h, y0, tol, s)
    ensures !converged ==> forall s :: 2 <= s <= sweeps ==> !SettlesAt(f, xs, h, y0, tol, s)
  {
    var yAnt := y[..];
    previous := yAnt;
    converged := false;
    sweeps := 0;
    var it := 1;
    while it < iterations
      invariant y.Length == |yAnt| == |previous|
      invariant 1 <= it <= if iterations < 1 then 1 else iterations
      invariant sweeps == it - 1
      invariant !converged
      invariant y[..] == yAnt == RelaxationIterate(f, xs, h, y0, sweeps)
      invariant sweeps >= 1 ==> previous == RelaxationIterate(f, xs, h, y0, sweeps - 1)
      invariant forall s :: 2 <= s <= sweeps ==> !SettlesAt(f, xs, h, y0, tol, s)
    {
      var controle := SweepAndTest(f, xs, h, y0, tol, n, y, yAnt, sweeps);
      previous := yAnt;
      sweeps := sweeps + 1;
      if it > 1 && controle == 1 {
        converged := true;
        break;
      }
      yAnt := y[..];
      it := it + 1;
    }
  }

  /** The relaxation the library evidently intends: each sweep reads a copy of
      the previous sweep at the point being computed, the test compares every
      point, and the result says whether the test was passed. `previous` is
      the copy the last sweep read. */
  method ImplicitEulerCorrected(f: (real, real) -> real, x0: real, xf: real, y0: real, tol: real, n: int, iterations: int)
    returns (xs: seq<real>, ys: seq<real>, converged: bool, ghost previous: seq<real>, ghost sweeps: nat)
    requires n != 0
    ensures xs == UniformGrid(x0, xf, n)
    ensures |ys| == RangeLen(0, n + 1) && |previous| == |ys|
    ensures n > 0 ==> ys[0] == y0
    ensures iterations <= 1 ==> !converged && forall i :: 0 <= i < |ys| ==> ys[i] == y0
    ensures iterations > 1 ==> forall i :: 1 <= i < |ys| ==> RelaxationStep(f, xs, ys, previous, StepSize(x0, xf, n), i)
    ensures converged ==> 2 <= sweeps < iterations
    ensures converged ==> forall i :: 0 <= i < |ys| ==> Abs(ys[i] - previous[i]) <= tol
    ensures converged && tol == 0.0 ==> ImplicitEulerEquation(f, xs, ys, StepSize(x0, xf, n))
    ensures !converged ==> sweeps == RangeLen(1, iterations)
    ensures ys == RelaxationIterate(f, xs, StepSize(x0, xf, n), y0, sweeps)
    ensures sweeps >= 1 ==> previous == RelaxationIterate(f, xs, StepSize(x0, xf, n), y0, sweeps - 1)
    ensures converged ==> SettlesAt(f, xs, StepSize(x0, xf, n), y0, tol, sweeps)
    ensures converged ==> forall s :: 2 <= s < sweeps ==> !SettlesAt(f, xs, StepSize(x0, xf, n), y0, tol, s)
    ensures !converged ==> forall s :: 2 <= s <= sweeps ==> !SettlesAt(f, xs, StepSize(x0, xf, n), y0, tol, s)
  {
    var h := (xf - x0) / (n as real);
    assert h == StepSize(x0, xf, n);
    xs := UniformGrid(x0, xf, n);
    var y := new real[RangeLen(0, n + 1)](_ => y0);
    assert y[..] == RelaxationIterate(f, xs, h, y0, 0);
    converged, previous, sweeps := RelaxUntilSettled(f, xs, h, y0, tol, n, iterations, y);
    ys := y[..];
    if sweeps >= 1 {
      assert ys == RelaxedSweep(f, xs, h, previous);
    }
    if converged && tol == 0.0 {
      ExactlySettledRelaxationSolvesImplicitEuler(f, xs, h, previous, ys);
    }
  }

  /** A sweep that moves no point solves the implicit Euler equations: the
      copy it read is then the trajectory itself. */
  lemma ExactlySettledRelaxationSolvesImplicitEuler(f: (real, real) -> real, xs: seq<real>, h: real, prev: seq<real>, ys: seq<real>)
    requires |ys| == |prev|
    requires forall i :: 1 <= i < |ys| ==> RelaxationStep(f, xs, ys, prev, h, i)
    requires forall i :: 0 <= i < |ys| ==> Abs(ys[i] - prev[i]) <= 0.0
    ensures ImplicitEulerEquation(f, xs, ys, h)
  {
    forall i | 1 <= i < |ys|
      ensures ImplicitEulerStep(f, xs, ys, h, i)
    {
      assert RelaxationStep(f, xs, ys, prev, h, i);
      assert Abs(ys[i] - prev[i]) <= 0.0;
    }
  }

  // ---------------------------------------------------------------------
  // Properties of the trajectories

  /** Two sequences that satisfy the aliased sweep from the same first point agree at every point. */
  lemma {:induction false} AliasedSweepAgreesAt(f: (real, real) -> real, xs: seq<real>, h: real, a: seq<real>, b: seq<real>, i: nat)
    requires |a| == |b| && i < |a| && a[0] == b[0]
    requires AliasedSweepRecurrence(f, xs, a, h) && AliasedSweepRecurrence(f, xs, b, h)
    ensures a[i] == b[i]
  {
    if i > 0 {
      AliasedSweepAgreesAt(f, xs, h, a, b, i - 1);
      assert AliasedStep(f, xs, a, h, i) && AliasedStep(f, xs, b, h, i);
    }
  }

  /** A sweep's result depends only on the first point, so a second sweep
      leaves a swept trajectory unchanged. */
  lemma AliasedSweepDeterminedByStart(f: (real, real) -> real, xs: seq<real>, h: real, a: seq<real>, b: seq<real>)
    requires |a| == |b| && (|a| > 0 ==> a[0] == b[0])
    requires AliasedSweepRecurrence(f, xs, a, h) && AliasedSweepRecurrence(f, xs, b, h)
    ensures a == b
  {
    forall i | 0 <= i < |a|
      ensures a[i] == b[i]
    {
      AliasedSweepAgreesAt(f, xs, h, a, b, i);
    }
  }

  /** Two sequences that satisfy the explicit Euler recurrence from the same first point agree at every point. */
  lemma {:induction false} ExplicitEulerAgreesAt(f: (real, real) -> real, xs: seq<real>, h: real, a: seq<real>, b: seq<real>, i: nat)
    requires |a| == |b| && i < |a| && a[0] == b[0]
    requires ExplicitEulerRecurrence(f, xs, a, h) && ExplicitEulerRecurrence(f, xs, b, h)
    ensures a[i] == b[i]
  {
    if i > 0 {
      ExplicitEulerAgreesAt(f, xs, h, a, b, i - 1);
      assert ExplicitEulerStep(f, xs, a, h, i) && ExplicitEulerStep(f, xs, b, h, i);
    }
  }

  /** On the uniform grid, grid point `i` lies `i` partitions after `x0`. */
  lemma GridPoint(x0: real, xf: real, n: int, i: nat)
    requires n != 0 && i < |UniformGrid(x0, xf, n)|
    ensures UniformGrid(x0, xf, n)[i] - x0 == StepSize(x0, xf, n) * (i as real)
  {
  }

  /** A trajectory that moves by `h * k` per grid step of the uniform grid
      lies on the line of slope `k` through `(x0, y0)`. */
  lemma IncrementsOnGridGiveLine(k: real, d: real, x0: real, xf: real, y0: real, n: int, xs: seq<real>, ys: seq<real>)
    requires n > 0 && xs == UniformGrid(x0, xf, n) && d == StepSize(x0, xf, n) * k
    requires |ys| == n + 1 && ys[0] == y0
    requires forall j :: 1 <= j < |ys| ==> GrowsBy(ys, d, j)
    ensures forall i :: 0 <= i < |ys| ==> ys[i] == y0 + k * (xs[i] - x0)
  {
    var h := StepSize(x0, xf, n);
    forall i | 0 <= i < |ys|
      ensures ys[i] == y0 + k * (xs[i] - x0)
    {
      var r := i as real;
      ConstantIncrementGivesLine(ys, d, i);
      GridPoint(x0, xf, n, i);
      calc {
        ys[i];
        y0 + (h * k) * r;
        { Reassociate(h, k, r); }
        y0 + k * (h * r);
        y0 + k * (xs[i] - x0);
      }
    }
  }

  lemma Reassociate(h: real, k: real, r: real)
    ensures (h * k) * r == k * (h * r)
  {
  }

  /** With a constant derivative `k`, explicit Euler reproduces the exact line
      `y = y0 + k*(x - x0)` at every grid point. */
  lemma ExplicitEulerExactOnConstantSlope(f: (real, real) -> real, k: real, x0: real, xf: real, y0: real, n: int, xs: seq<real>, ys: seq<real>)
    requires forall x, y :: f(x, y) == k
    requires n > 0 && xs == UniformGrid(x0, xf, n)
    requires |ys| == n + 1 && ys[0] == y0 && ExplicitEulerRecurrence(f, xs, ys, StepSize(x0, xf, n))
    ensures forall i :: 0 <= i < |ys| ==> ys[i] == y0 + k * (xs[i] - x0)
  {
    var d := StepSize(x0, xf, n) * k;
    forall j | 1 <= j < |ys|
      ensures GrowsBy(ys, d, j)
    {
      assert ExplicitEulerStep(f, xs, ys, StepSize(x0, xf, n), j);
      var x, y := xs[j - 1], ys[j - 1];
      assert f(x, y) == k;
    }
    IncrementsOnGridGiveLine(k, d, x0, xf, y0, n, xs, ys);
  }

  /** On `dy/dx = y`, explicit Euler multiplies by `1 + h` at every step:
      `Y[i] = Y[0] * (1 + h)^i`. */
  lemma ExplicitEulerOnExponential(f: (real, real) -> real, xs: seq<real>, ys: seq<real>, h: real)
    requires forall x, y :: f(x, y) == y
    requires |ys| > 0 && ExplicitEulerRecurrence(f, xs, ys, h)
    ensures forall i :: 0 <= i < |ys| ==> ys[i] == ys[0] * Pow(1.0 + h, i)
  {
    var q := 1.0 + h;
    forall j | 1 <= j < |ys|
      ensures ScalesBy(ys, q, j)
    {
      assert ExplicitEulerStep(f, xs, ys, h, j);
      var x, y := xs[j - 1], ys[j - 1];
      EulerStepOnExponential(f, x, y, h);
    }
    forall i | 0 <= i < |ys|
      ensures ys[i] == ys[0] * Pow(1.0 + h, i)
    {
      ConstantRatioGivesPower(ys, q, i);
    }
  }

  /** With a constant derivative `k`, Heun reproduces the exact line at every grid point. */
  lemma HeunExactOnConstantSlope(f: (real, real) -> real, k: real, x0: real, xf: real, y0: real, n: int, xs: seq<real>, ys: seq<real>)
    requires forall x, y :: f(x, y) == k
    requires n > 0 && xs == UniformGrid(x0, xf, n)
    requires |ys| == n + 1 && ys[0] == y0 && HeunRecurrence(f, xs, ys, StepSize(x0, xf, n))
    ensures forall i :: 0 <= i < |ys| ==> ys[i] == y0 + k * (xs[i] - x0)
  {
    var d := StepSize(x0, xf, n) * k;
    forall j | 1 <= j < |ys|
      ensures GrowsBy(ys, d, j)
    {
      assert HeunStep(f, xs, ys, StepSize(x0, xf, n), j);
      var x, y := xs[j - 1], ys[j - 1];
      HeunConstantSlope(f, k, x, y, StepSize(x0, xf, n));
    }
    IncrementsOnGridGiveLine(k, d, x0, xf, y0, n, xs, ys);
  }

  /** On `dy/dx = y`, Heun multiplies by `1 + h + h*h/2` at every step. */
  lemma HeunOnExponential(f: (real, real) -> real, xs: seq<real>, ys: seq<real>, h: real)
    requires forall x, y :: f(x, y) == y
    requires |ys| > 0 && HeunRecurrence(f, xs, ys, h)
    ensures forall i :: 0 <= i < |ys| ==> ys[i] == ys[0] * Pow(1.0 + h + h * h / 2.0, i)
  {
    var q := 1.0 + h + h * h / 2.0;
    forall j | 1 <= j < |ys|
      ensures ScalesBy(ys, q, j)
    {
      assert HeunStep(f, xs, ys, h, j);
      var x, y := xs[j - 1], ys[j - 1];
      StepFormula.HeunOnExponential(f, x, y, h);
    }
    forall i | 0 <= i < |ys|
      ensures ys[i] == ys[0] * Pow(q, i)
    {
      ConstantRatioGivesPower(ys, q, i);
    }
  }

  /** With a constant derivative `k`, the library's implicit Euler also
      reproduces the exact line at every grid point. */
  lemma ImplicitEulerExactOnConstantSlope(f: (real, real) -> real, k: real, x0: real, xf: real, y0: real, n: int, xs: seq<real>, ys: seq<real>)
    requires forall x, y :: f(x, y) == k
    requires n > 0 && xs == UniformGrid(x0, xf, n)
    requires |ys| == n + 1 && ys[0] == y0 && AliasedSweepRecurrence(f, xs, ys, StepSize(x0, xf, n))
    ensures forall i :: 0 <= i < |ys| ==> ys[i] == y0 + k * (xs[i] - x0)
  {
    var d := StepSize(x0, xf, n) * k;
    forall j | 1 <= j < |ys|
      ensures GrowsBy(ys, d, j)
    {
      assert AliasedStep(f, xs, ys, StepSize(x0, xf, n), j);
      var x, y := xs[j], ys[j - 1];
      assert f(x, y) == k;
    }
    IncrementsOnGridGiveLine(k, d, x0, xf, y0, n, xs, ys);
  }

  /** When the derivative does not depend on `x`, the library's implicit Euler
      computes exactly the explicit Euler trajectory. */
  lemma AliasedSweepIsExplicitWhenAutonomous(f: (real, real) -> real, g: real -> real, xs: seq<real>, ys: seq<real>, h: real)
    requires forall x, y :: f(x, y) == g(y)
    requires |ys| <= |xs| && AliasedSweepRecurrence(f, xs, ys, h)
    ensures ExplicitEulerRecurrence(f, xs, ys, h)
  {
    forall i | 1 <= i < |ys|
      ensures ExplicitEulerStep(f, xs, ys, h, i)
    {
      assert AliasedStep(f, xs, ys, h, i);
      var here, before, y := xs[i], xs[i - 1], ys[i - 1];
      assert f(here, y) == g(y);
      assert f(before, y) == g(y);
    }
  }

  /** The library's implicit Euler on `dy/dx = y`, `y(0) = 1`, over `[0, 0.5]`
      with one partition yields `Y[1] = 1.5`, which does not satisfy the
      implicit Euler equation `Y[1] = Y[0] + h*Y[1]` (whose solution is 2). */
  lemma ImplicitEulerAliasingCounterexample(f: (real, real) -> real, xs: seq<real>, ys: seq<real>)
    requires forall x, y :: f(x, y) == y
    requires xs == UniformGrid(0.0, 0.5, 1)
    requires |ys| == 2 && ys[0] == 1.0 && AliasedSweepRecurrence(f, xs, ys, StepSize(0.0, 0.5, 1))
    ensures ys[1] == 1.5
    ensures !ImplicitEulerEquation(f, xs, ys, StepSize(0.0, 0.5, 1))
  {
    assert AliasedStep(f, xs, ys, 0.5, 1);
    assert !ImplicitEulerStep(f, xs, ys, 0.5, 1);
  }

  /** The corrected relaxation on the same problem: after `k` sweeps
      `Y[1] = 2 - (1/2)^k`, so it moves towards the implicit Euler solution 2
      (1.5 after one sweep, 1.75 after two), where the library stays at 1.5. */
  lemma {:induction false} RelaxationOnExponentialExample(f: (real, real) -> real, k: nat)
    requires forall x, y :: f(x, y) == y
    ensures var ys := RelaxationIterate(f, UniformGrid(0.0, 0.5, 1), StepSize(0.0, 0.5, 1), 1.0, k);
            |ys| == 2 && ys[0] == 1.0 && ys[1] == 2.0 - Pow(0.5, k)
  {
    var xs := UniformGrid(0.0, 0.5, 1);
    if k > 0 {
      RelaxationOnExponentialExample(f, k - 1);
      var prev := RelaxationIterate(f, xs, 0.5, 1.0, k - 1);
      var ys := RelaxationIterate(f, xs, 0.5, 1.0, k);
      assert ys == RelaxedSweep(f, xs, 0.5, prev);
      assert RelaxationStep(f, xs, ys, prev, 0.5, 1);
      var x, y := xs[1], prev[1];
      assert f(x, y) == y;
    }
  }

  /** On the same problem, corrected sweep `s` moves `Y[1]` by `(1/2)^s`, so
      the convergence test passes at sweep `s` exactly when `(1/2)^s <= tol`. */
  lemma RelaxationOnExponentialSettlesAt(f: (real, real) -> real, tol: real, s: nat)
    requires forall x, y :: f(x, y) == y
    requires s >= 1
    ensures SettlesAt(f, UniformGrid(0.0, 0.5, 1), StepSize(0.0, 0.5, 1), 1.0, tol, s) <==> Pow(0.5, s) <= tol
  {
    RelaxationOnExponentialExample(f, s - 1);
    RelaxationOnExponentialExample(f, s);
    PowHalfPositive(s);
    var before := RelaxationIterate(f, UniformGrid(0.0, 0.5, 1), 0.5, 1.0, s - 1);
    var after := RelaxationIterate(f, UniformGrid(0.0, 0.5, 1), 0.5, 1.0, s);
    assert Abs(after[0] - before[0]) == 0.0;
    assert Abs(after[1] - before[1]) == Pow(0.5, s);
  }

  /** On the same problem with `tol = 1` and a budget of `G = 10`, the
      outcome the corrected relaxation promises is fixed: it converges at
      sweep 2 with `Y = [1, 1.75]`. */
  lemma RelaxationOnExponentialStopsAtSweep2(f: (real, real) -> real, ys: seq<real>, converged: bool, sweeps: nat)
    requires forall x, y :: f(x, y) == y
    requires ys == RelaxationIterate(f, UniformGrid(0.0, 0.5, 1), StepSize(0.0, 0.5, 1), 1.0, sweeps)
    requires converged ==> 2 <= sweeps < 10 && SettlesAt(f, UniformGrid(0.0, 0.5, 1), StepSize(0.0, 0.5, 1), 1.0, 1.0, sweeps)
    requires converged ==> forall s :: 2 <= s < sweeps ==> !SettlesAt(f, UniformGrid(0.0, 0.5, 1), StepSize(0.0, 0.5, 1), 1.0, 1.0, s)
    requires !converged ==> sweeps == 9 && forall s :: 2 <= s <= sweeps ==> !SettlesAt(f, UniformGrid(0.0, 0.5, 1), StepSize(0.0, 0.5, 1), 1.0, 1.0, s)
    ensures converged && sweeps == 2 && ys == [1.0, 1.75]
  {
    RelaxationOnExponentialSettlesAt(f, 1.0, 2);
    assert Pow(0.5, 2) == 0.25;
    RelaxationOnExponentialExample(f, sweeps);
  }

  /** With a constant derivative `k`, any solution of the implicit Euler
      equations is the exact line. */
  lemma ImplicitEulerEquationExactOnConstantSlope(f: (real, real) -> real, k: real, x0: real, xf: real, y0: real, n: int, xs: seq<real>, ys: seq<real>)
    requires forall x, y :: f(x, y) == k
    requires n > 0 && xs == UniformGrid(x0, xf, n)
    requires |ys| == n + 1 && ys[0] == y0 && ImplicitEulerEquation(f, xs, ys, StepSize(x0, xf, n))
    ensures forall i :: 0 <= i < |ys| ==> ys[i] == y0 + k * (xs[i] - x0)
  {
    var d := StepSize(x0, xf, n) * k;
    forall j | 1 <= j < |ys|
      ensures GrowsBy(ys, d, j)
    {
      assert ImplicitEulerStep(f, xs, ys, StepSize(x0, xf, n), j);
      var x, y := xs[j], ys[j];
      assert f(x, y) == k;
    }
    IncrementsOnGridGiveLine(k, d, x0, xf, y0, n, xs, ys);
  }
}


