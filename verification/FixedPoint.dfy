/** The fixed-point solver for systems `y_i = g_i(y_1, ..., y_N)`: whole-vector
    substitution sweeps, every equation of a sweep reading the previous sweep's
    vector, until no component moves by more than the error bound. */
module FixedPoint {
  import opened StepFormula

  datatype Option<T> = None | Some(value: T)

  /** One substitution sweep: every equation evaluated on the same vector. */
  function Sweep(equations: seq<seq<real> -> real>, previous: seq<real>): (next: seq<real>)
    ensures |next| == |equations|
  {
    seq(|equations|, i requires 0 <= i < |equations| => equations[i](previous))
  }

  /** The vector after `k` sweeps from `initialValues`. */
  function Iterate(equations: seq<seq<real> -> real>, initialValues: seq<real>, k: nat): (v: seq<real>)
    ensures k > 0 ==> |v| == |equations|
    ensures k == 0 ==> v == initialValues
  {
    if k == 0 then initialValues else Sweep(equations, Iterate(equations, initialValues, k - 1))
  }

  /** No component of `next` is more than `error` away from the same
      component of `previous`. */
  predicate Settled(previous: seq<real>, next: seq<real>, error: real)
    requires |previous| == |next|
  {
    forall i :: 0 <= i < |next| ==> Abs(next[i] - previous[i]) <= error
  }

  /** Sweep `s` (counted from 1) is the one at which the iteration settles. */
  predicate ConvergesAt(equations: seq<seq<real> -> real>, initialValues: seq<real>, error: real, s: nat)
    requires |initialValues| == |equations|
  {
    s >= 1 && Settled(Iterate(equations, initialValues, s - 1), Iterate(equations, initialValues, s), error)
  }

  /** Repeated sweeps from `initialValues` until every component moves by at
      most `error`. At most `maxSweeps` sweeps run: `None` means the iteration
      has not settled by then. `Some(v)` carries the first settled iterate. */
  method GaussSeidel(equations: seq<seq<real> -> real>, initialValues: seq<real>, error: real, maxSweeps: nat)
    returns (result: Option<seq<real>>, ghost sweeps: nat)
    requires |initialValues| == |equations|
    ensures result.Some? ==> 1 <= sweeps <= maxSweeps
    ensures result.Some? ==> |result.value| == |equations|
    ensures result.Some? ==> result.value == Sweep(equations, Iterate(equations, initialValues, sweeps - 1))
    ensures result.Some? ==> ConvergesAt(equations, initialValues, error, sweeps)
    ensures result.Some? ==> forall s :: 1 <= s < sweeps ==> !ConvergesAt(equations, initialValues, error, s)
    ensures result.None? ==> forall s :: 1 <= s <= maxSweeps ==> !ConvergesAt(equations, initialValues, error, s)
  {
    var size := |equations|;
    var res := new real[size];
    forall i | 0 <= i < size {
      res[i] := initialValues[i];
    }
    var ant := res[..];
    var controle := 0;
    var count := 0;
    while controle == 0 && count < maxSweeps
      invariant 0 <= count <= maxSweeps
      invariant ant == Iterate(equations, initialValues, count) && res[..] == ant
      invariant controle == 0 || controle == 1
      invariant controle == 1 ==> ConvergesAt(equations, initialValues, error, count)
      invariant forall s :: 1 <= s < count ==> !ConvergesAt(equations, initialValues, error, s)
      invariant controle == 0 ==> forall s :: 1 <= s <= count ==> !ConvergesAt(equations, initialValues, error, s)
    {
      controle := 1;
      for i := 0 to size
        invariant forall j :: 0 <= j < i ==> res[j] == equations[j](ant)
        invariant controle == 0 || controle == 1
        invariant controle == 1 <==> forall j :: 0 <= j < i ==> Abs(res[j] - ant[j]) <= error
      {
        res[i] := equations[i](ant);
        if Abs(res[i] - ant[i]) > error {
          controle := 0;
        }
      }
      assert res[..] == Sweep(equations, ant);
      ant := res[..];
      count := count + 1;
    }
    sweeps := count;
    if controle == 1 {
      result := Some(res[..]);
    } else {
      result := None;
    }
  }

  /** With `error = 0`, a settled iterate is an exact fixed point: one more
      sweep leaves it where it is. */
  lemma SettledWithoutErrorIsFixedPoint(equations: seq<seq<real> -> real>, previous: seq<real>)
    requires |previous| == |equations|
    requires Settled(previous, Sweep(equations, previous), 0.0)
    ensures Sweep(equations, previous) == previous
    ensures Sweep(equations, Sweep(equations, previous)) == Sweep(equations, previous)
  {
    var next := Sweep(equations, previous);
    forall i | 0 <= i < |next|
      ensures next[i] == previous[i]
    {
      assert Abs(next[i] - previous[i]) <= 0.0;
    }
  }

  /** Once an iterate is a fixed point, every later iterate equals it. */
  lemma {:induction false} FixedPointIsKept(equations: seq<seq<real> -> real>, initialValues: seq<real>, k: nat, later: nat)
    requires Sweep(equations, Iterate(equations, initialValues, k)) == Iterate(equations, initialValues, k)
    requires k <= later
    ensures Iterate(equations, initialValues, later) == Iterate(equations, initialValues, k)
  {
    if later > k {
      FixedPointIsKept(equations, initialValues, k, later - 1);
    }
  }

  /** The system `y1 = y2/2 + 1`, `y2 = y1/2 + 1`, whose only solution is (2, 2). */
  function HalfSystem(): (eqs: seq<seq<real> -> real>)
    ensures |eqs| == 2
  {
    [ v => if |v| == 2 then 0.5 * v[1] + 1.0 else 0.0,
      v => if |v| == 2 then 0.5 * v[0] + 1.0 else 0.0 ]
  }

  /** (2, 2) is the one and only fixed point of `HalfSystem`. */
  lemma HalfSystemFixedPoint(v: seq<real>)
    requires |v| == 2
    ensures Sweep(HalfSystem(), v) == v <==> v == [2.0, 2.0]
  {
    var next := Sweep(HalfSystem(), v);
    assert next[0] == 0.5 * v[1] + 1.0 && next[1] == 0.5 * v[0] + 1.0;
    if next == v {
      assert v[0] == 0.5 * v[1] + 1.0 && v[1] == 0.5 * v[0] + 1.0;
    }
    if v == [2.0, 2.0] {
      assert next == [2.0, 2.0];
    }
  }

  /** From (0, 0), both components after `k` sweeps are `2 - 2 * (1/2)^k`. */
  lemma {:induction false} HalfSystemIterate(k: nat)
    ensures Iterate(HalfSystem(), [0.0, 0.0], k) == [2.0 - 2.0 * Pow(0.5, k), 2.0 - 2.0 * Pow(0.5, k)]
  {
    if k > 0 {
      HalfSystemIterate(k - 1);
      var p := Pow(0.5, k - 1);
      var v := Iterate(HalfSystem(), [0.0, 0.0], k - 1);
      assert v == [2.0 - 2.0 * p, 2.0 - 2.0 * p];
      var next := Sweep(HalfSystem(), v);
      assert next[0] == 2.0 - p && next[1] == 2.0 - p;
      assert Pow(0.5, k) == 0.5 * p;
    }
  }

  /** From (0, 0), sweep `s` moves each component by `(1/2)^(s-1)` and leaves
      it `(1/2)^(s-1)` below 2. */
  lemma HalfSystemSweepMove(s: nat)
    requires s >= 1
    ensures var before := Iterate(HalfSystem(), [0.0, 0.0], s - 1);
            var after := Iterate(HalfSystem(), [0.0, 0.0], s);
            |before| == |after| == 2
            && after[0] - before[0] == Pow(0.5, s - 1) && after[1] - before[1] == Pow(0.5, s - 1)
            && after[0] == 2.0 - Pow(0.5, s - 1) && after[1] == 2.0 - Pow(0.5, s - 1)
  {
    HalfSystemIterate(s - 1);
    HalfSystemIterate(s);
    assert Pow(0.5, s) == 0.5 * Pow(0.5, s - 1);
  }

  /** Two pairs whose components both move by `p >= 0` are settled exactly
      when `p <= error`. */
  lemma SettledPairs(before: seq<real>, after: seq<real>, p: real, error: real)
    requires |before| == |after| == 2 && p >= 0.0
    requires after[0] - before[0] == p && after[1] - before[1] == p
    ensures Settled(before, after, error) <==> p <= error
  {
    assert Abs(after[0] - before[0]) == p && Abs(after[1] - before[1]) == p;
    if p <= error {
      forall i | 0 <= i < 2
        ensures Abs(after[i] - before[i]) <= error
      {
      }
    }
  }

  /** From (0, 0) the iteration settles at sweep `s` exactly when
      `(1/2)^(s-1) <= error`. */
  lemma HalfSystemConvergence(error: real, s: nat)
    requires s >= 1
    ensures ConvergesAt(HalfSystem(), [0.0, 0.0], error, s) <==> Pow(0.5, s - 1) <= error
  {
    HalfSystemSweepMove(s);
    PowHalfPositive(s - 1);
    var before := Iterate(HalfSystem(), [0.0, 0.0], s - 1);
    var after := Iterate(HalfSystem(), [0.0, 0.0], s);
    SettledPairs(before, after, Pow(0.5, s - 1), error);
  }

  /** From (0, 0), the iterate at which the iteration settles is within
      `error` of the solution (2, 2). */
  lemma HalfSystemSettledNearSolution(error: real, s: nat)
    requires s >= 1 && ConvergesAt(HalfSystem(), [0.0, 0.0], error, s)
    ensures forall i :: 0 <= i < 2 ==> Abs(Iterate(HalfSystem(), [0.0, 0.0], s)[i] - 2.0) <= error
  {
    HalfSystemConvergence(error, s);
    HalfSystemSweepMove(s);
    PowHalfPositive(s - 1);
  }

  lemma {:induction false} PowAdd(q: real, a: nat, b: nat)
    ensures Pow(q, a + b) == Pow(q, a) * Pow(q, b)
  {
    if a > 0 {
      PowAdd(q, a - 1, b);
    }
  }

  lemma {:induction false} PowHalfDecreasing(j: nat, k: nat)
    requires j <= k
    ensures Pow(0.5, k) <= Pow(0.5, j)
  {
    if j < k {
      PowHalfDecreasing(j, k - 1);
      PowHalfPositive(k - 1);
    }
  }

  /** With `error = 1e-6`, the iteration from (0, 0) settles at sweep 21 and
      not before, since 2^19 < 10^6 <= 2^20. */
  lemma HalfSystemSettlesAtSweep21()
    ensures ConvergesAt(HalfSystem(), [0.0, 0.0], 0.000001, 21)
    ensures forall s :: 1 <= s < 21 ==> !ConvergesAt(HalfSystem(), [0.0, 0.0], 0.000001, s)
  {
    assert Pow(0.5, 2) == 0.25;
    assert Pow(0.5, 5) == 0.03125 by {
      PowAdd(0.5, 2, 2);
    }
    assert Pow(0.5, 10) == 1.0 / 1024.0 by {
      PowAdd(0.5, 5, 5);
    }
    assert Pow(0.5, 20) == 1.0 / 1048576.0 by {
      PowAdd(0.5, 10, 10);
    }
    assert Pow(0.5, 19) == 1.0 / 524288.0;
    HalfSystemConvergence(0.000001, 21);
    forall s | 1 <= s < 21
      ensures !ConvergesAt(HalfSystem(), [0.0, 0.0], 0.000001, s)
    {
      PowHalfDecreasing(s - 1, 19);
      HalfSystemConvergence(0.000001, s);
    }
  }
}
