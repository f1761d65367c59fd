/** Numeric primitives shared by every solver of the library: the linear step
    along a slope, the two-stage Heun update, the derivative lookup of a
    coupled system, and two facts about sequences that grow by a fixed rule
    (a constant increment gives a line, a constant ratio gives a power). */
module StepFormula {

  /** Number of integers a Python `range(lo, hi)` visits. */
  function RangeLen(lo: int, hi: int): nat
  {
    if lo < hi then hi - lo else 0
  }

  function Abs(x: real): real
  {
    if x < 0.0 then -x else x
  }

  function Pow(q: real, n: nat): real
  {
    if n == 0 then 1.0 else q * Pow(q, n - 1)
  }

  lemma {:induction false} PowHalfPositive(k: nat)
    ensures Pow(0.5, k) > 0.0
  {
    if k > 0 {
      PowHalfPositive(k - 1);
    }
  }

  /** The derivative of equation `i` of a system, evaluated on the whole
      state vector (the callable receives every state value, in order). */
  function Diferencial(equations: seq<seq<real> -> real>, values: seq<real>, i: nat): (d: real)
    requires i < |equations|
    ensures d == equations[i](values)
  {
    equations[i](values)
  }

  /** The ordinate at `x` of the line of slope `m` through `(x0, y0)`. */
  function MetodoNumerico(m: real, x: real, x0: real, y0: real): (y: real)
    ensures x == x0 ==> y == y0
    ensures x != x0 ==> (y - y0) / (x - x0) == m
  {
    m * (x - x0) + y0
  }

  /** Stepping from `t - p` to `t` adds `m * p`, whatever `t` is. */
  lemma LinearStepIsIncrement(m: real, t: real, p: real, y: real)
    ensures MetodoNumerico(m, t, t - p, y) == y + m * p
  {
  }

  /** Two linear steps along the same slope are one step over the joined interval. */
  lemma LinearStepsCompose(m: real, x0: real, x1: real, x2: real, y0: real)
    ensures MetodoNumerico(m, x2, x1, MetodoNumerico(m, x1, x0, y0)) == MetodoNumerico(m, x2, x0, y0)
  {
  }

  /** The linear step is exact on a line: started on `y = k*x + b` with slope `k`,
      it lands on the same line. */
  lemma LinearStepExactOnLine(k: real, b: real, x0: real, x: real)
    ensures MetodoNumerico(k, x, x0, k * x0 + b) == k * x + b
  {
  }

  /** On `dy/dx = y` an explicit Euler step multiplies by `1 + h`. */
  lemma EulerStepOnExponential(g: (real, real) -> real, xi: real, yi: real, h: real)
    requires forall x, y :: g(x, y) == y
    ensures yi + h * g(xi, yi) == (1.0 + h) * yi
  {
  }

  /** Heun's predictor-corrector step: the slope at `(xi, yi)` predicts the
      end of the step, the slope there corrects it, and the step uses their mean. */
  function GeneralHeun(g: (real, real) -> real, xi: real, yi: real, h: real): (y: real)
    ensures var k1 := g(xi, yi);
            var k2 := g(xi + h, MetodoNumerico(k1, xi + h, xi, yi));
            y - yi == h * ((k1 + k2) / 2.0)
  {
    var k1 := g(xi, yi);
    assert MetodoNumerico(k1, xi + h, xi, yi) == yi + k1 * h;
    var k2 := g(xi + h, yi + k1 * h);
    var k := (k1 + k2) / 2.0;
    yi + k * h
  }

  /** A Heun step is the mean of two linear steps over `[xi, xi + h]`: one along
      the slope at the start, one along the slope at the Euler-predicted end. */
  lemma HeunAveragesTwoLinearSteps(g: (real, real) -> real, xi: real, yi: real, h: real)
    ensures var k1 := g(xi, yi);
            var predicted := MetodoNumerico(k1, xi + h, xi, yi);
            var k2 := g(xi + h, predicted);
            GeneralHeun(g, xi, yi, h)
              == (MetodoNumerico(k1, xi + h, xi, yi) + MetodoNumerico(k2, xi + h, xi, yi)) / 2.0
  {
  }

  /** With a constant derivative `c` a Heun step is exact: it moves by `c * h`. */
  lemma HeunConstantSlope(g: (real, real) -> real, c: real, xi: real, yi: real, h: real)
    requires forall x, y :: g(x, y) == c
    ensures GeneralHeun(g, xi, yi, h) == yi + c * h
  {
  }

  /** When the derivative depends on `x` only, a Heun step is the trapezoidal
      rule for the integral of that derivative over the step. */
  lemma HeunIsTrapezoidRule(g: (real, real) -> real, q: real -> real, xi: real, yi: real, h: real)
    requires forall x, y :: g(x, y) == q(x)
    ensures GeneralHeun(g, xi, yi, h) == yi + h * (q(xi) + q(xi + h)) / 2.0
  {
  }

  /** On `dy/dx = y` a Heun step multiplies by the second-order Taylor factor
      `1 + h + h*h/2`. */
  lemma HeunOnExponential(g: (real, real) -> real, xi: real, yi: real, h: real)
    requires forall x, y :: g(x, y) == y
    ensures GeneralHeun(g, xi, yi, h) == yi * (1.0 + h + h * h / 2.0)
  {
  }

  /** Element `j` of `ys` exceeds element `j - 1` by `d`. */
  predicate GrowsBy(ys: seq<real>, d: real, j: int)
  {
    1 <= j < |ys| && ys[j] == ys[j - 1] + d
  }

  /** Element `j` of `ys` is element `j - 1` times `q`. */
  predicate ScalesBy(ys: seq<real>, q: real, j: int)
  {
    1 <= j < |ys| && ys[j] == q * ys[j - 1]
  }

  /** A sequence that grows by the same increment `d` at every index is the
      line through its first element with slope `d` per index. */
  lemma {:induction false} ConstantIncrementGivesLine(ys: seq<real>, d: real, i: nat)
    requires forall j :: 1 <= j < |ys| ==> GrowsBy(ys, d, j)
    requires i < |ys|
    ensures ys[i] == ys[0] + d * (i as real)
  {
    if i > 0 {
      ConstantIncrementGivesLine(ys, d, i - 1);
      assert GrowsBy(ys, d, i);
    }
  }

  /** A sequence that is multiplied by the same ratio `q` at every index is
      its first element times a power of `q`. */
  lemma {:induction false} ConstantRatioGivesPower(ys: seq<real>, q: real, i: nat)
    requires forall j :: 1 <= j < |ys| ==> ScalesBy(ys, q, j)
    requires i < |ys|
    ensures ys[i] == ys[0] * Pow(q, i)
  {
    if i > 0 {
      ConstantRatioGivesPower(ys, q, i - 1);
      assert ScalesBy(ys, q, i);
      calc {
        ys[i];
        q * ys[i - 1];
        q * (ys[0] * Pow(q, i - 1));
        ys[0] * (q * Pow(q, i - 1));
      }
    }
  }
}
