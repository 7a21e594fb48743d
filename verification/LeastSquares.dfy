/** The retained-memory slope of the task-registry benchmark: ordinary least
    squares of a series against its indices, in exact real arithmetic.

    Products are named (Times, Square), and the longer proofs hide their
    definitions, so that only the small lemmas below meet non-linear terms. */
module LeastSquares {

  function Times(x: real, y: real): real {
    x * y
  }

  function Square(x: real): real {
    x * x
  }

  /** The abscissa at which the index range 0..n-1 balances. */
  function XMean(n: nat): real {
    (n as real - 1.0) / 2.0
  }

  function Sum(values: seq<real>, k: nat): real
    requires k <= |values|
  {
    if k == 0 then 0.0 else Sum(values, k - 1) + values[k - 1]
  }

  function Mean(values: seq<real>): real
    requires |values| > 0
  {
    Sum(values, |values|) / (|values| as real)
  }

  /** Sum over i < k of (i - xMean) * (values[i] - y). */
  function CoDeviation(values: seq<real>, k: nat, xMean: real, y: real): real
    requires k <= |values|
  {
    if k == 0 then 0.0
    else CoDeviation(values, k - 1, xMean, y) + Times((k - 1) as real - xMean, values[k - 1] - y)
  }

  /** Sum over i < k of (i - xMean) squared. */
  function XSpread(k: nat, xMean: real): real {
    if k == 0 then 0.0 else XSpread(k - 1, xMean) + Square((k - 1) as real - xMean)
  }

  /** The vertical distance of the point (x, y) from the line of intercept a and slope b. */
  function Residual(x: real, y: real, a: real, b: real): real {
    y - a - b * x
  }

  /** Summed squared residuals of the line over the first k values. */
  function Residuals(values: seq<real>, k: nat, a: real, b: real): real
    requires k <= |values|
  {
    if k == 0 then 0.0
    else Residuals(values, k - 1, a, b) + Square(Residual((k - 1) as real, values[k - 1], a, b))
  }

  function BestSlope(values: seq<real>): real {
    if |values| < 2 then 0.0
    else
      var n := |values|;
      SpreadIsPositive(n);
      CoDeviation(values, n, XMean(n), Mean(values)) / XSpread(n, XMean(n))
  }

  /** The intercept under which the line of slope b passes through the centroid. */
  function Intercept(values: seq<real>, b: real): real
    requires |values| > 0
  {
    Mean(values) - b * XMean(|values|)
  }

  method Slope(values: seq<real>) returns (r: real)
    ensures r == BestSlope(values)
  {
    if |values| < 2 {
      return 0.0;
    }
    var n := |values|;
    var xMean := (n as real - 1.0) / 2.0;
    var total := 0.0;
    for i := 0 to n
      invariant total == Sum(values, i)
    {
      total := total + values[i];
    }
    var yMean := total / (n as real);
    var numerator, denominator := 0.0, 0.0;
    for index := 0 to n
      invariant numerator == CoDeviation(values, index, xMean, yMean)
      invariant denominator == XSpread(index, xMean)
    {
      var xDelta := index as real - xMean;
      numerator := numerator + xDelta * (values[index] - yMean);
      denominator := denominator + xDelta * xDelta;
    }
    SpreadIsPositive(n);
    r := if denominator == 0.0 then 0.0 else numerator / denominator;
  }

  // ---- signs of products ----

  lemma PositiveProduct(d: real, q: real)
    requires d > 0.0
    ensures q > 0.0 ==> Times(d, q) > 0.0
    ensures q == 0.0 ==> Times(d, q) == 0.0
  {
  }

  lemma PositiveSquare(x: real)
    requires x > 0.0
    ensures Square(x) > 0.0 && Square(-x) > 0.0
  {
    assert Times(x, x) > 0.0 by { hide *; PositiveProduct(x, x); }
    assert (-x) * (-x) == x * x;
  }

  lemma SquareSign(x: real)
    ensures x == 0.0 ==> Square(x) == 0.0
    ensures x != 0.0 ==> Square(x) > 0.0
  {
    if x > 0.0 {
      hide *;
      PositiveSquare(x);
    } else if x < 0.0 {
      hide *;
      PositiveSquare(-x);
      assert -(-x) == x;
    }
  }

  lemma TimesZero(x: real)
    ensures Times(x, 0.0) == 0.0
  {
  }

  lemma SameSignProduct(x: real, y: real)
    requires (x >= 0.0 && y >= 0.0) || (x <= 0.0 && y <= 0.0)
    ensures Times(x, y) >= 0.0
  {
  }

  lemma Distribute(u: real, v: real, w: real)
    ensures u * (v + w) == u * v + u * w
  {
  }

  // ---- the denominator ----

  lemma {:induction false} SpreadExpansion(k: nat, xMean: real)
    ensures XSpread(k, xMean) == SpreadForm(k as real, xMean)
  {
    hide Square, SpreadForm;
    if k == 0 {
      SpreadFormAtZero(xMean);
    } else {
      SpreadExpansion(k - 1, xMean);
      SpreadStep((k - 1) as real, xMean);
    }
  }

  function SpreadForm(x: real, m: real): real {
    x * (x - 1.0) * (2.0 * x - 1.0) / 6.0 - m * x * (x - 1.0) + x * m * m
  }

  lemma SpreadFormAtZero(m: real)
    ensures SpreadForm(0.0, m) == 0.0
  {
  }

  lemma SpreadStep(x: real, m: real)
    ensures SpreadForm(x, m) + Square(x - m) == SpreadForm(x + 1.0, m)
  {
  }

  function Cubic(x: real): real {
    x * (x * x - 1.0)
  }

  lemma SpreadFormAtMean(x: real)
    ensures SpreadForm(x, (x - 1.0) / 2.0) == Cubic(x) / 12.0
  {
    SpreadFormAtHalf((x - 1.0) / 2.0);
  }

  lemma SpreadFormAtHalf(m: real)
    ensures SpreadForm(2.0 * m + 1.0, m) == Cubic(2.0 * m + 1.0) / 12.0
  {
    assert (2.0 * m + 1.0) * (2.0 * m) == 4.0 * (m * m) + 2.0 * m;
    assert (4.0 * (m * m) + 2.0 * m) * (4.0 * m + 1.0) == 16.0 * (m * m * m) + 12.0 * (m * m) + 2.0 * m;
    assert m * (2.0 * m + 1.0) * (2.0 * m) == 4.0 * (m * m * m) + 2.0 * (m * m);
    assert (2.0 * m + 1.0) * m * m == 2.0 * (m * m * m) + m * m;
    assert (2.0 * m + 1.0) * (2.0 * m + 1.0) - 1.0 == 4.0 * (m * m) + 4.0 * m;
    assert (2.0 * m + 1.0) * (4.0 * (m * m) + 4.0 * m) == 8.0 * (m * m * m) + 12.0 * (m * m) + 4.0 * m;
  }

  lemma CubicPositive(x: real)
    requires x >= 2.0
    ensures Cubic(x) > 0.0
  {
    hide *;
    PositiveProduct(x, x - 1.0);
    PositiveProduct(Times(x, x - 1.0), x + 1.0);
    CubicFactors(x);
  }

  lemma CubicFactors(x: real)
    ensures Times(Times(x, x - 1.0), x + 1.0) == Cubic(x)
  {
  }

  /** The denominator has a closed form and is positive, so the source's zero guard never fires. */
  lemma SpreadIsPositive(n: nat)
    requires n >= 2
    ensures XSpread(n, XMean(n)) == Cubic(n as real) / 12.0 > 0.0
  {
    hide XSpread, SpreadForm, Cubic;
    SpreadExpansion(n, XMean(n));
    SpreadFormAtMean(n as real);
    CubicPositive(n as real);
  }

  // ---- the fit is optimal ----

  function YDeviation(values: seq<real>, k: nat, y: real): real
    requires k <= |values|
  {
    if k == 0 then 0.0 else YDeviation(values, k - 1, y) + (values[k - 1] - y)
  }

  function XDeviation(k: nat, xMean: real): real {
    if k == 0 then 0.0 else XDeviation(k - 1, xMean) + ((k - 1) as real - xMean)
  }

  function YSpread(values: seq<real>, k: nat, y: real): real
    requires k <= |values|
  {
    if k == 0 then 0.0 else YSpread(values, k - 1, y) + Square(values[k - 1] - y)
  }

  lemma {:induction false} YDeviationIsSum(values: seq<real>, k: nat, y: real)
    requires k <= |values|
    ensures YDeviation(values, k, y) == Sum(values, k) - (k as real) * y
  {
    if k > 0 {
      YDeviationIsSum(values, k - 1, y);
      Distribute(y, (k - 1) as real, 1.0);
    }
  }

  lemma {:induction false} XDeviationIsSum(k: nat, xMean: real)
    ensures var x := k as real; XDeviation(k, xMean) == x * (x - 1.0) / 2.0 - x * xMean
  {
    if k > 0 {
      XDeviationIsSum(k - 1, xMean);
    }
  }

  lemma DeviationsCancel(values: seq<real>)
    requires |values| > 0
    ensures YDeviation(values, |values|, Mean(values)) == 0.0
    ensures XDeviation(|values|, XMean(|values|)) == 0.0
  {
    var n := |values|;
    YDeviationIsSum(values, n, Mean(values));
    assert (n as real) * Mean(values) == Sum(values, n);
    XDeviationIsSum(n, XMean(n));
  }

  /** The residuals as a quadratic form in the slope b and the offset c of the line at the centroid. */
  function Quadratic(b: real, c: real, t: real, s: real, d: real, q: real, p: real, k: real): real {
    t - 2.0 * b * s + b * b * d + 2.0 * c * (q - b * p) + k * (c * c)
  }

  lemma QuadraticStep(b: real, c: real, t: real, s: real, d: real, q: real, p: real, k: real, dx: real, dy: real, e: real)
    requires e == dy - b * dx + c
    ensures Quadratic(b, c, t, s, d, q, p, k) + Square(e)
            == Quadratic(b, c, t + Square(dy), s + Times(dx, dy), d + Square(dx), q + dy, p + dx, k + 1.0)
  {
    var u := b * dx;
    assert (dy - u + c) * (dy - u + c) == dy * dy - 2.0 * (u * dy) + u * u + 2.0 * c * (dy - u) + c * c;
    assert u * dy == b * (dx * dy);
    assert u * u == b * b * (dx * dx);
    Distribute(2.0 * b, s, dx * dy);
    Distribute(b * b, d, dx * dx);
    Distribute(b, p, dx);
    Distribute(2.0 * c, q - b * p, dy - u);
    Distribute(c * c, k, 1.0);
  }

  /** The vertical distance of the centroid from the line, through which each residual is re-centred. */
  lemma CentredResidual(x: real, y: real, xMean: real, yMean: real, a: real, b: real)
    ensures Residual(x, y, a, b) == (y - yMean) - b * (x - xMean) + Residual(xMean, yMean, a, b)
  {
    Distribute(b, x, -xMean);
  }

  lemma {:induction false} ResidualExpansion(values: seq<real>, k: nat, xMean: real, yMean: real, a: real, b: real)
    requires k <= |values|
    ensures Residuals(values, k, a, b)
            == Quadratic(b, Residual(xMean, yMean, a, b), YSpread(values, k, yMean), CoDeviation(values, k, xMean, yMean),
                         XSpread(k, xMean), YDeviation(values, k, yMean), XDeviation(k, xMean), k as real)
  {
    hide Times, Square, Quadratic, Residual;
    if k == 0 {
      QuadraticAtOrigin(b, Residual(xMean, yMean, a, b));
    } else {
      ResidualExpansion(values, k - 1, xMean, yMean, a, b);
      CentredResidual((k - 1) as real, values[k - 1], xMean, yMean, a, b);
      QuadraticStep(b, Residual(xMean, yMean, a, b), YSpread(values, k - 1, yMean), CoDeviation(values, k - 1, xMean, yMean),
                    XSpread(k - 1, xMean), YDeviation(values, k - 1, yMean), XDeviation(k - 1, xMean), (k - 1) as real,
                    (k - 1) as real - xMean, values[k - 1] - yMean, Residual((k - 1) as real, values[k - 1], a, b));
    }
  }

  lemma QuadraticAtOrigin(b: real, c: real)
    ensures Quadratic(b, c, 0.0, 0.0, 0.0, 0.0, 0.0, 0.0) == 0.0
  {
    assert 2.0 * c * (0.0 - b * 0.0) == 0.0;
  }

  /** Every line is worse than the fitted one by exactly a positive definite form in its distance from it. */
  lemma ResidualExcess(values: seq<real>, a: real, b: real)
    requires |values| >= 2
    ensures var n := |values|; var m := BestSlope(values);
            Residuals(values, n, a, b)
            == Residuals(values, n, Intercept(values, m), m)
               + Times(XSpread(n, XMean(n)), Square(b - m)) + Times(n as real, Square(Intercept(values, b) - a))
  {
    hide *;
    var n := |values|;
    var m := BestSlope(values);
    ResidualExpansion(values, n, XMean(n), Mean(values), a, b);
    ResidualExpansion(values, n, XMean(n), Mean(values), Intercept(values, m), m);
    DeviationsCancel(values);
    CentroidOffset(values, a, b);
    CentroidOffset(values, Intercept(values, m), m);
    SlopeEquation(values);
    QuadraticExcess(b, Intercept(values, b) - a, m, YSpread(values, n, Mean(values)),
                    CoDeviation(values, n, XMean(n), Mean(values)), XSpread(n, XMean(n)), n as real);
  }

  lemma CentroidOffset(values: seq<real>, a: real, b: real)
    requires |values| > 0
    ensures Residual(XMean(|values|), Mean(values), a, b) == Intercept(values, b) - a
  {
  }

  lemma SlopeEquation(values: seq<real>)
    requires |values| >= 2
    ensures var n := |values|;
            CoDeviation(values, n, XMean(n), Mean(values)) == Times(BestSlope(values), XSpread(n, XMean(n)))
  {
    hide CoDeviation, XSpread;
    SpreadIsPositive(|values|);
  }

  lemma QuadraticExcess(b: real, c: real, m: real, t: real, s: real, d: real, k: real)
    requires s == Times(m, d)
    ensures Quadratic(b, c, t, s, d, 0.0, 0.0, k)
            == Quadratic(m, 0.0, t, s, d, 0.0, 0.0, k) + Times(d, Square(b - m)) + Times(k, Square(c))
  {
    assert (b - m) * (b - m) == b * b - 2.0 * b * m + m * m;
    Distribute(d, b * b - 2.0 * b * m, m * m);
    Distribute(d, b * b, -2.0 * b * m);
    assert d * (-2.0 * b * m) == -2.0 * b * (m * d);
    assert -2.0 * m * (m * d) == -2.0 * (m * m * d);
    assert d * (m * m) == m * m * d;
    assert d * (b * b) == b * b * d;
    assert 2.0 * c * (0.0 - b * 0.0) == 0.0;
  }

  /** The slope, with the intercept through the centroid, is the unique least-squares line. */
  lemma SlopeIsUniqueMinimiser(values: seq<real>, a: real, b: real)
    requires |values| >= 2
    ensures var m := BestSlope(values); var best := Residuals(values, |values|, Intercept(values, m), m);
            Residuals(values, |values|, a, b) >= best
            && (Residuals(values, |values|, a, b) == best <==> b == m && a == Intercept(values, m))
  {
    hide *;
    var n, m := |values|, BestSlope(values);
    SpreadIsPositive(n);
    ResidualExcess(values, a, b);
    SquareSign(b - m);
    SquareSign(Intercept(values, b) - a);
    PositiveProduct(XSpread(n, XMean(n)), Square(b - m));
    PositiveProduct(n as real, Square(Intercept(values, b) - a));
  }

  /** A line of values gets back its own slope. */
  lemma AffineDataGivesItsSlope(values: seq<real>, a: real, b: real)
    requires |values| >= 2
    requires forall i :: 0 <= i < |values| ==> values[i] == a + b * (i as real)
    ensures BestSlope(values) == b
  {
    hide *;
    var m := BestSlope(values);
    PerfectFit(values, |values|, a, b);
    ResidualsNonNegative(values, |values|, Intercept(values, m), m);
    SlopeIsUniqueMinimiser(values, a, b);
  }

  lemma {:induction false} PerfectFit(values: seq<real>, k: nat, a: real, b: real)
    requires k <= |values|
    requires forall i :: 0 <= i < |values| ==> values[i] == a + b * (i as real)
    ensures Residuals(values, k, a, b) == 0.0
  {
    if k > 0 {
      PerfectFit(values, k - 1, a, b);
      assert values[k - 1] == a + b * ((k - 1) as real);
      SquareSign(Residual((k - 1) as real, values[k - 1], a, b));
    }
  }

  lemma {:induction false} ResidualsNonNegative(values: seq<real>, k: nat, a: real, b: real)
    requires k <= |values|
    ensures Residuals(values, k, a, b) >= 0.0
  {
    hide Square, Residual;
    if k > 0 {
      ResidualsNonNegative(values, k - 1, a, b);
      SquareSign(Residual((k - 1) as real, values[k - 1], a, b));
    }
  }

  // ---- monotone data ----

  /** Moving the reference ordinate changes the co-deviation by a multiple of the x deviations. */
  lemma {:induction false} CoDeviationShift(values: seq<real>, k: nat, xMean: real, y: real, y': real)
    requires k <= |values|
    ensures CoDeviation(values, k, xMean, y) == CoDeviation(values, k, xMean, y') + Times(y' - y, XDeviation(k, xMean))
  {
    hide Times;
    if k == 0 {
      TimesZero(y' - y);
    } else {
      CoDeviationShift(values, k - 1, xMean, y, y');
      ShiftTerm((k - 1) as real - xMean, values[k - 1], y, y', XDeviation(k - 1, xMean));
    }
  }

  lemma ShiftTerm(dx: real, v: real, y: real, y': real, p: real)
    ensures Times(dx, v - y) + Times(y' - y, p) == Times(dx, v - y') + Times(y' - y, p + dx)
  {
    assert dx * (v - y) == dx * (v - y') + (y' - y) * dx;
    Distribute(y' - y, p, dx);
  }

  lemma {:induction false} CoDeviationFromMedian(values: seq<real>, k: nat, mid: nat)
    requires k <= |values| && mid < |values|
    requires mid as real <= XMean(|values|) < mid as real + 1.0
    requires forall i, j :: 0 <= i < j < |values| ==> values[i] <= values[j]
    ensures CoDeviation(values, k, XMean(|values|), values[mid]) >= 0.0
  {
    hide Times;
    if k > 0 {
      CoDeviationFromMedian(values, k - 1, mid);
      SameSignProduct((k - 1) as real - XMean(|values|), values[k - 1] - values[mid]);
    }
  }

  /** A series that never decreases never reports a negative slope. */
  lemma NonDecreasingGivesNonNegativeSlope(values: seq<real>)
    requires forall i, j :: 0 <= i < j < |values| ==> values[i] <= values[j]
    ensures BestSlope(values) >= 0.0
  {
    if |values| >= 2 {
      NonDecreasingCoDeviation(values);
      hide CoDeviation, XSpread, Sum, XMean, Mean;
      SpreadIsPositive(|values|);
    }
  }

  /** A series too short for a line has slope 0. */
  lemma ShortSeriesHasNoSlope(values: seq<real>)
    requires |values| < 2
    ensures BestSlope(values) == 0.0
  {
  }

  lemma NonDecreasingCoDeviation(values: seq<real>)
    requires |values| >= 2
    requires forall i, j :: 0 <= i < j < |values| ==> values[i] <= values[j]
    ensures CoDeviation(values, |values|, XMean(|values|), Mean(values)) >= 0.0
  {
    hide *;
    var n := |values|;
    var mid := MiddleIndex(n);
    CoDeviationFromMedian(values, n, mid);
    DeviationsCancel(values);
    CoDeviationShift(values, n, XMean(n), Mean(values), values[mid]);
    TimesZero(values[mid] - Mean(values));
  }

  lemma MiddleIndex(n: nat) returns (mid: nat)
    requires n >= 2
    ensures mid < n && mid as real <= XMean(n) < mid as real + 1.0
  {
    mid := (n - 1) / 2;
  }
}
