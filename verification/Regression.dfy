// The risk trend: ordinary least squares over equally spaced samples, in
// exact reals.
module Regression {
  import opened Options
  import opened RealArithmetic

  // ---- Sums over the first k samples ----

  function SumX(k: nat): real {
    if k == 0 then 0.0 else SumX(k - 1) + (k - 1) as real
  }

  function SumY(ys: seq<real>, k: nat): real
    requires k <= |ys|
  {
    if k == 0 then 0.0 else SumY(ys, k - 1) + ys[k - 1]
  }

  function Numerator(ys: seq<real>, meanX: real, meanY: real, k: nat): real
    requires k <= |ys|
  {
    if k == 0 then 0.0 else Numerator(ys, meanX, meanY, k - 1) + ((k - 1) as real - meanX) * (ys[k - 1] - meanY)
  }

  function Denominator(meanX: real, k: nat): real {
    if k == 0 then 0.0 else Denominator(meanX, k - 1) + Square((k - 1) as real - meanX)
  }

  function MeanX(n: nat): real
    requires n > 0
  {
    SumX(n) / n as real
  }

  function MeanY(ys: seq<real>): real
    requires ys != []
  {
    SumY(ys, |ys|) / |ys| as real
  }

  datatype Line = Line(intercept: real, slope: real)

  function FittedLine(ys: seq<real>): Line
    requires |ys| >= 2
  {
    var meanX, meanY := MeanX(|ys|), MeanY(ys);
    var denominator := Denominator(meanX, |ys|);
    var slope := if denominator == 0.0 then 0.0 else Numerator(ys, meanX, meanY, |ys|) / denominator;
    Line(meanY - slope * meanX, slope)
  }

  datatype Direction = Increasing | Decreasing | Stable

  datatype Trend = Trend(samples: nat, slope: real, currentScore: real, forecastNext: real, direction: Direction)

  const TREND_STABLE_THRESHOLD := 0.05

  function DirectionOf(slope: real): Direction {
    if -TREND_STABLE_THRESHOLD < slope < TREND_STABLE_THRESHOLD then Stable
    else if slope > 0.0 then Increasing
    else Decreasing
  }

  // The line's value at position n.
  function Forecast(line: Line, n: nat): real {
    line.slope * n as real + line.intercept
  }

  function TrendOf(ys: seq<real>): Option<Trend> {
    if |ys| < 2 then None
    else
      var line := FittedLine(ys);
      var forecast := Forecast(line, |ys|);
      Some(Trend(|ys|, RoundTo(line.slope, 10000), ys[|ys| - 1], RoundTo(if forecast > 0.0 then forecast else 0.0, 100),
                 DirectionOf(line.slope)))
  }

  // One more sample in each running sum.
  lemma SumsNext(ys: seq<real>, i: nat, next: nat)
    requires next == i + 1 <= |ys|
    ensures SumX(next) == SumX(i) + i as real
    ensures SumY(ys, next) == SumY(ys, i) + ys[i]
  {
    hide Numerator, Denominator;
    assert next - 1 == i;
  }

  lemma DeviationsNext(ys: seq<real>, meanX: real, meanY: real, i: nat, next: nat)
    requires next == i + 1 <= |ys|
    ensures Numerator(ys, meanX, meanY, next) == Numerator(ys, meanX, meanY, i) + (i as real - meanX) * (ys[i] - meanY)
    ensures Denominator(meanX, next) == Denominator(meanX, i) + Square(i as real - meanX)
  {
  }

  lemma EmptySums(ys: seq<real>, meanX: real, meanY: real)
    ensures SumX(0) == 0.0 && SumY(ys, 0) == 0.0 && Numerator(ys, meanX, meanY, 0) == 0.0 && Denominator(meanX, 0)
         == 0.0
  {
  }

  method FitLine(ys: seq<real>) returns (line: Line)
    requires |ys| >= 2
    ensures line == FittedLine(ys)
  {
    var n := |ys|;
    hide SumX, SumY, Numerator, Denominator;
    var sumX, sumY := 0.0, 0.0;
    EmptySums(ys, 0.0, 0.0);
    for i := 0 to n
      invariant sumX == SumX(i) && sumY == SumY(ys, i)
    {
      SumsNext(ys, i, i + 1);
      sumX, sumY := sumX + i as real, sumY + ys[i];
    }
    var meanX, meanY := sumX / n as real, sumY / n as real;
    var numerator, denominator := 0.0, 0.0;
    EmptySums(ys, meanX, meanY);
    for i := 0 to n
      invariant numerator == Numerator(ys, meanX, meanY, i) && denominator == Denominator(meanX, i)
    {
      DeviationsNext(ys, meanX, meanY, i, i + 1);
      numerator := numerator + (i as real - meanX) * (ys[i] - meanY);
      denominator := denominator + Square(i as real - meanX);
    }
    var slope := if denominator == 0.0 then 0.0 else numerator / denominator;
    line := Line(meanY - slope * meanX, slope);
  }

  method LinearRegressionTrend(orderedScores: seq<real>) returns (r: Option<Trend>)
    ensures r == TrendOf(orderedScores)
  {
    var n := |orderedScores|;
    if n < 2 {
      return None;
    }
    hide RoundTo, FittedLine;
    var line := FitLine(orderedScores);
    var forecastNext := Forecast(line, n);
    r := Some(Trend(n, RoundTo(line.slope, 10000), orderedScores[n - 1],
                    RoundTo(if forecastNext > 0.0 then forecastNext else 0.0, 100), DirectionOf(line.slope)));
  }

  // ---- The denominator ----

  lemma {:induction false} SumXClosed(k: nat)
    ensures 2.0 * SumX(k) == k as real * (k as real - 1.0)
  {
    if k > 0 {
      SumXClosed(k - 1);
    }
  }

  lemma MeanXClosed(n: nat)
    requires n > 0
    ensures MeanX(n) == (n as real - 1.0) / 2.0
    ensures n as real * MeanX(n) == SumX(n)
  {
    SumXClosed(n);
    MeanTimes(n);
    hide SumX, MeanX;
    MeanFromSum(n as real, MeanX(n), SumX(n));
  }

  lemma MeanFromSum(x: real, mean: real, sum: real)
    requires x > 0.0 && x * mean == sum && 2.0 * sum == x * (x - 1.0)
    ensures mean == (x - 1.0) / 2.0
  {
    var a, b := 2.0 * mean, x - 1.0;
    Doubled(x, mean, a);
    SameProduct(x, b, x - 1.0);
    CancelLeft(x, a, b);
  }

  lemma Doubled(x: real, y: real, a: real)
    requires a == 2.0 * y
    ensures x * a == 2.0 * (x * y)
  {
  }

  lemma CancelLeft(x: real, a: real, b: real)
    requires x != 0.0 && x * a == x * b
    ensures a == b
  {
    ProductSign(if x > 0.0 then x else -x, if a > b then a - b else b - a,
                (if x > 0.0 then x else -x) * (if a > b then a - b else b - a));
    assert x * (a - b) == x * a - x * b;
  }

  // Sum of (i - m)^2 for i < k, without the sum.
  lemma {:induction false} DenominatorClosed(m: real, k: nat)
    ensures 6.0 * Denominator(m, k)
         == k as real * (k as real - 1.0) * (2.0 * k as real - 1.0) - 6.0 * m * k as real * (k as real - 1.0)
           + 6.0 * k as real * m * m
  {
    if k > 0 {
      DenominatorClosed(m, k - 1);
      CubeStep(m, (k - 1) as real);
    }
  }

  lemma CubeStep(m: real, x: real)
    ensures x * (x - 1.0) * (2.0 * x - 1.0) - 6.0 * m * x * (x - 1.0) + 6.0 * x * m * m + 6.0 * Square(x - m)
         == (x + 1.0) * x * (2.0 * x + 1.0) - 6.0 * m * (x + 1.0) * x + 6.0 * (x + 1.0) * m * m
  {
  }

  // n(n^2 - 1)/12: the guard against a zero denominator never fires.
  lemma DenominatorIsPositive(n: nat)
    requires n >= 2
    ensures 12.0 * Denominator(MeanX(n), n) == n as real * (n as real * n as real - 1.0)
    ensures Denominator(MeanX(n), n) > 0.0
  {
    var x := n as real;
    MeanXClosed(n);
    DenominatorClosed(MeanX(n), n);
    AtMean(x);
    PositiveProduct(x);
  }

  lemma AtMean(x: real)
    ensures var m := (x - 1.0) / 2.0;
      2.0 * (x * (x - 1.0) * (2.0 * x - 1.0) - 6.0 * m * x * (x - 1.0) + 6.0 * x * m * m) == x * (x * x - 1.0)
  {
    var m := (x - 1.0) / 2.0;
    assert x == 2.0 * m + 1.0;
  }

  lemma PositiveProduct(x: real)
    requires x >= 2.0
    ensures x * (x * x - 1.0) > 0.0
  {
    MulMonotone(2.0, x, x);
    ProductSign(x, x * x - 1.0, x * (x * x - 1.0));
  }

  // ---- Least squares ----

  // Sum of squared residuals of a line.
  function Loss(ys: seq<real>, line: Line, k: nat): real
    requires k <= |ys|
  {
    if k == 0 then 0.0
    else
      var r := Residual(ys, line, k - 1);
      Loss(ys, line, k - 1) + Square(r)
  }

  function Residual(ys: seq<real>, line: Line, i: nat): real
    requires i < |ys|
  {
    ys[i] - (line.intercept + line.slope * i as real)
  }

  function SumR(ys: seq<real>, line: Line, k: nat): real
    requires k <= |ys|
  {
    if k == 0 then 0.0 else SumR(ys, line, k - 1) + Residual(ys, line, k - 1)
  }

  function SumXR(ys: seq<real>, line: Line, k: nat): real
    requires k <= |ys|
  {
    if k == 0 then 0.0 else SumXR(ys, line, k - 1) + (k - 1) as real * Residual(ys, line, k - 1)
  }

  // How far two lines lie apart over the sampled positions.
  function Gap(a: real, b: real, k: nat): real {
    if k == 0 then 0.0 else Gap(a, b, k - 1) + Square(a + b * (k - 1) as real)
  }

  // Moving to another line changes the loss by the gap plus a term that is
  // linear in the residual sums.
  lemma {:induction false} LossOfOther(ys: seq<real>, line: Line, other: Line, a: real, b: real, k: nat, sumR: real,
                                       sumXR: real)
    requires k <= |ys| && a == line.intercept - other.intercept && b == line.slope - other.slope
    requires sumR == SumR(ys, line, k) && sumXR == SumXR(ys, line, k)
    ensures Loss(ys, other, k) == Loss(ys, line, k) + 2.0 * a * sumR + 2.0 * b * sumXR + Gap(a, b, k)
  {
    hide Loss, SumR, SumXR, Gap, Residual, Square;
    if k == 0 {
      NoLoss(ys, line);
      NoLoss(ys, other);
      NoGap(a, b);
      TimesZero(2.0 * a, sumR);
      TimesZero(2.0 * b, sumXR);
    } else {
      var x, r, r' := (k - 1) as real, Residual(ys, line, k - 1), Residual(ys, other, k - 1);
      var sumR0, sumXR0 := SumR(ys, line, k - 1), SumXR(ys, line, k - 1);
      LossUnfolds(ys, line, k, x, r);
      LossUnfolds(ys, other, k, x, r');
      GapUnfolds(a, b, k, x);
      LossOfOther(ys, line, other, a, b, k - 1, sumR0, sumXR0);
      ResidualOfOther(ys, line, other, a, b, k - 1, x);
      LossStep(Loss(ys, line, k - 1), sumR0, sumXR0, Gap(a, b, k - 1), Loss(ys, line, k), sumR, sumXR, Gap(a, b, k),
               Loss(ys, other, k - 1), Loss(ys, other, k), r, r', x, a, b);
    }
  }

  lemma NoGap(a: real, b: real)
    ensures Gap(a, b, 0) == 0.0
  {
  }

  // One unfolding of each sum; x is the position of the added sample.
  lemma LossUnfolds(ys: seq<real>, line: Line, k: nat, x: real, r: real)
    requires 0 < k <= |ys| && x == (k - 1) as real && r == Residual(ys, line, k - 1)
    ensures Loss(ys, line, k) == Loss(ys, line, k - 1) + Square(r)
    ensures SumR(ys, line, k) == SumR(ys, line, k - 1) + r
    ensures SumXR(ys, line, k) == SumXR(ys, line, k - 1) + x * r
  {
    hide Residual, Square;
    SameProduct(r, x, (k - 1) as real);
    assert (k - 1) as real * r == x * r;
  }

  lemma NoLoss(ys: seq<real>, line: Line)
    ensures Loss(ys, line, 0) == SumR(ys, line, 0) == SumXR(ys, line, 0) == 0.0
  {
  }

  lemma GapUnfolds(a: real, b: real, k: nat, x: real)
    requires k > 0 && x == (k - 1) as real
    ensures Gap(a, b, k) == Gap(a, b, k - 1) + Square(a + b * x)
  {
    hide Square;
    LineAt(a, b, k - 1, x);
  }

  lemma LineAt(a: real, b: real, i: int, x: real)
    requires x == i as real
    ensures a + b * i as real == a + b * x
  {
  }

  lemma ResidualOfOther(ys: seq<real>, line: Line, other: Line, a: real, b: real, i: nat, x: real)
    requires i < |ys| && a == line.intercept - other.intercept && b == line.slope - other.slope && x == i as real
    ensures Residual(ys, other, i) == Residual(ys, line, i) + (a + b * x)
  {
    assert b * x == line.slope * x - other.slope * x;
  }

  // The sums before one more sample, after it, and the loss of the other line
  // before and after.
  lemma LossStep(loss: real, sumR: real, sumXR: real, gap: real, loss': real, sumR': real, sumXR': real, gap': real,
                 other: real, other': real, r: real, r': real, x: real, a: real, b: real)
    requires other == loss + 2.0 * a * sumR + 2.0 * b * sumXR + gap
    requires r' == r + (a + b * x) && other' == other + Square(r')
    requires loss' == loss + Square(r) && sumR' == sumR + r && sumXR' == sumXR + x * r
    requires gap' == gap + Square(a + b * x)
    ensures other' == loss' + 2.0 * a * sumR' + 2.0 * b * sumXR' + gap'
  {
    SquareOfSum(r, a, b, x, r', a + b * x);
    LinearStep(a, sumR, r);
    LinearStep(b, sumXR, x * r);
  }

  lemma SquareOfSum(r: real, a: real, b: real, x: real, r': real, d: real)
    requires d == a + b * x && r' == r + d
    ensures Square(r') == Square(r) + 2.0 * a * r + 2.0 * b * (x * r) + Square(d)
  {
    SquareOfTwo(r, d, r * d, Square(r), Square(d));
    TimesLine(r, a, b, x, d);
    DoubleIsTwice(a, r);
    DoubleIsTwice(b, x * r);
  }

  lemma SquareOfTwo(r: real, d: real, rd: real, rr: real, dd: real)
    requires rd == r * d && rr == r * r && dd == d * d
    ensures Square(r + d) == rr + 2.0 * rd + dd
  {
  }

  lemma TimesLine(r: real, a: real, b: real, x: real, d: real)
    requires d == a + b * x
    ensures r * d == a * r + b * (x * r)
  {
  }

  lemma DoubleIsTwice(a: real, s: real)
    ensures 2.0 * a * s == 2.0 * (a * s)
  {
  }

  lemma LinearStep(a: real, s: real, r: real)
    ensures 2.0 * a * (s + r) == 2.0 * a * s + 2.0 * a * r
  {
  }

  lemma {:induction false} SumRLinear(ys: seq<real>, line: Line, k: nat)
    requires k <= |ys|
    ensures SumR(ys, line, k) == SumY(ys, k) - line.intercept * k as real - line.slope * SumX(k)
  {
    hide SumX, SumY, SumR, Loss, SumXR;
    if k == 0 {
      NoLoss(ys, line);
      EmptySums(ys, 0.0, 0.0);
    } else {
      LossUnfolds(ys, line, k, (k - 1) as real, Residual(ys, line, k - 1));
      SumRLinear(ys, line, k - 1);
      SumsNext(ys, k - 1, k);
      DistributeBoth(line.intercept, line.slope, (k - 1) as real, SumX(k - 1));
    }
  }

  lemma DistributeBoth(c: real, m: real, x: real, sum: real)
    ensures c * (x + 1.0) == c * x + c
    ensures m * (sum + x) == m * sum + m * x
  {
  }

  // With intercept = meanY - slope * meanX, residuals are deviations.
  lemma {:induction false} SumXRCentred(ys: seq<real>, line: Line, meanX: real, meanY: real, k: nat,
                                        denominator: real, sumR: real)
    requires k <= |ys| && line.intercept == meanY - line.slope * meanX
    requires denominator == Denominator(meanX, k) && sumR == SumR(ys, line, k)
    ensures SumXR(ys, line, k) == Numerator(ys, meanX, meanY, k) - line.slope * denominator + meanX * sumR
  {
    hide SumXR, SumR, Loss, Numerator, Denominator, Residual, Square;
    if k == 0 {
      NoLoss(ys, line);
      EmptySums(ys, meanX, meanY);
      TimesZero(line.slope, denominator);
      TimesZero(meanX, sumR);
    } else {
      var x, r := (k - 1) as real, Residual(ys, line, k - 1);
      var denominator0, sumR0 := Denominator(meanX, k - 1), SumR(ys, line, k - 1);
      SumXRCentred(ys, line, meanX, meanY, k - 1, denominator0, sumR0);
      LossUnfolds(ys, line, k, x, r);
      DeviationsUnfold(ys, meanX, meanY, k, x);
      ResidualOfFit(ys, line, k - 1, x);
      CentredSum(Numerator(ys, meanX, meanY, k - 1), denominator0, sumR0, SumXR(ys, line, k - 1),
                 Numerator(ys, meanX, meanY, k), denominator, sumR, SumXR(ys, line, k),
                 r, ys[k - 1], line, meanX, meanY, x);
    }
  }

  lemma ResidualOfFit(ys: seq<real>, line: Line, i: nat, x: real)
    requires i < |ys| && x == i as real
    ensures Residual(ys, line, i) == ys[i] - (line.intercept + line.slope * x)
  {
    SameProduct(line.slope, x, i as real);
  }

  lemma DeviationsUnfold(ys: seq<real>, meanX: real, meanY: real, k: nat, x: real)
    requires 0 < k <= |ys| && x == (k - 1) as real
    ensures Numerator(ys, meanX, meanY, k) == Numerator(ys, meanX, meanY, k - 1) + (x - meanX) * (ys[k - 1] - meanY)
    ensures Denominator(meanX, k) == Denominator(meanX, k - 1) + Square(x - meanX)
  {
    hide Square;
    SameProduct(ys[k - 1] - meanY, x - meanX, (k - 1) as real - meanX);
    assert ((k - 1) as real - meanX) * (ys[k - 1] - meanY) == (x - meanX) * (ys[k - 1] - meanY);
  }

  lemma CentredSum(numerator: real, denominator: real, sumR: real, sumXR: real,
                   numerator': real, denominator': real, sumR': real, sumXR': real,
                   r: real, y: real, line: Line, meanX: real, meanY: real, x: real)
    requires line.intercept == meanY - line.slope * meanX && r == y - (line.intercept + line.slope * x)
    requires sumXR == numerator - line.slope * denominator + meanX * sumR
    requires numerator' == numerator + (x - meanX) * (y - meanY) && denominator' == denominator + Square(x - meanX)
    requires sumR' == sumR + r && sumXR' == sumXR + x * r
    ensures sumXR' == numerator' - line.slope * denominator' + meanX * sumR'
  {
    CentredStep(r, y, line, meanX, meanY, x);
    LinearStep(line.slope / 2.0, denominator, Square(x - meanX));
    LinearStep(meanX / 2.0, sumR, r);
  }

  lemma CentredStep(r: real, y: real, line: Line, meanX: real, meanY: real, x: real)
    requires line.intercept == meanY - line.slope * meanX && r == y - (line.intercept + line.slope * x)
    ensures x * r == (x - meanX) * (y - meanY) - line.slope * Square(x - meanX) + meanX * r
  {
    var slope, d, e := line.slope, x - meanX, y - meanY;
    assert slope * x - slope * meanX == slope * d;
    assert r == e - slope * d;
    assert d * r == d * e - slope * (d * d) by {
      assert d * (slope * d) == slope * (d * d);
    }
    assert x * r - meanX * r == d * r;
  }

  // The normal equations: residuals of the fitted line sum to zero, also
  // when weighted with their position.
  lemma NormalEquations(ys: seq<real>, line: Line)
    requires |ys| >= 2 && line == FittedLine(ys)
    ensures SumR(ys, line, |ys|) == 0.0 && SumXR(ys, line, |ys|) == 0.0
  {
    hide SumR, SumXR, Numerator, Denominator, MeanX, MeanY, FittedLine, SumX, SumY;
    var n := |ys|;
    var meanX, meanY := MeanX(n), MeanY(ys);
    FitMeans(ys, line, meanX, meanY);
    SumRLinear(ys, line, n);
    ZeroSum(n as real, meanX, meanY, line, SumX(n), SumY(ys, n));
    SumXRCentred(ys, line, meanX, meanY, n, Denominator(meanX, n), 0.0);
    assert meanX * 0.0 == 0.0;
  }

  lemma FitMeans(ys: seq<real>, line: Line, meanX: real, meanY: real)
    requires |ys| >= 2 && line == FittedLine(ys) && meanX == MeanX(|ys|) && meanY == MeanY(ys)
    ensures line.intercept == meanY - line.slope * meanX
    ensures line.slope * Denominator(meanX, |ys|) == Numerator(ys, meanX, meanY, |ys|)
    ensures |ys| as real * meanX == SumX(|ys|) && |ys| as real * meanY == SumY(ys, |ys|)
  {
    hide SumX, SumY, Numerator, Denominator;
    DenominatorIsPositive(|ys|);
    MeanTimes(|ys|);
    DivUndone(SumY(ys, |ys|), |ys| as real);
    SameProduct(|ys| as real, meanY, SumY(ys, |ys|) / |ys| as real);
    SameProduct(|ys| as real, meanX, MeanX(|ys|));
    DivUndone(Numerator(ys, meanX, meanY, |ys|), Denominator(meanX, |ys|));
    SameProduct(Denominator(meanX, |ys|), line.slope, Numerator(ys, meanX, meanY, |ys|) / Denominator(meanX, |ys|));
  }

  lemma MeanTimes(n: nat)
    requires n > 0
    ensures n as real * MeanX(n) == SumX(n)
  {
    hide SumX;
    DivUndone(SumX(n), n as real);
    SameProduct(n as real, MeanX(n), SumX(n) / n as real);
  }

  lemma ZeroSum(n: real, meanX: real, meanY: real, line: Line, sumX: real, sumY: real)
    requires line.intercept == meanY - line.slope * meanX && sumX == n * meanX && sumY == n * meanY
    ensures sumY - line.intercept * n - line.slope * sumX == 0.0
  {
    assert (meanY - line.slope * meanX) * n == n * meanY - line.slope * (n * meanX);
  }

  lemma {:induction false} GapFacts(a: real, b: real, k: nat)
    ensures Gap(a, b, k) >= 0.0
    ensures k >= 2 && Gap(a, b, k) == 0.0 ==> a == 0.0 && b == 0.0
  {
    hide Gap, Square;
    if k == 0 {
      NoGap(a, b);
    } else {
      var x := (k - 1) as real;
      GapUnfolds(a, b, k, x);
      GapFacts(a, b, k - 1);
      SquareSign(a + b * x);
      if k == 2 {
        GapOfTwo(a, b);
      }
    }
  }

  lemma GapOfTwo(a: real, b: real)
    ensures Gap(a, b, 2) == Square(a) + Square(a + b)
    ensures Gap(a, b, 2) == 0.0 ==> a == 0.0 && b == 0.0
  {
    hide Square;
    GapUnfolds(a, b, 2, 1.0);
    GapUnfolds(a, b, 1, 0.0);
    NoGap(a, b);
    assert a + b * 0.0 == a && a + b * 1.0 == a + b;
    SquareSign(a);
    SquareSign(a + b);
  }

  // The fitted line has the least loss of all lines, and no other line has
  // as little.
  lemma FitIsLeastSquares(ys: seq<real>, other: Line)
    requires |ys| >= 2
    ensures Loss(ys, FittedLine(ys), |ys|) <= Loss(ys, other, |ys|)
    ensures Loss(ys, FittedLine(ys), |ys|) == Loss(ys, other, |ys|) ==> other == FittedLine(ys)
  {
    hide FittedLine, Loss, SumR, SumXR, Gap;
    var line := FittedLine(ys);
    var a, b := line.intercept - other.intercept, line.slope - other.slope;
    NormalEquations(ys, line);
    LossOfOther(ys, line, other, a, b, |ys|, 0.0, 0.0);
    assert 2.0 * a * 0.0 == 0.0 && 2.0 * b * 0.0 == 0.0;
    GapFacts(a, b, |ys|);
  }

  // ---- Consequences ----

  lemma {:induction false} LossOfExactLine(ys: seq<real>, line: Line, k: nat)
    requires k <= |ys| && forall i :: 0 <= i < |ys| ==> ys[i] == line.intercept + line.slope * i as real
    ensures Loss(ys, line, k) == 0.0
  {
    if k > 0 {
      LossOfExactLine(ys, line, k - 1);
    }
  }

  lemma {:induction false} LossNonNegative(ys: seq<real>, line: Line, k: nat)
    requires k <= |ys|
    ensures Loss(ys, line, k) >= 0.0
  {
    hide Residual, Loss, Square;
    if k == 0 {
      NoLoss(ys, line);
    } else {
      LossUnfolds(ys, line, k, (k - 1) as real, Residual(ys, line, k - 1));
      LossNonNegative(ys, line, k - 1);
      SquareSign(Residual(ys, line, k - 1));
    }
  }

  // A linear series is recovered, and extrapolated to its next value up to
  // the clamp at zero and the rounding; its direction is its slope's, from
  // 0.05 either way.
  lemma LinearSeriesRecovered(ys: seq<real>, line: Line)
    requires |ys| >= 2 && forall i :: 0 <= i < |ys| ==> ys[i] == line.intercept + line.slope * i as real
    ensures FittedLine(ys) == line
    ensures TrendOf(ys).Some?
    ensures var trend, next := TrendOf(ys).value, line.slope * |ys| as real + line.intercept;
      && trend.samples == |ys| && trend.currentScore == ys[|ys| - 1]
      && trend.slope == RoundTo(line.slope, 10000)
      && trend.forecastNext == RoundTo(if next > 0.0 then next else 0.0, 100)
      && (trend.direction.Increasing? <==> line.slope >= 0.05)
      && (trend.direction.Decreasing? <==> line.slope <= -0.05)
  {
    hide FittedLine, Loss, RoundTo, Forecast;
    LossOfExactLine(ys, line, |ys|);
    LossNonNegative(ys, FittedLine(ys), |ys|);
    FitIsLeastSquares(ys, line);
    SameForecast(line, |ys|, line.slope * |ys| as real + line.intercept);
  }

  lemma SameForecast(line: Line, n: nat, next: real)
    requires next == line.slope * n as real + line.intercept
    ensures Forecast(line, n) == next
    ensures RoundTo(if Forecast(line, n) > 0.0 then Forecast(line, n) else 0.0, 100)
         == RoundTo(if next > 0.0 then next else 0.0, 100)
  {
    hide RoundTo;
  }

  function Reversed(ys: seq<real>): seq<real> {
    seq(|ys|, i requires 0 <= i < |ys| => ys[|ys| - 1 - i])
  }

  // The line seen from the other end.
  function Mirrored(line: Line, n: nat): Line {
    Line(line.intercept + line.slope * (n as real - 1.0), -line.slope)
  }

  lemma {:induction false} LossSplit(ys: seq<real>, line: Line, k: nat)
    requires k <= |ys|
    ensures Loss(ys, line, |ys|) == Loss(ys, line, k) + Loss(Reversed(ys), Mirrored(line, |ys|), |ys| - k)
    decreases |ys| - k
  {
    if k < |ys| {
      LossSplit(ys, line, k + 1);
      var n := |ys|;
      var i := n - k - 1;
      assert Reversed(ys)[i] == ys[k];
      MirroredPoint(line, n as real, k as real);
      assert i as real == n as real - k as real - 1.0;
      assert Residual(Reversed(ys), Mirrored(line, n), i) == Residual(ys, line, k);
    }
  }

  lemma MirroredPoint(line: Line, n: real, x: real)
    ensures line.intercept + line.slope * (n - 1.0) + (-line.slope) * (n - x - 1.0) == line.intercept + line.slope * x
  {
  }

  // Reversing the series negates the slope.
  lemma ReversalNegatesSlope(ys: seq<real>)
    requires |ys| >= 2
    ensures FittedLine(Reversed(ys)).slope == -FittedLine(ys).slope
  {
    hide FittedLine;
    var n, back := |ys|, Reversed(ys);
    var fit := FittedLine(back);
    LossSplit(ys, FittedLine(ys), 0);
    FitIsLeastSquares(back, Mirrored(FittedLine(ys), n));
    MirrorTwice(fit, n);
    LossSplit(ys, Mirrored(fit, n), 0);
    FitIsLeastSquares(ys, Mirrored(fit, n));
    hide Loss;
  }

  lemma MirrorTwice(line: Line, n: nat)
    ensures Mirrored(Mirrored(line, n), n) == line
  {
    var s, x := line.slope, n as real - 1.0;
    assert line.intercept + s * x + (-s) * x == line.intercept;
  }

  // What a trend says in words turns around with the series too.
  lemma ReversalTurnsDirection(ys: seq<real>)
    requires |ys| >= 2
    ensures var d, d' := TrendOf(ys).value.direction, TrendOf(Reversed(ys)).value.direction;
      && (d.Stable? <==> d'.Stable?) && (d.Increasing? <==> d'.Decreasing?) && (d.Decreasing? <==> d'.Increasing?)
  {
    ReversalNegatesSlope(ys);
    hide FittedLine, RoundTo;
  }
}
