// Outliers of the risk scores by z-score, in exact reals. The square root
// comes in as a parameter: the non-negative number whose square is the variance.
module Outliers {
  import opened Assets
  import opened RealArithmetic

  function Sum(scores: seq<real>, k: nat): real
    requires k <= |scores|
  {
    if k == 0 then 0.0 else Sum(scores, k - 1) + scores[k - 1]
  }

  function Mean(scores: seq<real>): real
    requires scores != []
  {
    Sum(scores, |scores|) / |scores| as real
  }

  function SquaredDeviations(scores: seq<real>, mean: real, k: nat): real
    requires k <= |scores|
  {
    if k == 0 then 0.0 else SquaredDeviations(scores, mean, k - 1) + Square(scores[k - 1] - mean)
  }

  function Variance(scores: seq<real>): real
    requires scores != []
  {
    SquaredDeviations(scores, Mean(scores), |scores|) / |scores| as real
  }

  function ZScore(score: real, mean: real, stddev: real): real
    requires stddev != 0.0
  {
    (score - mean) / stddev
  }

  predicate IsOutlier(score: real, mean: real, stddev: real, zThreshold: real)
    requires stddev != 0.0
  {
    var z := ZScore(score, mean, stddev);
    !(-zThreshold < z < zThreshold)
  }

  datatype Risk = Risk(asset: Asset, score: real)

  datatype OutlierRow = OutlierRow(asset: Asset, score: real, mean: real, stddev: real, zScore: real)

  function ScoresOf(risks: seq<Risk>): seq<real> {
    seq(|risks|, i requires 0 <= i < |risks| => risks[i].score)
  }

  function RowFor(risk: Risk, mean: real, stddev: real): OutlierRow
    requires stddev != 0.0
  {
    OutlierRow(risk.asset, risk.score, RoundTo(mean, 100), RoundTo(stddev, 100),
               RoundTo(ZScore(risk.score, mean, stddev), 1000))
  }

  function RowsFor(risks: seq<Risk>, mean: real, stddev: real, zThreshold: real): seq<OutlierRow>
    requires stddev != 0.0
  {
    if risks == [] then []
    else
      var risk := risks[|risks| - 1];
      RowsFor(risks[..|risks| - 1], mean, stddev, zThreshold)
        + if IsOutlier(risk.score, mean, stddev, zThreshold) then [RowFor(risk, mean, stddev)] else []
  }

  class OutlierTable {
    var rows: seq<OutlierRow>

    constructor ()
      ensures rows == []
    {
      rows := [];
    }

    method ComputeQuantumOutliers(risks: seq<Risk>, stddev: real, zThreshold: real)
      requires stddev >= 0.0 && (risks != [] ==> Square(stddev) == Variance(ScoresOf(risks)))
      modifies this
      ensures |risks| < 3 || stddev == 0.0 ==> rows == []
      ensures |risks| >= 3 && stddev != 0.0 ==> rows == RowsFor(risks, Mean(ScoresOf(risks)), stddev, zThreshold)
      ensures |risks| >= 3 && stddev != 0.0 ==>
        exists at :: AreOutliersAt(rows, at, risks, Mean(ScoresOf(risks)), stddev, zThreshold)
    {
      rows := [];
      if |risks| < 3 || stddev == 0.0 {
        return;
      }
      hide Mean, RoundTo, IsOutlier;
      var mean := Mean(ScoresOf(risks));
      for i := 0 to |risks|
        invariant rows == RowsFor(risks[..i], mean, stddev, zThreshold)
      {
        assert risks[..i + 1][..i] == risks[..i];
        if IsOutlier(risks[i].score, mean, stddev, zThreshold) {
          rows := rows + [RowFor(risks[i], mean, stddev)];
        }
      }
      assert risks[..|risks|] == risks;
      var _ := OutliersMean(risks, mean, stddev, zThreshold);
    }
  }

  // The rows are those of the risks at the positions `at`: of all whose score
  // is at least that many deviations off the mean, once each, in order, with
  // the figures rounded to two and three places.
  ghost predicate AreOutliersAt(rows: seq<OutlierRow>, at: seq<nat>, risks: seq<Risk>, mean: real, stddev: real,
                                zThreshold: real)
    requires stddev != 0.0
  {
    && |at| == |rows|
    && (forall i, j :: 0 <= i < j < |at| ==> at[i] < at[j])
    && (forall i :: 0 <= i < |at| ==>
          && at[i] < |risks| && rows[i].asset == risks[at[i]].asset && rows[i].score == risks[at[i]].score
          && rows[i].mean == RoundTo(mean, 100) && rows[i].stddev == RoundTo(stddev, 100)
          && rows[i].zScore == RoundTo((risks[at[i]].score - mean) / stddev, 1000))
    && forall k :: 0 <= k < |risks| ==>
         var z := (risks[k].score - mean) / stddev;
         k in at <==> z >= zThreshold || z <= -zThreshold
  }

  lemma {:induction false} OutliersMean(risks: seq<Risk>, mean: real, stddev: real, zThreshold: real)
    returns (at: seq<nat>)
    requires stddev != 0.0
    ensures AreOutliersAt(RowsFor(risks, mean, stddev, zThreshold), at, risks, mean, stddev, zThreshold)
  {
    at := [];
    if risks != [] {
      var n := |risks| - 1;
      at := OutliersMean(risks[..n], mean, stddev, zThreshold);
      var before := RowsFor(risks[..n], mean, stddev, zThreshold);
      var last := (risks[n].score - mean) / stddev;
      hide RoundTo;
      if IsOutlier(risks[n].score, mean, stddev, zThreshold) {
        at := at + [n];
      }
    }
  }

  // ---- Sums of deviations ----

  lemma {:induction false} SumIsTotal(scores: seq<real>, mean: real, k: nat, n: real)
    requires k <= |scores| && n == k as real
    ensures SumOfDeviations(scores, mean, k) == Sum(scores, k) - n * mean
  {
    if k == 0 {
      TimesZero(mean, n);
    } else {
      var n0 := (k - 1) as real;
      SumIsTotal(scores, mean, k - 1, n0);
      assert n * mean == n0 * mean + mean;
    }
  }

  function SumOfDeviations(scores: seq<real>, mean: real, k: nat): real
    requires k <= |scores|
  {
    if k == 0 then 0.0 else SumOfDeviations(scores, mean, k - 1) + (scores[k - 1] - mean)
  }

  lemma DeviationsCancel(scores: seq<real>, mean: real)
    requires scores != [] && mean == Mean(scores)
    ensures SumOfDeviations(scores, mean, |scores|) == 0.0
  {
    hide SumOfDeviations, Sum;
    var n := |scores| as real;
    SumIsTotal(scores, mean, |scores|, n);
    DivUndone(Sum(scores, |scores|), n);
    SameProduct(n, mean, Sum(scores, |scores|) / n);
  }

  // ---- The zero exit ----

  lemma {:induction false} DeviationsZeroIff(scores: seq<real>, mean: real, k: nat)
    requires k <= |scores|
    ensures SquaredDeviations(scores, mean, k) >= 0.0
    ensures SquaredDeviations(scores, mean, k) == 0.0 <==> forall i :: 0 <= i < k ==> scores[i] == mean
  {
    hide Square;
    if k > 0 {
      DeviationsZeroIff(scores, mean, k - 1);
      SquareSign(scores[k - 1] - mean);
    }
  }

  lemma VarianceTimes(scores: seq<real>, n: real, variance: real)
    requires scores != [] && n == |scores| as real && variance == Variance(scores)
    ensures n * variance == SquaredDeviations(scores, Mean(scores), |scores|)
  {
    hide SquaredDeviations, Mean;
    DivUndone(SquaredDeviations(scores, Mean(scores), |scores|), n);
    SameProduct(n, variance, SquaredDeviations(scores, Mean(scores), |scores|) / n);
  }

  // The early exit on a zero deviation is taken exactly when all scores are equal.
  lemma ZeroExitIff(scores: seq<real>, stddev: real)
    requires scores != [] && stddev >= 0.0 && Square(stddev) == Variance(scores)
    ensures stddev == 0.0 <==> forall i, j :: 0 <= i < |scores| && 0 <= j < |scores| ==> scores[i] == scores[j]
  {
    var n, mean, variance := |scores| as real, Mean(scores), Variance(scores);
    var total := SquaredDeviations(scores, mean, |scores|);
    SquareSign(stddev);
    VarianceTimes(scores, n, variance);
    ProductSign(n, variance, total);
    DeviationsZeroIff(scores, mean, |scores|);
    hide Variance, Square, SquaredDeviations;
    if forall i, j :: 0 <= i < |scores| && 0 <= j < |scores| ==> scores[i] == scores[j] {
      MeanOfEqual(scores, scores[0]);
      assert forall i :: 0 <= i < |scores| ==> scores[i] == mean;
    }
  }

  lemma MeanOfEqual(scores: seq<real>, value: real)
    requires scores != [] && forall i :: 0 <= i < |scores| ==> scores[i] == value
    ensures Mean(scores) == value
  {
    var n := |scores| as real;
    SumOfEqual(scores, value, |scores|, n);
    hide Sum;
    DivUndone(value, n);
    assert n * value == value * n;
  }

  lemma {:induction false} SumOfEqual(scores: seq<real>, value: real, k: nat, n: real)
    requires k <= |scores| && n == k as real && forall i :: 0 <= i < |scores| ==> scores[i] == value
    ensures Sum(scores, k) == n * value
  {
    if k == 0 {
      TimesZero(value, n);
    } else {
      var n0 := (k - 1) as real;
      SumOfEqual(scores, value, k - 1, n0);
      assert n * value == n0 * value + value;
    }
  }

  // ---- Chebyshev ----

  function Flagged(scores: seq<real>, mean: real, stddev: real, zThreshold: real, k: nat): nat
    requires stddev != 0.0 && k <= |scores|
  {
    if k == 0 then 0
    else
      Flagged(scores, mean, stddev, zThreshold, k - 1)
        + if IsOutlier(scores[k - 1], mean, stddev, zThreshold) then 1 else 0
  }

  lemma {:induction false} RowsCountFlagged(risks: seq<Risk>, mean: real, stddev: real, zThreshold: real)
    requires stddev != 0.0
    ensures |RowsFor(risks, mean, stddev, zThreshold)| == Flagged(ScoresOf(risks), mean, stddev, zThreshold, |risks|)
  {
    hide IsOutlier, RoundTo;
    if risks != [] {
      var front := risks[..|risks| - 1];
      RowsCountFlagged(front, mean, stddev, zThreshold);
      FlaggedOfPrefix(ScoresOf(front), ScoresOf(risks), mean, stddev, zThreshold, |front|);
    }
  }

  lemma {:induction false} FlaggedOfPrefix(a: seq<real>, b: seq<real>, mean: real, stddev: real, zThreshold: real,
                                           k: nat)
    requires stddev != 0.0 && k <= |a| && k <= |b| && a[..k] == b[..k]
    ensures Flagged(a, mean, stddev, zThreshold, k) == Flagged(b, mean, stddev, zThreshold, k)
  {
    hide IsOutlier;
    if k > 0 {
      assert a[..k][k - 1] == b[..k][k - 1];
      assert a[..k - 1] == a[..k][..k - 1] == b[..k][..k - 1] == b[..k - 1];
      FlaggedOfPrefix(a, b, mean, stddev, zThreshold, k - 1);
    }
  }

  // The z-score test in squares: no division, no root.
  lemma OutlierInSquares(score: real, mean: real, stddev: real, zThreshold: real, bound: real)
    requires stddev > 0.0 && zThreshold >= 0.0 && bound == Square(zThreshold) * Square(stddev)
    ensures IsOutlier(score, mean, stddev, zThreshold) <==> Square(score - mean) >= bound
  {
    var z, d := ZScore(score, mean, stddev), score - mean;
    DivUndone(d, stddev);
    SameProduct(stddev, z, d / stddev);
    ProductOfSquares(z, stddev, d);
    ProductOfSquares(zThreshold, stddev, zThreshold * stddev);
    CompareSquares(d, zThreshold * stddev);
    CompareScaled(z, zThreshold, stddev, d, zThreshold * stddev);
    hide Square, ZScore;
  }

  lemma ProductOfSquares(a: real, b: real, product: real)
    requires product == b * a
    ensures Square(product) == Square(a) * Square(b)
  {
    assert (b * a) * (b * a) == (a * a) * (b * b);
  }

  lemma CompareScaled(z: real, t: real, s: real, zs: real, ts: real)
    requires s > 0.0 && zs == s * z && ts == t * s
    ensures z < t <==> zs < ts
    ensures -t < z <==> -ts < zs
  {
    ScaleStrict(z, t, s);
    ScaleStrict(-t, z, s);
    assert s * (-t) == -(t * s) && s * t == t * s;
  }

  lemma ScaleStrict(a: real, b: real, s: real)
    requires s > 0.0
    ensures a < b <==> s * a < s * b
  {
    ProductSign(s, b - a, s * (b - a));
    ProductSign(s, a - b, s * (a - b));
    assert s * (b - a) == s * b - s * a && s * (a - b) == s * a - s * b;
  }

  // |d| >= t exactly when d^2 >= t^2, for t >= 0.
  lemma CompareSquares(d: real, t: real)
    requires t >= 0.0
    ensures !(-t < d < t) <==> Square(d) >= Square(t)
  {
    var p, q := t - d, t + d;
    ProductSign(p, q, p * q);
    assert p * q == Square(t) - Square(d);
    hide Square;
    if (p < 0.0 && q > 0.0) || (p > 0.0 && q < 0.0) {
      ProductSign(-p, q, -p * q);
      assert -p * q == -(p * q);
    }
  }

  lemma {:induction false} FlaggedWeigh(scores: seq<real>, mean: real, stddev: real, zThreshold: real, bound: real,
                                        k: nat, count: real)
    requires stddev > 0.0 && zThreshold >= 0.0 && bound == Square(zThreshold) * Square(stddev) && k <= |scores|
    requires count == Flagged(scores, mean, stddev, zThreshold, k) as real
    ensures count * bound <= SquaredDeviations(scores, mean, k)
  {
    hide IsOutlier, Square;
    if k == 0 {
      TimesZero(bound, count);
    } else {
      var count0 := Flagged(scores, mean, stddev, zThreshold, k - 1) as real;
      FlaggedWeigh(scores, mean, stddev, zThreshold, bound, k - 1, count0);
      OutlierInSquares(scores[k - 1], mean, stddev, zThreshold, bound);
      SquareSign(scores[k - 1] - mean);
      OneMoreTimes(count0, bound, count);
    }
  }

  lemma OneMoreTimes(count0: real, bound: real, count: real)
    ensures count == count0 + 1.0 ==> count * bound == count0 * bound + bound
    ensures count == count0 ==> count * bound == count0 * bound
  {
  }

  // Chebyshev's bound: (number flagged) * zThreshold^2 <= n.
  lemma FewAreFlagged(scores: seq<real>, stddev: real, zThreshold: real, count: real, squared: real)
    requires scores != [] && stddev > 0.0 && Square(stddev) == Variance(scores) && zThreshold >= 0.0
    requires count == Flagged(scores, Mean(scores), stddev, zThreshold, |scores|) as real
    requires squared == Square(zThreshold)
    ensures count * squared <= |scores| as real
  {
    hide Variance, Square, Flagged, Mean, SquaredDeviations;
    var n, variance := |scores| as real, Variance(scores);
    var bound := squared * Square(stddev);
    SquareSign(stddev);
    VarianceTimes(scores, n, variance);
    FlaggedWeigh(scores, Mean(scores), stddev, zThreshold, bound, |scores|, count);
    SameProduct(squared, Square(stddev), variance);
    CancelScale(count, squared, variance, n, bound);
  }

  lemma CancelScale(count: real, t: real, variance: real, n: real, bound: real)
    requires variance > 0.0 && bound == t * variance && count * bound <= n * variance
    ensures count * t <= n
  {
    assert count * bound == variance * (count * t) && n * variance == variance * n;
    ScaleStrict(n, count * t, variance);
  }

  // A negative threshold flags everything, so there the bound holds exactly
  // down to -1.
  lemma NegativeThresholdFlagsAll(scores: seq<real>, mean: real, stddev: real, zThreshold: real)
    requires scores != [] && stddev > 0.0 && zThreshold < 0.0
    ensures Flagged(scores, mean, stddev, zThreshold, |scores|) == |scores|
    ensures |scores| as real * Square(zThreshold) <= |scores| as real <==> zThreshold >= -1.0
  {
    AllFlagged(scores, mean, stddev, zThreshold, |scores|);
    var n, t := |scores| as real, Square(zThreshold);
    ScaleStrict(1.0, t, n);
    CompareSquares(1.0, -zThreshold);
    assert Square(-zThreshold) == Square(zThreshold) && Square(1.0) == 1.0;
  }

  lemma {:induction false} AllFlagged(scores: seq<real>, mean: real, stddev: real, zThreshold: real, k: nat)
    requires stddev > 0.0 && zThreshold < 0.0 && k <= |scores|
    ensures Flagged(scores, mean, stddev, zThreshold, k) == k
  {
    if k > 0 {
      AllFlagged(scores, mean, stddev, zThreshold, k - 1);
    }
  }

  // ---- Samuelson ----

  // Sums over the first k scores without the j-th.
  function OthersSum(scores: seq<real>, mean: real, j: nat, k: nat): real
    requires k <= |scores|
  {
    if k == 0 then 0.0 else OthersSum(scores, mean, j, k - 1) + if k - 1 == j then 0.0 else scores[k - 1] - mean
  }

  function OthersSquares(scores: seq<real>, mean: real, j: nat, k: nat): real
    requires k <= |scores|
  {
    if k == 0 then 0.0 else OthersSquares(scores, mean, j, k - 1) + if k - 1 == j then 0.0
    else Square(scores[k - 1] - mean)
  }

  function OthersCount(j: nat, k: nat): nat {
    if j < k then k - 1 else k
  }

  lemma {:induction false} OthersAndOne(scores: seq<real>, mean: real, j: nat, k: nat)
    requires k <= |scores|
    ensures SumOfDeviations(scores, mean, k) == OthersSum(scores, mean, j, k) + if j < k then scores[j] - mean else 0.0
    ensures SquaredDeviations(scores, mean, k)
         == OthersSquares(scores, mean, j, k) + if j < k then Square(scores[j] - mean) else 0.0
  {
    hide Square;
    if k > 0 {
      OthersAndOne(scores, mean, j, k - 1);
    }
  }

  // The square of a sum is at most the number of terms times the sum of
  // their squares.
  lemma {:induction false} SquareOfOthers(scores: seq<real>, mean: real, j: nat, k: nat, m: real, squares: real)
    requires k <= |scores| && m == OthersCount(j, k) as real && squares == OthersSquares(scores, mean, j, k)
    ensures Square(OthersSum(scores, mean, j, k)) <= m * squares && squares >= 0.0
  {
    hide Square;
    if k == 0 {
      TimesZero(m, squares);
      SquareSign(OthersSum(scores, mean, j, k));
    } else {
      var m0, squares0 := OthersCount(j, k - 1) as real, OthersSquares(scores, mean, j, k - 1);
      SquareOfOthers(scores, mean, j, k - 1, m0, squares0);
      if k - 1 != j {
        var x := scores[k - 1] - mean;
        SquareSign(x);
        CauchyStep(OthersSum(scores, mean, j, k - 1), x, m0, squares0, OthersSum(scores, mean, j, k), squares);
      }
    }
  }

  lemma CauchyStep(s: real, x: real, m: real, squares: real, s': real, squares': real)
    requires m >= 0.0 && squares >= 0.0 && Square(s) <= m * squares
    requires s' == s + x && squares' == squares + Square(x)
    ensures Square(s') <= (m + 1.0) * squares'
  {
    assert Square(s') == Square(s) + 2.0 * (s * x) + Square(x);
    assert (m + 1.0) * squares' == m * squares + squares + m * Square(x) + Square(x);
    CrossTerm(s, x, m, squares);
  }

  // 2 s x <= q + m x^2 whenever s^2 <= m q.
  lemma CrossTerm(s: real, x: real, m: real, q: real)
    requires m >= 0.0 && q >= 0.0 && Square(s) <= m * q
    ensures 2.0 * (s * x) <= q + m * Square(x)
  {
    var sx, xx := s * x, Square(x);
    if m == 0.0 {
      TimesZero(q, m);
      TimesZero(xx, m);
      SquareSign(s);
      TimesZero(x, s);
      assert m * q == q * m && sx == x * s;
    } else {
      var d := s - m * x;
      SquareSign(d);
      assert Square(d) == Square(s) - 2.0 * (m * sx) + m * (m * xx);
      var gap := q + m * xx - 2.0 * sx;
      assert m * gap == m * q + m * (m * xx) - 2.0 * (m * sx);
      hide Square;
      ProductSign(m, -gap, m * -gap);
      assert m * -gap == -(m * gap);
    }
  }

  // Samuelson's inequality: no score is further from the mean than
  // sqrt(n - 1) standard deviations.
  lemma NoneIsFar(scores: seq<real>, j: nat)
    requires j < |scores|
    ensures Square(scores[j] - Mean(scores)) <= (|scores| as real - 1.0) * Variance(scores)
  {
    var n, mean, variance := |scores| as real, Mean(scores), Variance(scores);
    var d, squares, m := scores[j] - mean, OthersSquares(scores, mean, j, |scores|), (|scores| - 1) as real;
    DeviationsCancel(scores, mean);
    OthersAndOne(scores, mean, j, |scores|);
    SquareOfOthers(scores, mean, j, |scores|, m, squares);
    VarianceTimes(scores, n, variance);
    OppositeSquare(OthersSum(scores, mean, j, |scores|), d);
    hide Square, Variance, Mean, OthersSquares, OthersSum, SumOfDeviations, SquaredDeviations;
    Rearrange(Square(d), squares, n, variance, m);
  }

  lemma OppositeSquare(s: real, d: real)
    requires s + d == 0.0
    ensures Square(s) == Square(d)
  {
    assert s == -d;
  }

  lemma Rearrange(dd: real, squares: real, n: real, variance: real, m: real)
    requires n > 0.0 && m == n - 1.0 && dd <= m * squares && n * variance == squares + dd
    ensures dd <= (n - 1.0) * variance
  {
    var bound := m * variance;
    assert m * squares == m * (n * variance) - m * dd by {
      assert squares == n * variance - dd;
      assert m * (n * variance - dd) == m * (n * variance) - m * dd;
    }
    assert n * dd == m * dd + dd;
    assert m * (n * variance) == n * bound;
    ScaleStrict(bound, dd, n);
  }

  // So with fewer than 1 + zThreshold^2 risks nothing is ever flagged: at
  // the default threshold of 2, fewer than five risks yield no outlier.
  lemma SmallFleetHasNoOutlier(scores: seq<real>, stddev: real, zThreshold: real, j: nat)
    requires j < |scores| && stddev > 0.0 && Square(stddev) == Variance(scores) && zThreshold >= 0.0
    requires |scores| as real < 1.0 + Square(zThreshold)
    ensures !IsOutlier(scores[j], Mean(scores), stddev, zThreshold)
  {
    var variance, t := Variance(scores), Square(zThreshold);
    NoneIsFar(scores, j);
    OutlierInSquares(scores[j], Mean(scores), stddev, zThreshold, t * Square(stddev));
    hide Square, Variance, Mean, IsOutlier;
    SquareSign(stddev);
    SameProduct(t, Square(stddev), variance);
    ScaleStrict(|scores| as real - 1.0, t, variance);
    assert t * variance == variance * t && variance * (|scores| as real - 1.0) == (|scores| as real - 1.0) * variance;
  }

  lemma DefaultThresholdNeedsFive(scores: seq<real>, stddev: real, j: nat)
    requires j < |scores| < 5 && stddev > 0.0 && Square(stddev) == Variance(scores)
    ensures !IsOutlier(scores[j], Mean(scores), stddev, 2.0)
  {
    assert Square(2.0) == 4.0;
    SmallFleetHasNoOutlier(scores, stddev, 2.0, j);
  }

  // Five can: the bound is attained.
  lemma FiveCanHaveAnOutlier()
    ensures var scores := [0.0, 0.0, 0.0, 0.0, 5.0];
      Mean(scores) == 1.0 && Variance(scores) == Square(2.0) && IsOutlier(scores[4], Mean(scores), 2.0, 2.0)
  {
    var scores := [0.0, 0.0, 0.0, 0.0, 5.0];
    assert Sum(scores, 1) == Sum(scores, 2) == Sum(scores, 3) == Sum(scores, 4) == 0.0;
    assert Sum(scores, 5) == 5.0;
    assert SquaredDeviations(scores, 1.0, 1) == 1.0 && SquaredDeviations(scores, 1.0, 2) == 2.0;
    assert SquaredDeviations(scores, 1.0, 3) == 3.0 && SquaredDeviations(scores, 1.0, 4) == 4.0;
    assert SquaredDeviations(scores, 1.0, 5) == 20.0;
    assert Square(2.0) == 4.0;
    assert ZScore(5.0, 1.0, 2.0) == 2.0;
  }
}
