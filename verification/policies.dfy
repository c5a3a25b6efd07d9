/** How the three programs' averages relate. The collector stores the mean of
    complete columns, the report counts a missing value as 0 and divides by
    every car, and the dashboard leaves a missing value out and divides by
    the cars that have one. On a complete column the three agree; with gaps
    the report's figure is never above the dashboard's for non-negative
    values. */
module Policies {
  import opened Numbers
  import opened DataFiles
  import opened Exporter
  import opened Dashboard
  import KpiMatrix

  /** Reading a missing value as 0 adds nothing: the report's column and the
      dashboard's present values have the same sum. */
  lemma {:induction false} SumsAgree(values: Matrix, cars: seq<string>, kpi: string)
    requires Rows(values, cars)
    ensures Sum(KpiValues(values, cars, kpi)) == Sum(MetricValues(values, cars, kpi))
    decreases |cars|
  {
    if |cars| > 0 {
      var init, last := cars[..|cars| - 1], cars[|cars| - 1];
      assert cars == init + [last];
      SumsAgree(values, init, kpi);
      var kv, kvInit := KpiValues(values, cars, kpi), KpiValues(values, init, kpi);
      assert kv[..|kv| - 1] == kvInit;
      assert Sum(kv) == Sum(kvInit) + ValueOrZero(values, last, kpi);
      var mv, mvInit := MetricValues(values, cars, kpi), MetricValues(values, init, kpi);
      var with, withInit := CarsWith(values, cars, kpi), CarsWith(values, init, kpi);
      if kpi in values[last] {
        assert with == withInit + [last];
        assert mv[..|mv| - 1] == mvInit;
        assert mv[|mv| - 1] == values[last][kpi];
      } else {
        assert with == withInit;
        assert mv == mvInit;
      }
    }
  }

  /** Dividing the same non-negative sum by more cars gives no more. */
  lemma MoreCarsSmallerMean(s: real, n: real, m: real)
    requires 0.0 <= s && 0.0 < m <= n
    ensures s / n <= s / m
  {
    assert s / n * n == s && s / m * m == s;
    assert s / n * m <= s / n * n;
  }

  /** With non-negative values, the report's average (before rounding) never
      exceeds the dashboard tile's mean: gaps count as 0 there but are skipped
      here. */
  lemma ExportMeanAtMostTile(values: Matrix, cars: seq<string>, kpi: string)
    requires Rows(values, cars)
    requires forall c :: c in cars && kpi in values[c] ==> 0.0 <= values[c][kpi]
    requires MetricTile(values, cars, kpi).Some?
    ensures |cars| > 0
    ensures Mean(KpiValues(values, cars, kpi)) <= MetricTile(values, cars, kpi).value.mean
  {
    var kv, mv := KpiValues(values, cars, kpi), MetricValues(values, cars, kpi);
    assert |mv| <= |cars|;
    SumsAgree(values, cars, kpi);
    SumNonNegative(mv);
    MoreCarsSmallerMean(Sum(mv), |kv| as real, |mv| as real);
  }

  /** When every car holds the KPI, the report's column, the dashboard's
      values and the collector's column are one sequence, so the report's
      unrounded average, the tile's mean and the collector's Average cell
      coincide. */
  lemma CompleteColumnAgrees(values: Matrix, cars: seq<string>, kpi: string)
    requires forall c :: c in cars ==> c in values && kpi in values[c]
    requires |cars| > 0
    ensures KpiValues(values, cars, kpi) == MetricValues(values, cars, kpi)
    ensures MetricTile(values, cars, kpi).Some?
    ensures MetricTile(values, cars, kpi).value.mean == Mean(KpiValues(values, cars, kpi))
    ensures KpiMatrix.ColumnAverage(values, cars, kpi) == Mean(KpiValues(values, cars, kpi))
  {
    var kv, mv := KpiValues(values, cars, kpi), MetricValues(values, cars, kpi);
    ComparisonOfFullColumn(values, cars, kpi);
    assert kv == mv;
    assert KpiMatrix.Column(values, cars, kpi) == kv;
    assert MetricTile(values, cars, kpi).value == TileOf(mv);
  }

  /** The report re-derives the collector's Average row: on a values file the
      collector wrote, the report's average of a KPI is within half a cent of
      the stored one. */
  lemma ReportMatchesStoredAverage(out: Matrix, cell: KpiMatrix.CellSource, cars: seq<string>, kpis: seq<string>, kpi: string)
    requires KpiMatrix.ValuesFile(out, cell, cars, kpis)
    requires kpi in kpis && |cars| > 0
    ensures forall c :: c in cars ==> c in out
    ensures kpi in Averages(cars, kpis, out) && kpi in out[AverageKey]
    ensures Averages(cars, kpis, out)[kpi] - 0.005 <= out[AverageKey][kpi] <= Averages(cars, kpis, out)[kpi] + 0.005
  {
    var kv := KpiValues(out, cars, kpi);
    assert kv == KpiMatrix.Column(out, cars, kpi);
    var stored := out[AverageKey][kpi];
    assert stored * |cars| as real == Sum(kv);
    DivideBounds(|cars| as real, stored, Sum(kv), stored);
  }
}
