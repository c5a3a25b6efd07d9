/** The selection logic of the Streamlit dashboard (streamlit_dashboard.py):
    the values behind the KPI tiles, the rows of the comparison and trend
    charts and the top and bottom car of the insights. Streamlit and Plotly
    are not modelled; each function yields the data one widget receives. */
module Dashboard {
  import opened Wrappers
  import opened Text
  import opened Numbers
  import opened JsonValues
  import opened DataFiles

  /** Every listed car has a row: `values_data[car]` raises KeyError
      otherwise, and the dashboard never catches it. */
  predicate Rows(values: Matrix, cars: seq<string>) {
    forall c :: c in cars ==> c in values
  }

  // ---------------------------------------------------------------------
  // The list-comprehension filter

  /** `[x for x in xs if keep(x)]`. */
  function Filter<T>(xs: seq<T>, keep: T -> bool): (r: seq<T>)
    ensures |r| <= |xs|
    ensures forall i :: 0 <= i < |r| ==> r[i] in xs && keep(r[i])
    decreases |xs|
  {
    if |xs| == 0 then []
    else
      var init := Filter(xs[..|xs| - 1], keep);
      var last := xs[|xs| - 1];
      assert xs == xs[..|xs| - 1] + [last];
      if keep(last) then init + [last] else init
  }

  /** Every kept element of the input survives the filter. */
  lemma {:induction false} FilterComplete<T>(xs: seq<T>, keep: T -> bool, x: T)
    requires x in xs && keep(x)
    ensures x in Filter(xs, keep)
    decreases |xs|
  {
    var init, last := xs[..|xs| - 1], xs[|xs| - 1];
    assert xs == init + [last];
    if x != last {
      FilterComplete(init, keep, x);
    }
  }

  /** Filtering one more element at the end adds it exactly when kept. */
  lemma FilterSnoc<T>(xs: seq<T>, x: T, keep: T -> bool)
    ensures Filter(xs + [x], keep) == Filter(xs, keep) + (if keep(x) then [x] else [])
  {
    assert (xs + [x])[..|xs|] == xs;
  }

  /** Filtering a concatenation filters the parts and keeps their order. */
  lemma {:induction false} FilterAppend<T>(a: seq<T>, b: seq<T>, keep: T -> bool)
    ensures Filter(a + b, keep) == Filter(a, keep) + Filter(b, keep)
    decreases |b|
  {
    if |b| == 0 {
      assert a + b == a;
    } else {
      var init, last := b[..|b| - 1], b[|b| - 1];
      var front := a + init;
      var tail: seq<T> := if keep(last) then [last] else [];
      FilterAppend(a, init, keep);
      assert b == init + [last];
      assert a + b == front + [last];
      FilterSnoc(front, last, keep);
      FilterSnoc(init, last, keep);
      var fa, fi := Filter(a, keep), Filter(init, keep);
      assert (fa + fi) + tail == fa + (fi + tail);
    }
  }

  /** When every element is kept the filter is the identity. */
  lemma {:induction false} FilterKeepsAll<T>(xs: seq<T>, keep: T -> bool)
    requires forall i :: 0 <= i < |xs| ==> keep(xs[i])
    ensures Filter(xs, keep) == xs
    decreases |xs|
  {
    if |xs| > 0 {
      FilterKeepsAll(xs[..|xs| - 1], keep);
    }
  }

  // ---------------------------------------------------------------------
  // create_performance_metrics

  /** Whether the car's row holds the KPI (`kpi in values_data[car]`). */
  function HasKpi(values: Matrix, kpi: string): string -> bool {
    c => c in values && kpi in values[c]
  }

  /** The cars whose row holds the KPI, in car-list order. */
  function CarsWith(values: Matrix, cars: seq<string>, kpi: string): seq<string> {
    Filter(cars, HasKpi(values, kpi))
  }

  /** `[values_data[car][kpi] for car in cars if kpi in values_data[car]]`:
      a missing KPI is left out, not read as 0. */
  function MetricValues(values: Matrix, cars: seq<string>, kpi: string): (xs: seq<real>)
    requires Rows(values, cars)
    ensures |xs| == |CarsWith(values, cars, kpi)|
    ensures forall i :: 0 <= i < |xs| ==>
              CarsWith(values, cars, kpi)[i] in cars
              && xs[i] == values[CarsWith(values, cars, kpi)[i]][kpi]
  {
    var with := CarsWith(values, cars, kpi);
    seq(|with|, i requires 0 <= i < |with| => values[with[i]][kpi])
  }

  /** One KPI tile: the mean of the present values and, as its delta, how far
      the best value lies above that mean. */
  datatype Tile = Tile(mean: real, delta: real)

  /** The tile of a non-empty list of values: `avg_value` and
      `max(values) - avg_value`. The mean lies between the extremes, so the
      delta is never negative. */
  function TileOf(xs: seq<real>): (t: Tile)
    requires |xs| > 0
    ensures t.mean == Mean(xs)
    ensures t.mean + t.delta == Max(xs)
    ensures Min(xs) <= t.mean && t.delta >= 0.0
  {
    var mean, best := Mean(xs), Max(xs);
    MeanWithinRange(xs);
    Tile(mean, best - mean)
  }

  /** The tile of one KPI, shown only when some value is present. */
  function MetricTile(values: Matrix, cars: seq<string>, kpi: string): (t: Option<Tile>)
    requires Rows(values, cars)
  {
    var xs := MetricValues(values, cars, kpi);
    if |xs| == 0 then None else Some(TileOf(xs))
  }

  /** A tile is shown exactly when some car holds the KPI, and it is the
      tile of the present values. */
  lemma TileIffSomeCarHolds(values: Matrix, cars: seq<string>, kpi: string)
    requires Rows(values, cars)
    ensures MetricTile(values, cars, kpi).Some? <==> exists c :: c in cars && kpi in values[c]
    ensures MetricTile(values, cars, kpi).Some? ==>
              MetricTile(values, cars, kpi).value == TileOf(MetricValues(values, cars, kpi))
  {
    var with := CarsWith(values, cars, kpi);
    if |with| > 0 {
      assert with[0] in cars && kpi in values[with[0]];
    }
    forall c | c in cars && kpi in values[c]
      ensures |with| > 0
    {
      FilterComplete(cars, HasKpi(values, kpi), c);
    }
  }

  // ---------------------------------------------------------------------
  // create_comparison_chart

  datatype Bar = Bar(car: string, value: real)

  /** The comparison chart's rows: each car holding the KPI, with its value,
      in car-list order. */
  function Comparison(values: Matrix, cars: seq<string>, kpi: string): (bars: seq<Bar>)
    requires Rows(values, cars)
    ensures |bars| == |CarsWith(values, cars, kpi)|
    ensures forall i :: 0 <= i < |bars| ==> bars[i].car == CarsWith(values, cars, kpi)[i]
  {
    var with := CarsWith(values, cars, kpi);
    seq(|with|, i requires 0 <= i < |with| => Bar(with[i], values[with[i]][kpi]))
  }

  /** The chart and the tile see the same numbers: the bars' values are the
      tile's values, in the same order. */
  lemma ComparisonMatchesTile(values: Matrix, cars: seq<string>, kpi: string)
    requires Rows(values, cars)
    ensures |Comparison(values, cars, kpi)| == |MetricValues(values, cars, kpi)|
    ensures forall i :: 0 <= i < |Comparison(values, cars, kpi)| ==>
              Comparison(values, cars, kpi)[i].value == MetricValues(values, cars, kpi)[i]
  {
  }

  /** With every car holding the KPI, the chart shows every car in order. */
  lemma ComparisonOfFullColumn(values: Matrix, cars: seq<string>, kpi: string)
    requires forall c :: c in cars ==> c in values && kpi in values[c]
    ensures CarsWith(values, cars, kpi) == cars
    ensures |Comparison(values, cars, kpi)| == |cars|
  {
    FilterKeepsAll(cars, HasKpi(values, kpi));
  }

  // ---------------------------------------------------------------------
  // create_trend_analysis

  /** One line of the trend chart: the years on x and the car's series on y,
      both as stored in the historical file. */
  datatype Trace = Trace(car: string, years: Json, series: Json)

  const YearsKey := "years"
  const HistoryCarsKey := "cars"

  /** The shape the trend code relies on: under "cars", an object of
      objects. Anything else makes `car in ...` or the lookup raise. */
  predicate HistoryShaped(h: map<string, Json>) {
    HistoryCarsKey in h ==>
      && h[HistoryCarsKey].JObj?
      && forall c :: c in h[HistoryCarsKey].fields ==> h[HistoryCarsKey].fields[c].JObj?
  }

  /** Whether the historical file has a series of the KPI for the car. */
  function HasSeries(h: map<string, Json>, kpi: string): string -> bool
    requires HistoryShaped(h)
  {
    c => HistoryCarsKey in h && c in h[HistoryCarsKey].fields
         && kpi in h[HistoryCarsKey].fields[c].fields
  }

  /** The trend section: shown only when the historical file was read, is not
      empty and has both keys; then one line per listed car that has a series
      of the KPI, in car-list order. */
  function Trend(history: Option<map<string, Json>>, cars: seq<string>, kpi: string): (r: Option<seq<Trace>>)
    requires history.Some? ==> HistoryShaped(history.value)
    ensures r.Some? <==>
              history.Some? && |history.value| > 0
              && YearsKey in history.value && HistoryCarsKey in history.value
    ensures r.Some? ==>
              var shown := Filter(cars, HasSeries(history.value, kpi));
              && |r.value| == |shown|
              && forall i :: 0 <= i < |r.value| ==>
                   && r.value[i].car == shown[i]
                   && r.value[i].years == history.value[YearsKey]
                   && shown[i] in history.value[HistoryCarsKey].fields
                   && kpi in history.value[HistoryCarsKey].fields[shown[i]].fields
                   && r.value[i].series == history.value[HistoryCarsKey].fields[shown[i]].fields[kpi]
  {
    if history.None? || |history.value| == 0
       || YearsKey !in history.value || HistoryCarsKey !in history.value then None
    else
      var h := history.value;
      var shown := Filter(cars, HasSeries(h, kpi));
      Some(seq(|shown|, i requires 0 <= i < |shown| =>
        Trace(shown[i], h[YearsKey], h[HistoryCarsKey].fields[shown[i]].fields[kpi])))
  }

  // ---------------------------------------------------------------------
  // Key insights

  /** `values_data[car].get(kpi, 0)`, the key of `max` and `min`. */
  function Score(values: Matrix, car: string, kpi: string): real
    requires car in values
  {
    ValueOrZero(values, car, kpi)
  }

  /** `max(cars, key=...)` returns the first car with the greatest key. */
  predicate IsFirstMax(values: Matrix, cars: seq<string>, kpi: string, i: nat)
    requires Rows(values, cars)
  {
    && i < |cars|
    && (forall j :: 0 <= j < |cars| ==> Score(values, cars[j], kpi) <= Score(values, cars[i], kpi))
    && (forall j :: 0 <= j < i ==> Score(values, cars[j], kpi) < Score(values, cars[i], kpi))
  }

  /** `min(cars, key=...)` returns the first car with the least key. */
  predicate IsFirstMin(values: Matrix, cars: seq<string>, kpi: string, i: nat)
    requires Rows(values, cars)
  {
    && i < |cars|
    && (forall j :: 0 <= j < |cars| ==> Score(values, cars[i], kpi) <= Score(values, cars[j], kpi))
    && (forall j :: 0 <= j < i ==> Score(values, cars[i], kpi) < Score(values, cars[j], kpi))
  }

  /** At most one position is the first maximiser. */
  lemma FirstMaxUnique(values: Matrix, cars: seq<string>, kpi: string, i: nat, j: nat)
    requires Rows(values, cars)
    requires IsFirstMax(values, cars, kpi, i) && IsFirstMax(values, cars, kpi, j)
    ensures i == j
  {
    var si, sj := Score(values, cars[i], kpi), Score(values, cars[j], kpi);
  }

  /** At most one position is the first minimiser. */
  lemma FirstMinUnique(values: Matrix, cars: seq<string>, kpi: string, i: nat, j: nat)
    requires Rows(values, cars)
    requires IsFirstMin(values, cars, kpi, i) && IsFirstMin(values, cars, kpi, j)
    ensures i == j
  {
    var si, sj := Score(values, cars[i], kpi), Score(values, cars[j], kpi);
  }

  /** Python's `max` scan: a later car replaces the current best only when
      its key is strictly greater. */
  method TopIndex(values: Matrix, cars: seq<string>, kpi: string) returns (best: nat)
    requires Rows(values, cars) && |cars| > 0
    ensures IsFirstMax(values, cars, kpi, best)
  {
    best := 0;
    var i := 1;
    while i < |cars|
      invariant 1 <= i <= |cars| && best < i
      invariant forall j :: 0 <= j < i ==> Score(values, cars[j], kpi) <= Score(values, cars[best], kpi)
      invariant forall j :: 0 <= j < best ==> Score(values, cars[j], kpi) < Score(values, cars[best], kpi)
    {
      if Score(values, cars[i], kpi) > Score(values, cars[best], kpi) {
        best := i;
      }
      i := i + 1;
    }
  }

  /** Python's `min` scan: a later car replaces the current worst only when
      its key is strictly smaller. */
  method BottomIndex(values: Matrix, cars: seq<string>, kpi: string) returns (worst: nat)
    requires Rows(values, cars) && |cars| > 0
    ensures IsFirstMin(values, cars, kpi, worst)
  {
    worst := 0;
    var i := 1;
    while i < |cars|
      invariant 1 <= i <= |cars| && worst < i
      invariant forall j :: 0 <= j < i ==> Score(values, cars[worst], kpi) <= Score(values, cars[j], kpi)
      invariant forall j :: 0 <= j < worst ==> Score(values, cars[worst], kpi) < Score(values, cars[j], kpi)
    {
      if Score(values, cars[i], kpi) < Score(values, cars[worst], kpi) {
        worst := i;
      }
      i := i + 1;
    }
  }

  /** One line of the insights: the KPI, the chosen car and its value. */
  datatype Insight = Insight(kpi: string, car: string, value: real)

  /** The KPIs the insights cover: `kpis[:3]`. */
  function InsightKpis(kpis: seq<string>): (r: seq<string>)
    ensures |r| == if |kpis| < 3 then |kpis| else 3
    ensures forall i :: 0 <= i < |r| ==> r[i] == kpis[i]
  {
    Take(kpis, 3)
  }

  /** Car i is the one picked for the KPI: the first maximiser for the top
      performers, the first minimiser otherwise. */
  predicate IsChosen(values: Matrix, cars: seq<string>, kpi: string, i: nat, top: bool)
    requires Rows(values, cars)
  {
    if top then IsFirstMax(values, cars, kpi, i) else IsFirstMin(values, cars, kpi, i)
  }

  /** Whether the car picked for every covered KPI holds that KPI. */
  ghost predicate ChosenHold(values: Matrix, cars: seq<string>, kpis: seq<string>, top: bool)
    requires Rows(values, cars)
  {
    forall k, i :: k in kpis && 0 <= i < |cars| && IsChosen(values, cars, k, i, top) ==> k in values[cars[i]]
  }

  /** Line j of an insights column names KPI j, its picked car and the value
      that car holds. */
  ghost predicate PickedLine(values: Matrix, cars: seq<string>, kpis: seq<string>, lines: seq<Insight>, j: nat, top: bool)
    requires Rows(values, cars)
    requires j < |lines| && j < |kpis|
  {
    && lines[j].kpi == kpis[j]
    && exists i :: 0 <= i < |cars| && IsChosen(values, cars, kpis[j], i, top)
                   && lines[j].car == cars[i]
                   && kpis[j] in values[cars[i]]
                   && lines[j].value == values[cars[i]][kpis[j]]
  }

  /** One insights column for the first three KPIs: the top (or bottom) car
      of each and its value. `max`/`min` of an empty car list raise
      ValueError and a picked car without the KPI raises KeyError. */
  method Picks(values: Matrix, cars: seq<string>, kpis: seq<string>, top: bool)
    returns (r: Result<seq<Insight>>)
    requires Rows(values, cars)
    ensures r.Success? <==>
              |InsightKpis(kpis)| == 0 || (|cars| > 0 && ChosenHold(values, cars, InsightKpis(kpis), top))
    ensures r.Success? ==> |r.value| == |InsightKpis(kpis)|
    ensures r.Success? ==> forall j :: 0 <= j < |r.value| ==> PickedLine(values, cars, kpis, r.value, j, top)
  {
    var shown := InsightKpis(kpis);
    if |shown| == 0 {
      return Success([]);
    }
    if |cars| == 0 {
      return Failure("ValueError");
    }
    var lines: seq<Insight> := [];
    var j := 0;
    while j < |shown|
      invariant 0 <= j <= |shown| && |lines| == j
      invariant ChosenHold(values, cars, shown[..j], top)
      invariant forall m :: 0 <= m < j ==> PickedLine(values, cars, kpis, lines, m, top)
    {
      var k := shown[j];
      var i;
      if top {
        i := TopIndex(values, cars, k);
      } else {
        i := BottomIndex(values, cars, k);
      }
      assert IsChosen(values, cars, k, i, top);
      if k !in values[cars[i]] {
        assert k in shown;
        return Failure("KeyError");
      }
      forall i' | 0 <= i' < |cars| && IsChosen(values, cars, k, i', top)
        ensures k in values[cars[i']]
      {
        if top {
          FirstMaxUnique(values, cars, k, i, i');
        } else {
          FirstMinUnique(values, cars, k, i, i');
        }
      }
      assert shown[..j + 1] == shown[..j] + [k];
      var line := Insight(k, cars[i], values[cars[i]][k]);
      assert PickedLine(values, cars, kpis, lines + [line], j, top);
      forall m | 0 <= m < j
        ensures PickedLine(values, cars, kpis, lines + [line], m, top)
      {
        assert PickedLine(values, cars, kpis, lines, m, top);
        assert (lines + [line])[m] == lines[m];
      }
      lines := lines + [line];
      j := j + 1;
    }
    assert shown[..j] == shown;
    return Success(lines);
  }

  /** The insights section: first the "Top Performers" column, then the
      "Areas for Improvement" column; the first exception stops it. */
  method Insights(values: Matrix, cars: seq<string>, kpis: seq<string>)
    returns (r: Result<(seq<Insight>, seq<Insight>)>)
    requires Rows(values, cars)
    ensures r.Success? <==>
              |InsightKpis(kpis)| == 0
              || (|cars| > 0 && ChosenHold(values, cars, InsightKpis(kpis), true)
                             && ChosenHold(values, cars, InsightKpis(kpis), false))
    ensures r.Success? ==> |r.value.0| == |r.value.1| == |InsightKpis(kpis)|
    ensures r.Success? ==> forall j :: 0 <= j < |r.value.0| ==>
              PickedLine(values, cars, kpis, r.value.0, j, true)
              && PickedLine(values, cars, kpis, r.value.1, j, false)
  {
    var tops := Picks(values, cars, kpis, true);
    if tops.Failure? {
      return Failure(tops.reason);
    }
    var bottoms := Picks(values, cars, kpis, false);
    if bottoms.Failure? {
      return Failure(bottoms.reason);
    }
    return Success((tops.value, bottoms.value));
  }
}
