/** Steps 2 and 3 of the collector script (DataSnatcherICEEV.py): filling
    the car x KPI matrix one reply per cell and appending the "Average" row.
    The chat-completion API is a parameter: the decoded reply to each
    cell's prompt. */
module KpiMatrix {
  import opened Wrappers
  import opened Text
  import opened Numbers
  import opened JsonValues
  import opened Extraction
  import opened DataFiles

  const CostKpi := "Cost Over Ownership"

  // ---------------------------------------------------------------------
  // Step 2: one query per cell.

  /** The prompt sent for one cell; the cost KPI asks for thousands of
      dollars, every other KPI is named in the prompt. Every prompt names
      its car. */
  function Prompt(car: string, kpi: string): (p: string)
    ensures Contains(p, car)
    ensures kpi != CostKpi ==> Contains(p, kpi)
  {
    if kpi == CostKpi then
      Around("Provide the 5-year total cost of ownership in thousands of dollars for the ", car,
             " in the US for 2024 as a single integer value (e.g., 25 for $25,000, no units, no text, just the number).")
    else
      Around2("Provide the ", kpi, " for the ", car,
              " in the US for 2024 as a single integer value (no units, no text, just the number).")
  }

  /** `head + x + tail`, which contains `x`. */
  function Around(head: string, x: string, tail: string): (p: string)
    ensures Contains(p, x)
  {
    ContainsMiddle(head, x, tail);
    head + x + tail
  }

  /** `head + x + mid + y + tail`, which contains `x` and `y`. */
  function Around2(head: string, x: string, mid: string, y: string, tail: string): (p: string)
    ensures Contains(p, x) && Contains(p, y)
  {
    ContainsMiddle(head + x + mid, y, tail);
    ContainsMiddle(head, x, mid + y + tail);
    assert head + x + mid + y + tail == head + x + (mid + y + tail);
    head + x + mid + y + tail
  }

  /** A text contains each of its pieces. */
  lemma {:induction false} ContainsMiddle(a: string, t: string, b: string)
    ensures Contains(a + t + b, t)
  {
    if |a| > 0 {
      ContainsMiddle(a[1..], t, b);
      assert (a + t + b)[1..] == a[1..] + t + b;
    } else {
      assert a + t + b == t + b;
    }
  }

  /** The API as the fill loop meets it: `reply(i, j, p)` is the decoded
      response to the query for the car at position `i` and the KPI at
      position `j` of the lists, whose prompt text is `p`. A car or KPI
      listed twice is queried once per occurrence, and the replies need not
      agree. */
  type Replies = (nat, nat, string) -> Option<Json>

  /** The response to one query: the reply to its prompt. */
  function Response(reply: Replies, i: nat, j: nat, car: string, kpi: string): Option<Json> {
    reply(i, j, Prompt(car, kpi))
  }

  /** The value stored for one query: `extract_content` of the reply to
      that query's prompt. */
  function CellValue(reply: Replies, i: nat, j: nat, car: string, kpi: string): (r: Result<real>)
    ensures r.Success? <==> ExtractContent(Response(reply, i, j, car, kpi)).Success?
    ensures r.Success? ==> r.value == ExtractContent(Response(reply, i, j, car, kpi)).value.Value() && r.value >= 0.0
  {
    match ExtractContent(Response(reply, i, j, car, kpi))
    case Success(n) => Success(n.Value())
    case Failure(e) => Failure(e)
  }

  /** The reply source as the fill loop sees it: one outcome per query,
      given by the positions of the car and the KPI and their names. */
  type CellSource = (nat, nat, string, string) -> Result<real>

  /** The cells as the API's replies fill them. */
  function Cells(reply: Replies): (cell: CellSource)
    ensures forall i, j, car, kpi :: cell(i, j, car, kpi) == CellValue(reply, i, j, car, kpi)
  {
    (i: nat, j: nat, car: string, kpi: string) => CellValue(reply, i, j, car, kpi)
  }

  /** Every query of the first `n` cars can be read. */
  predicate RowsAnswer(cell: CellSource, cars: seq<string>, kpis: seq<string>, n: nat)
    requires n <= |cars|
  {
    forall i, j :: 0 <= i < n && 0 <= j < |kpis| ==> cell(i, j, cars[i], kpis[j]).Success?
  }

  /** Every query of the run can be read. */
  predicate AllCellsAnswer(cell: CellSource, cars: seq<string>, kpis: seq<string>) {
    RowsAnswer(cell, cars, kpis, |cars|)
  }

  /** Every car of `cars` has a row holding every KPI of `kpis`, with the
      value the reply to that pair's LAST query gave: a repeated car's row
      is rebuilt by its last round, and a repeated KPI's value is
      overwritten within the row. */
  predicate Filled(m: Matrix, cell: CellSource, cars: seq<string>, kpis: seq<string>) {
    forall c, k :: c in cars && k in kpis ==>
      c in m && k in m[c] && cell(LastIndex(cars, c), LastIndex(kpis, k), c, k) == Success(m[c][k])
  }

  /** One row: every KPI of `kpis` queried in order for the car at
      position `i`. */
  method FillRow(i: nat, car: string, kpis: seq<string>, cell: CellSource)
    returns (r: Result<map<string, real>>)
    ensures r.Success? <==> forall j :: 0 <= j < |kpis| ==> cell(i, j, car, kpis[j]).Success?
    ensures r.Success? ==> r.value.Keys == set k | k in kpis
    ensures r.Success? ==> forall k :: k in kpis ==> cell(i, LastIndex(kpis, k), car, k) == Success(r.value[k])
  {
    var row: map<string, real> := map[];
    var j := 0;
    while j < |kpis|
      invariant 0 <= j <= |kpis|
      invariant forall jj :: 0 <= jj < j ==> cell(i, jj, car, kpis[jj]).Success?
      invariant row.Keys == set k | k in kpis[..j]
      invariant forall k :: k in kpis[..j] ==> cell(i, LastIndex(kpis[..j], k), car, k) == Success(row[k])
    {
      var v := cell(i, j, car, kpis[j]);
      if v.Failure? {
        return Failure(v.reason);
      }
      var before := row;
      row := row[kpis[j] := v.value];
      assert kpis[..j + 1] == kpis[..j] + [kpis[j]];
      forall k | k in kpis[..j + 1]
        ensures cell(i, LastIndex(kpis[..j + 1], k), car, k) == Success(row[k])
      {
        LastIndexSnoc(kpis[..j], kpis[j], k);
      }
      j := j + 1;
    }
    assert kpis[..j] == kpis;
    return Success(row);
  }

  /** The fill loop: one row per car position, the row of a later duplicate
      replacing the earlier one. The first reply whose body cannot be read
      stops the run. */
  method FillMatrix(cars: seq<string>, kpis: seq<string>, cell: CellSource)
    returns (r: Result<Matrix>)
    ensures r.Success? <==> AllCellsAnswer(cell, cars, kpis)
    ensures r.Success? ==> r.value.Keys == set c | c in cars
    ensures r.Success? ==> Filled(r.value, cell, cars, kpis)
    ensures r.Success? ==> forall c :: c in cars ==> r.value[c].Keys == set k | k in kpis
  {
    var m: Matrix := map[];
    var i := 0;
    while i < |cars|
      invariant 0 <= i <= |cars|
      invariant RowsAnswer(cell, cars, kpis, i)
      invariant m.Keys == set c | c in cars[..i]
      invariant Filled(m, cell, cars[..i], kpis)
      invariant forall c :: c in cars[..i] ==> m[c].Keys == set k | k in kpis
    {
      var row := FillRow(i, cars[i], kpis, cell);
      if row.Failure? {
        return Failure(row.reason);
      }
      m := m[cars[i] := row.value];
      assert cars[..i + 1] == cars[..i] + [cars[i]];
      forall c, k | c in cars[..i + 1] && k in kpis
        ensures c in m && k in m[c]
        ensures cell(LastIndex(cars[..i + 1], c), LastIndex(kpis, k), c, k) == Success(m[c][k])
      {
        LastIndexSnoc(cars[..i], cars[i], c);
      }
      i := i + 1;
    }
    assert cars[..i] == cars;
    return Success(m);
  }

  /** The last query of a pair decides its cell: when the car at position
      `i` and the KPI at position `j` do not occur again later in their
      lists, the filled matrix holds exactly that query's value. */
  lemma LastQueryWins(m: Matrix, cell: CellSource, cars: seq<string>, kpis: seq<string>, i: nat, j: nat)
    requires Filled(m, cell, cars, kpis)
    requires i < |cars| && j < |kpis|
    requires cars[i] !in cars[i + 1..] && kpis[j] !in kpis[j + 1..]
    ensures cars[i] in m && kpis[j] in m[cars[i]]
    ensures cell(i, j, cars[i], kpis[j]) == Success(m[cars[i]][kpis[j]])
  {
    LastIndexOfLast(cars, i);
    LastIndexOfLast(kpis, j);
  }

  /** A car listed twice keeps the values of its second round of queries,
      whatever its first round gave. */
  lemma RepeatedCarKeepsSecondRound(m: Matrix, cell: CellSource, car: string, kpi: string)
    requires Filled(m, cell, [car, car], [kpi])
    ensures car in m && kpi in m[car]
    ensures cell(1, 0, car, kpi) == Success(m[car][kpi])
  {
    LastQueryWins(m, cell, [car, car], [kpi], 1, 0);
  }

  // ---------------------------------------------------------------------
  // Step 3: the Average row.

  /** The values of one KPI over the car list, in car-list order and with
      duplicates repeated. The `is not None` filter of the source never
      drops anything: every cell holds a number. */
  function Column(m: Matrix, cars: seq<string>, kpi: string): (col: seq<real>)
    requires forall c :: c in cars ==> c in m && kpi in m[c]
    ensures |col| == |cars|
    ensures forall i :: 0 <= i < |cars| ==> col[i] == m[cars[i]][kpi]
  {
    seq(|cars|, i requires 0 <= i < |cars| => m[cars[i]][kpi])
  }

  /** `statistics.mean(values) if values else 0`. */
  function ColumnAverage(m: Matrix, cars: seq<string>, kpi: string): (avg: real)
    requires forall c :: c in cars ==> c in m && kpi in m[c]
    ensures |cars| == 0 ==> avg == 0.0
    ensures |cars| > 0 ==> avg * |cars| as real == Sum(Column(m, cars, kpi))
  {
    if |cars| == 0 then 0.0 else Mean(Column(m, cars, kpi))
  }

  /** Step 3: `car_kpi_data["Average"] = {}` and then one mean per KPI.
      A car named "Average" has its row emptied by that first assignment,
      so its own lookup raises KeyError as soon as there is a KPI. */
  function AddAverageRow(m: Matrix, cars: seq<string>, kpis: seq<string>): (r: Result<Matrix>)
    requires forall c, k :: c in cars && k in kpis ==> c in m && k in m[c]
    ensures r.Failure? <==> AverageKey in cars && |kpis| > 0
    ensures r.Success? ==> r.value.Keys == m.Keys + {AverageKey}
    ensures r.Success? ==> forall c :: c in m && c != AverageKey ==> r.value[c] == m[c]
    ensures r.Success? ==> r.value[AverageKey].Keys == set k | k in kpis
    ensures r.Success? ==> forall k :: k in kpis ==>
              r.value[AverageKey][k] == ColumnAverage(m, cars, k)
  {
    if AverageKey in cars && |kpis| > 0 then Failure("KeyError")
    else
      var row := map k | k in kpis :: ColumnAverage(m, cars, k);
      Success(m[AverageKey := row])
  }

  /** In the matrix `out` with the Average row, the KPI's average times
      the number of cars is the sum of that KPI's column over the cars: the
      appended row leaves the cars' own rows as they were. */
  lemma AverageRowHoldsMean(m: Matrix, cars: seq<string>, kpis: seq<string>, out: Matrix, kpi: string)
    requires forall c, k :: c in cars && k in kpis ==> c in m && k in m[c]
    requires AddAverageRow(m, cars, kpis) == Success(out)
    requires kpi in kpis
    ensures forall c :: c in cars ==> c in out && kpi in out[c]
    ensures AverageKey in out && kpi in out[AverageKey]
    ensures out[AverageKey][kpi] * |cars| as real == Sum(Column(out, cars, kpi))
  {
    assert forall c :: c in cars ==> c in out && out[c] == m[c];
    ColumnUnchanged(m, out, cars, kpi);
    if |cars| == 0 {
      assert Column(m, cars, kpi) == [];
    }
  }

  /** A column read from a matrix whose rows for the cars are unchanged is
      unchanged. */
  lemma ColumnUnchanged(m: Matrix, out: Matrix, cars: seq<string>, kpi: string)
    requires forall c :: c in cars ==> c in m && kpi in m[c] && c in out && out[c] == m[c]
    ensures Column(out, cars, kpi) == Column(m, cars, kpi)
  {
  }

  /** Every average lies between the smallest and the largest value of its
      column. */
  lemma AverageWithinColumn(m: Matrix, cars: seq<string>, kpi: string)
    requires forall c :: c in cars ==> c in m && kpi in m[c]
    requires |cars| > 0
    ensures Min(Column(m, cars, kpi)) <= ColumnAverage(m, cars, kpi) <= Max(Column(m, cars, kpi))
  {
    MeanWithinRange(Column(m, cars, kpi));
  }

  /** The values file a run writes: every car has every KPI with the value
      its reply gave, and the Average row holds each KPI's column mean. */
  predicate ValuesFile(out: Matrix, cell: CellSource, cars: seq<string>, kpis: seq<string>) {
    && AverageKey in out
    && (forall c, k :: c in cars && k in kpis ==>
          c in out && k in out[c] && cell(LastIndex(cars, c), LastIndex(kpis, k), c, k) == Success(out[c][k]))
    && (forall k :: k in kpis ==>
          && k in out[AverageKey]
          && (forall c :: c in cars ==> c in out && k in out[c])
          && out[AverageKey][k] * |cars| as real == Sum(Column(out, cars, k)))
  }

  /** Whether a run with these cars and KPIs gets past steps 2 and 3: every
      reply can be read and no car is named "Average" (unless there is no
      KPI). */
  predicate Tabulates(cell: CellSource, cars: seq<string>, kpis: seq<string>) {
    AllCellsAnswer(cell, cars, kpis) && !(AverageKey in cars && |kpis| > 0)
  }

  /** A filled matrix with the Average row appended is a values file. */
  lemma AveragedIsValuesFile(m: Matrix, cell: CellSource, cars: seq<string>, kpis: seq<string>, out: Matrix)
    requires Filled(m, cell, cars, kpis)
    requires AddAverageRow(m, cars, kpis) == Success(out)
    ensures ValuesFile(out, cell, cars, kpis)
  {
    forall k | k in kpis
      ensures && k in out[AverageKey]
              && (forall c :: c in cars ==> c in out && k in out[c])
              && out[AverageKey][k] * |cars| as real == Sum(Column(out, cars, k))
    {
      AverageRowHoldsMean(m, cars, kpis, out, k);
    }
    forall c, k | c in cars && k in kpis
      ensures c in out && k in out[c] && cell(LastIndex(cars, c), LastIndex(kpis, k), c, k) == Success(out[c][k])
    {
      assert out[c] == m[c];
    }
  }

  /** Steps 2 and 3 together: the run gets past them exactly when
      `Tabulates` holds, and then it holds the values file. */
  method Tabulate(cars: seq<string>, kpis: seq<string>, cell: CellSource) returns (r: Result<Matrix>)
    ensures r.Success? <==> Tabulates(cell, cars, kpis)
    ensures r.Success? ==> ValuesFile(r.value, cell, cars, kpis)
  {
    var filled := FillMatrix(cars, kpis, cell);
    if filled.Failure? {
      return Failure(filled.reason);
    }
    var withAverage := AddAverageRow(filled.value, cars, kpis);
    if withAverage.Failure? {
      return Failure(withAverage.reason);
    }
    AveragedIsValuesFile(filled.value, cell, cars, kpis, withAverage.value);
    return Success(withAverage.value);
  }
}
