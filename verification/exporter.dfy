/** The data steps of the report script (toExcel.py): validating the two
    decoded files, the per-KPI averages and the table of the main sheet.
    The pandas DataFrame is modelled as the ordered sequence of its named
    columns. */
module Exporter {
  import opened Wrappers
  import opened Text
  import opened Numbers
  import opened JsonValues
  import opened DataFiles

  // ---------------------------------------------------------------------
  // validate_json_data

  /** Why validation returned False. */
  datatype Problem =
    | MissingKeys            // a catalog key is absent
    | BadKpiList             // the KPI entry is not a non-empty list
    | BadCarList             // the car entry is not a non-empty list
    | MissingCar(car: Json)  // a listed car has no row in the values file

  datatype Validation =
    | Valid
    | Invalid(problem: Problem)
    | Raised  // a `TypeError` escapes: an `in` test on a value that does not support it

  /** `car in values_data`: the values file's keys are strings, so only a
      string can name a row. */
  predicate HasRow(values: Matrix, car: Json) {
    car.JStr? && car.s in values
  }

  /** `isinstance(x, list) and x`. */
  predicate NonEmptyList(j: Json) {
    j.JArr? && |j.items| > 0
  }

  predicate AllHashable(xs: seq<Json>) {
    forall i :: 0 <= i < |xs| ==> Hashable(xs[i])
  }

  /** What the validator accepts: both keys, two non-empty lists, a row for
      every listed car and KPIs that can be looked up in a row. Whether a
      row holds the KPIs does not matter: a missing one is only logged. */
  predicate WellFormed(data: Json, values: Matrix) {
    && data.JObj? && KpisKey in data.fields && CarsKey in data.fields
    && NonEmptyList(data.fields[KpisKey]) && NonEmptyList(data.fields[CarsKey])
    && AllHashable(data.fields[KpisKey].items)
    && forall i :: 0 <= i < |data.fields[CarsKey].items| ==> HasRow(values, data.fields[CarsKey].items[i])
  }

  /** The position of the first listed car without a row, or the number
      of cars when every car has one. */
  function FirstMissing(cars: seq<Json>, values: Matrix): (k: nat)
    ensures k <= |cars|
    ensures forall i :: 0 <= i < k ==> HasRow(values, cars[i])
    ensures k < |cars| ==> !HasRow(values, cars[k])
  {
    if |cars| == 0 || !HasRow(values, cars[0]) then 0
    else 1 + FirstMissing(cars[1..], values)
  }

  /** The loop over the cars. A car that cannot be a key raises in
      `car not in values_data`; a car without a row fails validation; for a
      car with a row, the inner loop over the KPIs raises on the first KPI
      that cannot be a key and otherwise only logs. So the first car
      without a row decides: it raises when it cannot be a key, or when
      some car before it made the KPI loop run over an unhashable KPI. */
  function CheckCars(cars: seq<Json>, kpis: seq<Json>, values: Matrix): (r: Validation)
    ensures r.Valid? <==>
              (forall i :: 0 <= i < |cars| ==> HasRow(values, cars[i]))
              && (|cars| > 0 ==> AllHashable(kpis))
    ensures r.Raised? <==>
              var k := FirstMissing(cars, values);
              (k > 0 && !AllHashable(kpis)) || (k < |cars| && !Hashable(cars[k]))
    ensures r.Invalid? ==>
              var k := FirstMissing(cars, values);
              k < |cars| && r == Invalid(MissingCar(cars[k]))
    ensures r.Invalid? ==>
              r.problem.MissingCar? && r.problem.car in cars
              && Hashable(r.problem.car) && !HasRow(values, r.problem.car)
    ensures AllHashable(cars) && AllHashable(kpis) ==> !r.Raised?
  {
    if |cars| == 0 then Valid
    else if !Hashable(cars[0]) then Raised
    else if !HasRow(values, cars[0]) then Invalid(MissingCar(cars[0]))
    else if !AllHashable(kpis) then Raised
    else
      var rest := CheckCars(cars[1..], kpis, values);
      assert forall i :: 1 <= i < |cars| ==> cars[1..][i - 1] == cars[i];
      rest
  }

  /** `validate_json_data` on the decoded catalog file. A list or a string
      in its place goes through the key tests (membership and substring)
      and raises when it passes them, since it cannot be indexed by a key. */
  function Validate(data: Json, values: Matrix): (r: Validation)
    ensures r.Valid? <==> WellFormed(data, values)
    ensures data.JObj? ==>
              (r == Invalid(MissingKeys) <==> KpisKey !in data.fields || CarsKey !in data.fields)
    ensures data.JObj? && KpisKey in data.fields && CarsKey in data.fields ==>
              (r == Invalid(BadKpiList) <==> !NonEmptyList(data.fields[KpisKey]))
    ensures data.JObj? && KpisKey in data.fields && CarsKey in data.fields
            && NonEmptyList(data.fields[KpisKey]) ==>
              (r == Invalid(BadCarList) <==> !NonEmptyList(data.fields[CarsKey]))
    ensures r.Invalid? && r.problem.MissingCar? ==>
              WellFormedLists(data) && r.problem.car in data.fields[CarsKey].items
              && !HasRow(values, r.problem.car)
    ensures WellFormedLists(data) && AllHashable(data.fields[CarsKey].items)
            && AllHashable(data.fields[KpisKey].items) ==>
              var cars := data.fields[CarsKey].items;
              && !r.Raised?
              && (!r.Valid? ==> r == Invalid(MissingCar(cars[FirstMissing(cars, values)])))
  {
    match data
    case JObj(fields) =>
      if KpisKey !in fields || CarsKey !in fields then Invalid(MissingKeys)
      else if !NonEmptyList(fields[KpisKey]) then Invalid(BadKpiList)
      else if !NonEmptyList(fields[CarsKey]) then Invalid(BadCarList)
      else CheckCars(fields[CarsKey].items, fields[KpisKey].items, values)
    case JArr(items) =>
      if JStr(KpisKey) in items && JStr(CarsKey) in items then Raised else Invalid(MissingKeys)
    case JStr(s) =>
      if Contains(s, KpisKey) && Contains(s, CarsKey) then Raised else Invalid(MissingKeys)
    case _ => Raised
  }

  /** The catalog is an object holding two non-empty lists. */
  predicate WellFormedLists(data: Json) {
    && data.JObj? && KpisKey in data.fields && CarsKey in data.fields
    && NonEmptyList(data.fields[KpisKey]) && NonEmptyList(data.fields[CarsKey])
  }

  /** A missing KPI only logs a warning: the verdict depends on which cars
      have rows, never on what the rows hold. */
  lemma ValidationIgnoresRows(data: Json, v1: Matrix, v2: Matrix)
    requires v1.Keys == v2.Keys
    ensures Validate(data, v1) == Validate(data, v2)
  {
    if WellFormedLists(data) {
      CheckCarsIgnoresRows(data.fields[CarsKey].items, data.fields[KpisKey].items, v1, v2);
    }
  }

  lemma {:induction false} CheckCarsIgnoresRows(cars: seq<Json>, kpis: seq<Json>, v1: Matrix, v2: Matrix)
    requires v1.Keys == v2.Keys
    ensures CheckCars(cars, kpis, v1) == CheckCars(cars, kpis, v2)
  {
    if |cars| > 0 {
      CheckCarsIgnoresRows(cars[1..], kpis, v1, v2);
    }
  }

  // ---------------------------------------------------------------------
  // calculate_averages

  /** `[values[car].get(kpi, 0) for car in cars]`. */
  function KpiValues(values: Matrix, cars: seq<string>, kpi: string): (col: seq<real>)
    requires forall c :: c in cars ==> c in values
    ensures |col| == |cars|
    ensures forall i :: 0 <= i < |cars| ==> col[i] == ValueOrZero(values, cars[i], kpi)
  {
    seq(|cars|, i requires 0 <= i < |cars| => ValueOrZero(values, cars[i], kpi))
  }

  /** `calculate_averages`: one entry per KPI, the mean over all cars with a
      missing value counted as 0, rounded to two places; 0 without cars. */
  function Averages(cars: seq<string>, kpis: seq<string>, values: Matrix): (avg: map<string, real>)
    requires forall c :: c in cars ==> c in values
    ensures avg.Keys == set k | k in kpis
    ensures forall k :: k in avg && |cars| == 0 ==> avg[k] == 0.0
    ensures forall k :: k in avg && |cars| > 0 ==>
              && avg[k] - 0.005 <= Mean(KpiValues(values, cars, k)) <= avg[k] + 0.005
              && IsWhole(avg[k] * 100.0)
  {
    map k | k in kpis :: if |cars| == 0 then 0.0 else Round2(Mean(KpiValues(values, cars, k)))
  }

  // ---------------------------------------------------------------------
  // create_dataframe

  datatype Cell = Str(s: string) | Num(x: real)
  datatype Column = Column(header: string, cells: seq<Cell>)

  /** The DataFrame: its columns, left to right. */
  type Table = seq<Column>

  const CarHeader := "Car"

  function Headers(t: Table): (hs: seq<string>)
    ensures |hs| == |t|
    ensures forall i :: 0 <= i < |t| ==> hs[i] == t[i].header
  {
    seq(|t|, i requires 0 <= i < |t| => t[i].header)
  }

  /** The headers of a table with one more column in front. */
  lemma HeadersCons(c: Column, rest: Table)
    ensures Headers([c] + rest) == [c.header] + Headers(rest)
  {
  }

  /** The headers of a non-empty table: its first header, then the rest's. */
  lemma HeadersSplit(t: Table)
    requires |t| > 0
    ensures Headers(t) == [t[0].header] + Headers(t[1..])
  {
    assert t == [t[0]] + t[1..];
    HeadersCons(t[0], t[1..]);
  }

  /** `table_data[h]`: the cells of the first column named h. */
  function Lookup(t: Table, h: string): (r: Option<seq<Cell>>)
    ensures r.Some? <==> h in Headers(t)
  {
    if |t| == 0 then None
    else if t[0].header == h then Some(t[0].cells)
    else
      HeadersSplit(t);
      Lookup(t[1..], h)
  }

  /** `table_data[h] = cells` on Python's insertion-ordered dict: a key
      already there keeps its position, a new key goes last. */
  function Put(t: Table, h: string, cells: seq<Cell>): (r: Table)
    ensures Headers(r) == if h in Headers(t) then Headers(t) else Headers(t) + [h]
  {
    if |t| == 0 then [Column(h, cells)]
    else
      var first, tail := t[0], t[1..];
      HeadersSplit(t);
      if first.header == h then
        HeadersCons(Column(h, cells), tail);
        [Column(h, cells)] + tail
      else
        var rest := Put(tail, h, cells);
        HeadersCons(first, rest);
        [first] + rest
  }

  /** Put followed by a lookup behaves like a dict: the key just written
      reads back its cells and every other key reads as before. */
  lemma {:induction false} PutLookup(t: Table, h: string, cells: seq<Cell>, k: string)
    ensures Lookup(Put(t, h, cells), k) == if k == h then Some(cells) else Lookup(t, k)
  {
    if |t| > 0 && t[0].header != h {
      PutLookup(t[1..], h, cells, k);
    }
  }

  /** The "Car" column: the car names and then the label "Average". */
  function CarCells(cars: seq<string>): (cells: seq<Cell>)
    ensures |cells| == |cars| + 1
    ensures forall i :: 0 <= i < |cars| ==> cells[i] == Str(cars[i])
    ensures cells[|cars|] == Str(AverageKey)
  {
    seq(|cars|, i requires 0 <= i < |cars| => Str(cars[i])) + [Str(AverageKey)]
  }

  /** One KPI's column: each car's value, defaulting to 0, then its average. */
  function KpiCells(values: Matrix, cars: seq<string>, kpi: string, average: real): (cells: seq<Cell>)
    requires forall c :: c in cars ==> c in values
    ensures |cells| == |cars| + 1
    ensures forall i :: 0 <= i < |cars| ==> cells[i] == Num(ValueOrZero(values, cars[i], kpi))
    ensures cells[|cars|] == Num(average)
  {
    seq(|cars|, i requires 0 <= i < |cars| => Num(ValueOrZero(values, cars[i], kpi))) + [Num(average)]
  }

  /** `create_dataframe`: the "Car" column, then each KPI's column put in
      list order. A repeated KPI rewrites its column in place, and a KPI
      named "Car" replaces the car names. Every column is as long as the
      car list plus the Average row, and no header appears twice. */
  function BuildTable(cars: seq<string>, kpis: seq<string>, values: Matrix, avg: map<string, real>): (t: Table)
    requires forall c :: c in cars ==> c in values
    requires forall k :: k in kpis ==> k in avg
    ensures |t| > 0 && t[0].header == CarHeader
    ensures Distinct(Headers(t))
    ensures forall h :: h in Headers(t) <==> h == CarHeader || h in kpis
    ensures forall i :: 0 <= i < |t| ==> |t[i].cells| == |cars| + 1
    decreases |kpis|
  {
    if |kpis| == 0 then [Column(CarHeader, CarCells(cars))]
    else
      var k := kpis[|kpis| - 1];
      var before := BuildTable(cars, kpis[..|kpis| - 1], values, avg);
      assert kpis == kpis[..|kpis| - 1] + [k];
      var t := Put(before, k, KpiCells(values, cars, k, avg[k]));
      PutKeepsColumns(before, k, KpiCells(values, cars, k, avg[k]), |cars| + 1);
      t
  }

  /** Put keeps the first column's header, the headers distinct and the
      columns of one common length. */
  lemma PutKeepsColumns(t: Table, h: string, cells: seq<Cell>, n: nat)
    requires |t| > 0 && Distinct(Headers(t))
    requires |cells| == n && forall i :: 0 <= i < |t| ==> |t[i].cells| == n
    ensures |Put(t, h, cells)| > 0 && Put(t, h, cells)[0].header == t[0].header
    ensures Distinct(Headers(Put(t, h, cells)))
    ensures forall i :: 0 <= i < |Put(t, h, cells)| ==> |Put(t, h, cells)[i].cells| == n
  {
    var hs := Headers(t);
    if h !in hs {
      DistinctSnoc(hs, h);
    }
    PutKeepsLengths(t, h, cells, n);
  }

  /** Put keeps the columns of one common length. */
  lemma {:induction false} PutKeepsLengths(t: Table, h: string, cells: seq<Cell>, n: nat)
    requires |cells| == n && forall i :: 0 <= i < |t| ==> |t[i].cells| == n
    ensures forall i :: 0 <= i < |Put(t, h, cells)| ==> |Put(t, h, cells)[i].cells| == n
  {
    if |t| > 0 && t[0].header != h {
      PutKeepsLengths(t[1..], h, cells, n);
    }
  }

  /** One more KPI adds its header at the end unless it is already there. */
  lemma BuildTableSnoc(cars: seq<string>, kpis: seq<string>, k: string, values: Matrix, avg: map<string, real>)
    requires forall c :: c in cars ==> c in values
    requires forall k :: k in kpis ==> k in avg
    requires k in avg
    ensures var before := Headers(BuildTable(cars, kpis, values, avg));
            Headers(BuildTable(cars, kpis + [k], values, avg)) == if k in before then before else before + [k]
  {
    assert (kpis + [k])[..|kpis|] == kpis;
  }

  /** Each KPI reads back its own column and, when no KPI is named "Car",
      the "Car" column reads back the car names. */
  lemma {:induction false} TableLookup(cars: seq<string>, kpis: seq<string>, values: Matrix, avg: map<string, real>, k: string)
    requires forall c :: c in cars ==> c in values
    requires forall k :: k in kpis ==> k in avg
    ensures k in kpis ==> Lookup(BuildTable(cars, kpis, values, avg), k) == Some(KpiCells(values, cars, k, avg[k]))
    ensures k == CarHeader && k !in kpis ==> Lookup(BuildTable(cars, kpis, values, avg), k) == Some(CarCells(cars))
    decreases |kpis|
  {
    if |kpis| > 0 {
      var last := kpis[|kpis| - 1];
      var init := kpis[..|kpis| - 1];
      assert kpis == init + [last];
      TableLookup(cars, init, values, avg, k);
      PutLookup(BuildTable(cars, init, values, avg), last, KpiCells(values, cars, last, avg[last]), k);
    }
  }

  /** With distinct KPIs none of which is named "Car", the headers are
      "Car" followed by the KPIs in list order. */
  lemma {:induction false} SimpleTableHeaders(cars: seq<string>, kpis: seq<string>, values: Matrix, avg: map<string, real>)
    requires forall c :: c in cars ==> c in values
    requires forall k :: k in kpis ==> k in avg
    requires Distinct(kpis) && CarHeader !in kpis
    ensures Headers(BuildTable(cars, kpis, values, avg)) == [CarHeader] + kpis
    decreases |kpis|
  {
    if |kpis| > 0 {
      var last := kpis[|kpis| - 1];
      var init := kpis[..|kpis| - 1];
      FreshLast(kpis);
      SimpleTableHeaders(cars, init, values, avg);
      BuildTableSnoc(cars, init, last, values, avg);
      assert ([CarHeader] + init) + [last] == [CarHeader] + kpis;
    }
  }

  /** The last of distinct KPIs, none named "Car", is new after "Car" and
      the KPIs before it, which are distinct and free of "Car" too. */
  lemma FreshLast(kpis: seq<string>)
    requires |kpis| > 0 && Distinct(kpis) && CarHeader !in kpis
    ensures kpis == kpis[..|kpis| - 1] + [kpis[|kpis| - 1]]
    ensures Distinct(kpis[..|kpis| - 1]) && CarHeader !in kpis[..|kpis| - 1]
    ensures kpis[|kpis| - 1] !in [CarHeader] + kpis[..|kpis| - 1]
  {
    var init, last := kpis[..|kpis| - 1], kpis[|kpis| - 1];
    assert forall i :: 0 <= i < |init| ==> init[i] == kpis[i];
    assert last != CarHeader;
  }
}
