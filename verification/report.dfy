/** The `main` of the report script (toExcel.py): the order of its checks
    and the exit status it returns. Reading the two JSON files, writing the
    workbook and openpyxl's own failures are parameters. */
module Report {
  import opened Wrappers
  import opened Text
  import opened JsonValues
  import opened DataFiles
  import opened Exporter
  import opened Workbook

  /** `main`'s return value, or an exception it does not catch. */
  datatype Status = Exit(code: int) | Crash

  /** What a finished run leaves behind: the main sheet's table, the sheet
      list, and the detailed and dashboard chart of each KPI in list order. */
  datatype ReportBook = ReportBook(
    table: Table,
    sheets: seq<Sheet>,
    detailed: seq<ChartData>,
    dashboard: seq<Option<ChartData>>)

  datatype Outcome = Outcome(status: Status, report: Option<ReportBook>)

  predicate AllStrings(xs: seq<Json>) {
    forall i :: 0 <= i < |xs| ==> xs[i].JStr?
  }

  /** Both files were read and neither is empty (`if not a or not b`). */
  predicate Loaded(kpiFile: Option<Json>, valuesFile: Option<Matrix>) {
    kpiFile.Some? && Truthy(kpiFile.value) && valuesFile.Some? && |valuesFile.value| > 0
  }

  /** The workbook built from validated string lists. */
  function BuildReportBook(cars: seq<string>, kpis: seq<string>, values: Matrix): (w: ReportBook)
    requires forall c :: c in cars ==> c in values
    ensures |w.detailed| == |kpis| && |w.dashboard| == |kpis|
    ensures forall i :: 0 <= i < |w.table| ==> |w.table[i].cells| == |cars| + 1
  {
    var table := BuildTable(cars, kpis, values, Averages(cars, kpis, values));
    ReportBook(
      table,
      ReportSheets(kpis),
      seq(|kpis|, j requires 0 <= j < |kpis| => DetailedChart(j, |cars|)),
      seq(|kpis|, j requires 0 <= j < |kpis| => DashboardChart(Headers(table), kpis[j], j, |cars|)))
  }

  /** A validated catalog names every car by a string. */
  lemma ValidCarsAreStrings(data: Json, values: Matrix)
    requires WellFormed(data, values)
    ensures IsStringList(data.fields[CarsKey])
    ensures forall c :: c in Strings(data.fields[CarsKey]) ==> c in values
  {
    var cars := Strings(data.fields[CarsKey]);
    forall c | c in cars
      ensures c in values
    {
      var i :| 0 <= i < |cars| && cars[i] == c;
      assert HasRow(values, data.fields[CarsKey].items[i]);
    }
  }

  /** `main`. `kpiFile` and `valuesFile` are what `load_json_file` returned
      (None for a missing or undecodable file), `saved` whether
      `save_to_excel` succeeded, and `finished` whether openpyxl loaded,
      extended and saved the workbook without raising. A KPI that is not a
      string makes `kpi.replace` raise inside the guarded block. */
  function RunExport(kpiFile: Option<Json>, valuesFile: Option<Matrix>, saved: bool, finished: bool): (r: Outcome)
    ensures r.report.Some? <==> r.status == Exit(0)
    ensures r.status == Exit(0) <==>
              && Loaded(kpiFile, valuesFile)
              && WellFormed(kpiFile.value, valuesFile.value)
              && AllStrings(kpiFile.value.fields[KpisKey].items)
              && saved && finished
    ensures r.status == Crash <==>
              Loaded(kpiFile, valuesFile) && Validate(kpiFile.value, valuesFile.value).Raised?
    ensures r.status != Crash ==> r.status == Exit(0) || r.status == Exit(1)
    ensures Loaded(kpiFile, valuesFile) && Validate(kpiFile.value, valuesFile.value).Invalid? ==>
              r == Outcome(Exit(1), None)
  {
    if !Loaded(kpiFile, valuesFile) then Outcome(Exit(1), None)
    else
      var data, values := kpiFile.value, valuesFile.value;
      match Validate(data, values)
      case Invalid(_) => Outcome(Exit(1), None)
      case Raised => Outcome(Crash, None)
      case Valid =>
        var kpiItems := data.fields[KpisKey].items;
        if !saved || !AllStrings(kpiItems) || !finished then Outcome(Exit(1), None)
        else
          ValidCarsAreStrings(data, values);
          var cars := Strings(data.fields[CarsKey]);
          var kpis := Strings(data.fields[KpisKey]);
          Outcome(Exit(0), Some(BuildReportBook(cars, kpis, values)))
  }

  /** A successful run's workbook is the one built from the catalog's lists. */
  lemma SuccessBuildsReportBook(kpiFile: Option<Json>, valuesFile: Option<Matrix>, saved: bool, finished: bool)
    requires RunExport(kpiFile, valuesFile, saved, finished).status == Exit(0)
    ensures WellFormed(kpiFile.value, valuesFile.value)
    ensures IsStringList(kpiFile.value.fields[KpisKey]) && IsStringList(kpiFile.value.fields[CarsKey])
    ensures forall c :: c in Strings(kpiFile.value.fields[CarsKey]) ==> c in valuesFile.value
    ensures RunExport(kpiFile, valuesFile, saved, finished).report ==
              Some(BuildReportBook(Strings(kpiFile.value.fields[CarsKey]),
                                 Strings(kpiFile.value.fields[KpisKey]),
                                 valuesFile.value))
  {
    ValidCarsAreStrings(kpiFile.value, valuesFile.value);
  }

  /** A catalog of strings listing a car the values file has no row for
      makes validation fail: the run exits with 1 and writes no report. */
  lemma MissingCarRowExitsOne(cars: seq<string>, kpis: seq<string>, values: Matrix, saved: bool, finished: bool, i: nat)
    requires |kpis| > 0 && |values| > 0
    requires i < |cars| && cars[i] !in values
    ensures RunExport(Some(JObj(map[CarsKey := FromStrings(cars), KpisKey := FromStrings(kpis)])), Some(values), saved, finished)
            == Outcome(Exit(1), None)
  {
    var data := JObj(map[CarsKey := FromStrings(cars), KpisKey := FromStrings(kpis)]);
    assert CarsKey in data.fields && |data.fields| > 0;
    var carItems, kpiItems := data.fields[CarsKey].items, data.fields[KpisKey].items;
    assert carItems[i] == JStr(cars[i]);
    assert !HasRow(values, carItems[i]);
    assert AllHashable(carItems) && AllHashable(kpiItems);
  }

  /** The finished workbook for one KPI: its detailed chart covers every car
      row and the Average row; its dashboard chart, present exactly when the
      KPI is a header, reads that header's column over the car rows only; its
      link opens an existing sheet; the dashboard comes first. */
  lemma ReportBookFacts(cars: seq<string>, kpis: seq<string>, values: Matrix, j: nat)
    requires forall c :: c in cars ==> c in values
    requires j < |kpis|
    ensures var w := BuildReportBook(cars, kpis, values);
            && w.detailed[j].lastRow - w.detailed[j].firstRow + 1 == |cars| + 1
            && w.dashboard[j].Some?
            && Headers(w.table)[w.dashboard[j].value.col - 1] == kpis[j]
            && w.dashboard[j].value.lastRow - w.dashboard[j].value.firstRow + 1 == |cars|
            && LinkedSheet(LinkTarget(kpis[j])).value in Names(w.sheets)
            && w.sheets[0].name == DashboardSheet
  {
    var w := BuildReportBook(cars, kpis, values);
    var headers := Headers(BuildTable(cars, kpis, values, Averages(cars, kpis, values)));
    assert Headers(w.table) == headers;
    assert kpis[j] in headers;
    assert w.detailed[j] == DetailedChart(j, |cars|);
    assert w.dashboard[j] == DashboardChart(headers, kpis[j], j, |cars|);
    LinkOpensSheetName(kpis[j]);
    ReportSheetsFacts(kpis, kpis[j]);
    assert w.sheets == ReportSheets(kpis);
  }
}
