/** The spreadsheet steps of the report script (toExcel.py): the sheet list
    the chart loop and the dashboard leave behind, the hyperlinks between
    them, the cell ranges and colours of the charts, the dashboard grid and
    the column widths. Rows and columns are numbered from 1, as in the
    spreadsheet; fonts, fills, borders and chart styling are not modelled. */
module Workbook {
  import opened Wrappers
  import opened Text
  import opened DataFiles
  import opened Exporter

  const MainSheet := "Car KPIs"
  const DashboardSheet := "Dashboard"
  /** Longest sheet name the script produces. */
  const MaxSheetName: nat := 31
  /** Number of entries of CHART_COLORS. */
  const PaletteSize: nat := 7

  // ---------------------------------------------------------------------
  // Sheet names and hyperlinks

  /** `kpi.replace(' ', '_')[:31]`, used both for the chart sheet and for
      the dashboard's link to it. */
  function SheetName(kpi: string): (name: string)
    ensures |name| <= MaxSheetName && |name| <= |kpi|
    ensures |kpi| <= MaxSheetName ==> |name| == |kpi|
    ensures forall i :: 0 <= i < |name| ==> name[i] == (if kpi[i] == ' ' then '_' else kpi[i])
  {
    Take(ReplaceChar(kpi, ' ', '_'), MaxSheetName)
  }

  /** A sheet name holds no space, so no chart sheet is ever named like
      the main sheet. */
  lemma SheetNameNotMain(kpi: string)
    ensures ' ' !in SheetName(kpi)
    ensures SheetName(kpi) != MainSheet
  {
    assert MainSheet[3] == ' ';
  }

  /** Deriving the name again changes nothing. */
  lemma SheetNameIdempotent(kpi: string)
    ensures SheetName(SheetName(kpi)) == SheetName(kpi)
  {
  }

  /** The hyperlink `#<sheet>!A1` written next to the KPI on the dashboard. */
  function LinkTarget(kpi: string): string {
    "#" + SheetName(kpi) + "!A1"
  }

  /** The sheet a link of the form `#<sheet>!A1` opens. */
  function LinkedSheet(target: string): (r: Option<string>)
    ensures r.Some? ==> |r.value| + 4 == |target|
  {
    if |target| >= 4 && target[0] == '#' && target[|target| - 3..] == "!A1"
    then Some(target[1..|target| - 3])
    else None
  }

  /** Each KPI's link opens the sheet whose name the chart loop derives for
      the same KPI. */
  lemma LinkOpensSheetName(kpi: string)
    ensures LinkedSheet(LinkTarget(kpi)) == Some(SheetName(kpi))
  {
    var t := LinkTarget(kpi);
    assert t[1..|t| - 3] == SheetName(kpi);
    assert t[|t| - 3..] == "!A1";
  }

  // ---------------------------------------------------------------------
  // The sheet list

  datatype Content = DataTable | Chart(kpi: string) | Overview
  datatype Sheet = Sheet(name: string, content: Content)

  function Names(sheets: seq<Sheet>): (names: seq<string>)
    ensures |names| == |sheets|
    ensures forall i :: 0 <= i < |sheets| ==> names[i] == sheets[i].name
  {
    seq(|sheets|, i requires 0 <= i < |sheets| => sheets[i].name)
  }

  /** `wb[name]`: the content of the sheet with that name. */
  function Find(sheets: seq<Sheet>, name: string): (r: Option<Content>)
    ensures r.Some? <==> name in Names(sheets)
  {
    if |sheets| == 0 then None
    else if sheets[0].name == name then Some(sheets[0].content)
    else
      assert Names(sheets) == [sheets[0].name] + Names(sheets[1..]);
      Find(sheets[1..], name)
  }

  /** `if name in wb.sheetnames: wb.remove(wb[name])`. */
  function Remove(sheets: seq<Sheet>, name: string): (r: seq<Sheet>)
    ensures forall m :: m in Names(r) <==> m in Names(sheets) && m != name
  {
    if |sheets| == 0 then []
    else
      var rest := Remove(sheets[1..], name);
      assert Names(sheets) == [sheets[0].name] + Names(sheets[1..]);
      var r := (if sheets[0].name == name then [] else [sheets[0]]) + rest;
      assert Names(r) == (if sheets[0].name == name then [] else [sheets[0].name]) + Names(rest);
      r
  }

  lemma {:induction false} RemoveFind(sheets: seq<Sheet>, name: string, m: string)
    ensures Find(Remove(sheets, name), m) == if m == name then None else Find(sheets, m)
  {
    if |sheets| > 0 {
      var first, tail := sheets[0], sheets[1..];
      var rest := Remove(tail, name);
      RemoveFind(tail, name, m);
      if first.name == name {
        assert Remove(sheets, name) == rest;
      } else {
        var r := [first] + rest;
        assert Remove(sheets, name) == r;
        assert r[0] == first && r[1..] == rest;
        assert Find(r, m) == if first.name == m then Some(first.content) else Find(rest, m);
      }
      assert Find(sheets, m) == if first.name == m then Some(first.content) else Find(tail, m);
    }
  }

  lemma {:induction false} RemoveDistinct(sheets: seq<Sheet>, name: string)
    requires Distinct(Names(sheets))
    ensures Distinct(Names(Remove(sheets, name)))
  {
    if |sheets| > 0 {
      assert Names(sheets) == [sheets[0].name] + Names(sheets[1..]);
      DistinctCons(sheets[0].name, Names(sheets[1..]));
      RemoveDistinct(sheets[1..], name);
      var rest := Remove(sheets[1..], name);
      if sheets[0].name != name {
        assert Names([sheets[0]] + rest) == [sheets[0].name] + Names(rest);
        DistinctCons(sheets[0].name, Names(rest));
      }
    }
  }

  /** Appending a sheet leaves the lookups of earlier names alone. */
  lemma {:induction false} FindSnoc(sheets: seq<Sheet>, s: Sheet, m: string)
    ensures Find(sheets + [s], m) ==
              if m in Names(sheets) then Find(sheets, m)
              else if s.name == m then Some(s.content) else None
  {
    if |sheets| > 0 {
      assert (sheets + [s])[1..] == sheets[1..] + [s];
      assert Names(sheets) == [sheets[0].name] + Names(sheets[1..]);
      FindSnoc(sheets[1..], s, m);
    } else {
      assert (sheets + [s])[1..] == [];
    }
  }

  /** One pass of the chart loop: any sheet of the same name is removed and
      the KPI's chart sheet is appended. */
  function AddChart(sheets: seq<Sheet>, kpi: string): seq<Sheet> {
    Remove(sheets, SheetName(kpi)) + [Sheet(SheetName(kpi), Chart(kpi))]
  }

  /** The chart loop over the KPIs in list order. */
  function AddCharts(sheets: seq<Sheet>, kpis: seq<string>): seq<Sheet>
    decreases |kpis|
  {
    if |kpis| == 0 then sheets
    else AddChart(AddCharts(sheets, kpis[..|kpis| - 1]), kpis[|kpis| - 1])
  }

  /** `create_dashboard`: any sheet named "Dashboard" is removed and the
      dashboard is inserted in front. */
  function AddDashboard(sheets: seq<Sheet>): seq<Sheet> {
    [Sheet(DashboardSheet, Overview)] + Remove(sheets, DashboardSheet)
  }

  /** The sheets of the finished report, starting from the main sheet
      `to_excel` wrote. */
  function ReportSheets(kpis: seq<string>): seq<Sheet> {
    AddDashboard(AddCharts([Sheet(MainSheet, DataTable)], kpis))
  }

  /** The last KPI of the list whose sheet name is `name`: the one whose
      chart survives on that sheet. */
  function LastNamed(kpis: seq<string>, name: string): (r: Option<string>)
    ensures r.Some? ==> r.value in kpis && SheetName(r.value) == name
    ensures r.None? <==> forall k :: k in kpis ==> SheetName(k) != name
    decreases |kpis|
  {
    if |kpis| == 0 then None
    else if SheetName(kpis[|kpis| - 1]) == name then Some(kpis[|kpis| - 1])
    else
      assert kpis == kpis[..|kpis| - 1] + [kpis[|kpis| - 1]];
      LastNamed(kpis[..|kpis| - 1], name)
  }

  /** A KPI whose sheet name no other KPI of the list shares keeps its
      own chart. */
  lemma {:induction false} LastNamedUnique(kpis: seq<string>, k: string)
    requires k in kpis
    requires forall k' :: k' in kpis && SheetName(k') == SheetName(k) ==> k' == k
    ensures LastNamed(kpis, SheetName(k)) == Some(k)
  {
  }

  /** One pass of the chart loop: the new sheet name reads back the KPI's
      chart, every other name reads as before, and names stay distinct. */
  lemma AddChartFacts(sheets: seq<Sheet>, kpi: string, m: string)
    requires Distinct(Names(sheets))
    ensures Distinct(Names(AddChart(sheets, kpi)))
    ensures Find(AddChart(sheets, kpi), m) == if m == SheetName(kpi) then Some(Chart(kpi)) else Find(sheets, m)
  {
    var name := SheetName(kpi);
    var removed := Remove(sheets, name);
    RemoveDistinct(sheets, name);
    assert Names(removed + [Sheet(name, Chart(kpi))]) == Names(removed) + [name];
    DistinctSnoc(Names(removed), name);
    FindSnoc(removed, Sheet(name, Chart(kpi)), m);
    RemoveFind(sheets, name, m);
  }

  /** After the chart loop a name derived from some KPI holds the chart of
      the last KPI with that name; every other name reads as before. */
  lemma {:induction false} AddChartsFind(sheets: seq<Sheet>, kpis: seq<string>, m: string)
    requires Distinct(Names(sheets))
    ensures Distinct(Names(AddCharts(sheets, kpis)))
    ensures Find(AddCharts(sheets, kpis), m) ==
              match LastNamed(kpis, m)
              case Some(k) => Some(Chart(k))
              case None => Find(sheets, m)
    decreases |kpis|
  {
    if |kpis| > 0 {
      var init := kpis[..|kpis| - 1];
      AddChartsFind(sheets, init, m);
      AddChartFacts(AddCharts(sheets, init), kpis[|kpis| - 1], m);
    }
  }

  /** After the chart loop over the main sheet: names distinct, the main
      sheet kept, and each KPI's derived name holding the chart of the last
      KPI with that name. */
  lemma ChartSheetsFacts(kpis: seq<string>, k: string)
    requires k in kpis
    ensures Distinct(Names(AddCharts([Sheet(MainSheet, DataTable)], kpis)))
    ensures Find(AddCharts([Sheet(MainSheet, DataTable)], kpis), MainSheet) == Some(DataTable)
    ensures Find(AddCharts([Sheet(MainSheet, DataTable)], kpis), SheetName(k)) ==
              Some(Chart(LastNamed(kpis, SheetName(k)).value))
  {
    var start := [Sheet(MainSheet, DataTable)];
    assert Names(start) == [MainSheet];
    AddChartsFind(start, kpis, SheetName(k));
    AddChartsFind(start, kpis, MainSheet);
    forall k' | k' in kpis
      ensures SheetName(k') != MainSheet
    {
      SheetNameNotMain(k');
    }
    assert LastNamed(kpis, MainSheet).None?;
  }

  /** Putting the dashboard in front keeps the names distinct and every
      other name's sheet. */
  lemma AddDashboardFacts(sheets: seq<Sheet>, m: string)
    requires Distinct(Names(sheets))
    ensures |AddDashboard(sheets)| > 0 && AddDashboard(sheets)[0] == Sheet(DashboardSheet, Overview)
    ensures Distinct(Names(AddDashboard(sheets)))
    ensures m != DashboardSheet ==> Find(AddDashboard(sheets), m) == Find(sheets, m)
  {
    var rest := Remove(sheets, DashboardSheet);
    RemoveDistinct(sheets, DashboardSheet);
    DistinctCons(DashboardSheet, Names(rest));
    assert Names(AddDashboard(sheets)) == [DashboardSheet] + Names(rest);
    RemoveFind(sheets, DashboardSheet, m);
  }

  /** The finished sheet list: the dashboard first, names distinct, the main
      sheet kept, and for each KPI a sheet under its derived name, which
      holds the chart of the last KPI with that name unless the name is
      "Dashboard". Every dashboard link therefore opens an existing sheet. */
  lemma ReportSheetsFacts(kpis: seq<string>, k: string)
    requires k in kpis
    ensures |ReportSheets(kpis)| > 0 && ReportSheets(kpis)[0] == Sheet(DashboardSheet, Overview)
    ensures Distinct(Names(ReportSheets(kpis)))
    ensures Find(ReportSheets(kpis), MainSheet) == Some(DataTable)
    ensures SheetName(k) in Names(ReportSheets(kpis))
    ensures SheetName(k) != DashboardSheet ==>
              Find(ReportSheets(kpis), SheetName(k)) == Some(Chart(LastNamed(kpis, SheetName(k)).value))
  {
    var charts := AddCharts([Sheet(MainSheet, DataTable)], kpis);
    ChartSheetsFacts(kpis, k);
    AddDashboardFacts(charts, SheetName(k));
    AddDashboardFacts(charts, MainSheet);
    assert MainSheet != DashboardSheet by { assert MainSheet[0] != DashboardSheet[0]; }
    assert Names(ReportSheets(kpis))[0] == DashboardSheet;
  }

  // ---------------------------------------------------------------------
  // Chart ranges and colours

  /** The cells a bar chart reads: categories from column 1 and values from
      column `col`, both over rows firstRow..lastRow, and the index of its
      bar colour in the palette. */
  datatype ChartData = ChartData(col: nat, firstRow: nat, lastRow: nat, colour: nat)

  /** `ws.max_row` of the main sheet: the header row, one row per car and
      the Average row. */
  function MaxRow(carCount: nat): nat {
    carCount + 2
  }

  /** The row of the i-th car (0-based) on the main sheet. */
  function CarRow(i: nat): nat {
    i + 2
  }

  /** The chart on the KPI's own sheet, for the j-th KPI (0-based). It reads
      column j + 2 whatever that column's header is, and with the default
      `include_average` it covers the Average row as well as the cars. */
  function DetailedChart(j: nat, carCount: nat): (c: ChartData)
    ensures c.firstRow == CarRow(0) && c.lastRow == MaxRow(carCount)
    ensures c.lastRow - c.firstRow + 1 == carCount + 1
    ensures c.colour < PaletteSize
  {
    ChartData(j + 2, 2, MaxRow(carCount), (j + 2) % PaletteSize)
  }

  /** The dashboard's search for the KPI's column: the first column, from 1,
      whose header equals the KPI. */
  function HeaderColumn(headers: seq<string>, kpi: string): (r: Option<nat>)
    ensures r.Some? <==> kpi in headers
    ensures r.Some? ==> 1 <= r.value <= |headers| && headers[r.value - 1] == kpi
    ensures r.Some? ==> forall i :: 0 <= i < r.value - 1 ==> headers[i] != kpi
  {
    if |headers| == 0 then None
    else if headers[0] == kpi then Some(1)
    else match HeaderColumn(headers[1..], kpi)
      case None => None
      case Some(c) =>
        assert forall i :: 1 <= i < c ==> headers[i] == headers[1..][i - 1];
        Some(c + 1)
  }

  /** The j-th KPI's chart on the dashboard: the found column over the car
      rows only (`max_row - 1` drops the Average row); no chart when no
      header matches. */
  function DashboardChart(headers: seq<string>, kpi: string, j: nat, carCount: nat): (r: Option<ChartData>)
    ensures r.Some? <==> kpi in headers
    ensures r.Some? ==> 1 <= r.value.col <= |headers| && headers[r.value.col - 1] == kpi
    ensures r.Some? ==> r.value.firstRow == CarRow(0) && r.value.lastRow == MaxRow(carCount) - 1
    ensures r.Some? ==> r.value.lastRow - r.value.firstRow + 1 == carCount
    ensures r.Some? ==> r.value.colour < PaletteSize
  {
    match HeaderColumn(headers, kpi)
    case None => None
    case Some(col) => Some(ChartData(col, 2, MaxRow(carCount) - 1, j % PaletteSize))
  }

  /** Neighbouring charts never share a colour, and the colours repeat with
      the palette's period. */
  lemma ColoursCycle(j: nat, carCount: nat)
    ensures DetailedChart(j, carCount).colour != DetailedChart(j + 1, carCount).colour
    ensures DetailedChart(j, carCount).colour == DetailedChart(j + PaletteSize, carCount).colour
  {
  }

  /** With distinct headers the search finds a header at its own position. */
  lemma HeaderColumnOfDistinct(headers: seq<string>, i: nat)
    requires Distinct(headers) && i < |headers|
    ensures HeaderColumn(headers, headers[i]) == Some(i + 1)
  {
  }

  /** With distinct KPIs none of which is named "Car", column j + 2 is the
      j-th KPI's column, so the detailed chart and the dashboard chart read
      the same values. */
  lemma DetailedColumnHoldsKpi(cars: seq<string>, kpis: seq<string>, values: Matrix, avg: map<string, real>, j: nat)
    requires forall c :: c in cars ==> c in values
    requires forall k :: k in kpis ==> k in avg
    requires Distinct(kpis) && CarHeader !in kpis && j < |kpis|
    ensures var headers := Headers(BuildTable(cars, kpis, values, avg));
            && DetailedChart(j, |cars|).col <= |headers|
            && headers[DetailedChart(j, |cars|).col - 1] == kpis[j]
            && DashboardChart(headers, kpis[j], j, |cars|).Some?
            && DashboardChart(headers, kpis[j], j, |cars|).value.col == DetailedChart(j, |cars|).col
  {
    SimpleTableHeaders(cars, kpis, values, avg);
    KpiColumn(Headers(BuildTable(cars, kpis, values, avg)), kpis, j, |cars|);
  }

  /** Under the headers "Car" followed by distinct KPIs, both charts of the
      j-th KPI read column j + 2. */
  lemma KpiColumn(headers: seq<string>, kpis: seq<string>, j: nat, carCount: nat)
    requires headers == [CarHeader] + kpis
    requires Distinct(kpis) && CarHeader !in kpis && j < |kpis|
    ensures && DetailedChart(j, carCount).col <= |headers|
            && headers[DetailedChart(j, carCount).col - 1] == kpis[j]
            && DashboardChart(headers, kpis[j], j, carCount).Some?
            && DashboardChart(headers, kpis[j], j, carCount).value.col == DetailedChart(j, carCount).col
  {
    DistinctCons(CarHeader, kpis);
    assert headers[j + 1] == kpis[j];
    HeaderColumnOfDistinct(headers, j + 1);
  }

  /** With a repeated KPI the positions shift: for a list A, A, B the
      table has the columns Car, A, B, so the chart of the second A reads
      B's column and the chart of B reads past the table's last column. */
  lemma RepeatedKpiShiftsColumns(cars: seq<string>, a: string, b: string, values: Matrix, avg: map<string, real>)
    requires forall c :: c in cars ==> c in values
    requires a in avg && b in avg
    requires a != b && a != CarHeader && b != CarHeader
    ensures var headers := Headers(BuildTable(cars, [a, a, b], values, avg));
            && |headers| == 3
            && headers[DetailedChart(1, |cars|).col - 1] != a
            && DetailedChart(2, |cars|).col > |headers|
  {
    var kpis := [a, a, b];
    TableHeaders(cars, kpis, values, avg);
    RepeatedKpiHeaders(kpis, a, b);
    ShiftedColumns(Headers(BuildTable(cars, kpis, values, avg)), a, b, |cars|);
  }

  /** Under the headers Car, A, B the second chart reads B and the third
      reads past the last column. */
  lemma ShiftedColumns(headers: seq<string>, a: string, b: string, carCount: nat)
    requires headers == [CarHeader, a, b] && a != b
    ensures && |headers| == 3
            && headers[DetailedChart(1, carCount).col - 1] != a
            && DetailedChart(2, carCount).col > |headers|
  {
  }

  /** The headers the table gets for a KPI list: "Car", then each KPI the
      first time it occurs. */
  function KpiHeaders(kpis: seq<string>): seq<string> {
    if |kpis| == 0 then [CarHeader]
    else
      var before := KpiHeaders(kpis[..|kpis| - 1]);
      var k := kpis[|kpis| - 1];
      if k in before then before else before + [k]
  }

  /** The table's headers are exactly `KpiHeaders`. */
  lemma {:induction false} TableHeaders(cars: seq<string>, kpis: seq<string>, values: Matrix, avg: map<string, real>)
    requires forall c :: c in cars ==> c in values
    requires forall k :: k in kpis ==> k in avg
    ensures Headers(BuildTable(cars, kpis, values, avg)) == KpiHeaders(kpis)
    decreases |kpis|
  {
    if |kpis| > 0 {
      var init, last := kpis[..|kpis| - 1], kpis[|kpis| - 1];
      assert kpis == init + [last];
      TableHeaders(cars, init, values, avg);
      BuildTableSnoc(cars, init, last, values, avg);
    }
  }

  /** The list A, A, B gives the headers Car, A, B. */
  lemma RepeatedKpiHeaders(kpis: seq<string>, a: string, b: string)
    requires kpis == [a, a, b] && a != b && a != CarHeader && b != CarHeader
    ensures KpiHeaders(kpis) == [CarHeader, a, b]
  {
    assert kpis[..2][..1] == [a] && kpis[..2] == [a, a];
    assert KpiHeaders([a]) == [CarHeader, a];
    assert KpiHeaders([a, a]) == [CarHeader, a];
  }

  // ---------------------------------------------------------------------
  // Dashboard grid, summary and links

  const ChartsPerRow: nat := 2
  const ChartHeight: nat := 10
  const ChartWidth: nat := 15

  /** Row of the i-th dashboard chart's anchor cell. */
  function AnchorRow(i: nat): nat {
    4 + (i / ChartsPerRow) * (ChartHeight + 2)
  }

  /** Column of the i-th dashboard chart's anchor cell. */
  function AnchorCol(i: nat): nat {
    1 + (i % ChartsPerRow) * (ChartWidth + 1)
  }

  /** Two charts never share an anchor cell. */
  lemma AnchorsDistinct(i: nat, j: nat)
    requires i != j
    ensures AnchorRow(i) != AnchorRow(j) || AnchorCol(i) != AnchorCol(j)
  {
    assert i == 2 * (i / 2) + i % 2 && j == 2 * (j / 2) + j % 2;
  }

  /** `summary_row` for n KPIs, with Python's floor division (for n = 0,
      (0 - 1) // 2 is -1). It lies two rows below the band of the last grid
      row, so below every chart's band. */
  function SummaryRow(n: nat): (r: int)
    ensures n == 0 ==> r == 6
    ensures n > 0 ==> r == AnchorRow(n - 1) + ChartHeight + 2 + 2
    ensures forall i :: 0 <= i < n ==> AnchorRow(i) + ChartHeight + 2 < r
  {
    var r := 4 + ((n - 1) / ChartsPerRow + 1) * (ChartHeight + 2) + 2;
    assert forall i :: 0 <= i < n ==> i / 2 <= (n - 1) / 2;
    r
  }

  /** The row of the i-th KPI's link: below the "Detailed KPI Charts:" line,
      which sits two rows under the summary heading. */
  function LinkRow(n: nat, i: nat): int {
    SummaryRow(n) + 2 + 1 + i
  }

  /** Links occupy distinct rows below the summary heading and below every
      chart band. */
  lemma LinkRowsBelow(n: nat, i: nat, j: nat)
    requires i < n && j < n
    ensures LinkRow(n, i) > SummaryRow(n) + 2
    ensures LinkRow(n, i) > AnchorRow(j) + ChartHeight + 2
    ensures i != j ==> LinkRow(n, i) != LinkRow(n, j)
  {
  }

  // ---------------------------------------------------------------------
  // Column widths

  /** `str(value)` of a cell; the printing of a number is a parameter. */
  function Render(c: Cell, show: real -> string): string {
    match c
    case Str(s) => s
    case Num(x) => show(x)
  }

  /** The texts of one column of the main sheet, header row first. */
  function ColumnTexts(col: Column, show: real -> string): (texts: seq<string>)
    ensures |texts| == |col.cells| + 1 && texts[0] == col.header
    ensures forall i :: 0 <= i < |col.cells| ==> texts[i + 1] == Render(col.cells[i], show)
  {
    [col.header] + seq(|col.cells|, i requires 0 <= i < |col.cells| => Render(col.cells[i], show))
  }

  /** The longest length among the texts, 0 for none. */
  function Longest(texts: seq<string>): (m: nat)
    ensures forall i :: 0 <= i < |texts| ==> |texts[i]| <= m
    ensures |texts| == 0 ==> m == 0
    ensures |texts| > 0 ==> exists i :: 0 <= i < |texts| && |texts[i]| == m
  {
    if |texts| == 0 then 0
    else
      var m := Longest(texts[..|texts| - 1]);
      assert forall i :: 0 <= i < |texts| - 1 ==> texts[..|texts| - 1][i] == texts[i];
      if |texts[|texts| - 1]| > m then |texts[|texts| - 1]| else m
  }

  /** The auto-width loop for one column: the running maximum of the
      lengths, plus a padding of 4. */
  method ColumnWidth(texts: seq<string>) returns (w: nat)
    ensures w == Longest(texts) + 4
    ensures forall i :: 0 <= i < |texts| ==> |texts[i]| + 4 <= w
  {
    var longest := 0;
    var i := 0;
    while i < |texts|
      invariant 0 <= i <= |texts|
      invariant longest == Longest(texts[..i])
    {
      assert texts[..i + 1][..i] == texts[..i];
      if |texts[i]| > longest {
        longest := |texts[i]|;
      }
      i := i + 1;
    }
    assert texts[..i] == texts;
    w := longest + 4;
  }

  /** The texts of every column of the main sheet, left to right. */
  function SheetTexts(t: Table, show: real -> string): (cols: seq<seq<string>>)
    ensures |cols| == |t|
    ensures forall i :: 0 <= i < |t| ==> cols[i] == ColumnTexts(t[i], show)
  {
    seq(|t|, i requires 0 <= i < |t| => ColumnTexts(t[i], show))
  }

  /** The auto-width loop over all columns: one width per column, each the
      longest text of that column plus 4. */
  method ColumnWidths(cols: seq<seq<string>>) returns (widths: seq<nat>)
    ensures |widths| == |cols|
    ensures forall i :: 0 <= i < |cols| ==> widths[i] == Longest(cols[i]) + 4
  {
    widths := [];
    var i := 0;
    while i < |cols|
      invariant 0 <= i <= |cols|
      invariant |widths| == i
      invariant forall j :: 0 <= j < i ==> widths[j] == Longest(cols[j]) + 4
    {
      var w := ColumnWidth(cols[i]);
      widths := widths + [w];
      i := i + 1;
    }
  }

  /** `format_excel_worksheet` on the main sheet: every column gets room for
      its header and for every rendered cell, plus a padding of 4, and no
      more than its longest text needs. */
  method SheetWidths(t: Table, show: real -> string) returns (widths: seq<nat>)
    ensures |widths| == |t|
    ensures forall i :: 0 <= i < |t| ==> widths[i] == Longest(ColumnTexts(t[i], show)) + 4
    ensures forall i :: 0 <= i < |t| ==> |t[i].header| + 4 <= widths[i]
    ensures forall i, j :: 0 <= i < |t| && 0 <= j < |t[i].cells| ==>
              |Render(t[i].cells[j], show)| + 4 <= widths[i]
  {
    var cols := SheetTexts(t, show);
    widths := ColumnWidths(cols);
    forall i, j | 0 <= i < |t| && 0 <= j < |t[i].cells|
      ensures |Render(t[i].cells[j], show)| + 4 <= widths[i]
    {
      assert cols[i][j + 1] == Render(t[i].cells[j], show);
    }
  }
}
