# 2024 car KPI pipeline: a Dafny model

The repository gathers KPI figures for the twenty most bought US cars of
2024 and presents them. Three Python scripts do the work:

- `DataSnatcherICEEV.py`, the collector. It reads or rebuilds the catalog of
  cars and KPIs, asks a chat-completion API for one number per car and KPI,
  and appends an "Average" row.
- `toExcel.py`, the report. It validates the two JSON files, computes
  rounded averages and builds a spreadsheet: the main table, one chart sheet
  per KPI, and a dashboard with mini charts and links.
- `streamlit_dashboard.py`, the dashboard. It computes the KPI tiles, the
  comparison and trend rows, and the top and bottom car per KPI.

This project models the pure logic between their I/O calls and proves what
that logic promises. The modules are:

- `Wrappers` (wrappers.dfy): `Option` and `Result`.
- `Text` (text.dfy): Python's `strip`, `split`, `join`, `replace`, slicing and `in` on strings.
- `Numbers` (numbers.dfy): `sum`, mean, `max`, `min` and `round(x, 2)` over reals.
- `JsonValues` (json.dfy): decoded JSON values, truthiness and `len`.
- `DataFiles` (files.dfy): the keys of the catalog file and the shape of the values file.
- `Extraction` (extraction.dfy): `extract_value` and `extract_content`.
- `CarCatalog` (catalog.dfy): reading, fetching and writing back the catalog.
- `KpiMatrix` (matrix.dfy): the fill loop and the Average row.
- `Collector` (collector.dfy): the collector end to end.
- `Exporter` (exporter.dfy): `validate_json_data`, `calculate_averages` and `create_dataframe`.
- `Workbook` (workbook.dfy): sheet names, the sheet list, chart ranges, the dashboard grid and column widths.
- `Report` (report.dfy): `main` of the report and its exit status.
- `Dashboard` (dashboard.dfy): the dashboard's selection logic.
- `Policies` (policies.dfy): how the three scripts' averages relate.

Numbers are `real`. Only `extract_value`'s result keeps Python's distinction
between `int` and `float`. A Python exception the script does not catch is
modelled as a `Failure` result or a dedicated constructor. Two preconditions
remain, both in the dashboard and both about input shapes outside the model:
every car of the list has a row in the values file (`Dashboard.Rows`, the
`values_data[car]` lookup), and the historical file holds an object of
objects under "cars" (`Dashboard.HistoryShaped`, required by
`Dashboard.Trend`).

Where the written description of the system and the code differ, the model
follows the code:

- The detailed chart on each KPI sheet covers the Average row.
  `create_excel_charts` is called without `include_average`, and that
  parameter defaults to true.
- The KPI exclusion list removes nothing. None of the excluded names is in
  the pool, so all nine candidates can be drawn.
- The dollars-to-thousands rescaling applies to every KPI, not only to cost.
  A towing capacity of "5000" is stored as 5.
- Sheet names are derived without a collision check. Two KPIs that derive the
  same name leave the last one's chart. A KPI whose name derives "Dashboard"
  has its chart sheet replaced by the dashboard.

## Model

| member | source | states |
|---|---|---|
| Text.Strip | DataSnatcherICEEV.py:42 | `strip()` leaves no whitespace at either end and keeps one unbroken stretch of the input |
| Text.StripDropsOnlySpace | DataSnatcherICEEV.py:42 | everything `strip()` removes, before and after what it keeps, is whitespace |
| Text.StripIdempotent | DataSnatcherICEEV.py:94-95 | stripping an already stripped reply changes nothing |
| Text.SplitJoin | DataSnatcherICEEV.py:94 | splitting on a separator undoes joining pieces that do not contain it |
| Text.JoinSplit | DataSnatcherICEEV.py:94 | joining the pieces of a split gives the text back |
| Text.SplitConcat | DataSnatcherICEEV.py:94 | splitting a concatenation splits each part, the last piece of the first running into the first piece of the second |
| Text.StripPadded | DataSnatcherICEEV.py:95 | a stripped name padded with whitespace on both sides strips back to the name |
| Numbers.RoundHalfEven | toExcel.py:134 | the nearest integer, and an exact tie goes to the even neighbour |
| Numbers.Round2 | toExcel.py:134 | `round(x, 2)` is a whole number of hundredths within 0.005 of x |
| Numbers.MeanWithinRange | streamlit_dashboard.py:72-76 | the mean lies between the minimum and the maximum |
| Numbers.Max | streamlit_dashboard.py:76 | `max` bounds every element and is one of them |
| JsonValues.Len | DataSnatcherICEEV.py:83 | `len` is defined exactly for strings, lists and objects, and is 0 exactly for the falsy ones |
| Extraction.KeepNumeric | DataSnatcherICEEV.py:44 | the filter keeps only digits and dots, each taken from the input |
| Extraction.KeepNumericAppend | DataSnatcherICEEV.py:44 | filtering a concatenation filters each part, in order |
| Extraction.KeepNumericStrip | DataSnatcherICEEV.py:42-44 | stripping before the filter does not change what it keeps |
| Extraction.ParseDecimal | DataSnatcherICEEV.py:48-59 | `float()` on digits and dots succeeds exactly for a numeral with at least one digit and at most one dot, and is never negative |
| Extraction.AsNumber | DataSnatcherICEEV.py:56 | the value is unchanged, and it is an int exactly when it is whole |
| Extraction.Rescale | DataSnatcherICEEV.py:52-53 | values up to 1000 are kept; larger ones are divided by 1000 once and stay above 1 |
| Extraction.ExtractValue | DataSnatcherICEEV.py:41-59 | the result is never negative, is an int exactly when whole, and is 0 when no numeral survives the filter |
| Extraction.ExtractValueParsed | DataSnatcherICEEV.py:50-56 | a parsed numeral v gives v/1000 above 1000 and v otherwise |
| Extraction.ExtractValueNoDigits | DataSnatcherICEEV.py:44-47 | a reply without any digit gives 0 |
| Extraction.WholeReplyRoundTrip | DataSnatcherICEEV.py:41-59 | a whole number n written among digit-free text reads back as n, or as n/1000 above 1000 |
| Extraction.FractionReplyRoundTrip | DataSnatcherICEEV.py:41-59 | a reply "w.f" followed by a unit reads back as w + f/10^digits(f) |
| Extraction.DollarsReadAsThousands | DataSnatcherICEEV.py:52-53 | "25000" reads as the int 25 |
| Extraction.UnitIsIgnored | DataSnatcherICEEV.py:44-56 | "14.5 mpg" reads as the float 14.5 |
| Extraction.ThousandIsKept | DataSnatcherICEEV.py:52 | exactly 1000 is not rescaled |
| Extraction.NotAvailableIsZero | DataSnatcherICEEV.py:45-47 | "N/A" reads as 0 |
| Extraction.TwoDotsIsZero | DataSnatcherICEEV.py:57-59 | "1.2.3" fails to parse and reads as 0 |
| Extraction.SignIsDropped | DataSnatcherICEEV.py:44 | "-7" reads as 7: the sign is filtered away |
| Extraction.FirstChoiceContent | DataSnatcherICEEV.py:63-64 | content is found exactly for a well-formed reply; a missing response, one without "choices" and one with an empty "choices" give no reply; an object response raises exactly when its "choices" is present, not empty and the first choice's content cannot be read |
| Extraction.ExtractContent | DataSnatcherICEEV.py:62-67 | no usable reply, including an empty list of choices, gives 0; a well-formed reply gives `extract_value` of its content; an object response fails exactly when the lookup raises |
| Extraction.EmptyChoicesReadAsZero | DataSnatcherICEEV.py:63-67 | a reply with an empty choices list reads as 0, and one whose first choice lacks "message" stops the run |
| CarCatalog.SavedCars | DataSnatcherICEEV.py:77-82 | the current car key wins; the legacy key is read only when the current one is absent |
| CarCatalog.LoadCatalog | DataSnatcherICEEV.py:72-88 | the saved lists are reused exactly when the KPI key and a car key are present and that car list has 20 entries; the load raises exactly when the file is not an object, or the car list it reads has no `len`; a missing file refetches |
| CarCatalog.CurrentKeyWins | DataSnatcherICEEV.py:77-84 | 19 cars under the current key refetch even when the legacy key has 20 |
| CarCatalog.NineteenCarsRefetch | DataSnatcherICEEV.py:83-84 | a saved catalog of 19 cars is not reused |
| CarCatalog.CleanLines | DataSnatcherICEEV.py:95 | no line is added |
| CarCatalog.CleanLinesAreNames | DataSnatcherICEEV.py:95 | every kept line is non-blank and stripped |
| CarCatalog.CarLines | DataSnatcherICEEV.py:94-95 | every parsed car name is non-blank, stripped and free of newlines |
| CarCatalog.CleanLinesAppend | DataSnatcherICEEV.py:95 | cleaning works line by line: the lines of a + b clean to the cleaned lines of a followed by those of b |
| CarCatalog.CleanLinesOne | DataSnatcherICEEV.py:95 | a single line is kept, stripped, exactly when its stripped form is not empty |
| CarCatalog.CleanLinesBlank | DataSnatcherICEEV.py:95 | lines of whitespace only are all dropped |
| CarCatalog.CarLinesAreCleanLines | DataSnatcherICEEV.py:94-95 | the outer `strip()` changes nothing: the car list is the cleaned lines of the whole reply |
| CarCatalog.CarLinesOfLines | DataSnatcherICEEV.py:94-95 | lines joined with newlines parse back to their cleaned form: padded names come back stripped and blank lines vanish |
| CarCatalog.PaddedReplyParses | DataSnatcherICEEV.py:94-95 | "  Camry LE \n\n Model 3\n" parses to ["Camry LE", "Model 3"] |
| CarCatalog.Entries | DataSnatcherICEEV.py:122-124 | a saved string is walked character by character and a list of strings string by string, with as many entries as its `len`; a value without `len` raises |
| CarCatalog.CarLinesRoundTrip | DataSnatcherICEEV.py:94-95 | names written one per line parse back to the same list |
| CarCatalog.CleanLinesOfNames | DataSnatcherICEEV.py:95 | cleaning lines that are already clean names changes nothing |
| CarCatalog.FetchCars | DataSnatcherICEEV.py:93-101 | a fetched list is accepted exactly when the reply is well formed and yields 20 names |
| CarCatalog.Without | DataSnatcherICEEV.py:110 | the filtered pool holds exactly the candidates not excluded |
| CarCatalog.ExclusionRemovesNothing | DataSnatcherICEEV.py:104-110 | the exclusion leaves all nine candidates, pairwise different |
| CarCatalog.PickKpis | DataSnatcherICEEV.py:111 | five distinct positions of the pool give five distinct KPIs |
| CarCatalog.CatalogRoundTrip | DataSnatcherICEEV.py:72-117 | a catalog written by the fetch path is reused unchanged by the next run |
| CarCatalog.FetchCatalog | DataSnatcherICEEV.py:89-118 | the fetch path succeeds exactly when the car list does, with 20 cars and 5 KPIs |
| CarCatalog.ReusedCatalog | DataSnatcherICEEV.py:75-80 | the reused lists write back to the same JSON lists |
| KpiMatrix.Prompt | DataSnatcherICEEV.py:125-129 | every prompt names its car, and every prompt except the cost prompt names its KPI |
| KpiMatrix.CellValue | DataSnatcherICEEV.py:125-132 | a query's cell holds the non-negative value `extract_content` gives for the reply to that query's prompt, and fails when that raises |
| KpiMatrix.FillRow | DataSnatcherICEEV.py:123-132 | a row succeeds exactly when every query of the row can be read, and then holds exactly its KPIs, each with the value of its last query |
| KpiMatrix.FillMatrix | DataSnatcherICEEV.py:122-132 | the matrix succeeds exactly when every query can be read, and then every car has every KPI with the value of the last query for that pair |
| KpiMatrix.LastQueryWins | DataSnatcherICEEV.py:122-132 | a car and KPI that do not occur again later keep exactly their own query's value |
| KpiMatrix.RepeatedCarKeepsSecondRound | DataSnatcherICEEV.py:122-132 | a car listed twice keeps the values of its second round of queries |
| KpiMatrix.ColumnAverage | DataSnatcherICEEV.py:137-138 | the average times the number of cars is the column sum; no cars gives 0 |
| KpiMatrix.AddAverageRow | DataSnatcherICEEV.py:135-139 | the Average row is added, holding each KPI's column average, and every other row is unchanged; a car named "Average" makes the next read raise |
| KpiMatrix.AverageRowHoldsMean | DataSnatcherICEEV.py:135-139 | in the written file, Average times the car count is the sum of that KPI's column |
| KpiMatrix.AverageWithinColumn | DataSnatcherICEEV.py:137-139 | each average lies between its column's minimum and maximum |
| KpiMatrix.AveragedIsValuesFile | DataSnatcherICEEV.py:121-139 | a filled matrix with its Average row is a values file |
| KpiMatrix.Tabulate | DataSnatcherICEEV.py:120-139 | steps 2 and 3 succeed exactly when every reply can be read and no car is named "Average"; the result is then a values file |
| Collector.ChooseCatalog | DataSnatcherICEEV.py:69-124 | a reused catalog succeeds exactly when both saved lists can be walked, and holds their entries; string lists are reused as they are; otherwise the catalog is refetched or the run fails, as the load says; a chosen catalog has 20 cars |
| Collector.ReusedStringIsCharacters | DataSnatcherICEEV.py:75-124 | a saved car string of 20 characters is reused as 20 one-character car names |
| Collector.NullKpisStopRun | DataSnatcherICEEV.py:75-124 | a saved `null` KPI list stops the run |
| Collector.Collect | DataSnatcherICEEV.py:69-139 | a run succeeds exactly when a catalog was chosen and tabulated, and then it holds 20 cars and their values file |
| Exporter.FirstMissing | toExcel.py:99-101 | the first listed car without a row, or the car count when every car has one |
| Exporter.CheckCars | toExcel.py:98-107 | all cars pass exactly when each has a row and the KPIs are hashable; it raises exactly when the first car without a row is unhashable or an earlier car ran the KPI loop over an unhashable KPI; otherwise it fails naming that first car |
| Exporter.Validate | toExcel.py:72-109 | validation passes exactly for well-formed data; missing keys, a bad KPI list and a bad car list are each reported exactly when they occur; with hashable entries it never raises and a failure names the first car without a row |
| Exporter.ValidationIgnoresRows | toExcel.py:103-107 | validation depends only on which cars have rows, not on their KPIs: a missing KPI only warns |
| Exporter.KpiValues | toExcel.py:128 | one value per car, in order, with a missing KPI read as 0 |
| Exporter.Averages | toExcel.py:124-139 | one average per KPI, within 0.005 of the mean over all cars and a whole number of hundredths; 0 without cars |
| Exporter.Lookup | toExcel.py:164 | a header can be looked up exactly when it is among the table's headers |
| Exporter.Put | toExcel.py:164 | writing a column keeps the headers when the name exists and appends it otherwise |
| Exporter.PutLookup | toExcel.py:164 | after writing a column its name reads back the new cells and every other name reads as before |
| Exporter.CarCells | toExcel.py:157 | the "Car" column is the car names followed by "Average" |
| Exporter.KpiCells | toExcel.py:161-163 | a KPI column is each car's value, defaulting to 0, followed by the KPI's average |
| Exporter.BuildTable | toExcel.py:142-169 | the table starts with "Car", its headers are distinct and are exactly "Car" and the KPIs, and every column has one cell per car plus one |
| Exporter.BuildTableSnoc | toExcel.py:160-164 | one more KPI appends its header unless it is already there |
| Exporter.TableLookup | toExcel.py:157-164 | each KPI reads back its own column; without a KPI named "Car", "Car" reads back the car names |
| Workbook.TableHeaders | toExcel.py:157-164 | the table's headers are "Car" followed by each KPI at its first occurrence, in list order |
| Exporter.SimpleTableHeaders | toExcel.py:157-164 | with distinct KPIs none named "Car", the headers are "Car" followed by the KPIs in order |
| Workbook.SheetName | toExcel.py:267 | at most 31 characters, a prefix of the KPI with every space replaced by "_" |
| Workbook.SheetNameNotMain | toExcel.py:267-270 | a chart sheet name holds no space, so it never replaces the main sheet |
| Workbook.SheetNameIdempotent | toExcel.py:267 | deriving the name from a sheet name changes nothing |
| Workbook.LinkOpensSheetName | toExcel.py:393-397 | each dashboard link opens the sheet name the chart loop derives for the same KPI |
| Workbook.Find | toExcel.py:268 | a sheet is found exactly when its name is in the workbook |
| Workbook.Remove | toExcel.py:268-269 | removal drops exactly the named sheet |
| Workbook.RemoveFind | toExcel.py:268-269 | after removal the name is gone and every other name reads as before |
| Workbook.AddChartFacts | toExcel.py:266-270 | one chart pass keeps names distinct; the new name holds its chart and every other name reads as before |
| Workbook.LastNamed | toExcel.py:265-270 | the last KPI deriving a given name, or none when no KPI derives it |
| Workbook.LastNamedUnique | toExcel.py:265-270 | a KPI whose sheet name no other KPI shares keeps its own chart |
| Workbook.AddChartsFind | toExcel.py:265-270 | after the chart loop a derived name holds the chart of the last KPI deriving it, and other names are unchanged |
| Workbook.ChartSheetsFacts | toExcel.py:257-309 | after the chart loop, names are distinct, the main sheet is kept, and each KPI's name holds a chart |
| Workbook.AddDashboardFacts | toExcel.py:320-324 | the dashboard comes first, names stay distinct, and other sheets are kept |
| Workbook.ReportSheetsFacts | toExcel.py:257-324 | the finished sheet list: dashboard first, names distinct, main sheet kept, every KPI's sheet name present; unless that name is "Dashboard" it holds the chart of the last KPI deriving it |
| Workbook.DetailedChart | toExcel.py:260-293 | the detailed chart reads rows 2 to max_row, one per car plus the Average row, with a palette colour |
| Workbook.HeaderColumn | toExcel.py:357-361 | the search finds the first column whose header is the KPI, and finds one exactly when the KPI is a header |
| Workbook.DashboardChart | toExcel.py:351-372 | a mini chart exists exactly when the KPI is a header; it reads that column over the car rows only |
| Workbook.ColoursCycle | toExcel.py:293 | neighbouring charts differ in colour, and colours repeat every 7 KPIs |
| Workbook.DetailedColumnHoldsKpi | toExcel.py:282-364 | with distinct KPIs none named "Car", the detailed chart's fixed column is the KPI's own column, the one the dashboard finds |
| Workbook.RepeatedKpiShiftsColumns | toExcel.py:265-285 | for KPIs A, A, B the second A's chart reads a column not headed A, and B's chart reads past the last column |
| Workbook.AnchorsDistinct | toExcel.py:339-341 | two dashboard charts never share an anchor cell |
| Workbook.SummaryRow | toExcel.py:383 | the summary row is 6 without KPIs and otherwise lies below every chart band |
| Workbook.LinkRowsBelow | toExcel.py:383-397 | link rows are distinct and below the summary heading and every chart |
| Workbook.ColumnTexts | toExcel.py:231-232 | a column's texts are its header followed by the printed cells |
| Workbook.Longest | toExcel.py:230-234 | the longest length bounds every text and is attained; 0 for none |
| Workbook.ColumnWidth | toExcel.py:227-237 | the loop's width is the longest text plus 4, at least every text's length plus 4 |
| Workbook.ColumnWidths | toExcel.py:227-237 | one width per column, each its longest text plus 4 |
| Workbook.SheetWidths | toExcel.py:227-237 | every column of the main sheet is wide enough for its header and every printed cell plus 4, and is its longest text plus 4 |
| Report.BuildReportBook | toExcel.py:427-446 | one detailed and one dashboard chart per KPI; every table column has one cell per car plus one |
| Report.RunExport | toExcel.py:403-457 | exit 0, with a report, exactly when both files load, validate, hold string KPIs and save; a validation error raises; every other path exits 1 without a report |
| Report.MissingCarRowExitsOne | toExcel.py:416-419 | a string catalog listing a car without a row in the values file exits 1 with no report |
| Report.SuccessBuildsReportBook | toExcel.py:421-457 | a successful run's report is the one built from the catalog's lists |
| Report.ReportBookFacts | toExcel.py:427-457 | for each KPI the detailed chart covers every car and the Average row; the dashboard chart reads the KPI's header over the car rows; the link opens an existing sheet |
| Dashboard.Filter | streamlit_dashboard.py:70 | the comprehension keeps only elements that pass, taken from the input |
| Dashboard.FilterComplete | streamlit_dashboard.py:70 | every element that passes is kept |
| Dashboard.FilterAppend | streamlit_dashboard.py:70 | filtering a concatenation filters each part, keeping order |
| Dashboard.FilterKeepsAll | streamlit_dashboard.py:84-86 | when every element passes, the filter is the identity |
| Dashboard.MetricValues | streamlit_dashboard.py:70 | one value per car holding the KPI, in car-list order, each that car's own value |
| Dashboard.TileOf | streamlit_dashboard.py:72-76 | the tile shows the mean, and mean plus delta is the maximum; the delta is never negative |
| Dashboard.TileIffSomeCarHolds | streamlit_dashboard.py:70-76 | a tile is shown exactly when some car holds the KPI, and it is the tile of those cars' values |
| Dashboard.Comparison | streamlit_dashboard.py:83-86 | the chart rows are the cars holding the KPI, in car-list order |
| Dashboard.ComparisonMatchesTile | streamlit_dashboard.py:70-86 | the bars carry the same values, in the same order, as the tile |
| Dashboard.ComparisonOfFullColumn | streamlit_dashboard.py:84-86 | when every car holds the KPI, the chart shows every car |
| Dashboard.Trend | streamlit_dashboard.py:106-119 | the trend section appears exactly when the file is non-empty and has "years" and "cars"; it has one line per car with a series, holding that series |
| Dashboard.FirstMaxUnique | streamlit_dashboard.py:165 | at most one car is the first maximiser |
| Dashboard.TopIndex | streamlit_dashboard.py:165 | `max` picks the first car with the greatest value, a missing KPI counting as 0 |
| Dashboard.BottomIndex | streamlit_dashboard.py:171 | `min` picks the first car with the least value, a missing KPI counting as 0 |
| Dashboard.InsightKpis | streamlit_dashboard.py:164 | insights cover the first min(3, number of KPIs) KPIs |
| Dashboard.Picks | streamlit_dashboard.py:162-172 | an insights column succeeds exactly when there is nothing to show, or there are cars and every picked car holds its KPI; then each line names its KPI, the picked car and its value |
| Dashboard.Insights | streamlit_dashboard.py:159-172 | both columns succeed under the same condition for top and bottom picks |
| Policies.SumsAgree | toExcel.py:126-132 | counting a missing KPI as 0 gives the same sum as leaving it out |
| Policies.ExportMeanAtMostTile | streamlit_dashboard.py:70-72 | with non-negative values the report's unrounded average never exceeds the tile's mean |
| Policies.CompleteColumnAgrees | DataSnatcherICEEV.py:137-138 | when every car holds the KPI, the report's average, the tile's mean and the collector's average coincide |
| Policies.ReportMatchesStoredAverage | toExcel.py:126-134 | on a file the collector wrote, the report's average is within 0.005 of the stored Average |

## Left out

- HTTP calls, and the credential and model name of `query_x_api`. They are I/O. Each reply enters the model as an already decoded JSON value: the `Replies` parameter and the car-list response.
- Reading and writing files, `os.makedirs` and `json.dump`. They are I/O. A missing or undecodable file is `None`. The collector's values file is the `Matrix` it would write.
- `random.sample`. It is randomness. The five drawn positions are a parameter (`CarCatalog.ValidPicks`).
- pandas and openpyxl internals, which are foreign libraries: fonts, fills, borders, the styled table, chart objects and workbook saving. `save_to_excel`'s outcome and the outcome of the openpyxl block are the `saved` and `finished` parameters of `Report.RunExport`. An openpyxl failure, such as a sheet title with a forbidden character, is folded into `finished`.
- `str()` of a number in the width loop. It is the `show` parameter of `Workbook.ColumnTexts`.
- Streamlit and Plotly rendering, page setup, CSS, `st.columns(len(kpis))` with no KPIs, and the `:.1f` formatting. These are UI. The KPI chosen in the sidebar is a parameter.
- `datetime.now()`, printing and logging. They have no effect on the data.
- Floating point. Numbers are exact reals, and `round(x, 2)` is half-to-even on reals.
- Numbers.Round2: the contract states closeness and whole hundredths, not the exact tie rule, which is stated on RoundHalfEven.
- Shapes of the values file other than an object of objects of numbers, which `Matrix` cannot hold. A falsy file such as `[]` makes the report's `main` exit 1 before validation; other shapes reach lookups whose outcome depends on the shape; booleans among the values are summed as 0 and 1. The catalog's lists of non-string entries are modelled as far as validation and `main`'s exit go.
- CarCatalog.Entries: a reused list holding numbers, booleans or `null`, and a reused object (walked by its keys in file order, which the `Json` map does not keep), give a `Failure`. The script goes on with such entries as keys and prints them into the prompts with `str()`. Lists holding lists or objects do raise `TypeError` in the script as well.
- Collector.ChooseCatalog: inherits the `CarCatalog.Entries` gap for reused lists of non-string entries and reused objects.
- Collector.Collect: inherits the same gap through `Collector.ChooseCatalog`.
- Extraction.KeepNumeric: keeps ASCII digits `0`-`9` only. Python's `\d` on a `str` keeps every Unicode decimal digit, for example Arabic-Indic or fullwidth digits, and `float()` parses them. The model drops such characters.
- Extraction.ExtractValue: inherits the ASCII-only digit class, so a reply written in non-ASCII decimal digits reads as 0 here, where Python gives its value.
- Workbook.AddChartFacts: sheet titles are compared exactly. openpyxl's `create_sheet` renames a title equal, up to case, to an existing one: "horsepower" after "Horsepower" becomes "horsepower1". The facts hold only when no two titles differ in case alone.
- Workbook.AddChartsFind: assumes the same exact-title semantics, so KPIs whose derived names differ only in case are not covered.
- Workbook.ChartSheetsFacts: "each KPI's name holds a chart" fails under that renaming for KPIs whose derived names differ only in case.
- Workbook.AddDashboardFacts: a KPI deriving a name equal to "Dashboard" up to case, such as "dashboard", makes openpyxl title the new sheet "Dashboard1". That case is not covered.
- Workbook.ReportSheetsFacts: inherits the case-insensitive renaming gap of the three members above.
- Report.RunExport: a non-string KPI fails at `kpi.replace`, after the table was saved. The model records exit 1 and no report, not the partly written file.
- Dashboard.Trend: requires the historical file to hold an object of objects under "cars". Other shapes raise inside the section.
- Dashboard.Picks: a picked car that lacks its KPI, and an empty car list, are `Failure` results rather than preconditions, because the script raises there.
- The dashboard's `main`, which composes the sections modelled above. Its load guard only decides whether anything is shown.
