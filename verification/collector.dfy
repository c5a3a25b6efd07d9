/** The collector script (DataSnatcherICEEV.py) as a whole: the catalog is
    chosen, the matrix filled and the Average row appended; the values file
    is what the run would write. */
module Collector {
  import opened Wrappers
  import opened Numbers
  import opened JsonValues
  import opened DataFiles
  import opened CarCatalog
  import opened KpiMatrix

  /** Step 1 as a whole: reuse the saved catalog `file` or fetch a new car
      list and draw five KPIs. `response` is the reply to the car-list
      prompt and `picks` the outcome of `random.sample`. Reused lists are
      walked as the fill loop walks them. */
  function ChooseCatalog(file: Option<Json>, response: Option<Json>, picks: seq<nat>): (r: Result<Catalog>)
    requires ValidPicks(picks)
    ensures LoadCatalog(file).Reuse? ==>
              var load := LoadCatalog(file);
              && (r.Success? <==> Entries(load.cars).Success? && Entries(load.kpis).Success?)
              && (r.Success? ==> r.value == Catalog(Entries(load.cars).value, Entries(load.kpis).value))
              && (IsStringList(load.kpis) && IsStringList(load.cars) ==>
                    r == Success(ReusedCatalog(load.kpis, load.cars)))
    ensures LoadCatalog(file).Refetch? ==> r == FetchCatalog(response, picks)
    ensures LoadCatalog(file).LoadRaises? ==> r.Failure?
    ensures r.Success? ==> |r.value.cars| == CarsNeeded
  {
    match LoadCatalog(file)
    case Reuse(kpis, cars) =>
      if Entries(cars).Failure? then Failure(Entries(cars).reason)
      else if Entries(kpis).Failure? then Failure(Entries(kpis).reason)
      else Success(Catalog(Entries(cars).value, Entries(kpis).value))
    case LoadRaises => Failure("TypeError")
    case Refetch => FetchCatalog(response, picks)
  }

  /** A saved file holding the KPI value `kpis` and a car string of 20
      characters is reused as it is. */
  lemma SavedStringLoads(kpis: Json, cars: string)
    requires |cars| == CarsNeeded
    ensures LoadCatalog(Some(JObj(map[KpisKey := kpis, CarsKey := JStr(cars)]))) == Reuse(kpis, JStr(cars))
  {
    var fields := map[KpisKey := kpis, CarsKey := JStr(cars)];
    assert KpisKey in fields && fields[KpisKey] == kpis;
    assert SavedCars(fields) == Some(JStr(cars));
  }

  /** A saved car string of 20 characters is reused as 20 one-character
      car names. */
  lemma ReusedStringIsCharacters(kpis: seq<string>, cars: string, response: Option<Json>, picks: seq<nat>)
    requires |cars| == CarsNeeded && ValidPicks(picks)
    ensures ChooseCatalog(Some(JObj(map[KpisKey := FromStrings(kpis), CarsKey := JStr(cars)])), response, picks)
              == Success(Catalog(seq(|cars|, i requires 0 <= i < |cars| => [cars[i]]), kpis))
  {
    var file := Some(JObj(map[KpisKey := FromStrings(kpis), CarsKey := JStr(cars)]));
    SavedStringLoads(FromStrings(kpis), cars);
    StringEntries(cars);
    StringListEntries(kpis);
    ReuseChooses(file, response, picks);
  }

  /** On the reuse path with both lists readable, the catalog is their entries. */
  lemma ReuseChooses(file: Option<Json>, response: Option<Json>, picks: seq<nat>)
    requires ValidPicks(picks) && LoadCatalog(file).Reuse?
    requires Entries(LoadCatalog(file).cars).Success? && Entries(LoadCatalog(file).kpis).Success?
    ensures ChooseCatalog(file, response, picks)
              == Success(Catalog(Entries(LoadCatalog(file).cars).value, Entries(LoadCatalog(file).kpis).value))
  {
  }

  /** A saved string's entries are its characters. */
  lemma StringEntries(s: string)
    ensures Entries(JStr(s)) == Success(seq(|s|, i requires 0 <= i < |s| => [s[i]]))
  {
  }

  /** A saved list of strings gives back those strings. */
  lemma StringListEntries(xs: seq<string>)
    ensures Entries(FromStrings(xs)) == Success(xs)
  {
  }

  /** A saved `null` KPI list stops the run. */
  lemma NullKpisStopRun(cars: string, response: Option<Json>, picks: seq<nat>)
    requires |cars| == CarsNeeded && ValidPicks(picks)
    ensures ChooseCatalog(Some(JObj(map[KpisKey := JNull, CarsKey := JStr(cars)])), response, picks).Failure?
  {
    SavedStringLoads(JNull, cars);
  }

  datatype Collected = Collected(catalog: Catalog, values: Matrix)

  /** What a run yields given the catalog step's outcome `chosen` and the
      cell replies: it succeeds exactly when the catalog was chosen and the
      matrix could be tabulated, and then it holds that catalog and its
      values file. */
  predicate RunOutcome(r: Result<Collected>, chosen: Result<Catalog>, cell: CellSource) {
    && (r.Success? <==> chosen.Success? && Tabulates(cell, chosen.value.cars, chosen.value.kpis))
    && (r.Success? ==>
          && r.value.catalog == chosen.value
          && ValuesFile(r.value.values, cell, r.value.catalog.cars, r.value.catalog.kpis))
  }

  /** The collector end to end: the catalog step, then steps 2 and 3 with
      each cell the reading of the reply to its prompt; a finished run holds
      20 cars. */
  method Collect(file: Option<Json>, carsReply: Option<Json>, picks: seq<nat>, reply: Replies)
    returns (r: Result<Collected>)
    requires ValidPicks(picks)
    ensures RunOutcome(r, ChooseCatalog(file, carsReply, picks), Cells(reply))
    ensures r.Success? ==> |r.value.catalog.cars| == CarsNeeded
  {
    var catalog := ChooseCatalog(file, carsReply, picks);
    if catalog.Failure? {
      return Failure(catalog.reason);
    }
    var values := Tabulate(catalog.value.cars, catalog.value.kpis, Cells(reply));
    if values.Failure? {
      return Failure(values.reason);
    }
    return Success(Collected(catalog.value, values.value));
  }
}
