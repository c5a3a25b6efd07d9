/** The two JSON files the three scripts share: the catalog file, an object
    holding the KPI list and the car list, and the values file, which maps
    each car (and the "Average" row) to its KPI values. */
module DataFiles {

  /** Catalog key of the KPI list. */
  const KpisKey := "top_5_KPIs"
  /** Catalog key of the car list. */
  const CarsKey := "top_cars_US_2024"
  /** The values file's row of per-KPI averages. */
  const AverageKey := "Average"

  /** Car name -> KPI name -> value, the content of the values file. */
  type Matrix = map<string, map<string, real>>

  /** `values[car].get(kpi, 0)`: a missing KPI reads as 0. */
  function ValueOrZero(values: Matrix, car: string, kpi: string): real
    requires car in values
  {
    if kpi in values[car] then values[car][kpi] else 0.0
  }
}
