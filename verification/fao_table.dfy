/**
 The record model of an FAO production table, as the split by geography sees it.

 Only two columns are inspected: `Area Code` (an integer; codes below 500
 denote single countries, codes above 500 aggregate regions) and `Area` (the
 geographic name). Every other column (Year, Item, Element, Unit, Value,
 Flag, ...) is carried along untouched in `others`, so that "no column is
 altered" can be stated as plain row equality.
 */
module FaoTable {

  /** The value held by one of the columns the split does not inspect. */
  datatype Cell = Text(text: string) | Number(value: real) | Blank

  /** One record: the two inspected columns, and every other column by name. */
  datatype Row = Row(areaCode: int, area: string, others: map<string, Cell>)

  /** A table with a fresh index: the index label of a row is its position. */
  type Table = seq<Row>

  /** A table that keeps an index label beside each row, as a boolean-mask
      selection does before the index is reset. */
  type Frame = seq<(nat, Row)>

  /** The area-code boundary between countries and aggregate regions. */
  const RegionCodeBoundary: int := 500

  /** The six names the continent bucket matches, compared exactly. */
  const ContinentNames: seq<string> :=
    ["Africa", "Northern America", "South America", "Asia", "Oceania", "Europe"]

  /** A single country: `Area Code < 500`. */
  predicate IsCountry(r: Row) {
    r.areaCode < RegionCodeBoundary
  }

  /** An aggregate region: `Area Code > 500`. */
  predicate IsRegion(r: Row) {
    r.areaCode > RegionCodeBoundary
  }

  /** A continent row: `Area` is one of the six names, whatever its code. */
  predicate IsContinent(r: Row) {
    r.area in ContinentNames
  }

  /** A row sitting exactly on the boundary code, which neither numeric bucket takes. */
  predicate OnBoundary(r: Row) {
    r.areaCode == RegionCodeBoundary
  }

  /** A row no bucket takes: on the boundary and not continent-named. */
  predicate Unclaimed(r: Row) {
    OnBoundary(r) && !IsContinent(r)
  }
}
