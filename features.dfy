/** What the ILWIS-3 feature loaders hand to the coverage and its
    attribute table, one record per created feature. */
module Features {
  import opened Wrappers
  import opened Bytes
  import opened Float64
  import opened Geometry

  /** The three feature types of a coverage (itPOINT, itLINE and
      itPOLYGON); a coverage's featureTypes() is a set of them. */
  datatype FeatureKind = PointKind | LineKind | PolygonKind

  /** Where the key passed to newFeature comes from: the table row, or a
      double of the data file converted to quint32. */
  datatype FeatureId = Row(index: nat) | Converted(raw: Double)

  /** The key passed to newFeature and written to the coverage-key cell. */
  function Key(id: FeatureId): (k: nat)
    ensures id.Converted? ==> k < U32Limit
  {
    match id
    case Row(index) => index
    case Converted(raw) => TruncToUInt32(raw)
  }

  /** One created feature: the table row it was read from, its geometry,
      where its key comes from, and the value written to the
      feature-value cell (numeric maps only; other maps get a feature-id
      cell from the coverage instead). */
  datatype Loaded = Loaded(row: nat, geometry: Geom, id: FeatureId, value: Option<Double>)

  /** The key rule shared by the loaders: a map with a value range
      (BaseMap/Range defined) is keyed by row and stores the value; any
      other map is keyed by the value converted to quint32. */
  function Keyed(isNumeric: bool, row: nat, geometry: Geom, v: Double): (f: Loaded)
    ensures f.row == row && f.geometry == geometry
    ensures isNumeric ==> Key(f.id) == row && f.value == Some(v)
    ensures !isNumeric ==> f.id == Converted(v) && f.value.None?
  {
    if isNumeric then Loaded(row, geometry, Row(row), Some(v))
    else Loaded(row, geometry, Converted(v), None)
  }
}
