/** The loaders of the ILWIS-3 feature connector (featureconnector.cpp):
    the indexed polygon format read through getRings, the line and point
    tables, the choice between the polygon formats, the dispatch on the
    coverage's feature type, and the detection of that type from the
    object definition file. Tables are given as their rows, already read;
    the features created and the table cells written are the sequence of
    Loaded records returned. */
module FeatureLoaders {
  import opened Seqs
  import opened Wrappers
  import opened Bytes
  import opened Float64
  import opened Text
  import opened Geometry
  import opened Features
  import opened Rings
  import opened PolygonStream
  import opened Odf

  // ---- the row loop shared by the loaders ----

  function Present(f: Option<Loaded>): seq<Loaded> {
    if f.Some? then [f.value] else []
  }

  /** The features a loader creates from the rows of its table, in row
      order: feature(r, i) is what row i gives, if anything. */
  function Collect<R>(rows: seq<R>, feature: (R, nat) -> Option<Loaded>): seq<Loaded>
    decreases |rows|
  {
    if rows == [] then []
    else
      var n := |rows| - 1;
      Collect(rows[..n], feature) + Present(feature(rows[n], n))
  }

  /** One more row adds its feature, if it has one. */
  lemma CollectStep<R>(rows: seq<R>, i: nat, feature: (R, nat) -> Option<Loaded>)
    requires i < |rows|
    ensures Collect(rows[..i + 1], feature) == Collect(rows[..i], feature) + Present(feature(rows[i], i))
  {
    TakeTake(rows, i, i + 1);
    assert rows[..i + 1][..i] == rows[..i];
  }

  /** feature records the row it was given. */
  ghost predicate KeepsRow<R(!new)>(feature: (R, nat) -> Option<Loaded>) {
    forall r: R, i: nat :: feature(r, i).Some? ==> feature(r, i).value.row == i
  }

  /** Every feature collected is the feature of its own row, the rows
      increase along the features, and every row that gives a feature is
      collected. */
  lemma {:induction false} CollectRows<R(!new)>(rows: seq<R>, feature: (R, nat) -> Option<Loaded>)
    requires KeepsRow(feature)
    ensures forall f :: f in Collect(rows, feature) ==>
              f.row < |rows| && feature(rows[f.row], f.row) == Some(f)
    ensures forall a, b :: 0 <= a < b < |Collect(rows, feature)| ==>
              Collect(rows, feature)[a].row < Collect(rows, feature)[b].row
    ensures forall k :: 0 <= k < |rows| && feature(rows[k], k).Some? ==>
              feature(rows[k], k).value in Collect(rows, feature)
    decreases |rows|
  {
    if rows != [] {
      var n := |rows| - 1;
      var init := rows[..n];
      var before := Collect(init, feature);
      var last := Present(feature(rows[n], n));
      CollectRows(init, feature);
      assert Collect(rows, feature) == before + last;
      forall f | f in before
        ensures f.row < n
      {
      }
      forall k | 0 <= k < n
        ensures rows[k] == init[k]
      {
      }
      forall f | f in last
        ensures f.row == n
      {
      }
    }
  }

  /** When every row gives a feature, feature i is row i's. */
  lemma {:induction false} CollectAll<R(!new)>(rows: seq<R>, feature: (R, nat) -> Option<Loaded>)
    requires forall r: R, i: nat :: feature(r, i).Some?
    ensures |Collect(rows, feature)| == |rows|
    ensures forall i :: 0 <= i < |rows| ==> Collect(rows, feature)[i] == feature(rows[i], i).value
    decreases |rows|
  {
    if rows != [] {
      var n := |rows| - 1;
      CollectAll(rows[..n], feature);
      forall i | 0 <= i < n
        ensures rows[..n][i] == rows[i]
      {
      }
    }
  }

  // ---- loadBinaryPolygons30 ----

  /** A row of the polygon table: its Area, its TopStart already converted
      to qint32, and its PolygonValue. */
  datatype PolRow = PolRow(area: Double, topStart: int, value: Double)

  /** The polygon built from the rings getRings returns: the first ring is
      the outer ring, the others are the holes in order. inners() is
      resized to |rings| - 1 before the hole loop, which the code as
      written omits (see HolesAsWritten). */
  method AssemblePolygon(rings: seq<Ring>) returns (polygon: Polygon)
    requires |rings| > 0
    ensures polygon == Polygon(rings[0], rings[1..])
    ensures Some(polygon.inners) == HolesFilled(Blank(|rings| - 1), rings, 1)
  {
    HolesAfterResize(Blank(|rings| - 1), rings, 1);
    var inners: seq<Ring> := Blank(|rings| - 1);
    var j := 1;
    while j < |rings|
      invariant 1 <= j <= |rings| && |inners| == |rings| - 1
      invariant forall k :: 0 <= k < j - 1 ==> inners[k] == rings[k + 1]
    {
      inners := inners[j - 1 := rings[j]];
      j := j + 1;
    }
    polygon := Polygon(rings[0], inners);
  }

  /** n empty rings: the holes after inners().resize(n). */
  function Blank(n: nat): (r: seq<Ring>)
    ensures |r| == n
  {
    if n == 0 then [] else Blank(n - 1) + [[]]
  }

  /** The assignment inners()[i] = r: None when i is out of range, where
      C++ leaves it undefined. */
  function SetAt(inners: seq<Ring>, i: int, r: Ring): (v: Option<seq<Ring>>)
    ensures v.Some? <==> 0 <= i < |inners|
    ensures v.Some? ==> v.value == inners[i := r]
  {
    if 0 <= i < |inners| then Some(inners[i := r]) else None
  }

  /** The hole loop `inners()[j-1] = rings[j]` for j from `j` on, starting
      from the holes `inners`; None once an assignment is out of range. */
  function HolesFilled(inners: seq<Ring>, rings: seq<Ring>, j: nat): Option<seq<Ring>>
    requires 1 <= j <= |rings|
    decreases |rings| - j
  {
    if j == |rings| then Some(inners)
    else
      match SetAt(inners, j - 1, rings[j])
      case None => None
      case Some(v) => HolesFilled(v, rings, j + 1)
  }

  /** The hole loop as written runs on the holes of a fresh polygon,
      which inners() never resizes. */
  function HolesAsWritten(rings: seq<Ring>): Option<seq<Ring>>
    requires |rings| > 0
  {
    HolesFilled([], rings, 1)
  }

  /** The hole loop stays in range exactly when there are enough holes to
      write into. */
  lemma {:induction false} HolesFilledDefined(inners: seq<Ring>, rings: seq<Ring>, j: nat)
    requires 1 <= j <= |rings|
    ensures HolesFilled(inners, rings, j).Some? <==> j == |rings| || |rings| - 1 <= |inners|
    decreases |rings| - j
  {
    if j < |rings| && j - 1 < |inners| {
      HolesFilledDefined(inners[j - 1 := rings[j]], rings, j + 1);
    }
  }

  /** As written, loadBinaryPolygons30 is undefined for every polygon with
      a hole: the first hole is written to inners()[0] of an empty
      vector. */
  lemma HolesUndefinedWithoutResize(rings: seq<Ring>)
    requires |rings| > 0
    ensures HolesAsWritten(rings).Some? <==> |rings| == 1
  {
    HolesFilledDefined([], rings, 1);
  }

  /** With inners() resized to |rings| - 1 first, the loop makes the holes
      rings[1..], in order. */
  lemma {:induction false} HolesAfterResize(inners: seq<Ring>, rings: seq<Ring>, j: nat)
    requires 1 <= j <= |rings| && |inners| == |rings| - 1
    requires forall k :: 0 <= k < j - 1 ==> inners[k] == rings[k + 1]
    ensures HolesFilled(inners, rings, j) == Some(rings[1..])
    decreases |rings| - j
  {
    if j < |rings| {
      HolesAfterResize(inners[j - 1 := rings[j]], rings, j + 1);
    } else {
      assert inners == rings[1..];
    }
  }

  /** The feature loadBinaryPolygons30 creates for polygon row i, if any:
      none for a deleted polygon (negative area), none when getRings fails
      or finds no ring, and otherwise the polygon of its rings keyed and
      valued by the key rule. */
  function PolygonFeature(t: TopTable, r: PolRow, i: nat, isNumeric: bool, fuel: nat): (f: Option<Loaded>)
    ensures f.Some? <==> !IsNegative(r.area) && GetRingsSpec(t, r.topStart, fuel).Rings?
                         && GetRingsSpec(t, r.topStart, fuel).rings != []
    ensures f.Some? ==> f.value.row == i && f.value.geometry.PolygonGeom?
                        && f.value.geometry.polygon.outer == GetRingsSpec(t, r.topStart, fuel).rings[0]
    ensures RowStalls(t, r, fuel) ==> f.None?
  {
    if IsNegative(r.area) then None
    else
      match GetRingsSpec(t, r.topStart, fuel)
      case Rings(rings) =>
        if |rings| == 0 then None
        else Some(Keyed(isNumeric, i, PolygonGeom(Polygon(rings[0], rings[1..])), r.value))
      case _ => None
  }

  function Feature30(t: TopTable, isNumeric: bool, fuel: nat): (PolRow, nat) -> Option<Loaded> {
    (r: PolRow, i: nat) => PolygonFeature(t, r, i, isNumeric, fuel)
  }

  /** loadBinaryPolygons30 over the polygon table rows. */
  function Load30Spec(t: TopTable, rows: seq<PolRow>, isNumeric: bool, fuel: nat): seq<Loaded> {
    Collect(rows, Feature30(t, isNumeric, fuel))
  }

  /** Row r is one on which getRings does not come back within the step
      bound: the C++ loop never returns there. */
  predicate RowStalls(t: TopTable, r: PolRow, fuel: nat) {
    !IsNegative(r.area) && GetRingsSpec(t, r.topStart, fuel).OutOfSteps?
  }

  /** Some row of rows stalls. */
  predicate AnyStalls(t: TopTable, rows: seq<PolRow>, fuel: nat) {
    exists k :: 0 <= k < |rows| && RowStalls(t, rows[k], fuel)
  }

  lemma AnyStallsStep(t: TopTable, rows: seq<PolRow>, i: nat, fuel: nat)
    requires i < |rows|
    ensures AnyStalls(t, rows[..i + 1], fuel) <==> AnyStalls(t, rows[..i], fuel) || RowStalls(t, rows[i], fuel)
  {
    if AnyStalls(t, rows[..i + 1], fuel) {
      var k :| 0 <= k < i + 1 && RowStalls(t, rows[..i + 1][k], fuel);
      if k < i {
        assert rows[..i][k] == rows[k];
      }
    }
    if AnyStalls(t, rows[..i], fuel) {
      var k :| 0 <= k < i && RowStalls(t, rows[..i][k], fuel);
      assert rows[..i + 1][k] == rows[k];
    }
    if RowStalls(t, rows[i], fuel) {
      assert rows[..i + 1][i] == rows[i];
    }
  }

  /** loadBinaryPolygons30 once both tables are loaded; getRings walks at
      most `fuel` chains per polygon. `stalled` reports a row on which the
      walk ran out of steps, where the C++ would never finish. */
  method LoadBinaryPolygons30(t: TopTable, rows: seq<PolRow>, isNumeric: bool, fuel: nat)
      returns (features: seq<Loaded>, stalled: bool)
    ensures features == Load30Spec(t, rows, isNumeric, fuel)
    ensures stalled <==> AnyStalls(t, rows, fuel)
  {
    features, stalled := [], false;
    var i := 0;
    while i < |rows|
      invariant 0 <= i <= |rows|
      invariant features == Collect(rows[..i], Feature30(t, isNumeric, fuel))
      invariant stalled <==> AnyStalls(t, rows[..i], fuel)
    {
      var f, rowStalled := LoadRow30(t, rows[i], i, isNumeric, fuel);
      CollectStep(rows, i, Feature30(t, isNumeric, fuel));
      AnyStallsStep(t, rows, i, fuel);
      features := features + Present(f);
      stalled := stalled || rowStalled;
      i := i + 1;
    }
    TakeAll(rows, |rows|);
  }

  /** The body of the loop of loadBinaryPolygons30 for row i; `stalled`
      when its walk ran out of steps, which gives no feature. */
  method LoadRow30(t: TopTable, r: PolRow, i: nat, isNumeric: bool, fuel: nat)
      returns (f: Option<Loaded>, stalled: bool)
    ensures f == PolygonFeature(t, r, i, isNumeric, fuel)
    ensures stalled <==> RowStalls(t, r, fuel)
    ensures stalled ==> f.None?
  {
    f, stalled := None, false;
    if IsNegative(r.area) {
      return;
    }
    var index := r.topStart;
    var outcome := GetRings(t, index, fuel);
    stalled := outcome.OutOfSteps?;
    if outcome.Rings? {
      if |outcome.rings| == 0 {
        return;
      }
      var polygon := AssemblePolygon(outcome.rings);
      f := Some(Keyed(isNumeric, i, PolygonGeom(polygon), r.value));
    }
  }

  /** Every feature loadBinaryPolygons30 creates is the feature of its own
      row, the rows increase along the features, and every row that has a
      feature is loaded: deleted polygons and polygons without rings are
      the only ones missing. */
  lemma Load30Rows(t: TopTable, rows: seq<PolRow>, isNumeric: bool, fuel: nat)
    ensures forall f :: f in Load30Spec(t, rows, isNumeric, fuel) ==>
              f.row < |rows| && PolygonFeature(t, rows[f.row], f.row, isNumeric, fuel) == Some(f)
    ensures forall a, b :: 0 <= a < b < |Load30Spec(t, rows, isNumeric, fuel)| ==>
              Load30Spec(t, rows, isNumeric, fuel)[a].row < Load30Spec(t, rows, isNumeric, fuel)[b].row
    ensures forall k :: 0 <= k < |rows| && PolygonFeature(t, rows[k], k, isNumeric, fuel).Some? ==>
              PolygonFeature(t, rows[k], k, isNumeric, fuel).value in Load30Spec(t, rows, isNumeric, fuel)
  {
    CollectRows(rows, Feature30(t, isNumeric, fuel));
  }

  /** A deleted polygon (negative area) produces no feature. */
  lemma DeletedPolygonsSkipped(t: TopTable, rows: seq<PolRow>, isNumeric: bool, fuel: nat, k: nat)
    requires k < |rows| && IsNegative(rows[k].area)
    ensures forall f :: f in Load30Spec(t, rows, isNumeric, fuel) ==> f.row != k
  {
    Load30Rows(t, rows, isNumeric, fuel);
  }

  /** Every polygon loaded from the indexed format is made of chains that
      each close on themselves: its outer ring and each hole is a single
      chain of the topology table with duplicates removed. */
  lemma Load30PolygonsAreChains(t: TopTable, rows: seq<PolRow>, isNumeric: bool, fuel: nat)
    ensures forall f :: f in Load30Spec(t, rows, isNumeric, fuel) ==>
              f.geometry.PolygonGeom? && ChainRing(t, f.geometry.polygon.outer) &&
              forall h :: 0 <= h < |f.geometry.polygon.inners| ==> ChainRing(t, f.geometry.polygon.inners[h])
  {
    Load30Rows(t, rows, isNumeric, fuel);
    forall f | f in Load30Spec(t, rows, isNumeric, fuel)
      ensures f.geometry.PolygonGeom? && ChainRing(t, f.geometry.polygon.outer)
      ensures forall h :: 0 <= h < |f.geometry.polygon.inners| ==> ChainRing(t, f.geometry.polygon.inners[h])
    {
      var r := rows[f.row];
      EmittedRingsAreSingleChains(t, r.topStart, fuel);
      var rings := GetRingsSpec(t, r.topStart, fuel).rings;
      assert f.geometry.polygon == Polygon(rings[0], rings[1..]);
      assert forall h :: 0 <= h < |rings| - 1 ==> rings[1..][h] == rings[h + 1];
    }
  }

  // ---- loadBinarySegments ----

  /** A row of the segment table: its Coords and its SegmentValue. */
  datatype SegRow = SegRow(coords: seq<Coord>, value: Double)

  function SegmentFeature(isNumeric: bool): (SegRow, nat) -> Option<Loaded> {
    (r: SegRow, i: nat) => Some(Keyed(isNumeric, i, LineGeom(r.coords), r.value))
  }

  /** The features loadBinarySegments creates: one line per row, in row
      order. */
  function SegmentFeatures(rows: seq<SegRow>, isNumeric: bool): seq<Loaded> {
    Collect(rows, SegmentFeature(isNumeric))
  }

  /** Line i is the coordinates of row i, as stored: same length, same
      order, no closing point added; its key follows the key rule. */
  lemma SegmentFeaturesKeepLines(rows: seq<SegRow>, isNumeric: bool)
    ensures |SegmentFeatures(rows, isNumeric)| == |rows|
    ensures forall i :: 0 <= i < |rows| ==>
              SegmentFeatures(rows, isNumeric)[i] == Keyed(isNumeric, i, LineGeom(rows[i].coords), rows[i].value)
  {
    CollectAll(rows, SegmentFeature(isNumeric));
  }

  /** loadBinarySegments once the table is loaded. A numeric map sets the
      attribute table's row count to the segment count. */
  method LoadBinarySegments(rows: seq<SegRow>, isNumeric: bool) returns (features: seq<Loaded>, tableRows: Option<nat>)
    ensures features == SegmentFeatures(rows, isNumeric)
    ensures tableRows == if isNumeric then Some(|rows|) else None
  {
    tableRows := if isNumeric then Some(|rows|) else None;
    features := [];
    var i := 0;
    while i < |rows|
      invariant 0 <= i <= |rows|
      invariant features == Collect(rows[..i], SegmentFeature(isNumeric))
    {
      var line := rows[i].coords;
      CollectStep(rows, i, SegmentFeature(isNumeric));
      features := features + [Keyed(isNumeric, i, LineGeom(line), rows[i].value)];
      i := i + 1;
    }
    TakeAll(rows, |rows|);
  }

  // ---- loadBinaryPoints ----

  /** A row of the point table: the x and y columns of the old layout,
      the Coordinate column of the new one, and the Name. */
  datatype PointRow = PointRow(x: Double, y: Double, coordinate: Coord, name: Double)

  /** The point of a row: from the Coordinate column when the table has
      no x column, from x and y otherwise. */
  function PointOf(r: PointRow, hasXColumn: bool): Coord {
    if !hasXColumn then r.coordinate else Coord(r.x, r.y)
  }

  /** The feature of point row i: always keyed by its Name. */
  function PointFeatureAt(hasXColumn: bool, r: PointRow, i: nat): Option<Loaded> {
    Some(Keyed(false, i, PointGeom(PointOf(r, hasXColumn)), r.name))
  }

  function PointFeature(hasXColumn: bool): (PointRow, nat) -> Option<Loaded> {
    (r: PointRow, i: nat) => PointFeatureAt(hasXColumn, r, i)
  }

  /** The features loadBinaryPoints creates: one point per row, always
      keyed by the Name converted to quint32. */
  function PointFeatures(rows: seq<PointRow>, hasXColumn: bool): seq<Loaded> {
    Collect(rows, PointFeature(hasXColumn))
  }

  /** Point i is the point of row i, keyed by the Name converted to
      quint32, whatever the map's value range. */
  lemma PointFeaturesKeepPoints(rows: seq<PointRow>, hasXColumn: bool)
    ensures |PointFeatures(rows, hasXColumn)| == |rows|
    ensures forall i :: 0 <= i < |rows| ==>
              PointFeatures(rows, hasXColumn)[i].geometry == PointGeom(PointOf(rows[i], hasXColumn)) &&
              PointFeatures(rows, hasXColumn)[i].row == i &&
              PointFeatures(rows, hasXColumn)[i].id == Converted(rows[i].name) &&
              PointFeatures(rows, hasXColumn)[i].value.None?
  {
    CollectAll(rows, PointFeature(hasXColumn));
  }

  method LoadBinaryPoints(rows: seq<PointRow>, hasXColumn: bool) returns (features: seq<Loaded>)
    ensures features == PointFeatures(rows, hasXColumn)
  {
    var newCase := !hasXColumn;
    features := [];
    var i := 0;
    while i < |rows|
      invariant 0 <= i <= |rows|
      invariant features == Collect(rows[..i], PointFeature(hasXColumn))
    {
      var c := if newCase then rows[i].coordinate else Coord(rows[i].x, rows[i].y);
      CollectStep(rows, i, PointFeature(hasXColumn));
      assert c == PointOf(rows[i], hasXColumn);
      assert PointFeature(hasXColumn)(rows[i], i) == PointFeatureAt(hasXColumn, rows[i], i);
      features := features + [Keyed(false, i, PointGeom(c), rows[i].name)];
      i := i + 1;
    }
    TakeAll(rows, |rows|);
  }

  // ---- loadBinaryPolygons and loadBinaryData ----

  /** The two on-disk polygon formats. */
  datatype PolygonFormat = Indexed30 | Stream37

  /** loadBinaryPolygons: the indexed format when PolygonMapStore/DataPol
      is undefined, the stream format otherwise. */
  function PolygonFormatOf(entries: Entries): (f: PolygonFormat)
    ensures f == Indexed30 <==> ValueOf(entries, "PolygonMapStore", "DataPol") == SUndef
  {
    if ValueOf(entries, "PolygonMapStore", "DataPol") == SUndef then Indexed30 else Stream37
  }

  /** The files behind a map, as far as the loaders read them: each is
      None when it cannot be opened. */
  datatype MapFiles = MapFiles(
    polygonTable: Option<seq<PolRow>>,
    topTable: Option<TopTable>,
    polygonData: Option<seq<byte>>,
    segmentTable: Option<seq<SegRow>>,
    pointTable: Option<seq<PointRow>>,
    pointsHaveXColumn: bool)

  /** Whether the map has a value range (BaseMap/Range defined). */
  function IsNumeric(entries: Entries): bool {
    ValueOf(entries, "BaseMap", "Range") != SUndef
  }

  /** What loadBinaryPolygons yields: None when a file it needs cannot be
      opened. nrPolygons is the coverage's polygon count. */
  function PolygonsSpec(entries: Entries, files: MapFiles, nrPolygons: int, fuel: nat): Option<seq<Loaded>> {
    var isNumeric := IsNumeric(entries);
    match PolygonFormatOf(entries)
    case Indexed30 =>
      if files.polygonTable.None? || files.topTable.None? then None
      else Some(Load30Spec(files.topTable.value, files.polygonTable.value, isNumeric, fuel))
    case Stream37 =>
      if files.polygonData.None? then None
      else Some(Load37Spec(files.polygonData.value, 0, nrPolygons, isNumeric))
  }

  method LoadBinaryPolygons(odf: OdfFile, files: MapFiles, nrPolygons: int, fuel: nat)
      returns (ok: bool, features: seq<Loaded>)
    ensures ok <==> PolygonsSpec(odf.entries, files, nrPolygons, fuel).Some?
    ensures ok ==> features == PolygonsSpec(odf.entries, files, nrPolygons, fuel).value
  {
    var isNumeric := odf.Value("BaseMap", "Range") != SUndef;
    var dataFile := odf.Value("PolygonMapStore", "DataPol");
    features := [];
    if dataFile == SUndef {
      if files.polygonTable.None? || files.topTable.None? {
        return false, [];
      }
      var stalled;
      features, stalled := LoadBinaryPolygons30(files.topTable.value, files.polygonTable.value, isNumeric, fuel);
    } else {
      if files.polygonData.None? {
        return false, [];
      }
      var stream := new DataStream(files.polygonData.value);
      features := LoadBinaryPolygons37(stream, nrPolygons, isNumeric);
    }
    ok := true;
  }

  /** The columns loadBinaryData adds to the attribute table. */
  datatype Column = CoverageKeyColumn | FeatureIdColumn | FeatureValueColumn

  /** loadBinaryData: adds the key and feature-id columns (and the value
      column for a numeric map), then loads by the coverage's feature
      type; a coverage holding more than one type, or none, is not
      loaded. countDomain and valueDomain say whether the "count" and
      "value" domains could be prepared. */
  method LoadBinaryData(odf: OdfFile, kinds: set<FeatureKind>, files: MapFiles, nrPolygons: int,
                        countDomain: bool, valueDomain: bool, fuel: nat)
      returns (ok: bool, columns: seq<Column>, features: seq<Loaded>)
    ensures var isNumeric := IsNumeric(odf.entries);
            columns == if !countDomain then []
                       else [CoverageKeyColumn, FeatureIdColumn] + (if isNumeric && valueDomain then [FeatureValueColumn] else [])
    ensures ok ==> countDomain && (IsNumeric(odf.entries) ==> valueDomain)
    ensures ok ==> kinds == {PointKind} || kinds == {LineKind} || kinds == {PolygonKind}
    ensures ok && kinds == {PointKind} ==>
              files.pointTable.Some? && features == PointFeatures(files.pointTable.value, files.pointsHaveXColumn)
    ensures ok && kinds == {LineKind} ==>
              files.segmentTable.Some? && features == SegmentFeatures(files.segmentTable.value, IsNumeric(odf.entries))
    ensures ok && kinds == {PolygonKind} ==>
              PolygonsSpec(odf.entries, files, nrPolygons, fuel) == Some(features)
    ensures countDomain && (IsNumeric(odf.entries) ==> valueDomain) ==>
              (ok <==> (kinds == {PointKind} && files.pointTable.Some?) ||
                       (kinds == {LineKind} && files.segmentTable.Some?) ||
                       (kinds == {PolygonKind} && PolygonsSpec(odf.entries, files, nrPolygons, fuel).Some?))
  {
    columns := [];
    features := [];
    if !countDomain {
      return false, columns, features;
    }
    columns := [CoverageKeyColumn, FeatureIdColumn];
    var isNumeric := odf.Value("BaseMap", "Range") != SUndef;
    if isNumeric {
      if !valueDomain {
        return false, columns, features;
      }
      columns := columns + [FeatureValueColumn];
    }
    ok := false;
    if kinds == {PointKind} {
      if files.pointTable.Some? {
        features := LoadBinaryPoints(files.pointTable.value, files.pointsHaveXColumn);
        ok := true;
      }
    } else if kinds == {LineKind} {
      if files.segmentTable.Some? {
        var tableRows;
        features, tableRows := LoadBinarySegments(files.segmentTable.value, isNumeric);
        ok := true;
      }
    } else if kinds == {PolygonKind} {
      ok, features := LoadBinaryPolygons(odf, files, nrPolygons, fuel);
    }
  }

  // ---- loadMetaData ----

  /** The feature type and count loadMetaData finds: a point map when
      PointMap/Points is a number, else a segment map when
      SegmentMapStore/Segments is, else a polygon map when
      PolygonMapStore/Polygons is; None (an error) when none of the three
      is a number. */
  function DetectFeatures(entries: Entries): (r: Option<(FeatureKind, int)>)
    ensures r.None? <==> ToInt(ValueOf(entries, "PointMap", "Points")).None? &&
                         ToInt(ValueOf(entries, "SegmentMapStore", "Segments")).None? &&
                         ToInt(ValueOf(entries, "PolygonMapStore", "Polygons")).None?
    ensures r.Some? && r.value.0 == PointKind ==>
              Some(r.value.1) == ToInt(ValueOf(entries, "PointMap", "Points"))
    ensures r.Some? && r.value.0 == LineKind ==>
              ToInt(ValueOf(entries, "PointMap", "Points")).None? &&
              Some(r.value.1) == ToInt(ValueOf(entries, "SegmentMapStore", "Segments"))
    ensures r.Some? && r.value.0 == PolygonKind ==>
              ToInt(ValueOf(entries, "PointMap", "Points")).None? &&
              ToInt(ValueOf(entries, "SegmentMapStore", "Segments")).None? &&
              Some(r.value.1) == ToInt(ValueOf(entries, "PolygonMapStore", "Polygons"))
  {
    match ToInt(ValueOf(entries, "PointMap", "Points"))
    case Some(n) => Some((PointKind, n))
    case None =>
      match ToInt(ValueOf(entries, "SegmentMapStore", "Segments"))
      case Some(n) => Some((LineKind, n))
      case None =>
        match ToInt(ValueOf(entries, "PolygonMapStore", "Polygons"))
        case Some(n) => Some((PolygonKind, n))
        case None => None
  }

  /** loadMetaData after the coverage part (baseOk) has been read: the
      coverage gets the feature type found and its count. */
  function LoadMetaData(entries: Entries, baseOk: bool): (r: Option<(FeatureKind, int)>)
    ensures r.Some? ==> baseOk && r == DetectFeatures(entries)
    ensures baseOk && DetectFeatures(entries).Some? ==> r.Some?
  {
    if !baseOk then None else DetectFeatures(entries)
  }
}
