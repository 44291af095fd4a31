/** The PostgreSQL feature-coverage loader: the SELECT statement over the
    geometry columns, the slot each column's geometry goes to and the
    features and sub-features made of the slots, the level of each
    column's feature count, and the envelope and coordinate system of the
    coverage. */
module PgFeature {
  import opened Seqs
  import opened Wrappers
  import opened Text

  /** MetaGeometryColumn: a geometry column, its IlwisTypes geometry type
      and its coordinate system (None when not valid). */
  datatype MetaGeometryColumn<C> = MetaGeometryColumn(geomColumn: string, geomType: bv64, crs: Option<C>)

  // ---- selectGeometries ----

  /** The select item of one geometry column. */
  function SelectItem(column: string): string {
    " ST_AsText(" + column + ") AS " + column
  }

  function SelectItems<C>(metas: seq<MetaGeometryColumn<C>>): (items: seq<string>)
    ensures |items| == |metas|
    ensures forall k :: 0 <= k < |metas| ==> items[k] == SelectItem(metas[k].geomColumn)
  {
    seq(|metas|, k requires 0 <= k < |metas| => SelectItem(metas[k].geomColumn))
  }

  /** selectGeometries: "SELECT ", the select items separated by commas,
      " FROM " and the table. `qualifiedTable` is the table name the
      database helper gives. */
  method SelectGeometries<C>(metas: seq<MetaGeometryColumn<C>>, qualifiedTable: string) returns (sql: string)
    ensures |metas| > 0 ==> sql == "SELECT " + Join(SelectItems(metas), ',') + " FROM " + qualifiedTable
    ensures |metas| == 0 ==> sql == "SELECT " + " FROM " + qualifiedTable
  {
    var columns := "";
    for i := 0 to |metas|
      invariant columns == Terminated(SelectItems(metas[..i]), ',')
    {
      var item := SelectItem(metas[i].geomColumn);
      columns := columns + (item + ",");
      assert SelectItems(metas[..i + 1]) == SelectItems(metas[..i]) + [item];
      TerminatedSnoc(SelectItems(metas[..i]), item, ',');
    }
    assert metas[..|metas|] == metas;
    columns := Left(columns, |columns| - 1);
    if |metas| > 0 {
      TerminatedIsJoin(SelectItems(metas), ',');
      assert Terminated(SelectItems(metas), ',')[..|Join(SelectItems(metas), ',')|]
             == Join(SelectItems(metas), ',');
    }
    sql := "SELECT " + columns + " FROM " + qualifiedTable;
  }

  /** The select items can be read back from the statement's column part
      when no column name holds a comma. */
  lemma SelectItemsSplit<C>(metas: seq<MetaGeometryColumn<C>>)
    requires |metas| > 0
    requires forall k :: 0 <= k < |metas| ==> ',' !in metas[k].geomColumn
    ensures Split(Join(SelectItems(metas), ','), ',') == SelectItems(metas)
  {
    var items := SelectItems(metas);
    forall k | 0 <= k < |items|
      ensures ',' !in items[k]
    {
      assert items[k] == " ST_AsText(" + metas[k].geomColumn + ") AS " + metas[k].geomColumn;
    }
    SplitJoin(items, ',');
  }

  // ---- the item order of the sub-feature semantics ----

  /** The order of the first item named `name`, None when there is none. */
  function FirstIndex(items: seq<string>, name: string): (r: Option<nat>)
    ensures r.Some? ==> r.value < |items| && items[r.value] == name
                        && forall j :: 0 <= j < r.value ==> items[j] != name
    ensures r.None? <==> name !in items
  {
    if |items| == 0 then None
    else if items[0] == name then Some(0)
    else match FirstIndex(items[1..], name)
      case Some(i) => Some(i + 1)
      case None => None
  }

  /** The loop over the semantics' items that stops at the first item
      named like the column. */
  method FindItem(items: seq<string>, name: string) returns (found: Option<nat>)
    ensures found == FirstIndex(items, name)
  {
    var i := 0;
    while i < |items|
      invariant i <= |items|
      invariant forall j :: 0 <= j < i ==> items[j] != name
    {
      if items[i] == name {
        return Some(i);
      }
      i := i + 1;
    }
    return None;
  }

  // ---- geometry slots in loadData ----

  /** The slot the geometry of column k goes to: k without semantics,
      otherwise the order of the first item named like the column. */
  function SlotOf<C>(semantics: Option<seq<string>>, metas: seq<MetaGeometryColumn<C>>, k: nat): (s: Option<nat>)
    requires k < |metas|
    ensures semantics.None? ==> s == Some(k)
    ensures semantics.Some? ==> s == FirstIndex(semantics.value, metas[k].geomColumn)
  {
    match semantics
    case None => Some(k)
    case Some(items) => FirstIndex(items, metas[k].geomColumn)
  }

  /** One write to the geometry array; a write outside the array (an item
      order not below the number of columns) is dropped. */
  function Put<G>(slots: seq<Option<G>>, at: Option<nat>, g: G): (r: seq<Option<G>>)
    ensures |r| == |slots|
  {
    if at.Some? && at.value < |slots| then slots[at.value := Some(g)] else slots
  }

  /** After a write, the slot written holds the geometry and every other
      slot is as it was. */
  lemma PutAt<G>(slots: seq<Option<G>>, at: Option<nat>, g: G)
    ensures forall j :: 0 <= j < |slots| ==> Put(slots, at, g)[j] == if at == Some(j) then Some(g) else slots[j]
  {
  }

  /** The geometry array after the first k columns of a row (None for a
      slot nothing was written to). */
  function SlotsAfter<C, G>(semantics: Option<seq<string>>, metas: seq<MetaGeometryColumn<C>>,
                            geoms: seq<G>, k: nat): (slots: seq<Option<G>>)
    requires |geoms| == |metas| && k <= |metas|
    ensures |slots| == |metas|
  {
    if k == 0 then seq(|metas|, _ => None)
    else Put(SlotsAfter(semantics, metas, geoms, k - 1), SlotOf(semantics, metas, k - 1), geoms[k - 1])
  }

  /** The geometry loop of loadData for one query row; `geoms` holds the
      geometry createGeometry makes of each column. */
  method FillSlots<C, G>(semantics: Option<seq<string>>, metas: seq<MetaGeometryColumn<C>>, geoms: seq<G>)
      returns (slots: seq<Option<G>>)
    requires |geoms| == |metas|
    ensures slots == SlotsAfter(semantics, metas, geoms, |metas|)
  {
    slots := seq(|metas|, _ => None);
    var multipleGeomIdx := 0;
    for k := 0 to |metas|
      invariant slots == SlotsAfter(semantics, metas, geoms, k)
      invariant semantics.None? ==> multipleGeomIdx == k
    {
      var at: Option<nat>;
      if semantics.None? {
        at := Some(multipleGeomIdx);
        multipleGeomIdx := multipleGeomIdx + 1;
      } else {
        at := FindItem(semantics.value, metas[k].geomColumn);
      }
      if at.Some? && at.value < |slots| {
        slots := slots[at.value := Some(geoms[k])];
      }
    }
  }

  /** Without semantics, the columns fill the slots in column order. */
  lemma {:induction false} SlotsInColumnOrder<C, G>(metas: seq<MetaGeometryColumn<C>>, geoms: seq<G>, k: nat)
    requires |geoms| == |metas| && k <= |metas|
    ensures forall j :: 0 <= j < |metas| ==>
              SlotsAfter(None, metas, geoms, k)[j] == if j < k then Some(geoms[j]) else None
  {
    if k > 0 {
      SlotsInColumnOrder(metas, geoms, k - 1);
      PutAt(SlotsAfter(None, metas, geoms, k - 1), Some(k - 1), geoms[k - 1]);
    }
  }

  /** With semantics and distinct column names, a column whose name is
      the item of order s (below the number of columns) has its geometry
      in slot s. */
  lemma {:induction false} SlotOfNamedItem<C, G>(items: seq<string>, metas: seq<MetaGeometryColumn<C>>,
                                                 geoms: seq<G>, c: nat, m: nat)
    requires |geoms| == |metas| && c < m <= |metas|
    requires forall i, j :: 0 <= i < j < |metas| ==> metas[i].geomColumn != metas[j].geomColumn
    requires FirstIndex(items, metas[c].geomColumn).Some?
    requires FirstIndex(items, metas[c].geomColumn).value < |metas|
    ensures var s := FirstIndex(items, metas[c].geomColumn).value;
            SlotsAfter(Some(items), metas, geoms, m)[s] == Some(geoms[c])
  {
    var s := FirstIndex(items, metas[c].geomColumn).value;
    if m > c + 1 {
      SlotOfNamedItem(items, metas, geoms, c, m - 1);
      assert metas[c].geomColumn != metas[m - 1].geomColumn;
      PutAt(SlotsAfter(Some(items), metas, geoms, m - 1), SlotOf(Some(items), metas, m - 1), geoms[m - 1]);
    } else {
      PutAt(SlotsAfter(Some(items), metas, geoms, c), SlotOf(Some(items), metas, c), geoms[c]);
    }
  }

  /** What loadData asks of the coverage for one row: a new feature of
      slot 0, then a sub-feature per further column, each created on the
      feature the previous call returned. */
  datatype FeatureCall<G> = NewFeature(geometry: Option<G>) | SubFeature(column: string, geometry: Option<G>)

  function RowCalls<C, G>(metas: seq<MetaGeometryColumn<C>>, slots: seq<Option<G>>): (calls: seq<FeatureCall<G>>)
    requires |slots| == |metas|
    ensures |calls| == |metas|
  {
    seq(|metas|, i requires 0 <= i < |metas| => CallOf(metas, slots, i))
  }

  /** The call for column i of a row. */
  function CallOf<C, G>(metas: seq<MetaGeometryColumn<C>>, slots: seq<Option<G>>, i: nat): FeatureCall<G>
    requires |slots| == |metas| && i < |metas|
  {
    if i == 0 then NewFeature(slots[0]) else SubFeature(metas[i].geomColumn, slots[i])
  }

  /** The first call of a row makes the feature of slot 0, call i the
      sub-feature of column i with slot i. */
  lemma RowCallsAt<C, G>(metas: seq<MetaGeometryColumn<C>>, slots: seq<Option<G>>)
    requires |slots| == |metas|
    ensures |metas| > 0 ==> RowCalls(metas, slots)[0] == NewFeature(slots[0])
    ensures forall i :: 1 <= i < |metas| ==> RowCalls(metas, slots)[i] == SubFeature(metas[i].geomColumn, slots[i])
  {
  }

  /** The feature and sub-feature calls of one row. */
  method EmitFeatures<C, G>(metas: seq<MetaGeometryColumn<C>>, slots: seq<Option<G>>)
      returns (calls: seq<FeatureCall<G>>)
    requires |slots| == |metas|
    ensures calls == RowCalls(metas, slots)
  {
    if |metas| == 0 {
      return [];
    }
    calls := [NewFeature(slots[0])];
    for i := 1 to |metas|
      invariant |calls| == i
      invariant calls[0] == NewFeature(slots[0])
      invariant forall j :: 1 <= j < i ==> calls[j] == SubFeature(metas[j].geomColumn, slots[j])
    {
      calls := calls + [SubFeature(metas[i].geomColumn, slots[i])];
    }
    RowCallsAt(metas, slots);
  }

  /** The calls of the first n query rows. */
  function LoadedCalls<C, G>(semantics: Option<seq<string>>, metas: seq<MetaGeometryColumn<C>>,
                             rows: seq<seq<G>>, n: nat): seq<FeatureCall<G>>
    requires n <= |rows|
  {
    if n == 0 then []
    else LoadedCalls(semantics, metas, rows, n - 1)
         + (if |rows[n - 1]| == |metas| then RowOf(semantics, metas, rows[n - 1]) else [])
  }

  /** The calls of one query row. */
  function RowOf<C, G>(semantics: Option<seq<string>>, metas: seq<MetaGeometryColumn<C>>, geoms: seq<G>): seq<FeatureCall<G>>
    requires |geoms| == |metas|
  {
    RowCalls(metas, SlotsAfter(semantics, metas, geoms, |metas|))
  }

  /** The body of loadData's row loop. */
  method LoadRow<C, G>(semantics: Option<seq<string>>, metas: seq<MetaGeometryColumn<C>>, geoms: seq<G>)
      returns (rowCalls: seq<FeatureCall<G>>)
    requires |geoms| == |metas|
    ensures rowCalls == RowOf(semantics, metas, geoms)
  {
    var slots := FillSlots(semantics, metas, geoms);
    rowCalls := EmitFeatures(metas, slots);
  }

  /** loadData's loop over the query rows; row r holds the geometry of
      each column. */
  method LoadFeatures<C, G>(semantics: Option<seq<string>>, metas: seq<MetaGeometryColumn<C>>, rows: seq<seq<G>>)
      returns (calls: seq<FeatureCall<G>>)
    requires forall r :: 0 <= r < |rows| ==> |rows[r]| == |metas|
    ensures calls == LoadedCalls(semantics, metas, rows, |rows|)
  {
    calls := [];
    var r := 0;
    while r < |rows|
      invariant r <= |rows|
      invariant calls == LoadedCalls(semantics, metas, rows, r)
    {
      var rowCalls := LoadRow(semantics, metas, rows[r]);
      calls := calls + rowCalls;
      r := r + 1;
    }
  }

  /** Without semantics each row gives a feature of its first column's
      geometry and a sub-feature of each further column's, in column
      order. */
  lemma RowWithoutSemantics<C, G>(metas: seq<MetaGeometryColumn<C>>, geoms: seq<G>)
    requires |geoms| == |metas| > 0
    ensures var calls := RowOf(None, metas, geoms);
            && calls[0] == NewFeature(Some(geoms[0]))
            && forall i :: 1 <= i < |metas| ==> calls[i] == SubFeature(metas[i].geomColumn, Some(geoms[i]))
  {
    SlotsInColumnOrder(metas, geoms, |metas|);
    RowCallsAt(metas, SlotsAfter(None, metas, geoms, |metas|));
  }

  // ---- setFeatureCount ----

  /** The level after a column: one more than before without semantics;
      with semantics the order of the first item named like the column,
      or the level as it was when no item is. */
  function NextLevel(level: int, semantics: Option<seq<string>>, column: string): (l: int)
    ensures semantics.None? ==> l == level + 1
    ensures semantics.Some? && FirstIndex(semantics.value, column).Some?
            ==> l == FirstIndex(semantics.value, column).value
    ensures semantics.Some? && column !in semantics.value ==> l == level
  {
    match semantics
    case None => level + 1
    case Some(items) =>
      match FirstIndex(items, column)
      case Some(i) => i
      case None => level
  }

  /** The level of the k-th column (-1 before the first). */
  function LevelAt<C>(semantics: Option<seq<string>>, metas: seq<MetaGeometryColumn<C>>, k: nat): int
    requires k <= |metas|
  {
    if k == 0 then -1 else NextLevel(LevelAt(semantics, metas, k - 1), semantics, metas[k - 1].geomColumn)
  }

  /** A feature count set on the coverage: geometry type, count, level. */
  datatype CountCall = CountCall(types: bv64, count: nat, level: int)

  /** The counts setFeatureCount sets for the first k columns; `counts`
      holds what each column's count query returns (None when it returns
      no row). */
  function CountCalls<C>(semantics: Option<seq<string>>, metas: seq<MetaGeometryColumn<C>>,
                         counts: seq<Option<int>>, k: nat): (calls: seq<CountCall>)
    requires |counts| == |metas| && k <= |metas|
    ensures |calls| <= k
    ensures forall i :: 0 <= i < |calls| ==> calls[i].count > 0
  {
    if k == 0 then []
    else
      var front := CountCalls(semantics, metas, counts, k - 1);
      var c := counts[k - 1];
      if c.Some? && c.value > 0 then
        front + [CountCall(metas[k - 1].geomType, c.value, LevelAt(semantics, metas, k))]
      else front
  }

  /** setFeatureCount's loop over the geometry columns. */
  method SetFeatureCount<C>(semantics: Option<seq<string>>, metas: seq<MetaGeometryColumn<C>>,
                            counts: seq<Option<int>>) returns (calls: seq<CountCall>)
    requires |counts| == |metas|
    ensures calls == CountCalls(semantics, metas, counts, |metas|)
  {
    var level: int := -1;
    calls := [];
    for k := 0 to |metas|
      invariant level == LevelAt(semantics, metas, k)
      invariant calls == CountCalls(semantics, metas, counts, k)
    {
      if semantics.Some? {
        var found := FindItem(semantics.value, metas[k].geomColumn);
        if found.Some? {
          level := found.value;
        }
      } else {
        level := level + 1;
      }
      if counts[k].Some? {
        var count := counts[k].value;
        if count > 0 {
          calls := calls + [CountCall(metas[k].geomType, count, level)];
        }
      }
    }
  }

  /** Without semantics the k-th column (from 0) is level k. */
  lemma {:induction false} LevelsInColumnOrder<C>(metas: seq<MetaGeometryColumn<C>>, k: nat)
    requires k <= |metas|
    ensures LevelAt(None, metas, k) == k - 1
  {
    if k > 0 {
      LevelsInColumnOrder(metas, k - 1);
    }
  }

  /** Without semantics, a column with a positive count gets a feature
      count at its own position as level. */
  lemma CountOfColumn<C>(metas: seq<MetaGeometryColumn<C>>, counts: seq<Option<int>>, k: nat)
    requires |counts| == |metas| && k < |metas|
    requires counts[k].Some? && counts[k].value > 0
    ensures var calls := CountCalls(None, metas, counts, k + 1);
            calls[|calls| - 1] == CountCall(metas[k].geomType, counts[k].value, k)
  {
    LevelsInColumnOrder(metas, k + 1);
  }

  // ---- setSpatialMetadata ----

  /** The first valid coordinate system of the first k columns. */
  function FirstCrs<C>(metas: seq<MetaGeometryColumn<C>>, k: nat): (crs: Option<C>)
    requires k <= |metas|
    ensures crs.None? <==> forall j :: 0 <= j < k ==> metas[j].crs.None?
    ensures crs.Some? ==> exists j :: 0 <= j < k && metas[j].crs == crs
                                      && forall i :: 0 <= i < j ==> metas[i].crs.None?
  {
    if k == 0 then None
    else
      var before := FirstCrs(metas, k - 1);
      if before.None? && metas[k - 1].crs.Some? then metas[k - 1].crs else before
  }

  /** The bounding box of the first k columns: `empty` (the default
      envelope) joined with every extent the queries returned that is not
      the empty string; `parse` reads an extent, `join` is Envelope's +=. */
  function BoxAfter<E>(extents: seq<Option<string>>, empty: E, parse: string -> E, join: (E, E) -> E, k: nat): E
    requires k <= |extents|
  {
    if k == 0 then empty
    else
      var before := BoxAfter(extents, empty, parse, join, k - 1);
      var e := extents[k - 1];
      if e.Some? && e.value != "" then join(before, parse(e.value)) else before
  }

  /** Columns whose extent queries return nothing, or empty strings,
      leave the default envelope as it is. */
  lemma {:induction false} EmptyExtentsIgnored<E>(extents: seq<Option<string>>, empty: E, parse: string -> E,
                                                  join: (E, E) -> E, k: nat)
    requires k <= |extents|
    requires forall j :: 0 <= j < k ==> extents[j].None? || extents[j].value == ""
    ensures BoxAfter(extents, empty, parse, join, k) == empty
  {
    if k > 0 {
      EmptyExtentsIgnored(extents, empty, parse, join, k - 1);
    }
  }

  /** setSpatialMetadata's loop; `extents` holds what each column's
      st_extent query returns. The coverage's system and envelope are set
      after every column, so they end as the values after the last; with
      no geometry column they are not set (None). */
  method SetSpatialMetadata<C, E>(metas: seq<MetaGeometryColumn<C>>, extents: seq<Option<string>>,
                                  empty: E, parse: string -> E, join: (E, E) -> E)
      returns (coverage: Option<(Option<C>, E)>)
    requires |extents| == |metas|
    ensures coverage.None? <==> |metas| == 0
    ensures coverage.Some? ==> coverage.value == (FirstCrs(metas, |metas|), BoxAfter(extents, empty, parse, join, |metas|))
  {
    var bbox := empty;
    var crs: Option<C> := None;
    coverage := None;
    for k := 0 to |metas|
      invariant bbox == BoxAfter(extents, empty, parse, join, k)
      invariant crs == FirstCrs(metas, k)
      invariant coverage.None? <==> k == 0
      invariant coverage.Some? ==> coverage.value == (crs, bbox)
    {
      if extents[k].Some? {
        var envString := extents[k].value;
        if envString != "" {
          bbox := join(bbox, parse(envString));
        }
      }
      if crs.None? && metas[k].crs.Some? {
        crs := metas[k].crs;
      }
      coverage := Some((crs, bbox));
    }
  }
}
