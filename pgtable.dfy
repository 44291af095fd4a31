/** The PostgreSQL table loader: it turns the column list of the
    information schema into table columns (one ILWIS domain per PostgreSQL
    type), and loads the rows of a query into the table's records. */
module PgTable {
  import opened Seqs
  import opened Wrappers
  import opened Text

  /** The ILWIS domain createColumnDefinition prepares for a column:
      text, time (a date interval), the numeric "value" and "integer"
      domains, and boolean. */
  datatype DomainKind = TextDomain | TimeDomain | ValueDomain | IntegerDomain | BooleanDomain

  /** What createColumnDefinition does with a PostgreSQL type: add a
      column of a domain, skip a geometry column, or reject the type. */
  datatype ColumnType = AddColumn(domain: DomainKind) | SkipGeometry | UnknownType

  /** The udt_name classifier. */
  function Classify(udtName: string): (t: ColumnType)
    ensures t == AddColumn(TextDomain) <==> udtName == "varchar" || udtName == "text" || udtName == "char"
    ensures t == AddColumn(TimeDomain) <==> StartsWith(udtName, "timestamp")
    ensures t == AddColumn(ValueDomain) <==> StartsWith(udtName, "float")
    ensures t == AddColumn(IntegerDomain) <==> StartsWith(udtName, "int")
    ensures t == AddColumn(BooleanDomain) <==> udtName == "bool"
    ensures t == SkipGeometry <==> udtName == "geometry"
  {
    assert StartsWith(udtName, "timestamp") ==> |udtName| >= 9 && udtName[0] == 't';
    assert StartsWith(udtName, "float") ==> udtName[0] == 'f';
    assert StartsWith(udtName, "int") ==> udtName[0] == 'i';
    if udtName == "varchar" || udtName == "text" || udtName == "char" then AddColumn(TextDomain)
    else if StartsWith(udtName, "timestamp") then AddColumn(TimeDomain)
    else if StartsWith(udtName, "float") then AddColumn(ValueDomain)
    else if StartsWith(udtName, "int") then AddColumn(IntegerDomain)
    else if udtName == "bool" then AddColumn(BooleanDomain)
    else if udtName == "geometry" then SkipGeometry
    else UnknownType
  }

  /** A table column: its name, its domain, whether that domain is valid,
      and whether it is read-only. */
  datatype ColumnDef = ColumnDef(name: string, domain: DomainKind, domainValid: bool, readonly: bool)

  /** A record cell: an empty QVariant or a value of the query. */
  datatype Cell<V> = Empty | Value(v: V)

  /** The table the loader fills: its columns and its records by row
      number. */
  class Table<V> {
    var columns: seq<ColumnDef>
    var records: map<nat, seq<Cell<V>>>

    constructor(columns: seq<ColumnDef>)
      ensures this.columns == columns && records == map[]
    {
      this.columns := columns;
      records := map[];
    }

    /** Table::addColumn with a domain that prepared successfully. */
    method AddColumnDef(name: string, domain: DomainKind, readonly: bool)
      modifies this
      ensures columns == old(columns) + [ColumnDef(name, domain, true, readonly)]
      ensures records == old(records)
    {
      columns := columns + [ColumnDef(name, domain, true, readonly)];
    }

    /** Table::record(n, values): the record of row n. */
    method SetRecord(n: nat, record: seq<Cell<V>>)
      modifies this
      ensures records == old(records)[n := record]
      ensures columns == old(columns)
    {
      records := records[n := record];
    }
  }

  // ---- createColumnDefinition and loadMetadata ----

  /** The column createColumnDefinition adds for one information-schema
      row (column name, udt_name), if any: read-only exactly when the name
      is one of the primary keys. */
  function ColumnOf(row: (string, string), primaryKeys: seq<string>): (c: Option<ColumnDef>)
    ensures c.Some? <==> Classify(row.1).AddColumn?
    ensures c.Some? ==> c.value == ColumnDef(row.0, Classify(row.1).domain, true, row.0 in primaryKeys)
  {
    match Classify(row.1)
    case AddColumn(domain) => Some(ColumnDef(row.0, domain, true, row.0 in primaryKeys))
    case SkipGeometry => None
    case UnknownType => None
  }

  /** createColumnDefinition: an invalid query row is refused; a known
      type adds its column; a geometry column is accepted without a
      column; any other type is refused. */
  method CreateColumnDefinition<V>(table: Table<V>, row: Option<(string, string)>, primaryKeys: seq<string>)
      returns (ok: bool)
    modifies table
    ensures ok <==> row.Some? && !Classify(row.value.1).UnknownType?
    ensures row.Some? && ColumnOf(row.value, primaryKeys).Some?
            ==> table.columns == old(table.columns) + [ColumnOf(row.value, primaryKeys).value]
    ensures (row.None? || ColumnOf(row.value, primaryKeys).None?) ==> table.columns == old(table.columns)
    ensures table.records == old(table.records)
  {
    if row.None? {
      return false;
    }
    var (columnName, udtName) := row.value;
    var domain: DomainKind;
    if udtName == "varchar" || udtName == "text" || udtName == "char" {
      domain := TextDomain;
    } else if StartsWith(udtName, "timestamp") {
      domain := TimeDomain;
    } else if StartsWith(udtName, "float") {
      domain := ValueDomain;
    } else if StartsWith(udtName, "int") {
      domain := IntegerDomain;
    } else if udtName == "bool" {
      domain := BooleanDomain;
    } else if udtName == "geometry" {
      return true;
    } else {
      return false;
    }
    var readonly := columnName in primaryKeys;
    table.AddColumnDef(columnName, domain, readonly);
    return true;
  }

  /** The columns loadMetadata adds for the rows of the information
      schema, in row order. */
  function AddedColumns(rows: seq<(string, string)>, primaryKeys: seq<string>): (cs: seq<ColumnDef>)
    ensures |cs| <= |rows|
    ensures forall k :: 0 <= k < |cs| ==> (cs[k].readonly <==> cs[k].name in primaryKeys)
    ensures forall k :: 0 <= k < |cs| ==> exists j :: 0 <= j < |rows| && ColumnOf(rows[j], primaryKeys) == Some(cs[k])
  {
    if |rows| == 0 then []
    else
      var front := AddedColumns(rows[..|rows| - 1], primaryKeys);
      match ColumnOf(rows[|rows| - 1], primaryKeys)
      case Some(c) => front + [c]
      case None => front
  }

  /** Every row of a known type gives a column of its name. */
  lemma {:induction false} KnownTypesAdded(rows: seq<(string, string)>, primaryKeys: seq<string>, j: nat)
    requires j < |rows| && Classify(rows[j].1).AddColumn?
    ensures ColumnOf(rows[j], primaryKeys).value in AddedColumns(rows, primaryKeys)
  {
    if j < |rows| - 1 {
      KnownTypesAdded(rows[..|rows| - 1], primaryKeys, j);
    }
  }

  /** One more row adds its column, if it has one. */
  lemma AddedStep(rows: seq<(string, string)>, i: nat, primaryKeys: seq<string>)
    requires i < |rows|
    ensures var c := ColumnOf(rows[i], primaryKeys);
            AddedColumns(rows[..i + 1], primaryKeys)
            == AddedColumns(rows[..i], primaryKeys) + (if c.Some? then [c.value] else [])
  {
    assert rows[..i + 1][..i] == rows[..i];
  }

  /** loadMetadata's loop over the information-schema rows. */
  method LoadMetadata<V>(table: Table<V>, rows: seq<(string, string)>, primaryKeys: seq<string>)
    modifies table
    ensures table.columns == old(table.columns) + AddedColumns(rows, primaryKeys)
    ensures table.records == old(table.records)
  {
    var i := 0;
    while i < |rows|
      invariant i <= |rows|
      invariant table.columns == old(table.columns) + AddedColumns(rows[..i], primaryKeys)
      invariant table.records == old(table.records)
    {
      var _ := CreateColumnDefinition(table, Some(rows[i]), primaryKeys);
      AddedStep(rows, i, primaryKeys);
      var c := ColumnOf(rows[i], primaryKeys);
      if c.Some? {
        SeqAssoc(old(table.columns), AddedColumns(rows[..i], primaryKeys), [c.value]);
      } else {
        AppendEmpty(AddedColumns(rows[..i], primaryKeys));
      }
      i := i + 1;
    }
    assert rows[..i] == rows;
  }

  // ---- loadData ----

  /** Each column name between spaces, as the column list holds it. */
  function Padded(columns: seq<ColumnDef>): (ps: seq<string>)
    ensures |ps| == |columns|
    ensures forall k :: 0 <= k < |ps| ==> ps[k] == " " + columns[k].name + " "
  {
    seq(|columns|, k requires 0 <= k < |columns| => " " + columns[k].name + " ")
  }

  /** The column list of loadData: " name ," per column, without the
      last character. */
  method ColumnList(columns: seq<ColumnDef>) returns (list: string)
    ensures |columns| == 0 ==> list == ""
    ensures |columns| > 0 ==> list == Join(Padded(columns), ',')
  {
    var all := "";
    for i := 0 to |columns|
      invariant all == Terminated(Padded(columns[..i]), ',')
    {
      var padded := " " + columns[i].name + " ";
      all := all + (padded + ",");
      assert Padded(columns[..i + 1]) == Padded(columns[..i]) + [padded];
      TerminatedSnoc(Padded(columns[..i]), padded, ',');
    }
    assert columns[..|columns|] == columns;
    list := Left(all, |all| - 1);
    if |columns| > 0 {
      TerminatedIsJoin(Padded(columns), ',');
      assert all[..|all| - 1] == Join(Padded(columns), ',');
    }
  }

  /** Column names without commas can be read back from the list. */
  lemma ColumnListSplits(columns: seq<ColumnDef>)
    requires |columns| > 0
    requires forall k :: 0 <= k < |columns| ==> ',' !in columns[k].name
    ensures Split(Join(Padded(columns), ','), ',') == Padded(columns)
  {
    var ps := Padded(columns);
    forall k | 0 <= k < |ps|
      ensures ',' !in ps[k]
    {
      assert ps[k] == " " + columns[k].name + " ";
    }
    SplitJoin(ps, ',');
  }

  /** The cell loadData writes for a column: empty for a column whose
      domain is not valid, otherwise the query's value under the column's
      name (empty when the query has no such column). */
  function CellOf<V>(column: ColumnDef, row: map<string, V>): (c: Cell<V>)
    ensures !column.domainValid ==> c.Empty?
    ensures c.Value? <==> column.domainValid && column.name in row
    ensures c.Value? ==> c.v == row[column.name]
  {
    if !column.domainValid then Empty
    else if column.name in row then Value(row[column.name])
    else Empty
  }

  /** The record loadData builds for one query row. */
  function RecordOf<V>(columns: seq<ColumnDef>, row: map<string, V>): (r: seq<Cell<V>>)
    ensures |r| == |columns|
    ensures forall i :: 0 <= i < |columns| ==> r[i] == CellOf(columns[i], row)
  {
    seq(|columns|, i requires 0 <= i < |columns| => CellOf(columns[i], row))
  }

  /** The inner loop of loadData: one cell per column. */
  method BuildRecord<V>(columns: seq<ColumnDef>, row: map<string, V>) returns (record: seq<Cell<V>>)
    ensures record == RecordOf(columns, row)
  {
    record := seq(|columns|, _ => Empty);
    for i := 0 to |columns|
      invariant |record| == |columns|
      invariant forall k :: 0 <= k < i ==> record[k] == CellOf(columns[k], row)
    {
      if !columns[i].domainValid {
        record := record[i := Empty];
        continue;
      }
      record := record[i := if columns[i].name in row then Value(row[columns[i].name]) else Empty];
    }
  }

  /** loadData: issues "SELECT <column list> FROM <table>" and writes the
      record of the k-th result row at row k; records at other rows stay
      as they were. `qualifiedTable` is the table name the database
      helper gives. */
  method LoadData<V>(table: Table<V>, qualifiedTable: string, rows: seq<map<string, V>>)
      returns (sql: string, ok: bool)
    modifies table
    ensures ok
    ensures |table.columns| > 0 ==> sql == "SELECT " + Join(Padded(table.columns), ',') + " FROM " + qualifiedTable
    ensures |table.columns| == 0 ==> sql == "SELECT " + " FROM " + qualifiedTable
    ensures table.columns == old(table.columns)
    ensures forall k :: 0 <= k < |rows| ==> k in table.records && table.records[k] == RecordOf(table.columns, rows[k])
    ensures forall k :: k in old(table.records) && k >= |rows| ==> k in table.records && table.records[k] == old(table.records)[k]
    ensures forall k :: k in table.records ==> k < |rows| || k in old(table.records)
  {
    var list := ColumnList(table.columns);
    sql := "SELECT " + list + " FROM " + qualifiedTable;
    var count := 0;
    while count < |rows|
      invariant count <= |rows|
      invariant table.columns == old(table.columns)
      invariant forall k :: 0 <= k < count ==> k in table.records && table.records[k] == RecordOf(table.columns, rows[k])
      invariant forall k :: k in old(table.records) && k >= count ==> k in table.records && table.records[k] == old(table.records)[k]
      invariant forall k :: k in table.records ==> k < count || k in old(table.records)
    {
      var record := BuildRecord(table.columns, rows[count]);
      table.SetRecord(count, record);
      count := count + 1;
    }
    ok := true;
  }
}
