/** The searches the loader runs over the physical schema and the field
    records. Each walks the tables in order and stops at the first hit. */
module SchemaLookup {
  import opened Wrappers
  import opened TableRefs
  import opened Catalog

  /** True iff some table of `tables` is named exactly `tableName`. */
  function ExistsTable(tableName: string, tables: seq<Table>): (b: bool)
    ensures b <==> exists i :: 0 <= i < |tables| && tables[i].name == tableName
  {
    if tables == [] then false
    else if tables[0].name == tableName then true
    else
      assert forall i :: 0 < i < |tables| ==> tables[i] == tables[1..][i - 1];
      ExistsTable(tableName, tables[1..])
  }

  /** True iff some column of `columns` is named exactly `columnName`. */
  function HasColumn(columnName: string, columns: seq<Column>): (b: bool)
    ensures b <==> exists j :: 0 <= j < |columns| && columns[j].name == columnName
  {
    if columns == [] then false
    else if columns[0].name == columnName then true
    else
      assert forall j :: 0 < j < |columns| ==> columns[j] == columns[1..][j - 1];
      HasColumn(columnName, columns[1..])
  }

  /** True iff a table named `tableName` has a column named `columnName`;
      the columns of tables with other names are never looked at. */
  function ExistsColumn(tableName: string, columnName: string, tables: seq<Table>): (b: bool)
    ensures b <==> exists i :: 0 <= i < |tables| && tables[i].name == tableName && HasColumn(columnName, tables[i].columns)
  {
    if tables == [] then false
    else if tables[0].name == tableName && HasColumn(columnName, tables[0].columns) then true
    else
      assert forall i :: 0 < i < |tables| ==> tables[i] == tables[1..][i - 1];
      ExistsColumn(tableName, columnName, tables[1..])
  }

  /** Table `i` is the first table named `tableName` that has a column named `columnName`. */
  ghost predicate IsFirstTableWithColumn(tableName: string, columnName: string, tables: seq<Table>, i: int)
  {
    && 0 <= i < |tables| && tables[i].name == tableName && HasColumn(columnName, tables[i].columns)
    && forall h :: 0 <= h < i && tables[h].name == tableName ==> !HasColumn(columnName, tables[h].columns)
  }

  /** The type of the first column named `columnName` in `columns`. */
  function ColumnType(columnName: string, columns: seq<Column>): (r: Option<PhysType>)
    ensures r.None? <==> !HasColumn(columnName, columns)
    ensures r.Some? ==> exists j :: 0 <= j < |columns| && columns[j].name == columnName && columns[j].physType == r.value
                            && forall k :: 0 <= k < j ==> columns[k].name != columnName
  {
    if columns == [] then None
    else if columns[0].name == columnName then Some(columns[0].physType)
    else
      var r := ColumnType(columnName, columns[1..]);
      assert forall j :: 0 < j < |columns| ==> columns[j] == columns[1..][j - 1];
      r
  }

  /** The type of the first column named `columnName` in a table named
      `tableName`, or None when there is no such column: the tables are
      searched in order, and the first table that has the column decides. */
  function GetColumnType(tableName: string, columnName: string, tables: seq<Table>): (r: Option<PhysType>)
    ensures r.None? <==> !ExistsColumn(tableName, columnName, tables)
    ensures r.Some? ==> exists i :: IsFirstTableWithColumn(tableName, columnName, tables, i)
                                   && r == ColumnType(columnName, tables[i].columns)
  {
    if tables == [] then None
    else if tables[0].name == tableName && HasColumn(columnName, tables[0].columns) then
      assert IsFirstTableWithColumn(tableName, columnName, tables, 0);
      ColumnType(columnName, tables[0].columns)
    else
      var r := GetColumnType(tableName, columnName, tables[1..]);
      assert forall i :: 0 < i < |tables| ==> tables[i] == tables[1..][i - 1];
      assert forall i :: IsFirstTableWithColumn(tableName, columnName, tables[1..], i) ==>
        IsFirstTableWithColumn(tableName, columnName, tables, i + 1);
      r
  }

  /** The outcome of comparing the first column named `columnName` of one
      table against `columnType`: None when the table has no such column. */
  function MatchColumnType(columnName: string, columnType: PhysType, columns: seq<Column>): (r: Option<bool>)
    ensures r.None? <==> ColumnType(columnName, columns).None?
    ensures r.Some? ==> (r.value <==> ColumnType(columnName, columns) == Some(columnType))
  {
    if columns == [] then None
    else if columns[0].name == columnName then
      Some(columns[0].physType.sqlType == columnType.sqlType
           && columns[0].physType.castTypeName == columnType.castTypeName)
    else MatchColumnType(columnName, columnType, columns[1..])
  }

  /** True iff the first column named `columnName` of a table named `tableName`
      has both the SQL type and the cast type name of `columnType`. A mismatch
      there is final: a later column of the same name is not considered. */
  function ExistsColumnWithType(tableName: string, columnName: string, columnType: PhysType, tables: seq<Table>): (b: bool)
    ensures b <==> GetColumnType(tableName, columnName, tables) == Some(columnType)
  {
    if tables == [] then false
    else if tables[0].name == tableName && MatchColumnType(columnName, columnType, tables[0].columns).Some? then
      MatchColumnType(columnName, columnType, tables[0].columns).value
    else ExistsColumnWithType(tableName, columnName, columnType, tables[1..])
  }

  /** True iff some field record belongs to `collection` and `tableRef` and has
      `columnName` as its identifier. The records' database is not compared. */
  function ContainsField(columnName: string, collection: string, tableRef: TableRef, fields: seq<FieldRecord>): (b: bool)
    ensures b <==> exists i :: 0 <= i < |fields| && fields[i].collection == collection
                               && fields[i].tableRef == tableRef && fields[i].identifier == columnName
  {
    if fields == [] then false
    else if fields[0].collection == collection && fields[0].tableRef == tableRef && fields[0].identifier == columnName then true
    else
      assert forall i :: 0 < i < |fields| ==> fields[i] == fields[1..][i - 1];
      ContainsField(columnName, collection, tableRef, fields[1..])
  }
}
