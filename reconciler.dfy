/** The catalog loader as functions: the catalog queries, the forward check
    (every doc-part has its table, every field its column), the reverse check
    (every table has its doc-part, every ordinary column its field), and the
    snapshot they build. The first failed check, in the order the loader
    visits records, decides the error. */
module Reconciler {
  import opened Wrappers
  import opened TableRefs
  import opened Catalog
  import opened SchemaLookup

  // ---- catalog queries ----

  /** The collection records of `database`. */
  function CollectionsOf(database: string, collections: seq<CollectionRecord>): (r: seq<CollectionRecord>)
    ensures forall c :: c in r <==> c in collections && c.database == database
  {
    Filter(collections, (c: CollectionRecord) => c.database == database)
  }

  /** The doc-part records of one collection of `database`. */
  function DocPartsOf(database: string, collection: string, docParts: seq<DocPartRecord>): (r: seq<DocPartRecord>)
    ensures forall dp :: dp in r <==> dp in docParts && dp.database == database && dp.collection == collection
  {
    Filter(docParts, (dp: DocPartRecord) => dp.database == database && dp.collection == collection)
  }

  /** The field records of one doc-part, matched on database, collection and TableRef. */
  function FieldsOf(database: string, collection: string, tableRef: TableRef, fields: seq<FieldRecord>): (r: seq<FieldRecord>)
    ensures forall f :: f in r <==> f in fields && f.database == database && f.collection == collection && f.tableRef == tableRef
  {
    Filter(fields, (f: FieldRecord) => f.database == database && f.collection == collection && f.tableRef == tableRef)
  }

  /** All doc-part records of `database`. */
  function DocPartsOfDatabase(database: string, docParts: seq<DocPartRecord>): (r: seq<DocPartRecord>)
    ensures forall dp :: dp in r <==> dp in docParts && dp.database == database
  {
    Filter(docParts, (dp: DocPartRecord) => dp.database == database)
  }

  /** All field records of `database`. */
  function FieldsOfDatabase(database: string, fields: seq<FieldRecord>): (r: seq<FieldRecord>)
    ensures forall f :: f in r <==> f in fields && f.database == database
  {
    Filter(fields, (f: FieldRecord) => f.database == database)
  }

  /** The first schema called `name`. */
  function FindSchema(name: string, schemas: seq<Schema>): (r: Option<Schema>)
    ensures r.None? <==> forall i :: 0 <= i < |schemas| ==> schemas[i].name != name
    ensures r.Some? ==> exists i :: 0 <= i < |schemas| && schemas[i] == r.value && schemas[i].name == name
                                    && forall k :: 0 <= k < i ==> schemas[k].name != name
  {
    if schemas == [] then None
    else if schemas[0].name == name then Some(schemas[0])
    else
      assert forall i :: 0 < i < |schemas| ==> schemas[i] == schemas[1..][i - 1];
      FindSchema(name, schemas[1..])
  }

  /** The doc-part record whose table is `identifier` (the lookup in the map
      keyed by identifier); the first one if the catalog holds several. */
  function DocPartByIdentifier(identifier: string, docParts: seq<DocPartRecord>): (r: Option<DocPartRecord>)
    ensures r.None? <==> forall dp :: dp in docParts ==> dp.identifier != identifier
    ensures r.Some? ==> r.value in docParts && r.value.identifier == identifier
    ensures r.Some? ==> exists i :: 0 <= i < |docParts| && docParts[i] == r.value
                                    && forall h :: 0 <= h < i ==> docParts[h].identifier != identifier
  {
    if docParts == [] then None
    else if docParts[0].identifier == identifier then Some(docParts[0])
    else
      var r := DocPartByIdentifier(identifier, docParts[1..]);
      assert r.Some? ==> exists i :: 0 <= i < |docParts| && docParts[i] == r.value
                                    && forall h :: 0 <= h < i ==> docParts[h].identifier != identifier by {
        if r.Some? {
          var i :| 0 <= i < |docParts[1..]| && docParts[1..][i] == r.value
                   && forall h :: 0 <= h < i ==> docParts[1..][h].identifier != identifier;
          assert docParts[i + 1] == r.value;
          forall h | 0 <= h < i + 1 ensures docParts[h].identifier != identifier {
            if h > 0 { assert docParts[h] == docParts[1..][h - 1]; }
          }
        }
      }
      r
  }

  /** No two doc-part records of one database share a table identifier:
      none of the later records clashes with the first, and so on down the
      sequence. */
  predicate UniqueDocPartIdentifiers(docParts: seq<DocPartRecord>)
  {
    docParts == [] ||
    ((forall k :: 0 < k < |docParts| ==>
        docParts[k].database != docParts[0].database || docParts[k].identifier != docParts[0].identifier)
     && UniqueDocPartIdentifiers(docParts[1..]))
  }

  /** The backend's structural check of a schema: it accepts every schema. */
  function CheckDatabaseSchema(schema: Schema): (r: Result<(), LoadError>)
    ensures r.Success?
  {
    Success(())
  }

  function ToMetaField(f: FieldRecord): MetaField
  {
    MetaField(f.name, f.identifier, f.fieldType)
  }

  // ---- forward check: doc-parts and fields of the catalog ----

  function LoadField(schema: string, database: string, docPart: DocPartRecord, tables: seq<Table>, field: FieldRecord)
    : Result<MetaField, LoadError>
  {
    if ExistsColumn(docPart.identifier, field.identifier, tables) then Success(ToMetaField(field))
    else Failure(InvalidSchema(schema, database,
                   MissingColumn(field.collection, field.tableRef, field.name, docPart.identifier, field.identifier)))
  }

  function FieldLoader(schema: string, database: string, docPart: DocPartRecord, tables: seq<Table>)
    : (loader: FieldRecord -> Result<MetaField, LoadError>)
    ensures forall f :: loader(f) == LoadField(schema, database, docPart, tables, f)
  {
    (f: FieldRecord) => LoadField(schema, database, docPart, tables, f)
  }

  function LoadDocPart(schema: string, database: string, collection: string, tables: seq<Table>,
                       fields: seq<FieldRecord>, docPart: DocPartRecord): Result<MetaDocPart, LoadError>
  {
    if !ExistsTable(docPart.identifier, tables) then
      Failure(InvalidSchema(schema, database, MissingTable(docPart.tableRef, docPart.identifier)))
    else
      var metaFields :- MapOrFail(FieldsOf(database, collection, docPart.tableRef, fields),
                                  FieldLoader(schema, database, docPart, tables));
      Success(MetaDocPart(docPart.tableRef, docPart.identifier, metaFields))
  }

  function DocPartLoader(schema: string, database: string, collection: string, tables: seq<Table>, fields: seq<FieldRecord>)
    : (loader: DocPartRecord -> Result<MetaDocPart, LoadError>)
    ensures forall dp :: loader(dp) == LoadDocPart(schema, database, collection, tables, fields, dp)
  {
    (dp: DocPartRecord) => LoadDocPart(schema, database, collection, tables, fields, dp)
  }

  function LoadCollection(schema: string, database: string, tables: seq<Table>, cat: CatalogRecords,
                          collection: CollectionRecord): Result<MetaCollection, LoadError>
  {
    var metaDocParts :- MapOrFail(DocPartsOf(database, collection.name, cat.docParts),
                                  DocPartLoader(schema, database, collection.name, tables, cat.fields));
    Success(MetaCollection(collection.name, collection.identifier, metaDocParts))
  }

  function CollectionLoader(schema: string, database: string, tables: seq<Table>, cat: CatalogRecords)
    : (loader: CollectionRecord -> Result<MetaCollection, LoadError>)
    ensures forall c :: loader(c) == LoadCollection(schema, database, tables, cat, c)
  {
    (c: CollectionRecord) => LoadCollection(schema, database, tables, cat, c)
  }

  // ---- reverse check: tables and columns of the schema ----

  function CheckColumn(schema: string, database: string, table: string, owner: DocPartRecord,
                       dbFields: seq<FieldRecord>, isSpecial: string -> bool, column: Column): Result<(), LoadError>
  {
    if isSpecial(column.name) || ContainsField(column.name, owner.collection, owner.tableRef, dbFields) then Success(())
    else Failure(InvalidSchema(schema, database, OrphanColumn(table, column.name)))
  }

  function ColumnChecker(schema: string, database: string, table: string, owner: DocPartRecord,
                         dbFields: seq<FieldRecord>, isSpecial: string -> bool): (checker: Column -> Result<(), LoadError>)
    ensures forall col :: checker(col) == CheckColumn(schema, database, table, owner, dbFields, isSpecial, col)
  {
    (col: Column) => CheckColumn(schema, database, table, owner, dbFields, isSpecial, col)
  }

  function CheckTable(schema: string, database: string, dbDocParts: seq<DocPartRecord>, dbFields: seq<FieldRecord>,
                      isSpecial: string -> bool, table: Table): Result<(), LoadError>
  {
    match DocPartByIdentifier(table.name, dbDocParts)
    case None => Failure(InvalidSchema(schema, database, OrphanTable(table.name)))
    case Some(owner) =>
      var checked :- MapOrFail(table.columns, ColumnChecker(schema, database, table.name, owner, dbFields, isSpecial));
      Success(())
  }

  function TableChecker(schema: string, database: string, dbDocParts: seq<DocPartRecord>, dbFields: seq<FieldRecord>,
                        isSpecial: string -> bool): (checker: Table -> Result<(), LoadError>)
    ensures forall t :: checker(t) == CheckTable(schema, database, dbDocParts, dbFields, isSpecial, t)
  {
    (t: Table) => CheckTable(schema, database, dbDocParts, dbFields, isSpecial, t)
  }

  // ---- databases and the snapshot ----

  function LoadDatabase(cat: CatalogRecords, schemas: seq<Schema>, isSpecial: string -> bool, d: DatabaseRecord)
    : Result<MetaDatabase, LoadError>
  {
    match FindSchema(d.identifier, schemas)
    case None => Failure(MissingSchema(d.name, d.identifier))
    case Some(schema) =>
      var collections :- MapOrFail(CollectionsOf(d.name, cat.collections),
                                   CollectionLoader(d.identifier, d.name, schema.tables, cat));
      var checked :- MapOrFail(schema.tables,
                               TableChecker(d.identifier, d.name, DocPartsOfDatabase(d.name, cat.docParts),
                                            FieldsOfDatabase(d.name, cat.fields), isSpecial));
      Success(MetaDatabase(d.name, d.identifier, collections))
  }

  function DatabaseLoader(cat: CatalogRecords, schemas: seq<Schema>, isSpecial: string -> bool)
    : (loader: DatabaseRecord -> Result<MetaDatabase, LoadError>)
    ensures forall d :: loader(d) == LoadDatabase(cat, schemas, isSpecial, d)
  {
    (d: DatabaseRecord) => LoadDatabase(cat, schemas, isSpecial, d)
  }

  /** The outcome of loading the whole catalog against the physical schemas. */
  function LoadSnapshot(cat: CatalogRecords, schemas: seq<Schema>, isSpecial: string -> bool): Result<MetaSnapshot, LoadError>
  {
    var databases :- MapOrFail(cat.databases, DatabaseLoader(cat, schemas, isSpecial));
    Success(MetaSnapshot(databases))
  }

  // ---- the reference description: what a consistent catalog should look like ----

  /** The doc-part built from a doc-part record: all field records of its
      database, collection and TableRef, in catalog order. */
  function ExpectedDocPart(database: string, collection: string, fields: seq<FieldRecord>, docPart: DocPartRecord): MetaDocPart
  {
    var fs := FieldsOf(database, collection, docPart.tableRef, fields);
    MetaDocPart(docPart.tableRef, docPart.identifier, seq(|fs|, i requires 0 <= i < |fs| => ToMetaField(fs[i])))
  }

  function ExpectedCollection(database: string, cat: CatalogRecords, collection: CollectionRecord): MetaCollection
  {
    var dps := DocPartsOf(database, collection.name, cat.docParts);
    MetaCollection(collection.name, collection.identifier,
                   seq(|dps|, k requires 0 <= k < |dps| => ExpectedDocPart(database, collection.name, cat.fields, dps[k])))
  }

  function ExpectedDatabase(cat: CatalogRecords, d: DatabaseRecord): MetaDatabase
  {
    var cs := CollectionsOf(d.name, cat.collections);
    MetaDatabase(d.name, d.identifier, seq(|cs|, j requires 0 <= j < |cs| => ExpectedCollection(d.name, cat, cs[j])))
  }

  function ExpectedSnapshot(cat: CatalogRecords): MetaSnapshot
  {
    MetaSnapshot(seq(|cat.databases|, i requires 0 <= i < |cat.databases| => ExpectedDatabase(cat, cat.databases[i])))
  }

  /** The doc-part's table exists, and each field record of the doc-part's
      database, collection and TableRef names a column of that table. */
  ghost predicate DocPartConsistent(database: string, collection: string, tables: seq<Table>,
                                    fields: seq<FieldRecord>, dp: DocPartRecord)
  {
    && ExistsTable(dp.identifier, tables)
    && forall f :: f in fields && f.database == database && f.collection == collection && f.tableRef == dp.tableRef ==>
         ExistsColumn(dp.identifier, f.identifier, tables)
  }

  /** Every doc-part record of one of the database's collections is consistent. */
  ghost predicate ForwardConsistent(cat: CatalogRecords, d: DatabaseRecord, tables: seq<Table>)
  {
    forall c, dp :: c in cat.collections && c.database == d.name && dp in cat.docParts
                    && dp.database == d.name && dp.collection == c.name ==>
      DocPartConsistent(d.name, c.name, tables, cat.fields, dp)
  }

  /** The table is some doc-part record's table, and each of its columns that
      is not special is the identifier of a field record of that doc-part's
      collection and TableRef. */
  ghost predicate TableConsistent(dbDocParts: seq<DocPartRecord>, dbFields: seq<FieldRecord>,
                                  isSpecial: string -> bool, t: Table)
  {
    var owner := DocPartByIdentifier(t.name, dbDocParts);
    && owner.Some?
    && forall col :: col in t.columns && !isSpecial(col.name) ==>
         ContainsField(col.name, owner.value.collection, owner.value.tableRef, dbFields)
  }

  /** Every table of the schema is consistent with the database's records. */
  ghost predicate ReverseConsistent(cat: CatalogRecords, d: DatabaseRecord, tables: seq<Table>, isSpecial: string -> bool)
  {
    forall t :: t in tables ==>
      TableConsistent(DocPartsOfDatabase(d.name, cat.docParts), FieldsOfDatabase(d.name, cat.fields), isSpecial, t)
  }

  /** The database's schema exists and agrees with the catalog in both directions. */
  ghost predicate DatabaseConsistent(cat: CatalogRecords, schemas: seq<Schema>, isSpecial: string -> bool, d: DatabaseRecord)
  {
    && FindSchema(d.identifier, schemas).Some?
    && ForwardConsistent(cat, d, FindSchema(d.identifier, schemas).value.tables)
    && ReverseConsistent(cat, d, FindSchema(d.identifier, schemas).value.tables, isSpecial)
  }
}
