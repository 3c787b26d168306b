/** The catalog loader as the loop nest it is: databases, then for each its
    collections, doc-parts and fields (the forward check), then the schema's
    tables and columns (the reverse check), stopping at the first failed check.
    Each level of the nest is one method, proved against the function of the
    same level in Reconciler. */
module SnapshotLoader {
  import opened Wrappers
  import opened TableRefs
  import opened Catalog
  import opened SchemaLookup
  import opened Reconciler

  /** Loads the snapshot from the catalog records, checking it against the
      physical schemas. `isSpecial` tells the bookkeeping columns apart and
      `dataType` gives the column type the backend expects for a field type;
      the outcome does not depend on `dataType`, because a column whose type
      differs from it is accepted all the same. */
  method LoadMetaSnapshot(cat: CatalogRecords, schemas: seq<Schema>, isSpecial: string -> bool,
                          dataType: FieldType -> PhysType) returns (r: Result<MetaSnapshot, LoadError>)
    requires UniqueDocPartIdentifiers(cat.docParts)
    ensures r == LoadSnapshot(cat, schemas, isSpecial)
  {
    var loader := DatabaseLoader(cat, schemas, isSpecial);
    var databases: seq<MetaDatabase> := [];
    for i := 0 to |cat.databases|
      invariant |databases| == i
      invariant forall m :: 0 <= m < i ==> loader(cat.databases[m]) == Success(databases[m])
    {
      var database := LoadMetaDatabase(cat, schemas, isSpecial, dataType, cat.databases[i]);
      if database.Failure? {
        MapOrFailFailsAt(cat.databases, loader, i);
        return Failure(database.error);
      }
      databases := databases + [database.value];
    }
    MapOrFailSucceeds(cat.databases, loader, databases);
    r := Success(MetaSnapshot(databases));
  }

  /** One iteration of the database loop: find the schema, run the forward
      check over the database's collections, then the reverse check over the
      schema's tables. */
  method LoadMetaDatabase(cat: CatalogRecords, schemas: seq<Schema>, isSpecial: string -> bool,
                          dataType: FieldType -> PhysType, d: DatabaseRecord) returns (r: Result<MetaDatabase, LoadError>)
    ensures r == LoadDatabase(cat, schemas, isSpecial, d)
  {
    var found := LookupSchema(d.identifier, schemas);
    if found.None? {
      return Failure(MissingSchema(d.name, d.identifier));
    }
    var schema := found.value;
    var schemaCheck := CheckDatabaseSchema(schema);
    var tables := schema.tables;

    var collections := LoadMetaCollections(d.identifier, d.name, tables, cat, dataType,
                                           CollectionsOf(d.name, cat.collections));
    if collections.Failure? {
      return Failure(collections.error);
    }
    var checked := CheckSchemaTables(d.identifier, d.name, tables, DocPartsOfDatabase(d.name, cat.docParts),
                                     FieldsOfDatabase(d.name, cat.fields), isSpecial);
    if checked.Failure? {
      return Failure(checked.error);
    }
    r := Success(MetaDatabase(d.name, d.identifier, collections.value));
  }

  /** The collection loop of a database: each collection, in order, stopping
      at the first that fails. */
  method LoadMetaCollections(schema: string, database: string, tables: seq<Table>, cat: CatalogRecords,
                             dataType: FieldType -> PhysType, collections: seq<CollectionRecord>)
    returns (r: Result<seq<MetaCollection>, LoadError>)
    ensures r == MapOrFail(collections, CollectionLoader(schema, database, tables, cat))
  {
    var loader := CollectionLoader(schema, database, tables, cat);
    var metaCollections: seq<MetaCollection> := [];
    for j := 0 to |collections|
      invariant |metaCollections| == j
      invariant forall m :: 0 <= m < j ==> loader(collections[m]) == Success(metaCollections[m])
    {
      var collection := LoadMetaCollection(schema, database, tables, cat, dataType, collections[j]);
      if collection.Failure? {
        MapOrFailFailsAt(collections, loader, j);
        return Failure(collection.error);
      }
      metaCollections := metaCollections + [collection.value];
    }
    MapOrFailSucceeds(collections, loader, metaCollections);
    r := Success(metaCollections);
  }

  /** The schema loop: the first schema whose name is the database's identifier. */
  method LookupSchema(name: string, schemas: seq<Schema>) returns (found: Option<Schema>)
    ensures found == FindSchema(name, schemas)
  {
    found := None;
    for k := 0 to |schemas|
      invariant found.None?
      invariant forall m :: 0 <= m < k ==> schemas[m].name != name
    {
      if schemas[k].name == name {
        found := Some(schemas[k]);
        assert FindSchema(name, schemas) == found;
        break;
      }
    }
  }

  /** The reverse check: every table of the schema, in order. */
  method CheckSchemaTables(schema: string, database: string, tables: seq<Table>, dbDocParts: seq<DocPartRecord>,
                           dbFields: seq<FieldRecord>, isSpecial: string -> bool) returns (r: Result<seq<()>, LoadError>)
    ensures r == MapOrFail(tables, TableChecker(schema, database, dbDocParts, dbFields, isSpecial))
  {
    var checker := TableChecker(schema, database, dbDocParts, dbFields, isSpecial);
    var checked: seq<()> := [];
    for t := 0 to |tables|
      invariant |checked| == t
      invariant forall m :: 0 <= m < t ==> checker(tables[m]) == Success(checked[m])
    {
      var outcome := CheckSchemaTable(schema, database, dbDocParts, dbFields, isSpecial, tables[t]);
      if outcome.Failure? {
        MapOrFailFailsAt(tables, checker, t);
        return Failure(outcome.error);
      }
      checked := checked + [outcome.value];
    }
    MapOrFailSucceeds(tables, checker, checked);
    r := Success(checked);
  }

  /** One iteration of the collection loop: build each of its doc-parts. */
  method LoadMetaCollection(schema: string, database: string, tables: seq<Table>, cat: CatalogRecords,
                            dataType: FieldType -> PhysType, c: CollectionRecord) returns (r: Result<MetaCollection, LoadError>)
    ensures r == LoadCollection(schema, database, tables, cat, c)
  {
    var docParts := DocPartsOf(database, c.name, cat.docParts);
    var metaDocParts := LoadMetaDocParts(schema, database, c.name, tables, cat.fields, dataType, docParts);
    if metaDocParts.Failure? {
      return Failure(metaDocParts.error);
    }
    r := Success(MetaCollection(c.name, c.identifier, metaDocParts.value));
  }

  /** The doc-part loop of a collection: each doc-part, in order, must load. */
  method LoadMetaDocParts(schema: string, database: string, collection: string, tables: seq<Table>,
                          catalogFields: seq<FieldRecord>, dataType: FieldType -> PhysType, docParts: seq<DocPartRecord>)
    returns (r: Result<seq<MetaDocPart>, LoadError>)
    ensures r == MapOrFail(docParts, DocPartLoader(schema, database, collection, tables, catalogFields))
  {
    var loader := DocPartLoader(schema, database, collection, tables, catalogFields);
    var metaDocParts: seq<MetaDocPart> := [];
    for k := 0 to |docParts|
      invariant |metaDocParts| == k
      invariant forall m :: 0 <= m < k ==> loader(docParts[m]) == Success(metaDocParts[m])
    {
      var docPart := LoadMetaDocPart(schema, database, collection, tables, catalogFields, dataType, docParts[k]);
      if docPart.Failure? {
        MapOrFailFailsAt(docParts, loader, k);
        return Failure(docPart.error);
      }
      metaDocParts := metaDocParts + [docPart.value];
    }
    MapOrFailSucceeds(docParts, loader, metaDocParts);
    r := Success(metaDocParts);
  }

  /** One iteration of the doc-part loop: its table must exist, and then each
      of its fields must have a column there. */
  method LoadMetaDocPart(schema: string, database: string, collection: string, tables: seq<Table>,
                         catalogFields: seq<FieldRecord>, dataType: FieldType -> PhysType, dp: DocPartRecord)
    returns (r: Result<MetaDocPart, LoadError>)
    ensures r == LoadDocPart(schema, database, collection, tables, catalogFields, dp)
  {
    if !ExistsTable(dp.identifier, tables) {
      return Failure(InvalidSchema(schema, database, MissingTable(dp.tableRef, dp.identifier)));
    }
    var fields := FieldsOf(database, collection, dp.tableRef, catalogFields);
    var metaFields := LoadMetaFields(schema, database, dp, tables, fields, dataType);
    if metaFields.Failure? {
      return Failure(metaFields.error);
    }
    r := Success(MetaDocPart(dp.tableRef, dp.identifier, metaFields.value));
  }

  /** The field loop of a doc-part: each field, in order, must have a column in
      the doc-part's table. */
  method LoadMetaFields(schema: string, database: string, dp: DocPartRecord, tables: seq<Table>,
                        fields: seq<FieldRecord>, dataType: FieldType -> PhysType)
    returns (r: Result<seq<MetaField>, LoadError>)
    ensures r == MapOrFail(fields, FieldLoader(schema, database, dp, tables))
  {
    var loader := FieldLoader(schema, database, dp, tables);
    var metaFields: seq<MetaField> := [];
    for l := 0 to |fields|
      invariant |metaFields| == l
      invariant forall m :: 0 <= m < l ==> loader(fields[m]) == Success(metaFields[m])
    {
      var field := LoadMetaField(schema, database, dp, tables, dataType, fields[l]);
      if field.Failure? {
        MapOrFailFailsAt(fields, loader, l);
        return Failure(field.error);
      }
      metaFields := metaFields + [field.value];
    }
    MapOrFailSucceeds(fields, loader, metaFields);
    r := Success(metaFields);
  }

  /** One iteration of the field loop: the field's column must exist in the
      doc-part's table. The type comparison is made and its outcome dropped:
      metadata cannot tell some field types apart, so a mismatch is accepted. */
  method LoadMetaField(schema: string, database: string, dp: DocPartRecord, tables: seq<Table>,
                       dataType: FieldType -> PhysType, f: FieldRecord) returns (r: Result<MetaField, LoadError>)
    ensures r == LoadField(schema, database, dp, tables, f)
  {
    if !ExistsColumn(dp.identifier, f.identifier, tables) {
      return Failure(InvalidSchema(schema, database,
                       MissingColumn(f.collection, f.tableRef, f.name, dp.identifier, f.identifier)));
    }
    var typeMatches := ExistsColumnWithType(dp.identifier, f.identifier, dataType(f.fieldType), tables);
    r := Success(ToMetaField(f));
  }

  /** One iteration of the reverse loop: the table must be some doc-part's,
      and each of its columns that is not special must be one of that
      doc-part's fields. */
  method CheckSchemaTable(schema: string, database: string, dbDocParts: seq<DocPartRecord>, dbFields: seq<FieldRecord>,
                          isSpecial: string -> bool, table: Table) returns (r: Result<(), LoadError>)
    ensures r == CheckTable(schema, database, dbDocParts, dbFields, isSpecial, table)
  {
    var owner := DocPartByIdentifier(table.name, dbDocParts);
    if owner.None? {
      return Failure(InvalidSchema(schema, database, OrphanTable(table.name)));
    }
    var checker := ColumnChecker(schema, database, table.name, owner.value, dbFields, isSpecial);
    for q := 0 to |table.columns|
      invariant forall m :: 0 <= m < q ==> checker(table.columns[m]).Success?
    {
      var column := table.columns[q];
      if isSpecial(column.name) {
        continue;
      }
      if !ContainsField(column.name, owner.value.collection, owner.value.tableRef, dbFields) {
        MapOrFailFailsAt(table.columns, checker, q);
        return Failure(InvalidSchema(schema, database, OrphanColumn(table.name, column.name)));
      }
    }
    assert MapOrFail(table.columns, checker).Success?;
    r := Success(());
  }
}
