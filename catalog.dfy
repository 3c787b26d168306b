/** The values the loader reads and produces: the rows of the four catalog
    tables, the physical schema as reported by the database metadata, the
    snapshot tree, and the loader's errors. */
module Catalog {
  import opened TableRefs

  // ---- catalog records (one per row of the meta tables) ----

  datatype DatabaseRecord = DatabaseRecord(name: string, identifier: string)

  datatype CollectionRecord = CollectionRecord(database: string, name: string, identifier: string)

  datatype DocPartRecord = DocPartRecord(database: string, collection: string, tableRef: TableRef, identifier: string)

  /** The document-model type tag of a field, named as in the catalog. */
  datatype FieldType = FieldType(tag: string)

  datatype FieldRecord = FieldRecord(
    database: string, collection: string, tableRef: TableRef,
    name: string, identifier: string, fieldType: FieldType)

  /** Everything the four catalog queries can return, in storage order. */
  datatype CatalogRecords = CatalogRecords(
    databases: seq<DatabaseRecord>,
    collections: seq<CollectionRecord>,
    docParts: seq<DocPartRecord>,
    fields: seq<FieldRecord>)

  // ---- physical schema ----

  /** The two parts of a column's data type that the loader compares. */
  datatype PhysType = PhysType(sqlType: int, castTypeName: string)

  datatype Column = Column(name: string, physType: PhysType)

  datatype Table = Table(name: string, columns: seq<Column>)

  datatype Schema = Schema(name: string, tables: seq<Table>)

  // ---- snapshot ----

  datatype MetaField = MetaField(name: string, identifier: string, fieldType: FieldType)

  datatype MetaDocPart = MetaDocPart(tableRef: TableRef, identifier: string, fields: seq<MetaField>)

  datatype MetaCollection = MetaCollection(name: string, identifier: string, docParts: seq<MetaDocPart>)

  datatype MetaDatabase = MetaDatabase(name: string, identifier: string, collections: seq<MetaCollection>)

  datatype MetaSnapshot = MetaSnapshot(databases: seq<MetaDatabase>)

  // ---- errors ----

  /** The ways the catalog and the physical schema can disagree. */
  datatype Mismatch =
    | MissingTable(tableRef: TableRef, table: string)
    | MissingColumn(collection: string, tableRef: TableRef, field: string, table: string, column: string)
    | OrphanTable(table: string)
    | OrphanColumn(table: string, column: string)

  datatype LoadError =
    /** A database record names a schema that does not exist (IllegalStateException). */
    | MissingSchema(database: string, schema: string)
    /** The catalog and the schema disagree (InvalidDatabaseSchemaException). */
    | InvalidSchema(schema: string, database: string, mismatch: Mismatch)
}
