# DerbyTorodbMeta: catalog snapshot loader and row-id tracker

This project models the metadata loader that the Derby backend of ToroDB runs
when it opens a session. The class `DerbyTorodbMeta` has three parts, and each
is modelled:

- **Snapshot loader.** It reads the rows of the four catalog tables: databases,
  collections, doc-parts and fields. From them it rebuilds the tree
  database → collection → doc-part → field.
- **Schema reconciliation.** It checks that tree against the physical schema
  in both directions. In the forward direction, every doc-part must have a
  table and every field a column. In the reverse direction, every table must
  belong to a doc-part, and every column that is not special must belong to a
  field. The first disagreement ends the load with an error.
- **Row-id tracker.** It then walks the finished snapshot. It records the last
  row id used by each doc-part in a map keyed by database name, collection
  name and TableRef.

Modules:

- `Wrappers`: `Option` and `Result`, an order-preserving `Filter`, and
  `MapOrFail`. `MapOrFail` applies a checked step to every element and stops
  at the first failure.
- `TableRefs`: a TableRef is a path value with structural equality.
- `Catalog`: the catalog records, the physical schema, the snapshot tree and
  the error kinds.
- `SchemaLookup`: the five lookup helpers. Each is a recursive function whose
  contract says what it finds.
- `Reconciler`: the catalog queries as filters, and the loader as functions
  level by level (field, doc-part, collection, table, database, snapshot). It
  also gives a reference description: the tree a consistent catalog should
  produce, and the consistency predicates.
- `SnapshotLoader`: the loader as the nest of loops it is. Each level is a
  method proved equal to the function of the same level.
- `ReconcilerProperties`: what loading means.
  - Success holds exactly when every database is consistent with its schema.
  - The tree is then the reference tree.
  - Each error names a real disagreement of the first inconsistent database.
- `RowIds`: the row-id walk as a method with nested loops, proved equal to a
  fold over prefixes. Lemmas say which keys and values the map holds.
- `DerbyMeta`: opening, that is, the snapshot followed by the row ids. It also
  includes the small shop/orders catalog worked end to end.

Collaborators whose code is not part of this model are parameters:

- `isSpecial` stands for `IdentifierHelper.isSpecialColumn`.
- `dataType` stands for `getDataType`.
- `lastRowId` stands for `getLastRowIUsed`. Its `None` result stands for the
  call throwing.

## Model

| member | source | states |
|---|---|---|
| SchemaLookup.ExistsTable | backend/derby/src/main/java/com/torodb/backend/derby/DerbyTorodbMeta.java:235-242 | true iff some table has exactly the given name |
| SchemaLookup.ExistsColumn | backend/derby/src/main/java/com/torodb/backend/derby/DerbyTorodbMeta.java:244-255 | true iff some table with the given name has a column with the given name; columns of tables with other names are never consulted |
| SchemaLookup.GetColumnType | backend/derby/src/main/java/com/torodb/backend/derby/DerbyTorodbMeta.java:275-286 | None iff no table of that name has the column; otherwise the type of the first such column, searching tables and then columns in order |
| SchemaLookup.ExistsColumnWithType | backend/derby/src/main/java/com/torodb/backend/derby/DerbyTorodbMeta.java:257-273 | true iff the first matching column (the one GetColumnType settles on) has exactly the expected type; a later duplicate with the right type does not help, and a missing column gives false |
| SchemaLookup.ContainsField | backend/derby/src/main/java/com/torodb/backend/derby/DerbyTorodbMeta.java:288-297 | true iff some field record has the given collection, a structurally equal TableRef and an identifier equal to the column name |
| Reconciler.CheckDatabaseSchema | backend/derby/src/main/java/com/torodb/backend/derby/DerbyTorodbMeta.java:299-301 | the schema check accepts every schema |
| Reconciler.CollectionsOf | backend/derby/src/main/java/com/torodb/backend/derby/DerbyTorodbMeta.java:130-133 | the collection query returns exactly the collection records of the database |
| Reconciler.DocPartsOf | backend/derby/src/main/java/com/torodb/backend/derby/DerbyTorodbMeta.java:137-141 | the doc-part query returns exactly the doc-part records of the database and collection |
| Reconciler.FieldsOf | backend/derby/src/main/java/com/torodb/backend/derby/DerbyTorodbMeta.java:162-167 | the field query returns exactly the field records of the database, collection and TableRef |
| Reconciler.DocPartsOfDatabase | backend/derby/src/main/java/com/torodb/backend/derby/DerbyTorodbMeta.java:202-205 | the doc-part query of the reverse check returns exactly the database's doc-part records |
| Reconciler.FieldsOfDatabase | backend/derby/src/main/java/com/torodb/backend/derby/DerbyTorodbMeta.java:206-209 | the field query of the reverse check returns exactly the database's field records |
| Reconciler.FindSchema | backend/derby/src/main/java/com/torodb/backend/derby/DerbyTorodbMeta.java:112-118 | None iff no schema has the name; otherwise the first schema with that name |
| Reconciler.DocPartByIdentifier | backend/derby/src/main/java/com/torodb/backend/derby/DerbyTorodbMeta.java:202-205 | the lookup in the map keyed by identifier: None iff no record has that identifier, otherwise the first record with that identifier |
| SnapshotLoader.LoadMetaSnapshot | backend/derby/src/main/java/com/torodb/backend/derby/DerbyTorodbMeta.java:95-233 | the loop over database records gives the outcome of the loader specification LoadSnapshot |
| SnapshotLoader.LoadMetaDatabase | backend/derby/src/main/java/com/torodb/backend/derby/DerbyTorodbMeta.java:106-230 | one database: the missing-schema error, then the forward check over its collections, then the reverse check over its tables, equal to LoadDatabase |
| SnapshotLoader.LoadMetaCollections | backend/derby/src/main/java/com/torodb/backend/derby/DerbyTorodbMeta.java:136-200 | the collection loop loads every collection of the database in order and stops at the first failure |
| SnapshotLoader.LookupSchema | backend/derby/src/main/java/com/torodb/backend/derby/DerbyTorodbMeta.java:112-118 | the schema loop with break finds what FindSchema finds |
| SnapshotLoader.LoadMetaCollection | backend/derby/src/main/java/com/torodb/backend/derby/DerbyTorodbMeta.java:136-200 | one collection: its doc-parts in order, stopping at the first failure, equal to LoadCollection |
| SnapshotLoader.LoadMetaDocParts | backend/derby/src/main/java/com/torodb/backend/derby/DerbyTorodbMeta.java:147-197 | the doc-part loop loads every doc-part in order and stops at the first failure |
| SnapshotLoader.LoadMetaDocPart | backend/derby/src/main/java/com/torodb/backend/derby/DerbyTorodbMeta.java:147-197 | one doc-part: the missing-table error, then its fields with the missing-column error; the type check is computed and does not affect the result, equal to LoadDocPart |
| SnapshotLoader.LoadMetaFields | backend/derby/src/main/java/com/torodb/backend/derby/DerbyTorodbMeta.java:168-195 | the field loop loads every field of the doc-part in order and stops at the first failure |
| SnapshotLoader.LoadMetaField | backend/derby/src/main/java/com/torodb/backend/derby/DerbyTorodbMeta.java:174-194 | one field: the missing-column error, otherwise the field with name, identifier and type kept; the type comparison does not affect the result, equal to LoadField |
| SnapshotLoader.CheckSchemaTables | backend/derby/src/main/java/com/torodb/backend/derby/DerbyTorodbMeta.java:211-227 | the table loop checks every table in order and stops at the first failure |
| SnapshotLoader.CheckSchemaTable | backend/derby/src/main/java/com/torodb/backend/derby/DerbyTorodbMeta.java:212-226 | one table: the orphan-table error, then its columns, skipping special ones, with the orphan-column error, equal to CheckTable |
| ReconcilerProperties.LoadDocPartMeaning | backend/derby/src/main/java/com/torodb/backend/derby/DerbyTorodbMeta.java:147-197 | a doc-part loads iff its table exists and each of its field records names a column of that table; it then holds exactly those fields |
| ReconcilerProperties.LoadCollectionMeaning | backend/derby/src/main/java/com/torodb/backend/derby/DerbyTorodbMeta.java:136-200 | a collection loads iff each of its doc-part records is consistent; it then holds one doc-part per record |
| ReconcilerProperties.CheckTableMeaning | backend/derby/src/main/java/com/torodb/backend/derby/DerbyTorodbMeta.java:211-227 | a table passes iff some doc-part record owns it and each non-special column is a field of the owner's collection and TableRef |
| ReconcilerProperties.ForwardCheckMeaning | backend/derby/src/main/java/com/torodb/backend/derby/DerbyTorodbMeta.java:130-200 | the forward check of a database passes iff every doc-part record of every collection is consistent; it then yields the reference collections |
| ReconcilerProperties.ReverseCheckMeaning | backend/derby/src/main/java/com/torodb/backend/derby/DerbyTorodbMeta.java:202-227 | the reverse check of a database passes iff every table of its schema is consistent |
| ReconcilerProperties.LoadDatabaseMeaning | backend/derby/src/main/java/com/torodb/backend/derby/DerbyTorodbMeta.java:106-230 | a database loads iff its schema exists and agrees in both directions; it then equals the reference database |
| ReconcilerProperties.LoadSnapshotMeaning | backend/derby/src/main/java/com/torodb/backend/derby/DerbyTorodbMeta.java:95-233 | loading succeeds iff every database record is consistent; the snapshot is then the reference tree of the catalog |
| ReconcilerProperties.LoadedSnapshotIsExpected | backend/derby/src/main/java/com/torodb/backend/derby/DerbyTorodbMeta.java:95-233 | a snapshot that loads comes from database records that are all consistent, and is the reference tree |
| ReconcilerProperties.ConsistentCatalogLoads | backend/derby/src/main/java/com/torodb/backend/derby/DerbyTorodbMeta.java:95-233 | a catalog whose database records are all consistent loads |
| ReconcilerProperties.LoadDocPartError | backend/derby/src/main/java/com/torodb/backend/derby/DerbyTorodbMeta.java:156-184 | a failed doc-part reports its missing table, or a field of it whose column is missing |
| ReconcilerProperties.LoadCollectionError | backend/derby/src/main/java/com/torodb/backend/derby/DerbyTorodbMeta.java:147-197 | a failed collection reports a real violation of one of its doc-part records |
| ReconcilerProperties.CheckTableError | backend/derby/src/main/java/com/torodb/backend/derby/DerbyTorodbMeta.java:212-225 | a failed table reports that no doc-part owns it, or names a non-special column with no field |
| ReconcilerProperties.LoadDatabaseError | backend/derby/src/main/java/com/torodb/backend/derby/DerbyTorodbMeta.java:119-227 | a failed database reports a missing schema, a forward violation, or a reverse violation found after the forward check passed |
| ReconcilerProperties.LoadSnapshotError | backend/derby/src/main/java/com/torodb/backend/derby/DerbyTorodbMeta.java:106-230 | a failed load reports a real violation of the first inconsistent database record; all records before it are consistent |
| ReconcilerProperties.MissingSchemaReported | backend/derby/src/main/java/com/torodb/backend/derby/DerbyTorodbMeta.java:110-123 | a database record whose identifier names no schema, once the earlier records passed, fails the load with the missing-schema error for that record, not with a schema mismatch |
| ReconcilerProperties.InconsistentSchemaReported | backend/derby/src/main/java/com/torodb/backend/derby/DerbyTorodbMeta.java:156-226 | a database record whose schema exists but disagrees, once the earlier records passed, fails the load with a schema-mismatch error naming that schema and database |
| ReconcilerProperties.DatabaseViolationNames | backend/derby/src/main/java/com/torodb/backend/derby/DerbyTorodbMeta.java:156-226 | every violation of a database whose schema exists is a schema-mismatch error naming that schema and database |
| ReconcilerProperties.ExpectedDocPartFields | backend/derby/src/main/java/com/torodb/backend/derby/DerbyTorodbMeta.java:153-196 | the fields of a built doc-part are exactly the field records of its database, collection and TableRef, with name, identifier and type kept |
| ReconcilerProperties.LoadedDocPart | backend/derby/src/main/java/com/torodb/backend/derby/DerbyTorodbMeta.java:106-199 | after a successful load there is one database per record with name and identifier copied, one collection per collection record, one doc-part per doc-part record, and each doc-part holds exactly its field records |
| ReconcilerProperties.LoadedSchemaExists | backend/derby/src/main/java/com/torodb/backend/derby/DerbyTorodbMeta.java:112-123 | every database record of a catalog that loads names an existing schema |
| ReconcilerProperties.TypeMismatchIsNotFatal | backend/derby/src/main/java/com/torodb/backend/derby/DerbyTorodbMeta.java:185-194 | a field whose column type differs from the expected type is still in its doc-part after a successful load |
| ReconcilerProperties.UniqueDocPartIdentifiersPairwise | backend/derby/src/main/java/com/torodb/backend/derby/DerbyTorodbMeta.java:202-205 | unique doc-part keys mean that two records with the same database and identifier are the same record |
| ReconcilerProperties.DocPartByIdentifierFindsOwner | backend/derby/src/main/java/com/torodb/backend/derby/DerbyTorodbMeta.java:202-217 | with unique keys, looking up a doc-part record's identifier among its database's records finds that record |
| RowIds.LoadRowIds | backend/derby/src/main/java/com/torodb/backend/derby/DerbyTorodbMeta.java:303-325 | the nested walk builds the fold of puts over databases, collections and doc-parts in snapshot order |
| RowIds.DocPartRowIdsKeys | backend/derby/src/main/java/com/torodb/backend/derby/DerbyTorodbMeta.java:311-321 | a TableRef is a key iff some doc-part with it had a successful query; a failed query adds nothing and the walk goes on |
| RowIds.DocPartRowIdsLastWins | backend/derby/src/main/java/com/torodb/backend/derby/DerbyTorodbMeta.java:311-321 | the value under a TableRef comes from the last doc-part with that TableRef whose query succeeded |
| RowIds.CollectionRowIdsKeys | backend/derby/src/main/java/com/torodb/backend/derby/DerbyTorodbMeta.java:308-310 | every collection name of the database, and only those, is a key of its map |
| RowIds.CollectionRowIdsLastWins | backend/derby/src/main/java/com/torodb/backend/derby/DerbyTorodbMeta.java:308-322 | the map under a collection name is that of the last collection with the name |
| RowIds.CollectionRowIdsAt | backend/derby/src/main/java/com/torodb/backend/derby/DerbyTorodbMeta.java:308-322 | with distinct collection names, each collection name maps to the row ids of that collection's doc-parts |
| RowIds.DatabaseRowIdsKeys | backend/derby/src/main/java/com/torodb/backend/derby/DerbyTorodbMeta.java:305-307 | every database name of the snapshot, and only those, is a key of the outer map |
| RowIds.DatabaseRowIdsLastWins | backend/derby/src/main/java/com/torodb/backend/derby/DerbyTorodbMeta.java:305-323 | the map under a database name is that of the last database with the name |
| RowIds.DatabaseRowIdsAt | backend/derby/src/main/java/com/torodb/backend/derby/DerbyTorodbMeta.java:305-323 | with distinct database names, each database name maps to the row ids of that database's collections |
| RowIds.DocPartRowIdStored | backend/derby/src/main/java/com/torodb/backend/derby/DerbyTorodbMeta.java:311-319 | with distinct TableRefs, a doc-part's TableRef is a key iff its query succeeded, and then maps to the query's result |
| RowIds.RowIdsComplete | backend/derby/src/main/java/com/torodb/backend/derby/DerbyTorodbMeta.java:303-325 | with distinct names at every level, each doc-part of the snapshot has an entry under its database, collection and TableRef exactly when its query succeeded, holding the query's result |
| DerbyMeta.Open | backend/derby/src/main/java/com/torodb/backend/derby/DerbyTorodbMeta.java:70-85 | opening succeeds iff every database record is consistent; the snapshot is then the catalog's reference tree, its names are distinct at every level when the catalog's keys are, and the row ids are the walk over it; otherwise the loader's error |
| DerbyMeta.CollectionsOfNamesDistinct | backend/derby/src/main/java/com/torodb/backend/derby/DerbyTorodbMeta.java:130-133 | with distinct catalog keys, the collection query of a database returns no two records with the same name |
| DerbyMeta.DocPartsOfTableRefsDistinct | backend/derby/src/main/java/com/torodb/backend/derby/DerbyTorodbMeta.java:137-141 | with distinct catalog keys, the doc-part query of a collection returns no two records with the same TableRef |
| DerbyMeta.ExpectedSnapshotDistinctNames | backend/derby/src/main/java/com/torodb/backend/derby/DerbyTorodbMeta.java:95-233 | with distinct catalog keys, the loaded tree has distinct database names, distinct collection names per database and distinct TableRefs per collection |
| DerbyMeta.OpenedRowIdsComplete | backend/derby/src/main/java/com/torodb/backend/derby/DerbyTorodbMeta.java:70-85 | after opening a catalog with distinct keys, each doc-part of the snapshot has a row-id entry exactly when its query succeeded, holding the query's result |
| DerbyMeta.ShopLoads | backend/derby/src/main/java/com/torodb/backend/derby/DerbyTorodbMeta.java:95-233 | a catalog with database shop, collection orders, a root doc-part on table orders_t and fields total and status loads against a schema whose table has those columns plus a reserved row-id column, into one database, collection and doc-part with both fields |
| DerbyMeta.ShopRowIds | backend/derby/src/main/java/com/torodb/backend/derby/DerbyTorodbMeta.java:303-325 | that snapshot's row-id map has the single entry shop, orders, root, holding the query's result |

## Left out

- The bean `main/src/main/java/com/torodb/standalone/config/model/protocol/mongo/Mongo.java` holds only configuration getters and setters. It is not part of this model.
- Acquiring and releasing the JDBC connection in the constructor (lines 77-84) is I/O and is not modelled.
- `TorodbSchema.TORODB.checkOrCreate` (line 80) is a call into code that is not part of this model.
- The jOOQ queries are modelled as filters over the catalog record sequences that keep storage order. SQL does not fix that order, so the order of children in the tree, and which error comes first, follow the order of the input sequences.
- The internals of `isSpecialColumn`, `getDataType`, `getLastRowIUsed` and the TableRef decoding in `TableRefFactory` are not shown. The first three are function parameters. A TableRef is a value that is already decoded.
- The text of exception messages, and `e.printStackTrace()` (line 318), are not modelled. An error keeps its kind and the identifiers it names.
- The exception kinds are folded into one error type. `IllegalStateException` (line 120) becomes `MissingSchema`. `InvalidDatabaseSchemaException` becomes `InvalidSchema`, with the disagreement as a `Mismatch` value.
- The doc-part map built with `fetchMap` (line 205) is assumed to have unique keys. `LoadMetaSnapshot` and `Open` require that no two doc-part records of one database share an identifier. With duplicates the source's `fetchMap` does not build a map, and that case is not modelled. Within that precondition, `DocPartByIdentifier` takes the first match, and `ReconcilerProperties.DocPartByIdentifierFindsOwner` shows that the first match is the record itself.
- The `continue` guards at lines 148 and 170 cannot fire, because the queries just before them already select on the collection and the TableRef. They are not modelled as branches.
- The builders keep no keying or deduplication of their own here: the children of a node are a sequence in insertion order. The builder classes are not part of this model. Distinct names in the snapshot come instead from `DerbyMeta.CatalogKeysDistinct`: distinct database names, collection names per database, and TableRefs per collection. The catalog tables' key definitions that would guarantee it are not part of this model, so it is a hypothesis of `DerbyMeta.OpenedRowIdsComplete` and of the corresponding `Open` clause.
- The TableRef operations (root, child, parent, ordering) are not used by this code. Only structural equality is modelled.
- The getters at lines 87-93 are the two fields of `DerbyMeta.TorodbMeta`.
- A failed `getLastRowIUsed` call is caught and only printed (lines 316-319, marked TODO). The doc-part then gets no entry and the walk goes on. `RowIds.DocPartRowIdsKeys` states this.
- DerbyMeta.Open: its contract names the loader's error but does not restate which database record the error is about. `ReconcilerProperties.LoadSnapshotError` states that for the same error.
- The entry "no rows yet" for an empty table is whatever the query returns. The sentinel value belongs to `getLastRowIUsed`, which is not part of this model.
- Integer widths: row ids and SQL type codes are unbounded integers. The code only stores and compares them, so Java's `int` width does not matter here.
