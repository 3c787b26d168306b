/** What the catalog loader guarantees: when it succeeds, when it fails and
    with which error, and what the snapshot it builds contains. */
module ReconcilerProperties {
  import opened Wrappers
  import opened TableRefs
  import opened Catalog
  import opened SchemaLookup
  import opened Reconciler

  /** A doc-part loads iff it is consistent, and then it holds exactly its field records. */
  lemma LoadDocPartMeaning(schema: string, database: string, collection: string, tables: seq<Table>,
                           fields: seq<FieldRecord>, dp: DocPartRecord)
    ensures LoadDocPart(schema, database, collection, tables, fields, dp).Success?
            <==> DocPartConsistent(database, collection, tables, fields, dp)
    ensures LoadDocPart(schema, database, collection, tables, fields, dp).Success? ==>
            LoadDocPart(schema, database, collection, tables, fields, dp).value == ExpectedDocPart(database, collection, fields, dp)
  {
    var fs := FieldsOf(database, collection, dp.tableRef, fields);
    var loader := FieldLoader(schema, database, dp, tables);
    if ExistsTable(dp.identifier, tables) {
      var r := MapOrFail(fs, loader);
      if r.Success? {
        forall f | f in fields && f.database == database && f.collection == collection && f.tableRef == dp.tableRef
          ensures ExistsColumn(dp.identifier, f.identifier, tables)
        {
          var i :| 0 <= i < |fs| && fs[i] == f;
          assert loader(fs[i]).Success?;
        }
        assert r.value == seq(|fs|, i requires 0 <= i < |fs| => ToMetaField(fs[i]));
      } else {
        var i :| 0 <= i < |fs| && loader(fs[i]) == Failure(r.error);
        assert fs[i] in fs;
      }
    }
  }

  /** A collection loads iff each of its doc-part records is consistent, and
      then it holds one doc-part per record. */
  lemma LoadCollectionMeaning(schema: string, database: string, tables: seq<Table>, cat: CatalogRecords, c: CollectionRecord)
    ensures LoadCollection(schema, database, tables, cat, c).Success? <==>
            forall dp :: dp in cat.docParts && dp.database == database && dp.collection == c.name ==>
              DocPartConsistent(database, c.name, tables, cat.fields, dp)
    ensures LoadCollection(schema, database, tables, cat, c).Success? ==>
            LoadCollection(schema, database, tables, cat, c).value == ExpectedCollection(database, cat, c)
  {
    var dps := DocPartsOf(database, c.name, cat.docParts);
    var loader := DocPartLoader(schema, database, c.name, tables, cat.fields);
    forall k | 0 <= k < |dps|
      ensures loader(dps[k]).Success? <==> DocPartConsistent(database, c.name, tables, cat.fields, dps[k])
      ensures loader(dps[k]).Success? ==> loader(dps[k]).value == ExpectedDocPart(database, c.name, cat.fields, dps[k])
    {
      LoadDocPartMeaning(schema, database, c.name, tables, cat.fields, dps[k]);
    }
    var r := MapOrFail(dps, loader);
    if r.Success? {
      forall dp | dp in cat.docParts && dp.database == database && dp.collection == c.name
        ensures DocPartConsistent(database, c.name, tables, cat.fields, dp)
      {
        var k :| 0 <= k < |dps| && dps[k] == dp;
      }
      assert r.value == seq(|dps|, k requires 0 <= k < |dps| => ExpectedDocPart(database, c.name, cat.fields, dps[k]));
    } else {
      var k :| 0 <= k < |dps| && loader(dps[k]) == Failure(r.error);
      assert dps[k] in dps;
    }
  }

  /** A table passes the reverse check iff it is consistent. */
  lemma CheckTableMeaning(schema: string, database: string, dbDocParts: seq<DocPartRecord>, dbFields: seq<FieldRecord>,
                          isSpecial: string -> bool, t: Table)
    ensures CheckTable(schema, database, dbDocParts, dbFields, isSpecial, t).Success?
            <==> TableConsistent(dbDocParts, dbFields, isSpecial, t)
  {
    var owner := DocPartByIdentifier(t.name, dbDocParts);
    if owner.Some? {
      var checker := ColumnChecker(schema, database, t.name, owner.value, dbFields, isSpecial);
      var r := MapOrFail(t.columns, checker);
      if r.Success? {
        forall col | col in t.columns && !isSpecial(col.name)
          ensures ContainsField(col.name, owner.value.collection, owner.value.tableRef, dbFields)
        {
          var q :| 0 <= q < |t.columns| && t.columns[q] == col;
          assert checker(t.columns[q]).Success?;
        }
      } else {
        var q :| 0 <= q < |t.columns| && checker(t.columns[q]) == Failure(r.error);
        assert t.columns[q] in t.columns;
      }
    }
  }

  /** The forward check of a database passes iff it is forward-consistent, and
      then yields one collection per collection record of the database. */
  lemma ForwardCheckMeaning(cat: CatalogRecords, d: DatabaseRecord, tables: seq<Table>)
    ensures MapOrFail(CollectionsOf(d.name, cat.collections), CollectionLoader(d.identifier, d.name, tables, cat)).Success?
            <==> ForwardConsistent(cat, d, tables)
    ensures MapOrFail(CollectionsOf(d.name, cat.collections), CollectionLoader(d.identifier, d.name, tables, cat)).Success? ==>
            MapOrFail(CollectionsOf(d.name, cat.collections), CollectionLoader(d.identifier, d.name, tables, cat)).value
            == ExpectedDatabase(cat, d).collections
  {
    var cs := CollectionsOf(d.name, cat.collections);
    var loader := CollectionLoader(d.identifier, d.name, tables, cat);
    forall j | 0 <= j < |cs|
      ensures loader(cs[j]).Success? <==>
              forall dp :: dp in cat.docParts && dp.database == d.name && dp.collection == cs[j].name ==>
                DocPartConsistent(d.name, cs[j].name, tables, cat.fields, dp)
      ensures loader(cs[j]).Success? ==> loader(cs[j]).value == ExpectedCollection(d.name, cat, cs[j])
    {
      LoadCollectionMeaning(d.identifier, d.name, tables, cat, cs[j]);
    }
    var forward := MapOrFail(cs, loader);
    if forward.Success? {
      forall c, dp | c in cat.collections && c.database == d.name && dp in cat.docParts
                     && dp.database == d.name && dp.collection == c.name
        ensures DocPartConsistent(d.name, c.name, tables, cat.fields, dp)
      {
        var j :| 0 <= j < |cs| && cs[j] == c;
      }
      assert forward.value == seq(|cs|, j requires 0 <= j < |cs| => ExpectedCollection(d.name, cat, cs[j]));
    } else {
      var j :| 0 <= j < |cs| && loader(cs[j]) == Failure(forward.error);
      assert cs[j] in cs;
    }
  }

  /** The reverse check of a database passes iff it is reverse-consistent. */
  lemma ReverseCheckMeaning(cat: CatalogRecords, d: DatabaseRecord, tables: seq<Table>, isSpecial: string -> bool)
    ensures MapOrFail(tables, TableChecker(d.identifier, d.name, DocPartsOfDatabase(d.name, cat.docParts),
                                           FieldsOfDatabase(d.name, cat.fields), isSpecial)).Success?
            <==> ReverseConsistent(cat, d, tables, isSpecial)
  {
    var dbDocParts := DocPartsOfDatabase(d.name, cat.docParts);
    var dbFields := FieldsOfDatabase(d.name, cat.fields);
    var checker := TableChecker(d.identifier, d.name, dbDocParts, dbFields, isSpecial);
    forall t | 0 <= t < |tables|
      ensures checker(tables[t]).Success? <==> TableConsistent(dbDocParts, dbFields, isSpecial, tables[t])
    {
      CheckTableMeaning(d.identifier, d.name, dbDocParts, dbFields, isSpecial, tables[t]);
    }
    var reverse := MapOrFail(tables, checker);
    if reverse.Success? {
      forall tb | tb in tables ensures TableConsistent(dbDocParts, dbFields, isSpecial, tb) {
        var t :| 0 <= t < |tables| && tables[t] == tb;
      }
    } else {
      var t :| 0 <= t < |tables| && checker(tables[t]) == Failure(reverse.error);
      assert tables[t] in tables;
    }
  }

  /** A database loads iff its schema exists and agrees with the catalog in
      both directions, and then it holds one collection per collection record. */
  lemma LoadDatabaseMeaning(cat: CatalogRecords, schemas: seq<Schema>, isSpecial: string -> bool, d: DatabaseRecord)
    ensures LoadDatabase(cat, schemas, isSpecial, d).Success? <==> DatabaseConsistent(cat, schemas, isSpecial, d)
    ensures LoadDatabase(cat, schemas, isSpecial, d).Success? ==>
            LoadDatabase(cat, schemas, isSpecial, d).value == ExpectedDatabase(cat, d)
  {
    var found := FindSchema(d.identifier, schemas);
    if found.Some? {
      ForwardCheckMeaning(cat, d, found.value.tables);
      ReverseCheckMeaning(cat, d, found.value.tables, isSpecial);
    }
  }

  /** Loading succeeds iff every database record is consistent with its schema,
      and the snapshot is then the catalog's tree: one database per database
      record, one collection per collection record of it, one doc-part per
      doc-part record of that collection, holding exactly its field records.
      It does not depend on the physical schema beyond that. */
  lemma LoadSnapshotMeaning(cat: CatalogRecords, schemas: seq<Schema>, isSpecial: string -> bool)
    ensures LoadSnapshot(cat, schemas, isSpecial).Success? <==>
            forall d :: d in cat.databases ==> DatabaseConsistent(cat, schemas, isSpecial, d)
    ensures LoadSnapshot(cat, schemas, isSpecial).Success? ==>
            LoadSnapshot(cat, schemas, isSpecial).value == ExpectedSnapshot(cat)
  {
    if LoadSnapshot(cat, schemas, isSpecial).Success? {
      LoadedSnapshotIsExpected(cat, schemas, isSpecial);
    } else if forall d :: d in cat.databases ==> DatabaseConsistent(cat, schemas, isSpecial, d) {
      ConsistentCatalogLoads(cat, schemas, isSpecial);
    }
  }

  /** A snapshot that loads comes from consistent database records, and is the
      reference tree of the catalog. */
  lemma LoadedSnapshotIsExpected(cat: CatalogRecords, schemas: seq<Schema>, isSpecial: string -> bool)
    requires LoadSnapshot(cat, schemas, isSpecial).Success?
    ensures forall d :: d in cat.databases ==> DatabaseConsistent(cat, schemas, isSpecial, d)
    ensures LoadSnapshot(cat, schemas, isSpecial).value == ExpectedSnapshot(cat)
  {
    var loader := DatabaseLoader(cat, schemas, isSpecial);
    var dbs := cat.databases;
    var r := MapOrFail(dbs, loader);
    forall i | 0 <= i < |dbs|
      ensures DatabaseConsistent(cat, schemas, isSpecial, dbs[i])
      ensures r.value[i] == ExpectedDatabase(cat, dbs[i])
    {
      LoadDatabaseMeaning(cat, schemas, isSpecial, dbs[i]);
    }
    forall d | d in dbs ensures DatabaseConsistent(cat, schemas, isSpecial, d) {
      var i :| 0 <= i < |dbs| && dbs[i] == d;
    }
    assert r.value == seq(|dbs|, i requires 0 <= i < |dbs| => ExpectedDatabase(cat, dbs[i]));
  }

  /** A catalog whose every database record is consistent loads. */
  lemma ConsistentCatalogLoads(cat: CatalogRecords, schemas: seq<Schema>, isSpecial: string -> bool)
    requires forall d :: d in cat.databases ==> DatabaseConsistent(cat, schemas, isSpecial, d)
    ensures LoadSnapshot(cat, schemas, isSpecial).Success?
  {
    var loader := DatabaseLoader(cat, schemas, isSpecial);
    var dbs := cat.databases;
    forall i | 0 <= i < |dbs| ensures loader(dbs[i]).Success? {
      assert dbs[i] in dbs;
      LoadDatabaseMeaning(cat, schemas, isSpecial, dbs[i]);
    }
  }

  // ---- errors: which one is reported, and that it names a real disagreement ----

  /** `e` reports the doc-part's missing table, or a field of it whose column is missing. */
  ghost predicate DocPartViolation(schema: string, database: string, collection: string, tables: seq<Table>,
                                   fields: seq<FieldRecord>, dp: DocPartRecord, e: LoadError)
  {
    || (!ExistsTable(dp.identifier, tables) && e == InvalidSchema(schema, database, MissingTable(dp.tableRef, dp.identifier)))
    || (&& ExistsTable(dp.identifier, tables)
        && exists f :: f in fields && f.database == database && f.collection == collection && f.tableRef == dp.tableRef
             && !ExistsColumn(dp.identifier, f.identifier, tables)
             && e == InvalidSchema(schema, database, MissingColumn(f.collection, f.tableRef, f.name, dp.identifier, f.identifier)))
  }

  /** `e` reports a table no doc-part record owns, or a column of it that is
      neither special nor a field of the owning doc-part. */
  ghost predicate TableViolation(schema: string, database: string, dbDocParts: seq<DocPartRecord>, dbFields: seq<FieldRecord>,
                                 isSpecial: string -> bool, t: Table, e: LoadError)
  {
    var owner := DocPartByIdentifier(t.name, dbDocParts);
    || (owner.None? && e == InvalidSchema(schema, database, OrphanTable(t.name)))
    || (&& owner.Some?
        && exists col :: col in t.columns && !isSpecial(col.name)
             && !ContainsField(col.name, owner.value.collection, owner.value.tableRef, dbFields)
             && e == InvalidSchema(schema, database, OrphanColumn(t.name, col.name)))
  }

  /** `e` reports a real disagreement of database `d`: its schema is missing;
      or a doc-part or field of it has no table or column; or, the forward
      check having passed, a table or column of its schema has no owner. */
  ghost predicate DatabaseViolation(cat: CatalogRecords, schemas: seq<Schema>, isSpecial: string -> bool,
                                    d: DatabaseRecord, e: LoadError)
  {
    var found := FindSchema(d.identifier, schemas);
    || (found.None? && e == MissingSchema(d.name, d.identifier))
    || (&& found.Some?
        && exists c, dp :: c in cat.collections && c.database == d.name && dp in cat.docParts
             && dp.database == d.name && dp.collection == c.name
             && DocPartViolation(d.identifier, d.name, c.name, found.value.tables, cat.fields, dp, e))
    || (&& found.Some?
        && ForwardConsistent(cat, d, found.value.tables)
        && exists t :: t in found.value.tables
             && TableViolation(d.identifier, d.name, DocPartsOfDatabase(d.name, cat.docParts),
                               FieldsOfDatabase(d.name, cat.fields), isSpecial, t, e))
  }

  lemma LoadDocPartError(schema: string, database: string, collection: string, tables: seq<Table>,
                         fields: seq<FieldRecord>, dp: DocPartRecord)
    requires LoadDocPart(schema, database, collection, tables, fields, dp).Failure?
    ensures DocPartViolation(schema, database, collection, tables, fields, dp,
                             LoadDocPart(schema, database, collection, tables, fields, dp).error)
  {
    if ExistsTable(dp.identifier, tables) {
      var fs := FieldsOf(database, collection, dp.tableRef, fields);
      var loader := FieldLoader(schema, database, dp, tables);
      var r := MapOrFail(fs, loader);
      var l :| 0 <= l < |fs| && loader(fs[l]) == Failure(r.error);
      assert fs[l] in fs;
    }
  }

  lemma LoadCollectionError(schema: string, database: string, tables: seq<Table>, cat: CatalogRecords, c: CollectionRecord)
    requires LoadCollection(schema, database, tables, cat, c).Failure?
    ensures exists dp :: dp in cat.docParts && dp.database == database && dp.collection == c.name
              && DocPartViolation(schema, database, c.name, tables, cat.fields, dp,
                                  LoadCollection(schema, database, tables, cat, c).error)
  {
    var dps := DocPartsOf(database, c.name, cat.docParts);
    var loader := DocPartLoader(schema, database, c.name, tables, cat.fields);
    var r := MapOrFail(dps, loader);
    var k :| 0 <= k < |dps| && loader(dps[k]) == Failure(r.error);
    LoadDocPartError(schema, database, c.name, tables, cat.fields, dps[k]);
    assert dps[k] in dps;
  }

  lemma CheckTableError(schema: string, database: string, dbDocParts: seq<DocPartRecord>, dbFields: seq<FieldRecord>,
                        isSpecial: string -> bool, t: Table)
    requires CheckTable(schema, database, dbDocParts, dbFields, isSpecial, t).Failure?
    ensures TableViolation(schema, database, dbDocParts, dbFields, isSpecial, t,
                           CheckTable(schema, database, dbDocParts, dbFields, isSpecial, t).error)
  {
    var owner := DocPartByIdentifier(t.name, dbDocParts);
    if owner.Some? {
      var checker := ColumnChecker(schema, database, t.name, owner.value, dbFields, isSpecial);
      var r := MapOrFail(t.columns, checker);
      var q :| 0 <= q < |t.columns| && checker(t.columns[q]) == Failure(r.error);
      assert t.columns[q] in t.columns;
    }
  }

  lemma LoadDatabaseError(cat: CatalogRecords, schemas: seq<Schema>, isSpecial: string -> bool, d: DatabaseRecord)
    requires LoadDatabase(cat, schemas, isSpecial, d).Failure?
    ensures DatabaseViolation(cat, schemas, isSpecial, d, LoadDatabase(cat, schemas, isSpecial, d).error)
  {
    var found := FindSchema(d.identifier, schemas);
    if found.Some? {
      var tables := found.value.tables;
      var e := LoadDatabase(cat, schemas, isSpecial, d).error;
      var cs := CollectionsOf(d.name, cat.collections);
      var loader := CollectionLoader(d.identifier, d.name, tables, cat);
      var forward := MapOrFail(cs, loader);
      if forward.Failure? {
        var j :| 0 <= j < |cs| && loader(cs[j]) == Failure(forward.error);
        LoadCollectionError(d.identifier, d.name, tables, cat, cs[j]);
        assert cs[j] in cs;
      } else {
        ForwardCheckMeaning(cat, d, tables);
        var dbDocParts := DocPartsOfDatabase(d.name, cat.docParts);
        var dbFields := FieldsOfDatabase(d.name, cat.fields);
        var checker := TableChecker(d.identifier, d.name, dbDocParts, dbFields, isSpecial);
        var reverse := MapOrFail(tables, checker);
        var t :| 0 <= t < |tables| && checker(tables[t]) == Failure(reverse.error);
        CheckTableError(d.identifier, d.name, dbDocParts, dbFields, isSpecial, tables[t]);
        assert tables[t] in tables;
      }
    }
  }

  /** Once the schema is found, every disagreement is reported as a schema
      mismatch naming that schema and the database. */
  lemma DatabaseViolationNames(cat: CatalogRecords, schemas: seq<Schema>, isSpecial: string -> bool,
                               d: DatabaseRecord, e: LoadError)
    requires FindSchema(d.identifier, schemas).Some?
    requires DatabaseViolation(cat, schemas, isSpecial, d, e)
    ensures e.InvalidSchema? && e.schema == d.identifier && e.database == d.name
  {
    var tables := FindSchema(d.identifier, schemas).value.tables;
    if exists c, dp :: c in cat.collections && c.database == d.name && dp in cat.docParts
         && dp.database == d.name && dp.collection == c.name
         && DocPartViolation(d.identifier, d.name, c.name, tables, cat.fields, dp, e) {
      var c, dp :| c in cat.collections && c.database == d.name && dp in cat.docParts
         && dp.database == d.name && dp.collection == c.name
         && DocPartViolation(d.identifier, d.name, c.name, tables, cat.fields, dp, e);
      if ExistsTable(dp.identifier, tables) {
        var f :| f in cat.fields && f.database == d.name && f.collection == c.name && f.tableRef == dp.tableRef
             && !ExistsColumn(dp.identifier, f.identifier, tables)
             && e == InvalidSchema(d.identifier, d.name,
                                   MissingColumn(f.collection, f.tableRef, f.name, dp.identifier, f.identifier));
      }
    } else {
      var dbDocParts := DocPartsOfDatabase(d.name, cat.docParts);
      var dbFields := FieldsOfDatabase(d.name, cat.fields);
      var t :| t in tables && TableViolation(d.identifier, d.name, dbDocParts, dbFields, isSpecial, t, e);
      var owner := DocPartByIdentifier(t.name, dbDocParts);
      if owner.Some? {
        var col :| col in t.columns && !isSpecial(col.name)
             && !ContainsField(col.name, owner.value.collection, owner.value.tableRef, dbFields)
             && e == InvalidSchema(d.identifier, d.name, OrphanColumn(t.name, col.name));
      }
    }
  }

  /** A failed load reports a real disagreement of the first database record
      that is not consistent with its schema; the records before it are. */
  lemma LoadSnapshotError(cat: CatalogRecords, schemas: seq<Schema>, isSpecial: string -> bool)
    requires LoadSnapshot(cat, schemas, isSpecial).Failure?
    ensures exists i :: 0 <= i < |cat.databases|
              && (forall j :: 0 <= j < i ==> DatabaseConsistent(cat, schemas, isSpecial, cat.databases[j]))
              && DatabaseViolation(cat, schemas, isSpecial, cat.databases[i], LoadSnapshot(cat, schemas, isSpecial).error)
  {
    var loader := DatabaseLoader(cat, schemas, isSpecial);
    var r := MapOrFail(cat.databases, loader);
    var i :| 0 <= i < |cat.databases| && loader(cat.databases[i]) == Failure(r.error)
             && forall j :: 0 <= j < i ==> loader(cat.databases[j]).Success?;
    forall j | 0 <= j < i ensures DatabaseConsistent(cat, schemas, isSpecial, cat.databases[j]) {
      LoadDatabaseMeaning(cat, schemas, isSpecial, cat.databases[j]);
    }
    LoadDatabaseError(cat, schemas, isSpecial, cat.databases[i]);
  }

  /** A database record whose identifier names no schema makes loading fail
      with the missing-schema error for that record, unless an earlier record
      already failed: the schema is looked up before any consistency check. */
  lemma MissingSchemaReported(cat: CatalogRecords, schemas: seq<Schema>, isSpecial: string -> bool, i: nat)
    requires i < |cat.databases|
    requires forall j :: 0 <= j < i ==> DatabaseConsistent(cat, schemas, isSpecial, cat.databases[j])
    requires forall k :: 0 <= k < |schemas| ==> schemas[k].name != cat.databases[i].identifier
    ensures LoadSnapshot(cat, schemas, isSpecial) == Failure(MissingSchema(cat.databases[i].name, cat.databases[i].identifier))
  {
    var loader := DatabaseLoader(cat, schemas, isSpecial);
    forall j | 0 <= j < i ensures loader(cat.databases[j]).Success? {
      LoadDatabaseMeaning(cat, schemas, isSpecial, cat.databases[j]);
    }
    MapOrFailFailsAt(cat.databases, loader, i);
  }

  /** A database record whose schema exists but disagrees with the catalog
      makes loading fail with a schema-mismatch error for that schema, unless
      an earlier record already failed. */
  lemma InconsistentSchemaReported(cat: CatalogRecords, schemas: seq<Schema>, isSpecial: string -> bool, i: nat)
    requires i < |cat.databases|
    requires forall j :: 0 <= j < i ==> DatabaseConsistent(cat, schemas, isSpecial, cat.databases[j])
    requires exists k :: 0 <= k < |schemas| && schemas[k].name == cat.databases[i].identifier
    requires !DatabaseConsistent(cat, schemas, isSpecial, cat.databases[i])
    ensures LoadSnapshot(cat, schemas, isSpecial).Failure?
    ensures LoadSnapshot(cat, schemas, isSpecial).error.InvalidSchema?
    ensures LoadSnapshot(cat, schemas, isSpecial).error.schema == cat.databases[i].identifier
    ensures LoadSnapshot(cat, schemas, isSpecial).error.database == cat.databases[i].name
  {
    var d := cat.databases[i];
    var loader := DatabaseLoader(cat, schemas, isSpecial);
    forall j | 0 <= j < i ensures loader(cat.databases[j]).Success? {
      LoadDatabaseMeaning(cat, schemas, isSpecial, cat.databases[j]);
    }
    assert FindSchema(d.identifier, schemas).Some?;
    assert LoadDatabase(cat, schemas, isSpecial, d).Failure? by {
      LoadDatabaseMeaning(cat, schemas, isSpecial, d);
    }
    var e := LoadDatabase(cat, schemas, isSpecial, d).error;
    LoadDatabaseError(cat, schemas, isSpecial, d);
    DatabaseViolationNames(cat, schemas, isSpecial, d, e);
    MapOrFailFailsAt(cat.databases, loader, i);
  }

  // ---- the tree a successful load builds ----

  /** The fields of a built doc-part are exactly the field records of its
      database, collection and TableRef, with name, identifier and type kept. */
  lemma ExpectedDocPartFields(database: string, collection: string, fields: seq<FieldRecord>, dp: DocPartRecord)
    ensures ExpectedDocPart(database, collection, fields, dp).tableRef == dp.tableRef
    ensures ExpectedDocPart(database, collection, fields, dp).identifier == dp.identifier
    ensures forall mf :: mf in ExpectedDocPart(database, collection, fields, dp).fields <==>
              exists f :: f in fields && f.database == database && f.collection == collection && f.tableRef == dp.tableRef
                          && mf == MetaField(f.name, f.identifier, f.fieldType)
  {
    var fs := FieldsOf(database, collection, dp.tableRef, fields);
    var built := ExpectedDocPart(database, collection, fields, dp).fields;
    forall mf | mf in built
      ensures exists f :: f in fields && f.database == database && f.collection == collection && f.tableRef == dp.tableRef
                          && mf == MetaField(f.name, f.identifier, f.fieldType)
    {
      var l :| 0 <= l < |built| && built[l] == mf;
      assert fs[l] in fs;
    }
    forall f | f in fields && f.database == database && f.collection == collection && f.tableRef == dp.tableRef
      ensures MetaField(f.name, f.identifier, f.fieldType) in built
    {
      var l :| 0 <= l < |fs| && fs[l] == f;
      assert built[l] == MetaField(f.name, f.identifier, f.fieldType);
    }
  }

  /** After a successful load, database `i`, its collection `j` and that
      collection's doc-part `k` mirror the matching catalog records, and the
      doc-part holds exactly the field records whose TableRef equals its own. */
  lemma LoadedDocPart(cat: CatalogRecords, schemas: seq<Schema>, isSpecial: string -> bool, i: nat, j: nat, k: nat)
    requires LoadSnapshot(cat, schemas, isSpecial).Success?
    requires i < |cat.databases|
    requires j < |CollectionsOf(cat.databases[i].name, cat.collections)|
    requires k < |DocPartsOf(cat.databases[i].name, CollectionsOf(cat.databases[i].name, cat.collections)[j].name, cat.docParts)|
    ensures
      var s := LoadSnapshot(cat, schemas, isSpecial).value;
      var d := cat.databases[i];
      var c := CollectionsOf(d.name, cat.collections)[j];
      var dp := DocPartsOf(d.name, c.name, cat.docParts)[k];
      && |s.databases| == |cat.databases|
      && s.databases[i].name == d.name && s.databases[i].identifier == d.identifier
      && |s.databases[i].collections| == |CollectionsOf(d.name, cat.collections)|
      && s.databases[i].collections[j].name == c.name && s.databases[i].collections[j].identifier == c.identifier
      && |s.databases[i].collections[j].docParts| == |DocPartsOf(d.name, c.name, cat.docParts)|
      && s.databases[i].collections[j].docParts[k].tableRef == dp.tableRef
      && s.databases[i].collections[j].docParts[k].identifier == dp.identifier
      && forall mf :: mf in s.databases[i].collections[j].docParts[k].fields <==>
           exists f :: f in cat.fields && f.database == d.name && f.collection == c.name && f.tableRef == dp.tableRef
                       && mf == MetaField(f.name, f.identifier, f.fieldType)
  {
    LoadSnapshotMeaning(cat, schemas, isSpecial);
    var d := cat.databases[i];
    var c := CollectionsOf(d.name, cat.collections)[j];
    var dp := DocPartsOf(d.name, c.name, cat.docParts)[k];
    ExpectedDocPartFields(d.name, c.name, cat.fields, dp);
  }

  /** Every database record of a catalog that loads names an existing schema:
      the missing-schema error was not raised. */
  lemma LoadedSchemaExists(cat: CatalogRecords, schemas: seq<Schema>, isSpecial: string -> bool, i: int)
    requires LoadSnapshot(cat, schemas, isSpecial).Success?
    requires 0 <= i < |cat.databases|
    ensures FindSchema(cat.databases[i].identifier, schemas).Some?
  {
    var loader := DatabaseLoader(cat, schemas, isSpecial);
    assert MapOrFail(cat.databases, loader).Success?;
    assert loader(cat.databases[i]).Success?;
  }

  /** A field whose column has a different type than the backend expects for
      the field's type is still loaded into its doc-part. The type hypothesis
      plays no part in the proof: the guarantee is that LoadMetaSnapshot's
      result equals LoadSnapshot, which does not depend on `dataType`. The
      schema requirement only makes the hypothesis well defined; it follows
      from the load succeeding by LoadedSchemaExists. */
  lemma TypeMismatchIsNotFatal(cat: CatalogRecords, schemas: seq<Schema>, isSpecial: string -> bool,
                               dataType: FieldType -> PhysType, i: nat, j: nat, k: nat, f: FieldRecord)
    requires LoadSnapshot(cat, schemas, isSpecial).Success?
    requires i < |cat.databases|
    requires j < |CollectionsOf(cat.databases[i].name, cat.collections)|
    requires FindSchema(cat.databases[i].identifier, schemas).Some?
    requires
      var d := cat.databases[i];
      var c := CollectionsOf(d.name, cat.collections)[j];
      && k < |DocPartsOf(d.name, c.name, cat.docParts)|
      && var dp := DocPartsOf(d.name, c.name, cat.docParts)[k];
         && f in cat.fields && f.database == d.name && f.collection == c.name && f.tableRef == dp.tableRef
         && !ExistsColumnWithType(dp.identifier, f.identifier, dataType(f.fieldType),
                                  FindSchema(d.identifier, schemas).value.tables)
    ensures MetaField(f.name, f.identifier, f.fieldType)
            in LoadSnapshot(cat, schemas, isSpecial).value.databases[i].collections[j].docParts[k].fields
  {
    LoadedDocPart(cat, schemas, isSpecial, i, j, k);
  }

  // ---- the doc-part map of the reverse check ----

  /** Unique identifiers, pairwise: two records of one database with the same
      identifier are the same record. */
  lemma {:induction false} UniqueDocPartIdentifiersPairwise(docParts: seq<DocPartRecord>)
    requires UniqueDocPartIdentifiers(docParts)
    ensures forall i, j :: 0 <= i < |docParts| && 0 <= j < |docParts|
              && docParts[i].database == docParts[j].database && docParts[i].identifier == docParts[j].identifier
              ==> i == j
  {
    if docParts != [] {
      var rest := docParts[1..];
      UniqueDocPartIdentifiersPairwise(rest);
      forall i, j | 0 <= i < |docParts| && 0 <= j < |docParts|
                    && docParts[i].database == docParts[j].database && docParts[i].identifier == docParts[j].identifier
        ensures i == j
      {
        if 0 < i && 0 < j {
          assert docParts[i] == rest[i - 1] && docParts[j] == rest[j - 1];
        }
      }
    }
  }

  /** With unique identifiers, the lookup by identifier among a database's
      doc-part records finds the one record that has it, so taking the first
      match loses nothing. */
  lemma DocPartByIdentifierFindsOwner(database: string, docParts: seq<DocPartRecord>, dp: DocPartRecord)
    requires UniqueDocPartIdentifiers(docParts)
    requires dp in docParts && dp.database == database
    ensures DocPartByIdentifier(dp.identifier, DocPartsOfDatabase(database, docParts)) == Some(dp)
  {
    var dbDocParts := DocPartsOfDatabase(database, docParts);
    var found := DocPartByIdentifier(dp.identifier, dbDocParts);
    assert dp in dbDocParts;
    UniqueDocPartIdentifiersPairwise(docParts);
    var i :| 0 <= i < |docParts| && docParts[i] == found.value;
    var j :| 0 <= j < |docParts| && docParts[j] == dp;
  }
}
