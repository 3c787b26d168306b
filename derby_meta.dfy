/** Opening the backend's metadata: load the snapshot from the catalog, then
    the last row id of each of its doc-parts. The result keeps both, unchanged
    for the life of the object. */
module DerbyMeta {
  import opened Wrappers
  import opened TableRefs
  import opened Catalog
  import opened SchemaLookup
  import opened Reconciler
  import opened ReconcilerProperties
  import opened SnapshotLoader
  import opened RowIds

  /** The loaded metadata; both fields are final, read by the two getters. */
  datatype TorodbMeta = TorodbMeta(metaSnapshot: MetaSnapshot, lastIds: RowIdMap)

  /** Loads the snapshot and, only if that succeeded, the row ids of its
      doc-parts. Fails with the loader's error; LoadSnapshotError says which
      database record that error is about. */
  method Open(cat: CatalogRecords, schemas: seq<Schema>, isSpecial: string -> bool,
              dataType: FieldType -> PhysType, lastRowId: LastRowIdQuery) returns (r: Result<TorodbMeta, LoadError>)
    requires UniqueDocPartIdentifiers(cat.docParts)
    ensures r.Success? <==> forall d :: d in cat.databases ==> DatabaseConsistent(cat, schemas, isSpecial, d)
    ensures r.Success? ==> r.value.metaSnapshot == ExpectedSnapshot(cat)
    ensures r.Success? ==> r.value.lastIds == DatabaseRowIds(r.value.metaSnapshot.databases, lastRowId)
    ensures r.Success? && CatalogKeysDistinct(cat) ==> DistinctNames(r.value.metaSnapshot)
    ensures r.Failure? ==> LoadSnapshot(cat, schemas, isSpecial) == Failure(r.error)
  {
    var snapshot := LoadMetaSnapshot(cat, schemas, isSpecial, dataType);
    if snapshot.Failure? {
      r := Failure(snapshot.error);
      assert !forall d :: d in cat.databases ==> DatabaseConsistent(cat, schemas, isSpecial, d) by {
        LoadSnapshotMeaning(cat, schemas, isSpecial);
      }
      return;
    }
    assert (forall d :: d in cat.databases ==> DatabaseConsistent(cat, schemas, isSpecial, d))
           && snapshot.value == ExpectedSnapshot(cat) by {
      LoadSnapshotMeaning(cat, schemas, isSpecial);
    }
    var lastIds := LoadRowIds(snapshot.value, lastRowId);
    r := Success(TorodbMeta(snapshot.value, lastIds));
    if CatalogKeysDistinct(cat) {
      ExpectedSnapshotDistinctNames(cat);
    }
  }

  // ---- catalog keys: the loaded snapshot has distinct names ----

  /** The keys of the catalog tables: no two database records share a name, no
      two collection records of one database share a name, and no two doc-part
      records of one collection share a TableRef. */
  predicate CatalogKeysDistinct(cat: CatalogRecords)
  {
    && (forall a, b :: 0 <= a < b < |cat.databases| ==> cat.databases[a].name != cat.databases[b].name)
    && (forall a, b :: 0 <= a < b < |cat.collections| && cat.collections[a].database == cat.collections[b].database ==>
          cat.collections[a].name != cat.collections[b].name)
    && (forall a, b :: 0 <= a < b < |cat.docParts| && cat.docParts[a].database == cat.docParts[b].database
                       && cat.docParts[a].collection == cat.docParts[b].collection ==>
          cat.docParts[a].tableRef != cat.docParts[b].tableRef)
  }

  /** The collection query of one database returns no two records with the same name. */
  lemma CollectionsOfNamesDistinct(cat: CatalogRecords, database: string)
    requires CatalogKeysDistinct(cat)
    ensures forall a, b :: 0 <= a < b < |CollectionsOf(database, cat.collections)| ==>
              CollectionsOf(database, cat.collections)[a].name != CollectionsOf(database, cat.collections)[b].name
  {
    var p := (c: CollectionRecord) => c.database == database;
    FilterAgrees(cat.collections, p, (c: CollectionRecord) => c.database == database);
    FilterKeepsKeysDistinct(cat.collections, p, (c: CollectionRecord) => c.name);
  }

  /** The doc-part query of one collection returns no two records with the same TableRef. */
  lemma DocPartsOfTableRefsDistinct(cat: CatalogRecords, database: string, collection: string)
    requires CatalogKeysDistinct(cat)
    ensures forall a, b :: 0 <= a < b < |DocPartsOf(database, collection, cat.docParts)| ==>
              DocPartsOf(database, collection, cat.docParts)[a].tableRef != DocPartsOf(database, collection, cat.docParts)[b].tableRef
  {
    var p := (dp: DocPartRecord) => dp.database == database && dp.collection == collection;
    FilterAgrees(cat.docParts, p, (dp: DocPartRecord) => dp.database == database && dp.collection == collection);
    FilterKeepsKeysDistinct(cat.docParts, p, (dp: DocPartRecord) => dp.tableRef);
  }

  /** With the catalog's keys distinct, the reference tree has distinct names at
      every level, so the row-id walk over it loses no doc-part. */
  lemma ExpectedSnapshotDistinctNames(cat: CatalogRecords)
    requires CatalogKeysDistinct(cat)
    ensures DistinctNames(ExpectedSnapshot(cat))
  {
    var dbs := ExpectedSnapshot(cat).databases;
    forall a, b | 0 <= a < |dbs| && 0 <= b < |dbs| && a != b ensures dbs[a].name != dbs[b].name {
      assert dbs[a].name == cat.databases[a].name && dbs[b].name == cat.databases[b].name;
    }
    forall i | 0 <= i < |dbs| ensures DistinctCollectionNames(dbs[i].collections) {
      var d := cat.databases[i];
      var cs := CollectionsOf(d.name, cat.collections);
      CollectionsOfNamesDistinct(cat, d.name);
      assert dbs[i] == ExpectedDatabase(cat, d);
      forall a, b | 0 <= a < |cs| && 0 <= b < |cs| && a != b ensures dbs[i].collections[a].name != dbs[i].collections[b].name {
        assert dbs[i].collections[a].name == cs[a].name && dbs[i].collections[b].name == cs[b].name;
      }
    }
    forall i, j | 0 <= i < |dbs| && 0 <= j < |dbs[i].collections| ensures DistinctTableRefs(dbs[i].collections[j].docParts) {
      var d := cat.databases[i];
      var cs := CollectionsOf(d.name, cat.collections);
      assert dbs[i] == ExpectedDatabase(cat, d);
      var c := cs[j];
      var dps := DocPartsOf(d.name, c.name, cat.docParts);
      DocPartsOfTableRefsDistinct(cat, d.name, c.name);
      assert dbs[i].collections[j] == ExpectedCollection(d.name, cat, c);
      forall a, b | 0 <= a < |dps| && 0 <= b < |dps| && a != b
        ensures dbs[i].collections[j].docParts[a].tableRef != dbs[i].collections[j].docParts[b].tableRef
      {
        assert dbs[i].collections[j].docParts[a].tableRef == dps[a].tableRef;
        assert dbs[i].collections[j].docParts[b].tableRef == dps[b].tableRef;
      }
    }
  }

  /** After a successful open of a catalog with distinct keys, every doc-part of
      the snapshot has a row-id entry under its database, collection and
      TableRef exactly when its query succeeded, holding the query's result. */
  lemma OpenedRowIdsComplete(cat: CatalogRecords, m: TorodbMeta, lastRowId: LastRowIdQuery, i: int, j: int, k: int)
    requires CatalogKeysDistinct(cat)
    requires m.metaSnapshot == ExpectedSnapshot(cat)
    requires m.lastIds == DatabaseRowIds(m.metaSnapshot.databases, lastRowId)
    requires 0 <= i < |m.metaSnapshot.databases|
    requires 0 <= j < |m.metaSnapshot.databases[i].collections|
    requires 0 <= k < |m.metaSnapshot.databases[i].collections[j].docParts|
    ensures var d := m.metaSnapshot.databases[i];
            var c := d.collections[j];
            && d.name in m.lastIds && c.name in m.lastIds[d.name]
            && (c.docParts[k].tableRef in m.lastIds[d.name][c.name] <==> lastRowId(d, c, c.docParts[k]).Some?)
            && (lastRowId(d, c, c.docParts[k]).Some? ==>
                  m.lastIds[d.name][c.name][c.docParts[k].tableRef] == lastRowId(d, c, c.docParts[k]).value)
  {
    ExpectedSnapshotDistinctNames(cat);
    RowIdsComplete(m.metaSnapshot, lastRowId, i, j, k);
  }

  // ---- a small consistent catalog ----

  const ShopDatabase := DatabaseRecord("shop", "db1")
  const ShopOrders := CollectionRecord("shop", "orders", "orders")
  const ShopOrdersRoot := DocPartRecord("shop", "orders", Root, "orders_t")
  const ShopTotal := FieldRecord("shop", "orders", Root, "total", "total", FieldType("number"))
  const ShopStatus := FieldRecord("shop", "orders", Root, "status", "status", FieldType("string"))

  const ShopCatalog := CatalogRecords([ShopDatabase], [ShopOrders], [ShopOrdersRoot], [ShopTotal, ShopStatus])

  const ShopTable := Table("orders_t", [
    Column("rid", PhysType(4, "INTEGER")),
    Column("total", PhysType(8, "DOUBLE")),
    Column("status", PhysType(12, "VARCHAR"))])

  const ShopSchemas := [Schema("db1", [ShopTable])]

  const ShopSnapshot := MetaSnapshot([
    MetaDatabase("shop", "db1", [MetaCollection("orders", "orders", [
      MetaDocPart(Root, "orders_t", [
        MetaField("total", "total", FieldType("number")),
        MetaField("status", "status", FieldType("string"))])])])])

  const ShopIsSpecial := (s: string) => s == "rid"

  /** The catalog's tree is the snapshot above. */
  lemma ShopExpected()
    ensures ExpectedSnapshot(ShopCatalog) == ShopSnapshot
  {
    var cat := ShopCatalog;
    assert CollectionsOf("shop", cat.collections) == [ShopOrders];
    assert DocPartsOf("shop", "orders", cat.docParts) == [ShopOrdersRoot];
    assert FieldsOf("shop", "orders", Root, cat.fields) == [ShopTotal, ShopStatus];
    assert ExpectedDocPart("shop", "orders", cat.fields, ShopOrdersRoot) == ShopSnapshot.databases[0].collections[0].docParts[0];
    assert ExpectedCollection("shop", cat, ShopOrders) == ShopSnapshot.databases[0].collections[0];
    assert ExpectedDatabase(cat, ShopDatabase) == ShopSnapshot.databases[0];
  }

  /** Every doc-part record has its table and columns: both fields have one. */
  lemma ShopForward()
    ensures ForwardConsistent(ShopCatalog, ShopDatabase, [ShopTable])
  {
    var tables := [ShopTable];
    assert ExistsTable("orders_t", tables) by { assert tables[0].name == "orders_t"; }
    assert HasColumn("total", ShopTable.columns) by { assert ShopTable.columns[1].name == "total"; }
    assert HasColumn("status", ShopTable.columns) by { assert ShopTable.columns[2].name == "status"; }
    assert ExistsColumn("orders_t", "total", tables) by { assert tables[0].name == "orders_t"; }
    assert ExistsColumn("orders_t", "status", tables) by { assert tables[0].name == "orders_t"; }
    assert DocPartConsistent("shop", "orders", tables, ShopCatalog.fields, ShopOrdersRoot);
  }

  /** The one table is the doc-part's, and each column is a field or the row id. */
  lemma ShopReverse()
    ensures ReverseConsistent(ShopCatalog, ShopDatabase, [ShopTable], ShopIsSpecial)
  {
    var cat := ShopCatalog;
    assert DocPartsOfDatabase("shop", cat.docParts) == [ShopOrdersRoot];
    assert FieldsOfDatabase("shop", cat.fields) == [ShopTotal, ShopStatus];
    assert DocPartByIdentifier("orders_t", [ShopOrdersRoot]) == Some(ShopOrdersRoot);
    assert ContainsField("total", "orders", Root, [ShopTotal, ShopStatus]) by { assert ShopTotal.identifier == "total"; }
    assert ContainsField("status", "orders", Root, [ShopTotal, ShopStatus]) by { assert ShopStatus.identifier == "status"; }
    assert TableConsistent([ShopOrdersRoot], [ShopTotal, ShopStatus], ShopIsSpecial, ShopTable);
  }

  /** The catalog loads into one database, one collection and one doc-part
      with both fields, the reserved row-id column being skipped. */
  lemma ShopLoads()
    ensures LoadSnapshot(ShopCatalog, ShopSchemas, ShopIsSpecial) == Success(ShopSnapshot)
  {
    assert FindSchema("db1", ShopSchemas) == Some(ShopSchemas[0]);
    ShopForward();
    ShopReverse();
    assert DatabaseConsistent(ShopCatalog, ShopSchemas, ShopIsSpecial, ShopDatabase);
    LoadSnapshotMeaning(ShopCatalog, ShopSchemas, ShopIsSpecial);
    ShopExpected();
  }

  /** The row-id map of that snapshot has the one entry for (shop, orders,
      root), holding what the storage query returned for it. */
  lemma ShopRowIds(lastRowId: LastRowIdQuery, v: int)
    requires var d := ShopSnapshot.databases[0];
             var c := d.collections[0];
             lastRowId(d, c, c.docParts[0]) == Some(v)
    ensures DatabaseRowIds(ShopSnapshot.databases, lastRowId) == map["shop" := map["orders" := map[Root := v]]]
  {
    var dbs := ShopSnapshot.databases;
    var d := dbs[0];
    var c := d.collections[0];
    assert dbs[..0] == [] && d.collections[..0] == [] && c.docParts[..0] == [];
    assert DocPartRowIds(d, c, c.docParts, lastRowId) == map[Root := v];
    assert CollectionRowIds(d, d.collections, lastRowId) == map["orders" := map[Root := v]];
  }
}
