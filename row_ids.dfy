/** The last row id used by each doc-part of a loaded snapshot, as a map from
    database name to collection name to TableRef. The storage query is the
    `lastRowId` parameter; None stands for a query that threw, which leaves
    that doc-part out of the map and lets the walk go on. */
module RowIds {
  import opened Wrappers
  import opened TableRefs
  import opened Catalog

  type RowIdMap = map<string, map<string, map<TableRef, int>>>

  type LastRowIdQuery = (MetaDatabase, MetaCollection, MetaDocPart) -> Option<int>

  // ---- the map the walk builds, one put at a time, in snapshot order ----

  function DocPartRowIds(db: MetaDatabase, coll: MetaCollection, dps: seq<MetaDocPart>, lastRowId: LastRowIdQuery)
    : map<TableRef, int>
  {
    if dps == [] then map[]
    else
      var m := DocPartRowIds(db, coll, dps[..|dps| - 1], lastRowId);
      var dp := dps[|dps| - 1];
      match lastRowId(db, coll, dp)
      case Some(id) => m[dp.tableRef := id]
      case None => m
  }

  function CollectionRowIds(db: MetaDatabase, colls: seq<MetaCollection>, lastRowId: LastRowIdQuery)
    : map<string, map<TableRef, int>>
  {
    if colls == [] then map[]
    else
      var c := colls[|colls| - 1];
      CollectionRowIds(db, colls[..|colls| - 1], lastRowId)[c.name := DocPartRowIds(db, c, c.docParts, lastRowId)]
  }

  function DatabaseRowIds(dbs: seq<MetaDatabase>, lastRowId: LastRowIdQuery): RowIdMap
  {
    if dbs == [] then map[]
    else
      var d := dbs[|dbs| - 1];
      DatabaseRowIds(dbs[..|dbs| - 1], lastRowId)[d.name := CollectionRowIds(d, d.collections, lastRowId)]
  }

  /** Walks every database, collection and doc-part of the snapshot, storing
      each doc-part's last used row id under its TableRef. */
  method LoadRowIds(snapshot: MetaSnapshot, lastRowId: LastRowIdQuery) returns (lastIds: RowIdMap)
    ensures lastIds == DatabaseRowIds(snapshot.databases, lastRowId)
  {
    var dbs := snapshot.databases;
    lastIds := map[];
    for i := 0 to |dbs|
      invariant lastIds == DatabaseRowIds(dbs[..i], lastRowId)
    {
      var db := dbs[i];
      var collMap: map<string, map<TableRef, int>> := map[];
      for j := 0 to |db.collections|
        invariant collMap == CollectionRowIds(db, db.collections[..j], lastRowId)
      {
        var collection := db.collections[j];
        var tableRefMap: map<TableRef, int> := map[];
        for k := 0 to |collection.docParts|
          invariant tableRefMap == DocPartRowIds(db, collection, collection.docParts[..k], lastRowId)
        {
          var docPart := collection.docParts[k];
          var lastRowIdUsed := lastRowId(db, collection, docPart);
          if lastRowIdUsed.Some? {
            tableRefMap := tableRefMap[docPart.tableRef := lastRowIdUsed.value];
          }
          assert collection.docParts[..k + 1][..k] == collection.docParts[..k];
        }
        assert collection.docParts[..|collection.docParts|] == collection.docParts;
        collMap := collMap[collection.name := tableRefMap];
        assert db.collections[..j + 1][..j] == db.collections[..j];
      }
      assert db.collections[..|db.collections|] == db.collections;
      lastIds := lastIds[db.name := collMap];
      assert dbs[..i + 1][..i] == dbs[..i];
    }
    assert dbs[..|dbs|] == dbs;
  }

  // ---- what the map holds ----

  /** A TableRef is in a collection's map iff some doc-part with that TableRef
      had its query succeed: a failed query adds nothing. */
  lemma {:induction false} DocPartRowIdsKeys(db: MetaDatabase, coll: MetaCollection, dps: seq<MetaDocPart>,
                                             lastRowId: LastRowIdQuery)
    ensures forall ref :: ref in DocPartRowIds(db, coll, dps, lastRowId) <==>
              exists k :: 0 <= k < |dps| && dps[k].tableRef == ref && lastRowId(db, coll, dps[k]).Some?
    decreases |dps|
  {
    if dps != [] {
      var n := |dps| - 1;
      var prefix := dps[..n];
      var dp := dps[n];
      var m := DocPartRowIds(db, coll, dps, lastRowId);
      var m0 := DocPartRowIds(db, coll, prefix, lastRowId);
      DocPartRowIdsKeys(db, coll, prefix, lastRowId);
      forall ref
        ensures ref in m <==> exists k :: 0 <= k < |dps| && dps[k].tableRef == ref && lastRowId(db, coll, dps[k]).Some?
      {
        if ref in m && !(ref == dp.tableRef && lastRowId(db, coll, dp).Some?) {
          assert ref in m0;
          var k :| 0 <= k < n && prefix[k].tableRef == ref && lastRowId(db, coll, prefix[k]).Some?;
          assert dps[k] == prefix[k];
        }
        if exists k :: 0 <= k < |dps| && dps[k].tableRef == ref && lastRowId(db, coll, dps[k]).Some? {
          var k :| 0 <= k < |dps| && dps[k].tableRef == ref && lastRowId(db, coll, dps[k]).Some?;
          if k < n {
            assert prefix[k] == dps[k];
          }
        }
      }
    }
  }

  /** The value under a TableRef is the result of the last successful query
      for it: every later doc-part with that TableRef had its query fail. */
  lemma {:induction false} DocPartRowIdsLastWins(db: MetaDatabase, coll: MetaCollection, dps: seq<MetaDocPart>,
                                                 lastRowId: LastRowIdQuery)
    ensures forall ref :: ref in DocPartRowIds(db, coll, dps, lastRowId) ==>
              exists k :: 0 <= k < |dps| && dps[k].tableRef == ref
                          && lastRowId(db, coll, dps[k]) == Some(DocPartRowIds(db, coll, dps, lastRowId)[ref])
                          && forall h :: k < h < |dps| && dps[h].tableRef == ref ==> lastRowId(db, coll, dps[h]).None?
    decreases |dps|
  {
    if dps != [] {
      var n := |dps| - 1;
      var prefix := dps[..n];
      var dp := dps[n];
      var m := DocPartRowIds(db, coll, dps, lastRowId);
      var m0 := DocPartRowIds(db, coll, prefix, lastRowId);
      DocPartRowIdsLastWins(db, coll, prefix, lastRowId);
      forall ref | ref in m
        ensures exists k :: 0 <= k < |dps| && dps[k].tableRef == ref && lastRowId(db, coll, dps[k]) == Some(m[ref])
                            && forall h :: k < h < |dps| && dps[h].tableRef == ref ==> lastRowId(db, coll, dps[h]).None?
      {
        if ref == dp.tableRef && lastRowId(db, coll, dp).Some? {
          assert lastRowId(db, coll, dps[n]) == Some(m[ref]);
        } else {
          assert ref in m0 && m[ref] == m0[ref];
          var k :| 0 <= k < n && prefix[k].tableRef == ref && lastRowId(db, coll, prefix[k]) == Some(m0[ref])
                   && forall h :: k < h < n && prefix[h].tableRef == ref ==> lastRowId(db, coll, prefix[h]).None?;
          assert dps[k] == prefix[k];
          forall h | k < h < |dps| && dps[h].tableRef == ref ensures lastRowId(db, coll, dps[h]).None? {
            if h < n { assert prefix[h] == dps[h]; }
          }
        }
      }
    }
  }

  /** A collection name is in a database's map iff some collection has that name. */
  lemma {:induction false} CollectionRowIdsKeys(db: MetaDatabase, colls: seq<MetaCollection>, lastRowId: LastRowIdQuery)
    ensures forall name :: name in CollectionRowIds(db, colls, lastRowId) <==> exists j :: 0 <= j < |colls| && colls[j].name == name
    decreases |colls|
  {
    if colls != [] {
      var n := |colls| - 1;
      var prefix := colls[..n];
      var m := CollectionRowIds(db, colls, lastRowId);
      assert m.Keys == CollectionRowIds(db, prefix, lastRowId).Keys + {colls[n].name};
      CollectionRowIdsKeys(db, prefix, lastRowId);
      forall name ensures name in m <==> exists j :: 0 <= j < |colls| && colls[j].name == name {
        if name in m && name != colls[n].name {
          var j :| 0 <= j < n && prefix[j].name == name;
          assert colls[j] == prefix[j];
        }
        if exists j :: 0 <= j < |colls| && colls[j].name == name {
          var j :| 0 <= j < |colls| && colls[j].name == name;
          if j < n { assert prefix[j] == colls[j]; }
        }
      }
    }
  }

  /** The value under a collection name is the map of the last collection with
      that name. */
  lemma {:induction false} CollectionRowIdsLastWins(db: MetaDatabase, colls: seq<MetaCollection>, lastRowId: LastRowIdQuery)
    ensures forall name :: name in CollectionRowIds(db, colls, lastRowId) ==>
              exists j :: 0 <= j < |colls| && colls[j].name == name
                          && CollectionRowIds(db, colls, lastRowId)[name] == DocPartRowIds(db, colls[j], colls[j].docParts, lastRowId)
                          && forall h :: j < h < |colls| ==> colls[h].name != name
    decreases |colls|
  {
    if colls != [] {
      var n := |colls| - 1;
      var prefix := colls[..n];
      var c := colls[n];
      var m := CollectionRowIds(db, colls, lastRowId);
      var m0 := CollectionRowIds(db, prefix, lastRowId);
      var v := DocPartRowIds(db, c, c.docParts, lastRowId);
      assert m == m0[c.name := v];
      CollectionRowIdsLastWins(db, prefix, lastRowId);
      forall name | name in m
        ensures exists j :: 0 <= j < |colls| && colls[j].name == name
                            && m[name] == DocPartRowIds(db, colls[j], colls[j].docParts, lastRowId)
                            && forall h :: j < h < |colls| ==> colls[h].name != name
      {
        if name == c.name {
          assert colls[n] == c && m[name] == v;
        } else {
          assert name in m0 && m[name] == m0[name];
          var j :| 0 <= j < n && prefix[j].name == name
                   && m0[name] == DocPartRowIds(db, prefix[j], prefix[j].docParts, lastRowId)
                   && forall h :: j < h < n ==> prefix[h].name != name;
          assert colls[j] == prefix[j];
          forall h | j < h < |colls| ensures colls[h].name != name {
            if h < n { assert prefix[h] == colls[h]; }
          }
        }
      }
    }
  }

  /** A database name is in the outer map iff some database has that name. */
  lemma {:induction false} DatabaseRowIdsKeys(dbs: seq<MetaDatabase>, lastRowId: LastRowIdQuery)
    ensures forall name :: name in DatabaseRowIds(dbs, lastRowId) <==> exists i :: 0 <= i < |dbs| && dbs[i].name == name
    decreases |dbs|
  {
    if dbs != [] {
      var n := |dbs| - 1;
      var prefix := dbs[..n];
      var m := DatabaseRowIds(dbs, lastRowId);
      assert m.Keys == DatabaseRowIds(prefix, lastRowId).Keys + {dbs[n].name};
      DatabaseRowIdsKeys(prefix, lastRowId);
      forall name ensures name in m <==> exists i :: 0 <= i < |dbs| && dbs[i].name == name {
        if name in m && name != dbs[n].name {
          var i :| 0 <= i < n && prefix[i].name == name;
          assert dbs[i] == prefix[i];
        }
        if exists i :: 0 <= i < |dbs| && dbs[i].name == name {
          var i :| 0 <= i < |dbs| && dbs[i].name == name;
          if i < n { assert prefix[i] == dbs[i]; }
        }
      }
    }
  }

  /** The value under a database name is the map of the last database with
      that name. */
  lemma {:induction false} DatabaseRowIdsLastWins(dbs: seq<MetaDatabase>, lastRowId: LastRowIdQuery)
    ensures forall name :: name in DatabaseRowIds(dbs, lastRowId) ==>
              exists i :: 0 <= i < |dbs| && dbs[i].name == name
                          && DatabaseRowIds(dbs, lastRowId)[name] == CollectionRowIds(dbs[i], dbs[i].collections, lastRowId)
                          && forall h :: i < h < |dbs| ==> dbs[h].name != name
    decreases |dbs|
  {
    if dbs != [] {
      var n := |dbs| - 1;
      var prefix := dbs[..n];
      var d := dbs[n];
      var m := DatabaseRowIds(dbs, lastRowId);
      var m0 := DatabaseRowIds(prefix, lastRowId);
      var v := CollectionRowIds(d, d.collections, lastRowId);
      assert m == m0[d.name := v];
      DatabaseRowIdsLastWins(prefix, lastRowId);
      forall name | name in m
        ensures exists i :: 0 <= i < |dbs| && dbs[i].name == name
                            && m[name] == CollectionRowIds(dbs[i], dbs[i].collections, lastRowId)
                            && forall h :: i < h < |dbs| ==> dbs[h].name != name
      {
        if name == d.name {
          assert dbs[n] == d && m[name] == v;
        } else {
          assert name in m0 && m[name] == m0[name];
          var i :| 0 <= i < n && prefix[i].name == name
                   && m0[name] == CollectionRowIds(prefix[i], prefix[i].collections, lastRowId)
                   && forall h :: i < h < n ==> prefix[h].name != name;
          assert dbs[i] == prefix[i];
          forall h | i < h < |dbs| ensures dbs[h].name != name {
            if h < n { assert prefix[h] == dbs[h]; }
          }
        }
      }
    }
  }

  // ---- with distinct names, every successful query is recorded ----

  predicate DistinctDatabaseNames(dbs: seq<MetaDatabase>)
  {
    forall a, b :: 0 <= a < |dbs| && 0 <= b < |dbs| && a != b ==> dbs[a].name != dbs[b].name
  }

  predicate DistinctCollectionNames(colls: seq<MetaCollection>)
  {
    forall a, b :: 0 <= a < |colls| && 0 <= b < |colls| && a != b ==> colls[a].name != colls[b].name
  }

  predicate DistinctTableRefs(dps: seq<MetaDocPart>)
  {
    forall a, b :: 0 <= a < |dps| && 0 <= b < |dps| && a != b ==> dps[a].tableRef != dps[b].tableRef
  }

  /** Names are distinct at every level of the snapshot. The builders do not
      enforce this; a snapshot loaded from a catalog whose keys are distinct
      has it. */
  predicate DistinctNames(snapshot: MetaSnapshot)
  {
    && DistinctDatabaseNames(snapshot.databases)
    && (forall i :: 0 <= i < |snapshot.databases| ==> DistinctCollectionNames(snapshot.databases[i].collections))
    && (forall i, j :: 0 <= i < |snapshot.databases| && 0 <= j < |snapshot.databases[i].collections| ==>
          DistinctTableRefs(snapshot.databases[i].collections[j].docParts))
  }

  /** Within one collection with distinct TableRefs, a doc-part's TableRef is a
      key iff its query succeeded, and then it maps to that query's result. */
  lemma DocPartRowIdStored(db: MetaDatabase, coll: MetaCollection, dps: seq<MetaDocPart>, lastRowId: LastRowIdQuery, k: int)
    requires DistinctTableRefs(dps) && 0 <= k < |dps|
    ensures dps[k].tableRef in DocPartRowIds(db, coll, dps, lastRowId) <==> lastRowId(db, coll, dps[k]).Some?
    ensures lastRowId(db, coll, dps[k]).Some? ==>
              DocPartRowIds(db, coll, dps, lastRowId)[dps[k].tableRef] == lastRowId(db, coll, dps[k]).value
  {
    var m := DocPartRowIds(db, coll, dps, lastRowId);
    var ref := dps[k].tableRef;
    DocPartRowIdsKeys(db, coll, dps, lastRowId);
    DocPartRowIdsLastWins(db, coll, dps, lastRowId);
    if ref in m {
      var k' :| 0 <= k' < |dps| && dps[k'].tableRef == ref && lastRowId(db, coll, dps[k']) == Some(m[ref])
                && forall h :: k' < h < |dps| && dps[h].tableRef == ref ==> lastRowId(db, coll, dps[h]).None?;
      assert k' == k;
    }
  }

  /** With distinct collection names, each collection's name maps to its own
      TableRef map. */
  lemma CollectionRowIdsAt(db: MetaDatabase, colls: seq<MetaCollection>, lastRowId: LastRowIdQuery, j: int)
    requires DistinctCollectionNames(colls) && 0 <= j < |colls|
    ensures colls[j].name in CollectionRowIds(db, colls, lastRowId)
    ensures CollectionRowIds(db, colls, lastRowId)[colls[j].name] == DocPartRowIds(db, colls[j], colls[j].docParts, lastRowId)
  {
    var m := CollectionRowIds(db, colls, lastRowId);
    CollectionRowIdsKeys(db, colls, lastRowId);
    CollectionRowIdsLastWins(db, colls, lastRowId);
    var name := colls[j].name;
    assert name in m;
    var j' :| 0 <= j' < |colls| && colls[j'].name == name
              && m[name] == DocPartRowIds(db, colls[j'], colls[j'].docParts, lastRowId)
              && forall h :: j' < h < |colls| ==> colls[h].name != name;
    assert j' == j;
  }

  /** With distinct database names, each database's name maps to its own
      collection map. */
  lemma DatabaseRowIdsAt(dbs: seq<MetaDatabase>, lastRowId: LastRowIdQuery, i: int)
    requires DistinctDatabaseNames(dbs) && 0 <= i < |dbs|
    ensures dbs[i].name in DatabaseRowIds(dbs, lastRowId)
    ensures DatabaseRowIds(dbs, lastRowId)[dbs[i].name] == CollectionRowIds(dbs[i], dbs[i].collections, lastRowId)
  {
    var m := DatabaseRowIds(dbs, lastRowId);
    DatabaseRowIdsKeys(dbs, lastRowId);
    DatabaseRowIdsLastWins(dbs, lastRowId);
    var name := dbs[i].name;
    assert name in m;
    var i' :| 0 <= i' < |dbs| && dbs[i'].name == name
              && m[name] == CollectionRowIds(dbs[i'], dbs[i'].collections, lastRowId)
              && forall h :: i' < h < |dbs| ==> dbs[h].name != name;
    assert i' == i;
  }

  /** Under distinct names, the map LoadRowIds builds holds, for every doc-part of
      the snapshot, exactly the row id its query returned, or no entry when the
      query failed. */
  lemma RowIdsComplete(snapshot: MetaSnapshot, lastRowId: LastRowIdQuery, i: int, j: int, k: int)
    requires DistinctNames(snapshot)
    requires 0 <= i < |snapshot.databases|
    requires 0 <= j < |snapshot.databases[i].collections|
    requires 0 <= k < |snapshot.databases[i].collections[j].docParts|
    ensures var d := snapshot.databases[i];
            var c := d.collections[j];
            var m := DatabaseRowIds(snapshot.databases, lastRowId);
            && d.name in m && c.name in m[d.name]
            && (c.docParts[k].tableRef in m[d.name][c.name] <==> lastRowId(d, c, c.docParts[k]).Some?)
            && (lastRowId(d, c, c.docParts[k]).Some? ==>
                  m[d.name][c.name][c.docParts[k].tableRef] == lastRowId(d, c, c.docParts[k]).value)
  {
    var d := snapshot.databases[i];
    var c := d.collections[j];
    DatabaseRowIdsAt(snapshot.databases, lastRowId, i);
    CollectionRowIdsAt(d, d.collections, lastRowId, j);
    DocPartRowIdStored(d, c, c.docParts, lastRowId, k);
  }
}
