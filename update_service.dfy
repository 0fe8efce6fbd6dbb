/**
  The derived-metadata rebuild (`UpdateService`): one catalog record per
  event meta row, unioned with the event's stored graph and saved as its
  graph with records; then the union of all with-records graphs, sent to
  the triple store and saved as the union graph.
 */
module UpdateService {
  import opened Wrappers
  import opened Rdf
  import opened Store

  /** The FDK URI of an event: the catalog record's node. */
  function RecordNode(eventsUri: string, fdkId: string): Node {
    IRI(eventsUri + "/" + fdkId)
  }

  /** `createMetaModel`: the catalog record of a meta row. */
  function CreateMetaModel(eventsUri: string, m: EventMeta): (r: Graph)
    ensures |r| == 5
    ensures forall t | t in r :: t.s == RecordNode(eventsUri, m.fdkId)
  {
    var node := RecordNode(eventsUri, m.fdkId);
    var typed := Triple(node, RDF_TYPE, IRI(DCAT_CATALOG_RECORD));
    var identified := Triple(node, DCT_IDENTIFIER, Literal(m.fdkId, ""));
    var topic := Triple(node, FOAF_PRIMARY_TOPIC, IRI(m.uri));
    var issued := Triple(node, DCT_ISSUED, DateTime(m.issued));
    var modified := Triple(node, DCT_MODIFIED, DateTime(m.modified));
    assert |{typed, identified, topic, issued}| == 4;
    {typed, identified, topic, issued, modified}
  }

  /** Two rows have the same record exactly when they agree on fdkId, URI,
      issued and modified: the record carries those four fields and nothing else. */
  lemma MetaModelFields(eventsUri: string, m: EventMeta, n: EventMeta)
    ensures CreateMetaModel(eventsUri, m) == CreateMetaModel(eventsUri, n) <==>
      m.fdkId == n.fdkId && m.uri == n.uri && m.issued == n.issued && m.modified == n.modified
  {
    var r := CreateMetaModel(eventsUri, m);
    if r == CreateMetaModel(eventsUri, n) {
      var node := RecordNode(eventsUri, m.fdkId);
      assert Triple(node, DCT_IDENTIFIER, Literal(m.fdkId, "")) in r;
      assert Triple(node, FOAF_PRIMARY_TOPIC, IRI(m.uri)) in r;
      assert Triple(node, DCT_ISSUED, DateTime(m.issued)) in r;
      assert Triple(node, DCT_MODIFIED, DateTime(m.modified)) in r;
    }
  }

  /** The with-records graph of a row: its record and its stored graph. */
  function WithRecords(eventsUri: string, m: EventMeta, noRecords: Graph): Graph {
    CreateMetaModel(eventsUri, m) + noRecords
  }

  // --------------------------------------------------------- updateMetaData

  /** The fdkIds the rows carry. */
  function IdsOf(metas: map<string, EventMeta>): set<string> {
    set m | m in metas.Values :: m.fdkId
  }

  /** The fdkIds of a list of rows. */
  function RowIds(rows: seq<EventMeta>): set<string> {
    set m | m in rows :: m.fdkId
  }

  /** A with-records graph is rebuilt under `k` when some row has the fdkId
      and its graph without records is stored. */
  predicate Refreshable(metas: map<string, EventMeta>, noRecords: map<string, Graph>, k: string) {
    k in noRecords && k in IdsOf(metas)
  }

  /** What `updateMetaData` does to the with-records graphs, in whatever
      order the rows come: every rebuildable id holds the record of a row with
      that id unioned with its graph without records; the other ids are as
      they were. */
  ghost predicate RecordsRebuilt(eventsUri: string, metas: map<string, EventMeta>, noRecords: map<string, Graph>,
                                 before: map<string, Graph>, after: map<string, Graph>) {
    && (forall k :: k in after <==> k in before || Refreshable(metas, noRecords, k))
    && (forall k | k in before && !Refreshable(metas, noRecords, k) :: after[k] == before[k])
    && (forall k | Refreshable(metas, noRecords, k) ::
          k in after && exists m | m in metas.Values && m.fdkId == k :: after[k] == WithRecords(eventsUri, m, noRecords[k]))
  }

  /** One row of the loop. */
  function RefreshRow(eventsUri: string, m: EventMeta, noRecords: map<string, Graph>, graphs: map<string, Graph>): map<string, Graph> {
    if m.fdkId in noRecords then graphs[m.fdkId := WithRecords(eventsUri, m, noRecords[m.fdkId])] else graphs
  }

  /** The rows in the order the loop met them. */
  function Refresh(eventsUri: string, rows: seq<EventMeta>, noRecords: map<string, Graph>, before: map<string, Graph>): map<string, Graph>
    decreases |rows|
  {
    if rows == [] then before
    else RefreshRow(eventsUri, rows[|rows| - 1], noRecords, Refresh(eventsUri, rows[..|rows| - 1], noRecords, before))
  }

  lemma RowIdsSplit(rows: seq<EventMeta>)
    requires rows != []
    ensures RowIds(rows) == RowIds(rows[..|rows| - 1]) + {rows[|rows| - 1].fdkId}
    ensures forall m | m in rows[..|rows| - 1] :: m in rows
  {
    var init := rows[..|rows| - 1];
    assert rows == init + [rows[|rows| - 1]];
  }

  /** The loop writes exactly the ids of its rows that have a stored graph without records. */
  lemma {:induction false} RefreshKeys(eventsUri: string, rows: seq<EventMeta>, noRecords: map<string, Graph>, before: map<string, Graph>)
    ensures forall k :: k in Refresh(eventsUri, rows, noRecords, before) <==> k in before || (k in noRecords && k in RowIds(rows))
    ensures forall k | k in before && !(k in noRecords && k in RowIds(rows)) :: Refresh(eventsUri, rows, noRecords, before)[k] == before[k]
    decreases |rows|
  {
    if rows != [] {
      RowIdsSplit(rows);
      RefreshKeys(eventsUri, rows[..|rows| - 1], noRecords, before);
    }
  }

  /** Each id the loop writes holds the record of one of its rows with that id. */
  lemma {:induction false} RefreshContent(eventsUri: string, rows: seq<EventMeta>, noRecords: map<string, Graph>, before: map<string, Graph>)
    ensures forall k | k in noRecords && k in RowIds(rows) ::
      && k in Refresh(eventsUri, rows, noRecords, before)
      && exists m | m in rows && m.fdkId == k :: Refresh(eventsUri, rows, noRecords, before)[k] == WithRecords(eventsUri, m, noRecords[k])
    decreases |rows|
  {
    if rows != [] {
      var init := rows[..|rows| - 1];
      var last := rows[|rows| - 1];
      RowIdsSplit(rows);
      RefreshKeys(eventsUri, rows, noRecords, before);
      RefreshContent(eventsUri, init, noRecords, before);
      var after := Refresh(eventsUri, rows, noRecords, before);
      forall k | k in noRecords && k in RowIds(rows)
        ensures exists m | m in rows && m.fdkId == k :: after[k] == WithRecords(eventsUri, m, noRecords[k])
      {
        if k == last.fdkId {
          assert last in rows;
        } else {
          var m :| m in init && m.fdkId == k && Refresh(eventsUri, init, noRecords, before)[k] == WithRecords(eventsUri, m, noRecords[k]);
          assert m in rows;
        }
      }
    }
  }

  /** A loop over all rows rebuilds the records as `RecordsRebuilt` says. */
  lemma RefreshRebuilds(eventsUri: string, metas: map<string, EventMeta>, rows: seq<EventMeta>,
                        noRecords: map<string, Graph>, before: map<string, Graph>)
    requires forall m :: m in rows <==> m in metas.Values
    ensures RecordsRebuilt(eventsUri, metas, noRecords, before, Refresh(eventsUri, rows, noRecords, before))
  {
    SameIds(metas, rows);
    RefreshKeys(eventsUri, rows, noRecords, before);
    RefreshContent(eventsUri, rows, noRecords, before);
    var after := Refresh(eventsUri, rows, noRecords, before);
    forall k | Refreshable(metas, noRecords, k)
      ensures exists m | m in metas.Values && m.fdkId == k :: after[k] == WithRecords(eventsUri, m, noRecords[k])
    {
      var m :| m in rows && m.fdkId == k && after[k] == WithRecords(eventsUri, m, noRecords[k]);
      assert m in metas.Values;
    }
  }

  lemma SameIds(metas: map<string, EventMeta>, rows: seq<EventMeta>)
    requires forall m :: m in rows <==> m in metas.Values
    ensures RowIds(rows) == IdsOf(metas)
  {
    forall k ensures k in RowIds(rows) <==> k in IdsOf(metas) {
      if k in RowIds(rows) {
        var m :| m in rows && m.fdkId == k;
        assert m in metas.Values;
      }
      if k in IdsOf(metas) {
        var m :| m in metas.Values && m.fdkId == k;
        assert m in rows;
      }
    }
  }

  /** Every row's fdkId is its own. */
  ghost predicate UniqueIds(metas: map<string, EventMeta>) {
    forall u, v | u in metas && v in metas && u != v :: metas[u].fdkId != metas[v].fdkId
  }

  /** With one row per fdkId, each row's with-records graph is its record
      unioned with its stored graph without records. */
  lemma EachRowRecorded(eventsUri: string, metas: map<string, EventMeta>, noRecords: map<string, Graph>,
                        before: map<string, Graph>, after: map<string, Graph>)
    requires UniqueIds(metas) && RecordsRebuilt(eventsUri, metas, noRecords, before, after)
    ensures forall u | u in metas && metas[u].fdkId in noRecords ::
      metas[u].fdkId in after && after[metas[u].fdkId] == WithRecords(eventsUri, metas[u], noRecords[metas[u].fdkId])
  {
    forall u | u in metas && metas[u].fdkId in noRecords
      ensures metas[u].fdkId in after && after[metas[u].fdkId] == WithRecords(eventsUri, metas[u], noRecords[metas[u].fdkId])
    {
      var k := metas[u].fdkId;
      assert metas[u] in metas.Values;
      var m :| m in metas.Values && m.fdkId == k && after[k] == WithRecords(eventsUri, m, noRecords[k]);
      var v :| v in metas && metas[v] == m;
    }
  }

  /** With one row per fdkId, rebuilding the records a second time changes
      nothing: the rebuild is idempotent. */
  lemma RebuildIdempotent(eventsUri: string, metas: map<string, EventMeta>, noRecords: map<string, Graph>,
                          g0: map<string, Graph>, g1: map<string, Graph>, g2: map<string, Graph>)
    requires UniqueIds(metas)
    requires RecordsRebuilt(eventsUri, metas, noRecords, g0, g1)
    requires RecordsRebuilt(eventsUri, metas, noRecords, g1, g2)
    ensures g2 == g1
  {
    forall k | k in g1 ensures k in g2 && g2[k] == g1[k] {
      if Refreshable(metas, noRecords, k) {
        var m :| m in metas.Values && m.fdkId == k && g1[k] == WithRecords(eventsUri, m, noRecords[k]);
        var n :| n in metas.Values && n.fdkId == k && g2[k] == WithRecords(eventsUri, n, noRecords[k]);
        var u :| u in metas && metas[u] == m;
        var v :| v in metas && metas[v] == n;
        assert u == v;
      }
    }
  }

  /** `updateMetaData`: rebuilds the with-records graph of every row whose
      graph without records is stored, then rebuilds the union. */
  method UpdateMetaData(repo: Repositories, eventsUri: string)
    modifies repo
    ensures RecordsRebuilt(eventsUri, old(repo.eventMeta), old(repo.eventGraphs), old(repo.fdkEventGraphs), repo.fdkEventGraphs)
    ensures repo.tripleStore == Some(UnionOf(repo.eventMeta, repo.fdkEventGraphs)) && repo.unionGraph == repo.tripleStore
    ensures repo.OnlyServedChanged()
  {
    var rows := repo.FindAll();
    ghost var before := repo.fdkEventGraphs;
    var i := 0;
    while i < |rows|
      invariant 0 <= i <= |rows|
      invariant repo.fdkEventGraphs == Refresh(eventsUri, rows[..i], repo.eventGraphs, before)
      invariant repo.OnlyServedChanged() && repo.tripleStore == old(repo.tripleStore) && repo.unionGraph == old(repo.unionGraph)
      decreases |rows| - i
    {
      assert rows[..i + 1][..i] == rows[..i];
      var m := rows[i];
      if m.fdkId in repo.eventGraphs {
        repo.fdkEventGraphs := repo.fdkEventGraphs[m.fdkId := WithRecords(eventsUri, m, repo.eventGraphs[m.fdkId])];
      }
      i := i + 1;
    }
    assert rows[..i] == rows;
    RefreshRebuilds(eventsUri, repo.eventMeta, rows, repo.eventGraphs, before);
    UpdateUnionModel(repo);
  }

  // -------------------------------------------------------- updateUnionModel

  /** The stored with-records graph of an id; a missing one contributes nothing. */
  function StoredWithRecords(graphs: map<string, Graph>, fdkId: string): Graph {
    if fdkId in graphs then graphs[fdkId] else {}
  }

  /** The union of the with-records graphs of all rows, removed or not. */
  ghost function UnionOf(metas: map<string, EventMeta>, graphs: map<string, Graph>): Graph {
    set u, t | u in metas && t in StoredWithRecords(graphs, metas[u].fdkId) :: t
  }

  /** The union built in the order the loop met the rows. */
  function UnionOver(rows: seq<EventMeta>, graphs: map<string, Graph>): Graph
    decreases |rows|
  {
    if rows == [] then {} else UnionOver(rows[..|rows| - 1], graphs) + StoredWithRecords(graphs, rows[|rows| - 1].fdkId)
  }

  lemma {:induction false} UnionOverMembers(rows: seq<EventMeta>, graphs: map<string, Graph>)
    ensures forall t :: t in UnionOver(rows, graphs) <==> exists j | 0 <= j < |rows| :: t in StoredWithRecords(graphs, rows[j].fdkId)
    decreases |rows|
  {
    if rows != [] {
      var init := rows[..|rows| - 1];
      UnionOverMembers(init, graphs);
      assert forall j | 0 <= j < |init| :: init[j] == rows[j];
      forall t | t in UnionOver(rows, graphs) ensures exists j | 0 <= j < |rows| :: t in StoredWithRecords(graphs, rows[j].fdkId) {
        if t in UnionOver(init, graphs) {
          var j :| 0 <= j < |init| && t in StoredWithRecords(graphs, init[j].fdkId);
          assert rows[j] == init[j];
        } else {
          assert t in StoredWithRecords(graphs, rows[|rows| - 1].fdkId);
        }
      }
      forall t, j | 0 <= j < |rows| && t in StoredWithRecords(graphs, rows[j].fdkId) ensures t in UnionOver(rows, graphs) {
        if j < |init| {
          assert init[j] == rows[j];
        }
      }
    }
  }

  /** Whatever the order of the rows, the loop builds `UnionOf`. */
  lemma UnionOverAllRows(metas: map<string, EventMeta>, rows: seq<EventMeta>, graphs: map<string, Graph>)
    requires forall m :: m in rows <==> m in metas.Values
    ensures UnionOver(rows, graphs) == UnionOf(metas, graphs)
  {
    UnionOverMembers(rows, graphs);
    forall t | t in UnionOver(rows, graphs) ensures t in UnionOf(metas, graphs) {
      var j :| 0 <= j < |rows| && t in StoredWithRecords(graphs, rows[j].fdkId);
      assert rows[j] in rows;
      var u :| u in metas && metas[u] == rows[j];
    }
    forall t | t in UnionOf(metas, graphs) ensures t in UnionOver(rows, graphs) {
      var u :| u in metas && t in StoredWithRecords(graphs, metas[u].fdkId);
      assert metas[u] in metas.Values;
      var j :| 0 <= j < |rows| && rows[j] == metas[u];
    }
  }

  /** `updateUnionModel`: the union of every row's stored with-records graph,
      sent to the triple store and saved as the union graph. */
  method UpdateUnionModel(repo: Repositories)
    modifies repo
    ensures repo.tripleStore == Some(UnionOf(repo.eventMeta, repo.fdkEventGraphs)) && repo.unionGraph == repo.tripleStore
    ensures repo.OnlyUnionChanged()
  {
    var rows := repo.FindAll();
    var union: Graph := {};
    var i := 0;
    while i < |rows|
      invariant 0 <= i <= |rows|
      invariant union == UnionOver(rows[..i], repo.fdkEventGraphs)
      decreases |rows| - i
    {
      assert rows[..i + 1][..i] == rows[..i];
      union := union + StoredWithRecords(repo.fdkEventGraphs, rows[i].fdkId);
      i := i + 1;
    }
    assert rows[..i] == rows;
    UnionOverAllRows(repo.eventMeta, rows, repo.fdkEventGraphs);
    repo.tripleStore := Some(union);
    repo.unionGraph := Some(union);
  }

  /** The union holds every row's with-records graph and nothing from ids no row has. */
  lemma UnionBounds(metas: map<string, EventMeta>, graphs: map<string, Graph>)
    ensures forall u | u in metas :: StoredWithRecords(graphs, metas[u].fdkId) <= UnionOf(metas, graphs)
    ensures forall t | t in UnionOf(metas, graphs) :: exists u | u in metas :: metas[u].fdkId in graphs && t in graphs[metas[u].fdkId]
  {
  }

  /** The union does not look at the removed flag: removing rows leaves it as it was. */
  lemma UnionKeepsRemoved(metas: map<string, EventMeta>, graphs: map<string, Graph>, uris: set<string>)
    ensures UnionOf(MarkRemoved(metas, uris), graphs) == UnionOf(metas, graphs)
  {
    var marked := MarkRemoved(metas, uris);
    assert forall u | u in metas :: u in marked && marked[u].fdkId == metas[u].fdkId;
    forall t | t in UnionOf(metas, graphs) ensures t in UnionOf(marked, graphs) {
      var u :| u in metas && t in StoredWithRecords(graphs, metas[u].fdkId);
      assert t in StoredWithRecords(graphs, marked[u].fdkId);
    }
  }
}
