/**
  The persistent state the services read and write: the meta repositories
  (keyed by resource URI), the graph stores (keyed by fdkId, per variant,
  and by source URL), the triple store and union graph, and the report
  messages sent. Graphs are kept as graphs: the gzip and Turtle encoding of
  the stores is not part of the model.
 */
module Store {
  import opened Wrappers
  import opened Rdf

  /** `EventMeta`: `isPartOf` is the FDK URI of the catalog the event was last seen in. */
  datatype EventMeta = EventMeta(
    uri: string,
    fdkId: string,
    isPartOf: Option<string>,
    removed: bool,
    issued: int,
    modified: int)

  /** `CatalogMeta`. */
  datatype CatalogMeta = CatalogMeta(
    uri: string,
    fdkId: string,
    issued: int,
    modified: int,
    events: set<string>)

  datatype FdkIdAndUri = FdkIdAndUri(fdkId: string, uri: string)

  /** `HarvestReport`; times are millisecond timestamps and the end time is not kept. */
  datatype HarvestReport = HarvestReport(
    id: string,
    url: string,
    harvestError: bool,
    errorMessage: Option<string>,
    startTime: int,
    changedCatalogs: seq<FdkIdAndUri>,
    changedResources: seq<FdkIdAndUri>,
    removedResources: seq<FdkIdAndUri>)

  /** The report of a harvest that found nothing to do or failed. */
  function EmptyReport(id: string, url: string, error: bool, message: Option<string>, start: int): HarvestReport {
    HarvestReport(id, url, error, message, start, [], [], [])
  }

  /** `findByIdOrNull` on a map. */
  function Get<V>(m: map<string, V>, k: string): (r: Option<V>)
    ensures r.Some? <==> k in m
    ensures r.Some? ==> r.value == m[k]
  {
    if k in m then Some(m[k]) else None
  }

  /** Meta rows stored under their own URI. */
  ghost predicate KeyedByUri(metas: map<string, EventMeta>) {
    forall u | u in metas :: metas[u].uri == u
  }

  /** Saving a batch of rows one after the other (`saveAll`): a later row
      with the same URI replaces an earlier one. */
  function SaveAll(metas: map<string, EventMeta>, rows: seq<EventMeta>): map<string, EventMeta>
    decreases |rows|
  {
    if rows == [] then metas else SaveAll(metas[rows[0].uri := rows[0]], rows[1..])
  }

  /** The rows with the removed flag set (`map { it.copy(removed = true) }`). */
  function Flagged(rows: seq<EventMeta>): (r: seq<EventMeta>)
    ensures |r| == |rows| && forall i | 0 <= i < |rows| :: r[i] == rows[i].(removed := true)
  {
    if rows == [] then [] else [rows[0].(removed := true)] + Flagged(rows[1..])
  }

  /** The rows of `uris` flagged as removed, the others as they were. */
  function MarkRemoved(metas: map<string, EventMeta>, uris: set<string>): map<string, EventMeta> {
    map u | u in metas :: if u in uris then metas[u].(removed := true) else metas[u]
  }

  /** Saving the flagged copies of rows that differ from the stored ones at
      most in the flag flags exactly their URIs. */
  lemma {:induction false} SaveFlagged(metas: map<string, EventMeta>, rows: seq<EventMeta>)
    requires KeyedByUri(metas)
    requires forall i | 0 <= i < |rows| :: rows[i].uri in metas && metas[rows[i].uri].(removed := true) == rows[i].(removed := true)
    ensures SaveAll(metas, Flagged(rows)) == MarkRemoved(metas, set m | m in rows :: m.uri)
    decreases |rows|
  {
    if rows == [] {
      assert MarkRemoved(metas, {}) == metas;
    } else {
      var u := rows[0].uri;
      var next := metas[u := metas[u].(removed := true)];
      assert Flagged(rows)[0] == metas[u].(removed := true);
      assert Flagged(rows)[1..] == Flagged(rows[1..]);
      assert forall i | 0 <= i < |rows[1..]| :: rows[1..][i] == rows[i + 1];
      SaveFlagged(next, rows[1..]);
      var us := set m | m in rows[1..] :: m.uri;
      assert (set m | m in rows :: m.uri) == {u} + us;
      MarkOne(metas, u, us);
    }
  }

  lemma MarkOne(metas: map<string, EventMeta>, u: string, us: set<string>)
    requires u in metas
    ensures MarkRemoved(metas[u := metas[u].(removed := true)], us) == MarkRemoved(metas, {u} + us)
  {
  }

  /** Saving rows that name none of `u`'s row leaves it as it was. */
  lemma {:induction false} SaveAllOthers(metas: map<string, EventMeta>, rows: seq<EventMeta>, u: string)
    requires forall i | 0 <= i < |rows| :: rows[i].uri != u
    ensures u in SaveAll(metas, rows) <==> u in metas
    ensures u in metas ==> SaveAll(metas, rows)[u] == metas[u]
    decreases |rows|
  {
    if rows != [] {
      SaveAllOthers(metas[rows[0].uri := rows[0]], rows[1..], u);
    }
  }

  /** The last row of a batch saved under a URI is what the store holds for it. */
  lemma {:induction false} SaveAllLast(metas: map<string, EventMeta>, rows: seq<EventMeta>, i: nat)
    requires i < |rows| && forall j | i < j < |rows| :: rows[j].uri != rows[i].uri
    ensures rows[i].uri in SaveAll(metas, rows) && SaveAll(metas, rows)[rows[i].uri] == rows[i]
    decreases |rows|
  {
    if i > 0 {
      SaveAllLast(metas[rows[0].uri := rows[0]], rows[1..], i - 1);
    } else {
      SaveAllOthers(metas[rows[0].uri := rows[0]], rows[1..], rows[0].uri);
    }
  }

  /** The repositories and stores. */
  class Repositories {
    /** `eventMetaRepository`, by URI. */
    var eventMeta: map<string, EventMeta>
    /** `catalogMetaRepository`, by URI. */
    var catalogMeta: map<string, CatalogMeta>
    /** Event graphs without catalog records (`eventTurtle`), by fdkId. */
    var eventGraphs: map<string, Graph>
    /** Event graphs with catalog records (`fdkEventTurtle`), by fdkId. */
    var fdkEventGraphs: map<string, Graph>
    /** Catalog graphs without catalog records (`catalogTurtle`), by fdkId. */
    var catalogGraphs: map<string, Graph>
    /** The last harvested graph of each source (`harvestSourceTurtle`), by URL. */
    var harvestSources: map<string, Graph>
    /** The graph last stored in the triple store, and the union graph. */
    var tripleStore: Option<Graph>
    var unionGraph: Option<Graph>
    /** Report messages sent, one batch per message. */
    var sent: seq<seq<HarvestReport>>

    ghost predicate Valid()
      reads this
    {
      KeyedByUri(eventMeta) && forall u | u in catalogMeta :: catalogMeta[u].uri == u
    }

    /** Only the event meta rows and the event graphs changed. */
    twostate predicate OnlyEventsChanged()
      reads this
    {
      && catalogMeta == old(catalogMeta) && catalogGraphs == old(catalogGraphs) && fdkEventGraphs == old(fdkEventGraphs)
      && harvestSources == old(harvestSources) && tripleStore == old(tripleStore) && unionGraph == old(unionGraph)
      && sent == old(sent)
    }

    /** Only the meta rows and the catalog graphs changed. */
    twostate predicate OnlyMetaAndCatalogsChanged()
      reads this
    {
      && eventGraphs == old(eventGraphs) && fdkEventGraphs == old(fdkEventGraphs)
      && harvestSources == old(harvestSources) && tripleStore == old(tripleStore) && unionGraph == old(unionGraph)
      && sent == old(sent)
    }

    /** The served graphs are as they were, and nothing was sent. */
    twostate predicate ServingKept()
      reads this
    {
      && fdkEventGraphs == old(fdkEventGraphs)
      && tripleStore == old(tripleStore) && unionGraph == old(unionGraph) && sent == old(sent)
    }

    /** The served graphs and the harvest sources are as they were, and nothing was sent. */
    twostate predicate ServedKept()
      reads this
    {
      ServingKept() && harvestSources == old(harvestSources)
    }

    /** Only the event meta rows and the messages sent changed. */
    twostate predicate OnlyEventRowsAndSentChanged()
      reads this
    {
      && catalogMeta == old(catalogMeta) && eventGraphs == old(eventGraphs) && fdkEventGraphs == old(fdkEventGraphs)
      && catalogGraphs == old(catalogGraphs) && harvestSources == old(harvestSources)
      && tripleStore == old(tripleStore) && unionGraph == old(unionGraph)
    }

    /** Only the event meta rows and the two event graph stores changed. */
    twostate predicate OnlyEventStoresChanged()
      reads this
    {
      && catalogMeta == old(catalogMeta) && catalogGraphs == old(catalogGraphs) && harvestSources == old(harvestSources)
      && tripleStore == old(tripleStore) && unionGraph == old(unionGraph) && sent == old(sent)
    }

    /** Only the triple store and the union graph changed. */
    twostate predicate OnlyUnionChanged()
      reads this
    {
      && eventMeta == old(eventMeta) && catalogMeta == old(catalogMeta) && eventGraphs == old(eventGraphs)
      && fdkEventGraphs == old(fdkEventGraphs) && catalogGraphs == old(catalogGraphs)
      && harvestSources == old(harvestSources) && sent == old(sent)
    }

    /** Only the served graphs changed: the with-records event graphs, the triple store and the union graph. */
    twostate predicate OnlyServedChanged()
      reads this
    {
      && eventMeta == old(eventMeta) && catalogMeta == old(catalogMeta) && eventGraphs == old(eventGraphs)
      && catalogGraphs == old(catalogGraphs) && harvestSources == old(harvestSources) && sent == old(sent)
    }

    constructor ()
      ensures Valid()
      ensures eventMeta == map[] && catalogMeta == map[] && eventGraphs == map[] && fdkEventGraphs == map[]
      ensures catalogGraphs == map[] && harvestSources == map[] && tripleStore == None && unionGraph == None
      ensures sent == []
    {
      eventMeta := map[];
      catalogMeta := map[];
      eventGraphs := map[];
      fdkEventGraphs := map[];
      catalogGraphs := map[];
      harvestSources := map[];
      tripleStore := None;
      unionGraph := None;
      sent := [];
    }

    /** `findAll`, in some order. */
    method FindAll() returns (rows: seq<EventMeta>)
      ensures forall m :: m in rows <==> m in eventMeta.Values
    {
      var uris := Enumerate(eventMeta.Keys);
      rows := [];
      var i := 0;
      while i < |uris|
        invariant 0 <= i <= |uris| && |rows| == i
        invariant forall j | 0 <= j < i :: uris[j] in eventMeta && rows[j] == eventMeta[uris[j]]
        decreases |uris| - i
      {
        rows := rows + [eventMeta[uris[i]]];
        i := i + 1;
      }
      forall m | m in eventMeta.Values ensures m in rows {
        var u :| u in eventMeta && eventMeta[u] == m;
        var j :| 0 <= j < |uris| && uris[j] == u;
      }
    }

    /** `findAllByFdkId`, in some order. */
    method FindAllByFdkId(fdkId: string) returns (rows: seq<EventMeta>)
      ensures forall m :: m in rows <==> m in eventMeta.Values && m.fdkId == fdkId
    {
      var keys := set u | u in eventMeta && eventMeta[u].fdkId == fdkId;
      var uris := Enumerate(keys);
      assert forall j | 0 <= j < |uris| :: uris[j] in uris && uris[j] in keys;
      rows := [];
      var i := 0;
      while i < |uris|
        invariant 0 <= i <= |uris| && |rows| == i
        invariant forall j | 0 <= j < i :: rows[j] == eventMeta[uris[j]]
        decreases |uris| - i
      {
        rows := rows + [eventMeta[uris[i]]];
        i := i + 1;
      }
      forall m | m in eventMeta.Values && m.fdkId == fdkId ensures m in rows {
        var u :| u in eventMeta && eventMeta[u] == m;
        assert u in keys && u in uris;
        var j :| 0 <= j < |uris| && uris[j] == u;
      }
    }

    /** `findAllByIsPartOf`, in some order. */
    method FindAllByIsPartOf(catalog: string) returns (rows: seq<EventMeta>)
      ensures forall m :: m in rows <==> m in eventMeta.Values && m.isPartOf == Some(catalog)
    {
      var keys := set u | u in eventMeta && eventMeta[u].isPartOf == Some(catalog);
      var uris := Enumerate(keys);
      assert forall j | 0 <= j < |uris| :: uris[j] in uris && uris[j] in keys;
      rows := [];
      var i := 0;
      while i < |uris|
        invariant 0 <= i <= |uris| && |rows| == i
        invariant forall j | 0 <= j < i :: rows[j] == eventMeta[uris[j]]
        decreases |uris| - i
      {
        rows := rows + [eventMeta[uris[i]]];
        i := i + 1;
      }
      forall m | m in eventMeta.Values && m.isPartOf == Some(catalog) ensures m in rows {
        var u :| u in eventMeta && eventMeta[u] == m;
        assert u in keys && u in uris;
        var j :| 0 <= j < |uris| && uris[j] == u;
      }
    }
  }
}
