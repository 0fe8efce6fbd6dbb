/**
  The harvest of one source (`EventHarvester`): fetching and comparing the
  source graph, splitting it, reconciling events and catalogs with the
  stored metadata, and flagging the events a catalog no longer lists.
 */
module Harvester {
  import opened Wrappers
  import opened Rdf
  import opened Skolem
  import opened Extraction
  import opened Catalogs
  import opened Store

  /** The services the harvester is configured with: the base URI of the
      published events, `createIdFromString`, the hash that names skolem
      IRIs and Jena's graph isomorphism. */
  datatype Env = Env(
    eventsUri: string,
    makeId: string -> string,
    hash: Graph -> string,
    iso: (Graph, Graph) -> bool)

  // ------------------------------------------------------------------ events

  /** The event stores the event phase touches. */
  datatype EventStores = EventStores(metas: map<string, EventMeta>, graphs: map<string, Graph>)

  /** One event's effect, and the meta row it reports (if any). */
  datatype EventStep = EventStep(st: EventStores, updated: Option<EventMeta>)

  /** `mapToMetaDBO` for an event: the stored identity and issue date are
      kept, an unseen event gets a fresh id, and the row is live again. */
  function EventMetaFor(uri: string, date: int, db: Option<EventMeta>, makeId: string -> string): (m: EventMeta)
    ensures m.uri == uri && m.modified == date && !m.removed
    ensures db.Some? ==> m.fdkId == db.value.fdkId && m.issued == db.value.issued && m.isPartOf == db.value.isPartOf
    ensures db.None? ==> m.fdkId == makeId(uri) && m.issued == date && m.isPartOf == None
  {
    match db
    case None => EventMeta(uri, makeId(uri), None, false, date, date)
    case Some(d) => EventMeta(uri, d.fdkId, d.isPartOf, false, d.issued, date)
  }

  /** `updateDBOs`: a new, removed or changed event gets a fresh meta row
      and its graph stored; an unchanged one has its graph rewritten when
      forced, and is otherwise left alone. */
  function EventUpdate(st: EventStores, ev: EventRdfModel, date: int, force: bool, env: Env): EventStep {
    var db := Get(st.metas, ev.eventUri);
    if db.None? || db.value.removed || HarvestDiff(ev.harvested, Get(st.graphs, db.value.fdkId), env.iso) then
      var m := EventMetaFor(ev.eventUri, date, db, env.makeId);
      EventStep(EventStores(st.metas[ev.eventUri := m], st.graphs[m.fdkId := ev.harvested]), Some(m))
    else if force then
      EventStep(EventStores(st.metas, st.graphs[db.value.fdkId := ev.harvested]), db)
    else
      EventStep(st, None)
  }

  /** What an event update reports: the event's id and URI. */
  function EventReport(ev: EventRdfModel, updated: Option<EventMeta>): seq<FdkIdAndUri> {
    if updated.Some? then [FdkIdAndUri(updated.value.fdkId, ev.eventUri)] else []
  }

  datatype EventsResult = EventsResult(st: EventStores, reports: seq<FdkIdAndUri>)

  /** `updateEvents`: the events one after the other, each seeing the
      stores as the earlier ones left them. */
  function UpdateEventsSpec(st: EventStores, evs: seq<EventRdfModel>, date: int, force: bool, env: Env): EventsResult
    decreases |evs|
  {
    if evs == [] then EventsResult(st, [])
    else
      var step := EventUpdate(st, evs[0], date, force, env);
      var rest := UpdateEventsSpec(step.st, evs[1..], date, force, env);
      EventsResult(rest.st, EventReport(evs[0], step.updated) + rest.reports)
  }

  /** After the event phase every harvested event has a live meta row. */
  lemma {:induction false} HarvestedEventsLive(st: EventStores, evs: seq<EventRdfModel>, date: int, force: bool, env: Env)
    ensures var r := UpdateEventsSpec(st, evs, date, force, env).st.metas;
      forall ev | ev in evs :: ev.eventUri in r && !r[ev.eventUri].removed
    decreases |evs|
  {
    if evs != [] {
      var step := EventUpdate(st, evs[0], date, force, env);
      HarvestedEventsLive(step.st, evs[1..], date, force, env);
      EventPhaseKeepsLive(step.st, evs[1..], date, force, env, evs[0].eventUri);
      assert forall ev | ev in evs :: ev == evs[0] || ev in evs[1..];
    }
  }

  /** The event phase never flags a row as removed. */
  lemma {:induction false} EventPhaseKeepsLive(st: EventStores, evs: seq<EventRdfModel>, date: int, force: bool, env: Env, u: string)
    requires u in st.metas && !st.metas[u].removed
    ensures var r := UpdateEventsSpec(st, evs, date, force, env).st.metas; u in r && !r[u].removed
    decreases |evs|
  {
    if evs != [] {
      EventPhaseKeepsLive(EventUpdate(st, evs[0], date, force, env).st, evs[1..], date, force, env, u);
    }
  }

  /** Identity is stable: a stored event keeps its fdkId and issue date,
      and a newly seen one is named after its URI and issued now. */
  ghost predicate IdentityKept(before: map<string, EventMeta>, after: map<string, EventMeta>, date: int, makeId: string -> string) {
    && before.Keys <= after.Keys
    && (forall u | u in before :: after[u].fdkId == before[u].fdkId && after[u].issued == before[u].issued)
    && (forall u | u in after && u !in before :: after[u].fdkId == makeId(u) && after[u].issued == date)
  }

  /** The event phase keeps identities, and the catalog a row points to. */
  lemma {:induction false} EventPhaseKeepsIdentity(st: EventStores, evs: seq<EventRdfModel>, date: int, force: bool, env: Env)
    ensures IdentityKept(st.metas, UpdateEventsSpec(st, evs, date, force, env).st.metas, date, env.makeId)
    ensures var r := UpdateEventsSpec(st, evs, date, force, env).st.metas;
      (forall u | u in st.metas :: r[u].isPartOf == st.metas[u].isPartOf)
      && (forall u | u in r && u !in st.metas :: r[u].isPartOf == None)
    decreases |evs|
  {
    if evs != [] {
      var step := EventUpdate(st, evs[0], date, force, env);
      EventPhaseKeepsIdentity(step.st, evs[1..], date, force, env);
    }
  }

  /** The event phase stores rows under their own URI and adds no other key. */
  lemma {:induction false} EventPhaseKeys(st: EventStores, evs: seq<EventRdfModel>, date: int, force: bool, env: Env)
    requires KeyedByUri(st.metas)
    ensures var r := UpdateEventsSpec(st, evs, date, force, env).st.metas;
      KeyedByUri(r) && forall u | u in r && u !in st.metas :: exists ev | ev in evs :: ev.eventUri == u
    decreases |evs|
  {
    if evs != [] {
      var step := EventUpdate(st, evs[0], date, force, env);
      EventPhaseKeys(step.st, evs[1..], date, force, env);
      assert forall ev | ev in evs[1..] :: ev in evs;
    }
  }

  /** A forced harvest reports every event, in the order harvested. */
  lemma {:induction false} ForcedReportsAll(st: EventStores, evs: seq<EventRdfModel>, date: int, env: Env)
    ensures var reports := UpdateEventsSpec(st, evs, date, true, env).reports;
      |reports| == |evs| && forall i | 0 <= i < |evs| :: reports[i].uri == evs[i].eventUri
    decreases |evs|
  {
    if evs != [] {
      var step := EventUpdate(st, evs[0], date, true, env);
      ForcedReportsAll(step.st, evs[1..], date, env);
      var rest := UpdateEventsSpec(step.st, evs[1..], date, true, env).reports;
      var reports := UpdateEventsSpec(st, evs, date, true, env).reports;
      ForcedStepReports(st, evs[0], date, env);
      ReportsInOrder(reports, EventReport(evs[0], step.updated), rest, evs);
    }
  }

  /** One report for the first event followed by one per later event, in order. */
  lemma ReportsInOrder(reports: seq<FdkIdAndUri>, head: seq<FdkIdAndUri>, rest: seq<FdkIdAndUri>, evs: seq<EventRdfModel>)
    requires evs != [] && reports == head + rest
    requires |head| == 1 && head[0].uri == evs[0].eventUri
    requires |rest| == |evs| - 1 && forall i | 0 <= i < |rest| :: rest[i].uri == evs[1..][i].eventUri
    ensures |reports| == |evs| && forall i | 0 <= i < |evs| :: reports[i].uri == evs[i].eventUri
  {
    assert forall i | 1 <= i < |evs| :: reports[i] == rest[i - 1] && evs[i] == evs[1..][i - 1];
  }

  /** A forced update reports its event. */
  lemma ForcedStepReports(st: EventStores, ev: EventRdfModel, date: int, env: Env)
    ensures var r := EventReport(ev, EventUpdate(st, ev, date, true, env).updated); |r| == 1 && r[0].uri == ev.eventUri
  {
  }

  /** Each report names a harvested event. */
  lemma {:induction false} ReportsAreHarvested(st: EventStores, evs: seq<EventRdfModel>, date: int, force: bool, env: Env)
    ensures forall x | x in UpdateEventsSpec(st, evs, date, force, env).reports :: exists ev | ev in evs :: ev.eventUri == x.uri
    decreases |evs|
  {
    if evs != [] {
      ReportsAreHarvested(EventUpdate(st, evs[0], date, force, env).st, evs[1..], date, force, env);
      assert forall ev | ev in evs[1..] :: ev in evs;
    }
  }

  /** `updateDBOs` on the stores. */
  method UpdateDbos(repo: Repositories, ev: EventRdfModel, date: int, force: bool, env: Env)
    returns (updated: Option<EventMeta>)
    modifies repo
    ensures EventUpdate(old(EventStores(repo.eventMeta, repo.eventGraphs)), ev, date, force, env)
      == EventStep(EventStores(repo.eventMeta, repo.eventGraphs), updated)
    ensures repo.OnlyEventsChanged()
  {
    var db := Get(repo.eventMeta, ev.eventUri);
    if db.None? || db.value.removed || HarvestDiff(ev.harvested, Get(repo.eventGraphs, db.value.fdkId), env.iso) {
      var m := EventMetaFor(ev.eventUri, date, db, env.makeId);
      repo.eventMeta := repo.eventMeta[ev.eventUri := m];
      repo.eventGraphs := repo.eventGraphs[m.fdkId := ev.harvested];
      updated := Some(m);
    } else if force {
      repo.eventGraphs := repo.eventGraphs[db.value.fdkId := ev.harvested];
      updated := db;
    } else {
      updated := None;
    }
  }

  /** `updateEvents`. */
  method UpdateEvents(repo: Repositories, evs: seq<EventRdfModel>, date: int, force: bool, env: Env)
    returns (reports: seq<FdkIdAndUri>)
    modifies repo
    ensures UpdateEventsSpec(old(EventStores(repo.eventMeta, repo.eventGraphs)), evs, date, force, env)
      == EventsResult(EventStores(repo.eventMeta, repo.eventGraphs), reports)
    ensures repo.OnlyEventsChanged()
  {
    ghost var fin := UpdateEventsSpec(EventStores(repo.eventMeta, repo.eventGraphs), evs, date, force, env);
    reports := [];
    var i := 0;
    while i < |evs|
      invariant 0 <= i <= |evs|
      invariant EventsBetween(fin, EventStores(repo.eventMeta, repo.eventGraphs), evs[i..], date, force, env, reports)
      invariant repo.OnlyEventsChanged()
      decreases |evs| - i
    {
      ghost var before := EventStores(repo.eventMeta, repo.eventGraphs);
      var updated := UpdateDbos(repo, evs[i], date, force, env);
      EventsAdvance(fin, before, EventStores(repo.eventMeta, repo.eventGraphs), evs[i..], evs[i + 1..], date, force, env, reports, updated);
      reports := reports + EventReport(evs[i], updated);
      i := i + 1;
    }
  }

  /** The loop of `updateEvents` part-way: what is left to do yields the
      final stores and the rest of the reports. */
  ghost predicate EventsBetween(fin: EventsResult, cur: EventStores, todo: seq<EventRdfModel>, date: int, force: bool, env: Env,
                                reports: seq<FdkIdAndUri>) {
    var rest := UpdateEventsSpec(cur, todo, date, force, env);
    fin.st == rest.st && fin.reports == reports + rest.reports
  }

  lemma EventsAdvance(fin: EventsResult, before: EventStores, after: EventStores, todo: seq<EventRdfModel>, more: seq<EventRdfModel>,
                      date: int, force: bool, env: Env, reports: seq<FdkIdAndUri>, updated: Option<EventMeta>)
    requires todo != [] && more == todo[1..]
    requires EventsBetween(fin, before, todo, date, force, env, reports)
    requires EventUpdate(before, todo[0], date, force, env) == EventStep(after, updated)
    ensures EventsBetween(fin, after, more, date, force, env, reports + EventReport(todo[0], updated))
  {
  }

  // ---------------------------------------------------------------- catalogs

  /** `catalogFdkUri`: the FDK URI of a catalog, which event rows point to. */
  function CatalogFdkUri(eventsUri: string, fdkId: string): string {
    eventsUri + "/catalogs/" + fdkId
  }

  /** Catalogs with different ids have different FDK URIs. */
  lemma CatalogFdkUriInjective(eventsUri: string, a: string, b: string)
    ensures CatalogFdkUri(eventsUri, a) == CatalogFdkUri(eventsUri, b) ==> a == b
  {
    var n := |eventsUri + "/catalogs/"|;
    assert CatalogFdkUri(eventsUri, a)[n..] == a && CatalogFdkUri(eventsUri, b)[n..] == b;
  }

  /** `mapToMetaDBO` for a catalog: the stored identity and issue date are
      kept, an unseen catalog gets a fresh id, and the listed events are
      those of this harvest. */
  function CatalogMetaFor(ct: CatalogRdfModel, date: int, db: Option<CatalogMeta>, makeId: string -> string): (m: CatalogMeta)
    ensures m.uri == ct.resourceUri && m.modified == date && m.events == ct.events
    ensures db.Some? ==> m.fdkId == db.value.fdkId && m.issued == db.value.issued
    ensures db.None? ==> m.fdkId == makeId(ct.resourceUri) && m.issued == date
  {
    match db
    case None => CatalogMeta(ct.resourceUri, makeId(ct.resourceUri), date, date, ct.events)
    case Some(d) => CatalogMeta(ct.resourceUri, d.fdkId, d.issued, date, ct.events)
  }

  /** `CatalogRDFModel.hasChanges`: an unseen catalog, or a stored graph
      that the catalog with its events differs from. */
  predicate CatalogHasChanges(ct: CatalogRdfModel, db: Option<CatalogMeta>, graphs: map<string, Graph>, iso: (Graph, Graph) -> bool) {
    db.None? || HarvestDiff(ct.harvested, Get(graphs, db.value.fdkId), iso)
  }

  /** A catalog to save, with the meta row stored for it before the phase. */
  datatype PlannedCatalog = PlannedCatalog(ct: CatalogRdfModel, db: Option<CatalogMeta>)

  /** The lookup and the filter of `updateCatalogs`. Both run over all the
      catalogs before the first is saved, so they see the stores as they
      were when the phase started. */
  function CatalogsToUpdate(metas: map<string, CatalogMeta>, graphs: map<string, Graph>, cats: seq<CatalogRdfModel>,
                            force: bool, iso: (Graph, Graph) -> bool): (r: seq<PlannedCatalog>)
    ensures forall p :: p in r <==> exists ct | ct in cats ::
      p == PlannedCatalog(ct, Get(metas, ct.resourceUri)) && (force || CatalogHasChanges(ct, p.db, graphs, iso))
    ensures force ==> |r| == |cats|
    ensures |r| <= |cats|
  {
    if cats == [] then []
    else
      var p := PlannedCatalog(cats[0], Get(metas, cats[0].resourceUri));
      var rest := CatalogsToUpdate(metas, graphs, cats[1..], force, iso);
      assert forall ct | ct in cats :: ct == cats[0] || ct in cats[1..];
      if force || CatalogHasChanges(cats[0], p.db, graphs, iso) then [p] + rest else rest
  }

  /** The stores the catalog phase touches. */
  datatype CatalogStores = CatalogStores(metas: map<string, CatalogMeta>, graphs: map<string, Graph>, events: map<string, EventMeta>)

  /** `addIsPartOfToEvents` for every listed event: each listed event's
      row now points to catalog `c`; other rows, and events without a row,
      are left alone. */
  function WithIsPartOf(events: map<string, EventMeta>, listed: set<string>, c: string): map<string, EventMeta> {
    map u | u in events :: if u in listed then events[u].(isPartOf := Some(c)) else events[u]
  }

  /** Saving one planned catalog: its meta row, its graph, and its events' catalog. */
  function CatalogUpdate(st: CatalogStores, p: PlannedCatalog, date: int, env: Env): CatalogStores {
    var m := CatalogMetaFor(p.ct, date, p.db, env.makeId);
    CatalogStores(st.metas[m.uri := m], st.graphs[m.fdkId := p.ct.harvested],
                  WithIsPartOf(st.events, p.ct.events, CatalogFdkUri(env.eventsUri, m.fdkId)))
  }

  /** The saves of `updateCatalogs`, one planned catalog after the other. */
  function ApplyCatalogs(st: CatalogStores, plan: seq<PlannedCatalog>, date: int, env: Env): CatalogStores
    decreases |plan|
  {
    if plan == [] then st else ApplyCatalogs(CatalogUpdate(st, plan[0], date, env), plan[1..], date, env)
  }

  /** What `updateCatalogs` reports: the id and URI of each saved catalog. */
  function CatalogReports(plan: seq<PlannedCatalog>, date: int, env: Env): (r: seq<FdkIdAndUri>)
    ensures |r| == |plan|
    ensures forall i | 0 <= i < |plan| :: r[i] == FdkIdAndUri(CatalogMetaFor(plan[i].ct, date, plan[i].db, env.makeId).fdkId, plan[i].ct.resourceUri)
    decreases |plan|
  {
    if plan == [] then []
    else
      var head := FdkIdAndUri(CatalogMetaFor(plan[0].ct, date, plan[0].db, env.makeId).fdkId, plan[0].ct.resourceUri);
      [head] + CatalogReports(plan[1..], date, env)
  }

  /** The catalog phase changes nothing of an event row but its catalog,
      and adds no row. */
  lemma {:induction false} CatalogPhaseKeepsEvents(st: CatalogStores, plan: seq<PlannedCatalog>, date: int, env: Env)
    ensures var r := ApplyCatalogs(st, plan, date, env).events;
      r.Keys == st.events.Keys && forall u | u in r :: r[u] == st.events[u].(isPartOf := r[u].isPartOf)
    decreases |plan|
  {
    if plan != [] {
      CatalogPhaseKeepsEvents(CatalogUpdate(st, plan[0], date, env), plan[1..], date, env);
    }
  }

  /** An event row listed by a saved catalog ends up pointing to one that
      lists it; a row no saved catalog lists keeps its catalog. */
  lemma {:induction false} CatalogPhaseMembership(st: CatalogStores, plan: seq<PlannedCatalog>, date: int, env: Env, u: string)
    requires u in st.events
    ensures var r := ApplyCatalogs(st, plan, date, env).events; u in r
    ensures var r := ApplyCatalogs(st, plan, date, env).events;
      (forall i | 0 <= i < |plan| :: u !in plan[i].ct.events) ==> r[u].isPartOf == st.events[u].isPartOf
    ensures var r := ApplyCatalogs(st, plan, date, env).events;
      (exists i | 0 <= i < |plan| :: u in plan[i].ct.events) ==>
        exists i | 0 <= i < |plan| :: u in plan[i].ct.events && r[u].isPartOf == Some(CatalogFdkUri(env.eventsUri, CatalogReports(plan, date, env)[i].fdkId))
    decreases |plan|
  {
    if plan != [] {
      var next := CatalogUpdate(st, plan[0], date, env);
      var rest := plan[1..];
      CatalogPhaseMembership(next, rest, date, env, u);
      var r := ApplyCatalogs(st, plan, date, env).events;
      assert r == ApplyCatalogs(next, rest, date, env).events;
      var reps := CatalogReports(plan, date, env);
      var restReps := CatalogReports(rest, date, env);
      if exists j | 0 <= j < |rest| :: u in rest[j].ct.events {
        var j :| 0 <= j < |rest| && u in rest[j].ct.events
          && r[u].isPartOf == Some(CatalogFdkUri(env.eventsUri, restReps[j].fdkId));
        assert plan[j + 1] == rest[j];
        assert reps[j + 1] == restReps[j];
      } else {
        assert forall i | 1 <= i < |plan| :: plan[i] == rest[i - 1];
        assert r[u].isPartOf == next.events[u].isPartOf;
      }
    }
  }

  /** A catalog stored before keeps its fdkId and issue date. */
  lemma {:induction false} CatalogPhaseKeepsIdentity(st: CatalogStores, plan: seq<PlannedCatalog>, date: int, env: Env, u: string)
    requires u in st.metas
    requires forall i | 0 <= i < |plan| && plan[i].ct.resourceUri == u ::
      plan[i].db.Some? && plan[i].db.value.fdkId == st.metas[u].fdkId && plan[i].db.value.issued == st.metas[u].issued
    ensures var r := ApplyCatalogs(st, plan, date, env).metas;
      u in r && r[u].fdkId == st.metas[u].fdkId && r[u].issued == st.metas[u].issued
    decreases |plan|
  {
    if plan != [] {
      var next := CatalogUpdate(st, plan[0], date, env);
      assert forall i | 1 <= i < |plan| :: plan[1..][i - 1] == plan[i];
      CatalogPhaseKeepsIdentity(next, plan[1..], date, env, u);
    }
  }

  /** `addIsPartOfToEvents` for each listed event, in some order; a row is
      saved only when its catalog differs. */
  method AddIsPartOfToEvents(repo: Repositories, listed: set<string>, c: string)
    requires repo.Valid()
    modifies repo
    ensures repo.eventMeta == WithIsPartOf(old(repo.eventMeta), listed, c)
    ensures repo.Valid() && repo.eventGraphs == old(repo.eventGraphs) && repo.OnlyEventsChanged()
  {
    var todo := listed;
    while todo != {}
      invariant todo <= listed
      invariant repo.eventMeta == WithIsPartOf(old(repo.eventMeta), listed - todo, c)
      invariant repo.eventGraphs == old(repo.eventGraphs) && repo.OnlyEventsChanged()
      decreases todo
    {
      var u :| u in todo;
      var row := Get(repo.eventMeta, u);
      if row.Some? && row.value.isPartOf != Some(c) {
        repo.eventMeta := repo.eventMeta[row.value.uri := row.value.(isPartOf := Some(c))];
      }
      todo := todo - {u};
    }
  }

  /** `updateCatalogs`: the catalogs to save are chosen first, on the stores
      as they were, then saved one after the other. */
  method UpdateCatalogs(repo: Repositories, cats: seq<CatalogRdfModel>, date: int, force: bool, env: Env)
    returns (reports: seq<FdkIdAndUri>)
    requires repo.Valid()
    modifies repo
    ensures var plan := CatalogsToUpdate(old(repo.catalogMeta), old(repo.catalogGraphs), cats, force, env.iso);
      && CatalogStores(repo.catalogMeta, repo.catalogGraphs, repo.eventMeta)
           == ApplyCatalogs(old(CatalogStores(repo.catalogMeta, repo.catalogGraphs, repo.eventMeta)), plan, date, env)
      && reports == CatalogReports(plan, date, env)
    ensures repo.Valid() && repo.OnlyMetaAndCatalogsChanged()
  {
    var plan := CatalogsToUpdate(repo.catalogMeta, repo.catalogGraphs, cats, force, env.iso);
    reports := SavePlan(repo, plan, date, env);
  }

  /** The saving loop of `updateCatalogs`: the planned catalogs in order. */
  method SavePlan(repo: Repositories, plan: seq<PlannedCatalog>, date: int, env: Env) returns (reports: seq<FdkIdAndUri>)
    requires repo.Valid()
    modifies repo
    ensures CatalogStores(repo.catalogMeta, repo.catalogGraphs, repo.eventMeta)
      == ApplyCatalogs(old(CatalogStores(repo.catalogMeta, repo.catalogGraphs, repo.eventMeta)), plan, date, env)
    ensures reports == CatalogReports(plan, date, env)
    ensures repo.Valid() && repo.OnlyMetaAndCatalogsChanged()
  {
    ghost var fin := ApplyCatalogs(CatalogStores(repo.catalogMeta, repo.catalogGraphs, repo.eventMeta), plan, date, env);
    reports := [];
    var i := 0;
    while i < |plan|
      invariant 0 <= i <= |plan|
      invariant CatalogsBetween(fin, CatalogStores(repo.catalogMeta, repo.catalogGraphs, repo.eventMeta), plan, i, date, env, reports)
      invariant repo.Valid() && repo.OnlyMetaAndCatalogsChanged()
      decreases |plan| - i
    {
      ghost var before := CatalogStores(repo.catalogMeta, repo.catalogGraphs, repo.eventMeta);
      var saved := SaveCatalog(repo, plan[i], date, env);
      CatalogsAdvance(fin, before, CatalogStores(repo.catalogMeta, repo.catalogGraphs, repo.eventMeta), plan, i, date, env, reports);
      reports := reports + [saved];
      i := i + 1;
    }
    assert plan[i..] == [];
    assert CatalogReports(plan, date, env)[..i] == CatalogReports(plan, date, env);
  }

  /** The body of `updateCatalogs`' last `map`: one planned catalog saved. */
  method SaveCatalog(repo: Repositories, p: PlannedCatalog, date: int, env: Env) returns (saved: FdkIdAndUri)
    requires repo.Valid()
    modifies repo
    ensures CatalogStores(repo.catalogMeta, repo.catalogGraphs, repo.eventMeta)
      == CatalogUpdate(old(CatalogStores(repo.catalogMeta, repo.catalogGraphs, repo.eventMeta)), p, date, env)
    ensures var m := CatalogMetaFor(p.ct, date, p.db, env.makeId); saved == FdkIdAndUri(m.fdkId, m.uri)
    ensures repo.Valid() && repo.OnlyMetaAndCatalogsChanged()
  {
    var m := CatalogMetaFor(p.ct, date, p.db, env.makeId);
    repo.catalogMeta := repo.catalogMeta[m.uri := m];
    repo.catalogGraphs := repo.catalogGraphs[m.fdkId := p.ct.harvested];
    AddIsPartOfToEvents(repo, p.ct.events, CatalogFdkUri(env.eventsUri, m.fdkId));
    saved := FdkIdAndUri(m.fdkId, m.uri);
  }

  /** The loop of `updateCatalogs` part-way. */
  ghost predicate CatalogsBetween(fin: CatalogStores, cur: CatalogStores, plan: seq<PlannedCatalog>, i: int, date: int, env: Env,
                                  reports: seq<FdkIdAndUri>) {
    0 <= i <= |plan| && ApplyCatalogs(cur, plan[i..], date, env) == fin && reports == CatalogReports(plan, date, env)[..i]
  }

  lemma CatalogsAdvance(fin: CatalogStores, before: CatalogStores, after: CatalogStores, plan: seq<PlannedCatalog>, i: int,
                        date: int, env: Env, reports: seq<FdkIdAndUri>)
    requires CatalogsBetween(fin, before, plan, i, date, env, reports) && i < |plan|
    requires after == CatalogUpdate(before, plan[i], date, env)
    ensures var m := CatalogMetaFor(plan[i].ct, date, plan[i].db, env.makeId);
      CatalogsBetween(fin, after, plan, i + 1, date, env, reports + [FdkIdAndUri(m.fdkId, m.uri)])
  {
    assert plan[i..][1..] == plan[i + 1..];
    var all := CatalogReports(plan, date, env);
    assert all[..i + 1] == all[..i] + [all[i]];
  }

  // ----------------------------------------------------------------- removal

  /** The filter of `getEventsRemovedThisHarvest`: a live row that points to
      one of the catalogs saved this harvest and whose event was not harvested. */
  predicate RemovedNow(m: EventMeta, catalogs: seq<string>, harvested: seq<string>) {
    m.isPartOf.Some? && m.isPartOf.value in catalogs && !m.removed && m.uri !in harvested
  }

  /** `filter { !it.removed && !events.contains(it.uri) }`. */
  function LiveAndNotHarvested(rows: seq<EventMeta>, harvested: seq<string>): (r: seq<EventMeta>)
    ensures forall m :: m in r <==> m in rows && !m.removed && m.uri !in harvested
  {
    if rows == [] then []
    else if !rows[0].removed && rows[0].uri !in harvested then [rows[0]] + LiveAndNotHarvested(rows[1..], harvested)
    else LiveAndNotHarvested(rows[1..], harvested)
  }

  /** `getEventsRemovedThisHarvest`: the rows of every saved catalog, filtered. */
  method GetEventsRemovedThisHarvest(repo: Repositories, catalogs: seq<string>, harvested: seq<string>)
    returns (rows: seq<EventMeta>)
    ensures forall m :: m in rows <==> m in repo.eventMeta.Values && RemovedNow(m, catalogs, harvested)
  {
    var all: seq<EventMeta> := [];
    for i := 0 to |catalogs|
      invariant forall m :: m in all <==> m in repo.eventMeta.Values && m.isPartOf.Some? && m.isPartOf.value in catalogs[..i]
    {
      var found := repo.FindAllByIsPartOf(catalogs[i]);
      assert catalogs[..i + 1] == catalogs[..i] + [catalogs[i]];
      all := all + found;
    }
    assert catalogs[..|catalogs|] == catalogs;
    rows := LiveAndNotHarvested(all, harvested);
  }

  /** Saving the flagged rows the filter found flags exactly the rows it describes. */
  lemma RemovalFlags(metas: map<string, EventMeta>, rows: seq<EventMeta>, catalogs: seq<string>, harvested: seq<string>)
    requires KeyedByUri(metas)
    requires forall m :: m in rows <==> m in metas.Values && RemovedNow(m, catalogs, harvested)
    ensures SaveAll(metas, Flagged(rows)) == MarkRemoved(metas, set u | u in metas && RemovedNow(metas[u], catalogs, harvested))
  {
    forall i | 0 <= i < |rows| ensures rows[i].uri in metas && metas[rows[i].uri] == rows[i] {
      assert rows[i] in rows;
    }
    SaveFlagged(metas, rows);
    var a := set m | m in rows :: m.uri;
    var b := set u | u in metas && RemovedNow(metas[u], catalogs, harvested);
    forall u | u in b ensures u in a {
      assert metas[u] in metas.Values;
      assert metas[u] in rows;
    }
    forall u | u in a ensures u in b {
      var m :| m in rows && m.uri == u;
      assert m in metas.Values;
    }
    assert a == b;
  }

  /** The event phase leaves the rows of events it does not harvest alone. */
  lemma {:induction false} EventPhaseUntouched(st: EventStores, evs: seq<EventRdfModel>, date: int, force: bool, env: Env, u: string)
    requires forall ev | ev in evs :: ev.eventUri != u
    ensures var r := UpdateEventsSpec(st, evs, date, force, env).st.metas;
      (u in r <==> u in st.metas) && (u in st.metas ==> r[u] == st.metas[u])
    decreases |evs|
  {
    if evs != [] {
      assert forall ev | ev in evs[1..] :: ev in evs;
      EventPhaseUntouched(EventUpdate(st, evs[0], date, force, env).st, evs[1..], date, force, env, u);
    }
  }

  // ---------------------------------------------------------------- updateDB

  /** `allEvents.map { it.eventURI }`. */
  function EventUriList(evs: seq<EventRdfModel>): (r: seq<string>)
    ensures forall u :: u in r <==> exists ev | ev in evs :: ev.eventUri == u
  {
    if evs == [] then []
    else
      assert forall ev | ev in evs :: ev == evs[0] || ev in evs[1..];
      [evs[0].eventUri] + EventUriList(evs[1..])
  }

  /** `updatedCatalogs.map { catalogFdkUri(it.fdkId) }`. */
  function CatalogUriList(eventsUri: string, cs: seq<FdkIdAndUri>): (r: seq<string>)
    ensures forall u :: u in r <==> exists c | c in cs :: u == CatalogFdkUri(eventsUri, c.fdkId)
  {
    if cs == [] then []
    else
      assert forall c | c in cs :: c == cs[0] || c in cs[1..];
      [CatalogFdkUri(eventsUri, cs[0].fdkId)] + CatalogUriList(eventsUri, cs[1..])
  }

  /** `removedEvents.map { FdkIdAndUri(it.fdkId, it.uri) }`. */
  function IdsOf(rows: seq<EventMeta>): (r: seq<FdkIdAndUri>)
    ensures forall x :: x in r <==> exists m | m in rows :: x == FdkIdAndUri(m.fdkId, m.uri)
  {
    if rows == [] then []
    else
      assert forall m | m in rows :: m == rows[0] || m in rows[1..];
      [FdkIdAndUri(rows[0].fdkId, rows[0].uri)] + IdsOf(rows[1..])
  }

  /** Every event resource of the harvested graph has a live row. */
  ghost predicate LiveEvents(after: map<string, EventMeta>, harvested: Graph) {
    forall x: Node | x.IRI? && IsEventTyped(harvested, x) :: x.iri in after && !after[x.iri].removed
  }

  /** A row flagged removed by this harvest was stored before and is reported as removed. */
  ghost predicate RemovalsReported(before: map<string, EventMeta>, after: map<string, EventMeta>, report: HarvestReport) {
    forall u | u in after && after[u].removed && !(u in before && before[u].removed) ::
      u in before && exists r | r in report.removedResources :: r.uri == u
  }

  /** A reported removal was a live stored row, is now flagged, keeps its
      id, names no event of the harvested graph and points to a catalog
      saved by this harvest. */
  ghost predicate RemovalsJustified(before: map<string, EventMeta>, after: map<string, EventMeta>, harvested: Graph,
                                    report: HarvestReport, eventsUri: string) {
    forall r | r in report.removedResources ::
      && r.uri in before && !before[r.uri].removed
      && r.uri in after && after[r.uri].removed && after[r.uri].fdkId == r.fdkId
      && !IsEventTyped(harvested, IRI(r.uri))
      && exists c | c in report.changedCatalogs :: after[r.uri].isPartOf == Some(CatalogFdkUri(eventsUri, c.fdkId))
  }

  /** Every row that points to a catalog saved by this harvest and names no
      event of the harvested graph is flagged removed. */
  ghost predicate RemovalsComplete(after: map<string, EventMeta>, harvested: Graph, report: HarvestReport, eventsUri: string) {
    forall u | u in after && after[u].isPartOf.Some? && after[u].isPartOf.value in CatalogUriList(eventsUri, report.changedCatalogs)
               && !IsEventTyped(harvested, IRI(u)) ::
      after[u].removed
  }

  /** What `updateDB` guarantees about the event rows. */
  ghost predicate Reconciled(before: map<string, EventMeta>, after: map<string, EventMeta>, harvested: Graph,
                             report: HarvestReport, date: int, env: Env) {
    && LiveEvents(after, harvested)
    && IdentityKept(before, after, date, env.makeId)
    && RemovalsReported(before, after, report)
    && RemovalsJustified(before, after, harvested, report, env.eventsUri)
    && RemovalsComplete(after, harvested, report, env.eventsUri)
    && (forall r | r in report.changedResources :: IsEventTyped(harvested, IRI(r.uri)))
  }

  /** `evs` holds the models of the event resources of the harvested graph:
      one per IRI-named entry of a listing of its event classes. */
  ghost predicate SplitOf(harvested: Graph, evs: seq<EventRdfModel>) {
    && (forall i | 0 <= i < |evs| :: IsEventTyped(harvested, IRI(evs[i].eventUri)) && EventModelOf(harvested, evs[i]))
    && (forall x: Node | x.IRI? && IsEventTyped(harvested, x) :: exists i | 0 <= i < |evs| :: evs[i].eventUri == x.iri)
    && exists rs :: ListedByEventType(harvested, rs) && ModelsInOrder(rs, evs)
  }

  /** The blank nodes of some event or catalog of the graph cannot all be skolemised. */
  ghost predicate SkolemCycle(g: Graph) {
    || (exists x: Node, m: Graph :: x.IRI? && IsEventTyped(g, x) && EventPull(g, x, m) && !BlankAcyclic(m))
    || (exists c: Node, m: Graph :: c.IRI? && HasType(g, c, DCAT_CATALOG) && CatalogPull(g, c, m) && !BlankAcyclic(m))
  }

  /** The event phase as the proofs below see it (`hs` the harvested URIs). */
  ghost predicate EventsPhase(before: map<string, EventMeta>, mid: map<string, EventMeta>, hs: seq<string>, date: int, env: Env) {
    && KeyedByUri(mid)
    && IdentityKept(before, mid, date, env.makeId)
    && (forall u | u in before && u !in hs :: mid[u] == before[u])
    && (forall u | u in mid && u !in before :: u in hs)
    && (forall u | u in hs :: u in mid && !mid[u].removed)
  }

  /** The catalog phase as the proofs below see it. */
  ghost predicate CatalogsPhase(mid: map<string, EventMeta>, mid2: map<string, EventMeta>) {
    mid2.Keys == mid.Keys && forall u | u in mid2 :: mid2[u] == mid[u].(isPartOf := mid2[u].isPartOf)
  }

  /** The rows the removal flags. */
  function RemovedSet(mid2: map<string, EventMeta>, cs: seq<string>, hs: seq<string>): set<string> {
    set u | u in mid2 && RemovedNow(mid2[u], cs, hs)
  }

  ghost predicate RemovalPhase(mid2: map<string, EventMeta>, rows: seq<EventMeta>, after: map<string, EventMeta>,
                               cs: seq<string>, hs: seq<string>) {
    && KeyedByUri(mid2)
    && (forall m :: m in rows <==> m in mid2.Values && RemovedNow(m, cs, hs))
    && after == MarkRemoved(mid2, RemovedSet(mid2, cs, hs))
  }

  /** A harvested resource name is an event of the harvested graph, and the other way round. */
  lemma HarvestedUris(harvested: Graph, evs: seq<EventRdfModel>, u: string)
    requires SplitOf(harvested, evs)
    ensures u in EventUriList(evs) <==> IsEventTyped(harvested, IRI(u))
  {
    if u in EventUriList(evs) {
      var ev :| ev in evs && ev.eventUri == u;
      var i :| 0 <= i < |evs| && evs[i] == ev;
    }
    if IsEventTyped(harvested, IRI(u)) {
      var i :| 0 <= i < |evs| && evs[i].eventUri == u;
      assert evs[i] in evs;
    }
  }

  lemma PhasesComplete(mid2: map<string, EventMeta>, rows: seq<EventMeta>, after: map<string, EventMeta>,
                       cs: seq<string>, hs: seq<string>)
    requires RemovalPhase(mid2, rows, after, cs, hs)
    ensures forall u | u in after && after[u].isPartOf.Some? && after[u].isPartOf.value in cs && u !in hs :: after[u].removed
  {
    forall u | u in after && after[u].isPartOf.Some? && after[u].isPartOf.value in cs && u !in hs
      ensures after[u].removed
    {
      if u !in RemovedSet(mid2, cs, hs) {
        assert after[u] == mid2[u] && mid2[u].uri == u;
      }
    }
  }

  lemma PhasesLive(before: map<string, EventMeta>, mid: map<string, EventMeta>, mid2: map<string, EventMeta>,
                   rows: seq<EventMeta>, after: map<string, EventMeta>, cs: seq<string>, hs: seq<string>, date: int, env: Env)
    requires EventsPhase(before, mid, hs, date, env) && CatalogsPhase(mid, mid2) && RemovalPhase(mid2, rows, after, cs, hs)
    ensures forall u | u in hs :: u in after && !after[u].removed
  {
  }

  lemma PhasesIdentity(before: map<string, EventMeta>, mid: map<string, EventMeta>, mid2: map<string, EventMeta>,
                       rows: seq<EventMeta>, after: map<string, EventMeta>, cs: seq<string>, hs: seq<string>, date: int, env: Env)
    requires EventsPhase(before, mid, hs, date, env) && CatalogsPhase(mid, mid2) && RemovalPhase(mid2, rows, after, cs, hs)
    ensures IdentityKept(before, after, date, env.makeId)
  {
    assert forall u | u in after :: after[u].fdkId == mid[u].fdkId && after[u].issued == mid[u].issued;
  }

  lemma PhasesReported(before: map<string, EventMeta>, mid: map<string, EventMeta>, mid2: map<string, EventMeta>,
                       rows: seq<EventMeta>, after: map<string, EventMeta>, cs: seq<string>, hs: seq<string>, date: int, env: Env)
    requires EventsPhase(before, mid, hs, date, env) && CatalogsPhase(mid, mid2) && RemovalPhase(mid2, rows, after, cs, hs)
    ensures forall u | u in after && after[u].removed && !(u in before && before[u].removed) ::
      u in before && exists m | m in rows :: FdkIdAndUri(m.fdkId, m.uri).uri == u
  {
    forall u | u in after && after[u].removed && !(u in before && before[u].removed)
      ensures u in before && exists m | m in rows :: FdkIdAndUri(m.fdkId, m.uri).uri == u
    {
      assert u in RemovedSet(mid2, cs, hs);
      assert mid2[u] in mid2.Values;
    }
  }

  lemma PhasesJustified(before: map<string, EventMeta>, mid: map<string, EventMeta>, mid2: map<string, EventMeta>,
                        rows: seq<EventMeta>, after: map<string, EventMeta>, cs: seq<string>, hs: seq<string>, date: int, env: Env)
    requires EventsPhase(before, mid, hs, date, env) && CatalogsPhase(mid, mid2) && RemovalPhase(mid2, rows, after, cs, hs)
    ensures forall m | m in rows ::
      && m.uri in before && !before[m.uri].removed && m.uri !in hs
      && m.uri in after && after[m.uri].removed && after[m.uri].fdkId == m.fdkId
      && after[m.uri].isPartOf.Some? && after[m.uri].isPartOf.value in cs
  {
    forall m | m in rows
      ensures && m.uri in before && !before[m.uri].removed && m.uri !in hs
              && m.uri in after && after[m.uri].removed && after[m.uri].fdkId == m.fdkId
              && after[m.uri].isPartOf.Some? && after[m.uri].isPartOf.value in cs
    {
      var u :| u in mid2 && mid2[u] == m;
      assert u in RemovedSet(mid2, cs, hs);
    }
  }

  /** The phases of `updateDB` together yield its guarantees. */
  lemma PhasesReconciled(before: map<string, EventMeta>, mid: map<string, EventMeta>, mid2: map<string, EventMeta>,
                         rows: seq<EventMeta>, after: map<string, EventMeta>, harvested: Graph, evs: seq<EventRdfModel>,
                         report: HarvestReport, date: int, env: Env)
    requires SplitOf(harvested, evs)
    requires EventsPhase(before, mid, EventUriList(evs), date, env) && CatalogsPhase(mid, mid2)
    requires RemovalPhase(mid2, rows, after, CatalogUriList(env.eventsUri, report.changedCatalogs), EventUriList(evs))
    requires report.removedResources == IdsOf(rows)
    requires forall r | r in report.changedResources :: r.uri in EventUriList(evs)
    ensures Reconciled(before, after, harvested, report, date, env)
  {
    var cs := CatalogUriList(env.eventsUri, report.changedCatalogs);
    var hs := EventUriList(evs);
    assert LiveEvents(after, harvested) by {
      PhasesLive(before, mid, mid2, rows, after, cs, hs, date, env);
      forall x: Node | x.IRI? && IsEventTyped(harvested, x) ensures x.iri in after && !after[x.iri].removed {
        HarvestedUris(harvested, evs, x.iri);
      }
    }
    assert IdentityKept(before, after, date, env.makeId) by {
      PhasesIdentity(before, mid, mid2, rows, after, cs, hs, date, env);
    }
    assert RemovalsReported(before, after, report) by {
      PhasesReported(before, mid, mid2, rows, after, cs, hs, date, env);
    }
    assert RemovalsJustified(before, after, harvested, report, env.eventsUri) by {
      PhasesJustified(before, mid, mid2, rows, after, cs, hs, date, env);
      RemovedOutside(rows, after, harvested, evs, report, env.eventsUri);
    }
    assert RemovalsComplete(after, harvested, report, env.eventsUri) by {
      PhasesComplete(mid2, rows, after, cs, hs);
      forall u | u in after ensures !IsEventTyped(harvested, IRI(u)) ==> u !in hs {
        HarvestedUris(harvested, evs, u);
      }
    }
    forall r | r in report.changedResources ensures IsEventTyped(harvested, IRI(r.uri)) {
      HarvestedUris(harvested, evs, r.uri);
    }
  }

  /** A removed row names no harvested event and points to a changed catalog. */
  lemma RemovedOutside(rows: seq<EventMeta>, after: map<string, EventMeta>, harvested: Graph, evs: seq<EventRdfModel>,
                       report: HarvestReport, eventsUri: string)
    requires SplitOf(harvested, evs)
    requires report.removedResources == IdsOf(rows)
    requires forall m | m in rows ::
      && m.uri !in EventUriList(evs) && m.uri in after
      && after[m.uri].isPartOf.Some? && after[m.uri].isPartOf.value in CatalogUriList(eventsUri, report.changedCatalogs)
    ensures forall r | r in report.removedResources ::
      && !IsEventTyped(harvested, IRI(r.uri)) && r.uri in after
      && exists c | c in report.changedCatalogs :: after[r.uri].isPartOf == Some(CatalogFdkUri(eventsUri, c.fdkId))
  {
    forall r | r in report.removedResources
      ensures !IsEventTyped(harvested, IRI(r.uri)) && r.uri in after
      ensures exists c | c in report.changedCatalogs :: after[r.uri].isPartOf == Some(CatalogFdkUri(eventsUri, c.fdkId))
    {
      var m :| m in rows && r == FdkIdAndUri(m.fdkId, m.uri);
      HarvestedUris(harvested, evs, r.uri);
    }
  }

  /** The event phase in the form the proofs above use. */
  lemma EventPhaseFacts(st: EventStores, evs: seq<EventRdfModel>, date: int, force: bool, env: Env)
    requires KeyedByUri(st.metas)
    ensures EventsPhase(st.metas, UpdateEventsSpec(st, evs, date, force, env).st.metas, EventUriList(evs), date, env)
  {
    var mid := UpdateEventsSpec(st, evs, date, force, env).st.metas;
    var hs := EventUriList(evs);
    EventPhaseKeys(st, evs, date, force, env);
    EventPhaseKeepsIdentity(st, evs, date, force, env);
    HarvestedEventsLive(st, evs, date, force, env);
    forall u | u in st.metas && u !in hs ensures mid[u] == st.metas[u] {
      EventPhaseUntouched(st, evs, date, force, env, u);
    }
    forall u | u in hs ensures u in mid && !mid[u].removed {
      var ev :| ev in evs && ev.eventUri == u;
    }
  }

  /** A successful harvest's report: no error, no message, and the source's identity. */
  predicate Succeeded(report: HarvestReport, id: string, url: string, date: int) {
    report.id == id && report.url == url && !report.harvestError && report.errorMessage.None? && report.startTime == date
  }

  /** `updateEvents`, with what the proofs of `updateDB` use of it. */
  method EventPhase(repo: Repositories, evs: seq<EventRdfModel>, date: int, force: bool, env: Env)
    returns (updatedEvents: seq<FdkIdAndUri>)
    requires repo.Valid()
    modifies repo
    ensures EventsResult(EventStores(repo.eventMeta, repo.eventGraphs), updatedEvents)
      == UpdateEventsSpec(old(EventStores(repo.eventMeta, repo.eventGraphs)), evs, date, force, env)
    ensures EventsPhase(old(repo.eventMeta), repo.eventMeta, EventUriList(evs), date, env)
    ensures forall r | r in updatedEvents :: r.uri in EventUriList(evs)
    ensures repo.Valid() && repo.OnlyEventsChanged()
  {
    ghost var st0 := EventStores(repo.eventMeta, repo.eventGraphs);
    updatedEvents := UpdateEvents(repo, evs, date, force, env);
    EventPhaseFacts(st0, evs, date, force, env);
    ReportsAreHarvested(st0, evs, date, force, env);
  }

  /** `updateCatalogs`, with what the proofs of `updateDB` use of it. */
  method CatalogPhase(repo: Repositories, cats: seq<CatalogRdfModel>, date: int, force: bool, env: Env)
    returns (updatedCatalogs: seq<FdkIdAndUri>)
    requires repo.Valid()
    modifies repo
    ensures var plan := CatalogsToUpdate(old(repo.catalogMeta), old(repo.catalogGraphs), cats, force, env.iso);
      && CatalogStores(repo.catalogMeta, repo.catalogGraphs, repo.eventMeta)
           == ApplyCatalogs(old(CatalogStores(repo.catalogMeta, repo.catalogGraphs, repo.eventMeta)), plan, date, env)
      && updatedCatalogs == CatalogReports(plan, date, env)
    ensures CatalogsPhase(old(repo.eventMeta), repo.eventMeta)
    ensures repo.Valid() && repo.OnlyMetaAndCatalogsChanged()
  {
    ghost var cst := CatalogStores(repo.catalogMeta, repo.catalogGraphs, repo.eventMeta);
    ghost var plan := CatalogsToUpdate(repo.catalogMeta, repo.catalogGraphs, cats, force, env.iso);
    updatedCatalogs := UpdateCatalogs(repo, cats, date, force, env);
    CatalogPhaseKeepsEvents(cst, plan, date, env);
  }

  /** The removal step of `updateDB`: the rows found are saved flagged. */
  method Removal(repo: Repositories, cs: seq<string>, hs: seq<string>) returns (removedEvents: seq<EventMeta>)
    requires repo.Valid()
    modifies repo
    ensures RemovalPhase(old(repo.eventMeta), removedEvents, repo.eventMeta, cs, hs)
    ensures repo.Valid() && repo.eventGraphs == old(repo.eventGraphs) && repo.OnlyEventsChanged()
  {
    removedEvents := GetEventsRemovedThisHarvest(repo, cs, hs);
    RemovalFlags(repo.eventMeta, removedEvents, cs, hs);
    repo.eventMeta := SaveAll(repo.eventMeta, Flagged(removedEvents));
  }

  /** The reported removals are the ids and URIs of the rows flagged. */
  lemma RemovedIds(mid2: map<string, EventMeta>, rows: seq<EventMeta>, after: map<string, EventMeta>,
                   cs: seq<string>, hs: seq<string>)
    requires RemovalPhase(mid2, rows, after, cs, hs)
    ensures forall r :: r in IdsOf(rows) <==> exists u | u in RemovedSet(mid2, cs, hs) :: r == FdkIdAndUri(mid2[u].fdkId, u)
  {
    forall r ensures r in IdsOf(rows) <==> exists u | u in RemovedSet(mid2, cs, hs) :: r == FdkIdAndUri(mid2[u].fdkId, u) {
      if r in IdsOf(rows) {
        var m :| m in rows && r == FdkIdAndUri(m.fdkId, m.uri);
        var u :| u in mid2 && mid2[u] == m;
        assert u in RemovedSet(mid2, cs, hs);
      }
      if exists u | u in RemovedSet(mid2, cs, hs) :: r == FdkIdAndUri(mid2[u].fdkId, u) {
        var u :| u in RemovedSet(mid2, cs, hs) && r == FdkIdAndUri(mid2[u].fdkId, u);
        assert mid2[u] in mid2.Values && mid2[u] in rows;
      }
    }
  }

  /** The four stores `updateDB` writes. */
  datatype DbStores = DbStores(
    eventMeta: map<string, EventMeta>,
    eventGraphs: map<string, Graph>,
    catalogMeta: map<string, CatalogMeta>,
    catalogGraphs: map<string, Graph>)

  function Stores(repo: Repositories): DbStores
    reads repo
  {
    DbStores(repo.eventMeta, repo.eventGraphs, repo.catalogMeta, repo.catalogGraphs)
  }

  /** The organization asked for only when some event belongs to no catalog
      and the source names a publisher. */
  function Publisher(publisherId: Option<string>, evs: seq<EventRdfModel>, organization: string -> Option<Organization>)
    : Option<Organization>
  {
    if publisherId.Some? && ContainsFreeServices(evs) then organization(publisherId.value) else None
  }

  /** The stores and the report `updateDB` produces from the models `evs`
      and `cats`: the event phase; the catalog phase, planned on the catalog
      stores as they were; then the rows of the saved catalogs whose events
      were not harvested flagged, and reported, as removed. */
  ghost predicate UpdatedWith(before: DbStores, after: DbStores, evs: seq<EventRdfModel>, cats: seq<CatalogRdfModel>,
                              report: HarvestReport, date: int, force: bool, env: Env) {
    var ev := UpdateEventsSpec(EventStores(before.eventMeta, before.eventGraphs), evs, date, force, env);
    var plan := CatalogsToUpdate(before.catalogMeta, before.catalogGraphs, cats, force, env.iso);
    var ct := ApplyCatalogs(CatalogStores(before.catalogMeta, before.catalogGraphs, ev.st.metas), plan, date, env);
    var removed := RemovedSet(ct.events, CatalogUriList(env.eventsUri, report.changedCatalogs), EventUriList(evs));
    && report.changedResources == ev.reports
    && report.changedCatalogs == CatalogReports(plan, date, env)
    && after.eventGraphs == ev.st.graphs
    && after.catalogMeta == ct.metas && after.catalogGraphs == ct.graphs
    && after.eventMeta == MarkRemoved(ct.events, removed)
    && forall r :: r in report.removedResources <==> exists u | u in removed :: r == FdkIdAndUri(ct.events[u].fdkId, u)
  }

  /** What `updateDB` did to the stores, for the models it split the
      harvested graph into. */
  ghost predicate DbUpdated(before: DbStores, after: DbStores, harvested: Graph, report: HarvestReport, sourceUrl: string,
                            date: int, publisherId: Option<string>, force: bool, env: Env,
                            organization: string -> Option<Organization>) {
    exists evs: seq<EventRdfModel>, cats: seq<CatalogRdfModel> ::
      && SplitOf(harvested, evs)
      && CatalogsOf(harvested, evs, sourceUrl, Publisher(publisherId, evs, organization), cats)
      && UpdatedWith(before, after, evs, cats, report, date, force, env)
  }

  /** `updateDB`: absent when some skolemisation would not terminate. */
  method UpdateDb(repo: Repositories, harvested: Graph, sourceId: string, sourceUrl: string, date: int,
                  publisherId: Option<string>, force: bool, env: Env, organization: string -> Option<Organization>)
    returns (report: Option<HarvestReport>)
    requires repo.Valid()
    modifies repo
    ensures repo.Valid() && repo.ServedKept()
    ensures report.Some? ==> Succeeded(report.value, sourceId, sourceUrl, date)
    ensures report.Some? ==> Reconciled(old(repo.eventMeta), repo.eventMeta, harvested, report.value, date, env)
    ensures report.Some? ==>
      DbUpdated(old(Stores(repo)), Stores(repo), harvested, report.value, sourceUrl, date, publisherId, force, env, organization)
    ensures report.None? ==> SkolemCycle(harvested)
  {
    ghost var before := repo.eventMeta;
    ghost var stores := Stores(repo);
    var allEvents, listed := SplitEventsFromRdf(harvested, env.hash);
    if allEvents.None? {
      return None;
    }
    var evs := allEvents.value;
    assert SplitOf(harvested, evs);
    var updatedEvents := EventPhase(repo, evs, date, force, env);
    ghost var mid := repo.eventMeta;

    var org := Publisher(publisherId, evs, organization);
    var cats := SplitCatalogsFromRdf(harvested, evs, sourceUrl, org, env.hash);
    if cats.None? {
      return None;
    }
    var updatedCatalogs := CatalogPhase(repo, cats.value, date, force, env);
    ghost var mid2 := repo.eventMeta;

    var removedEvents := Removal(repo, CatalogUriList(env.eventsUri, updatedCatalogs), EventUriList(evs));
    report := Some(HarvestReport(sourceId, sourceUrl, false, None, date, updatedCatalogs, updatedEvents, IdsOf(removedEvents)));
    PhasesReconciled(before, mid, mid2, removedEvents, repo.eventMeta, harvested, evs, report.value, date, env);
    RemovedIds(mid2, removedEvents, repo.eventMeta, CatalogUriList(env.eventsUri, updatedCatalogs), EventUriList(evs));
    assert UpdatedWith(stores, Stores(repo), evs, cats.value, report.value, date, force, env);
  }

  /** The harvested graph is isomorphic to the one stored for its source, and the harvest is not forced. */
  predicate UpToDate(harvested: Graph, stored: map<string, Graph>, url: string, force: bool, iso: (Graph, Graph) -> bool) {
    !force && url in stored && iso(harvested, stored[url])
  }

  /** `updateIfChanged`: nothing is written for an unchanged source;
      otherwise its graph is stored first, then the metadata brought up to date. */
  method UpdateIfChanged(repo: Repositories, harvested: Graph, sourceId: string, sourceUrl: string, date: int,
                         publisherId: Option<string>, force: bool, env: Env, organization: string -> Option<Organization>)
    returns (report: Option<HarvestReport>)
    requires repo.Valid()
    modifies repo
    ensures repo.Valid()
    ensures UpToDate(harvested, old(repo.harvestSources), sourceUrl, force, env.iso) ==>
      report == Some(EmptyReport(sourceId, sourceUrl, false, None, date)) && unchanged(repo)
    ensures !UpToDate(harvested, old(repo.harvestSources), sourceUrl, force, env.iso) ==>
      && repo.harvestSources == old(repo.harvestSources)[sourceUrl := harvested] && repo.ServingKept()
      && (report.Some? ==> (Succeeded(report.value, sourceId, sourceUrl, date)
                            && Reconciled(old(repo.eventMeta), repo.eventMeta, harvested, report.value, date, env)
                            && DbUpdated(old(Stores(repo)), Stores(repo), harvested, report.value, sourceUrl, date,
                                         publisherId, force, env, organization)))
      && (report.None? ==> SkolemCycle(harvested))
  {
    var stored := Get(repo.harvestSources, sourceUrl);
    if !force && stored.Some? && env.iso(harvested, stored.value) {
      return Some(EmptyReport(sourceId, sourceUrl, false, None, date));
    }
    repo.harvestSources := repo.harvestSources[sourceUrl := harvested];
    report := UpdateDb(repo, harvested, sourceId, sourceUrl, date, publisherId, force, env, organization);
  }

  // ------------------------------------------------------------ harvestEvents

  /** The graph formats; `RdfNull` is Jena's "no format". */
  datatype Lang = RdfNull | Format(name: string)

  /** `HarvestDataSource`, with the fields a harvest reads. */
  datatype HarvestDataSource = HarvestDataSource(
    id: Option<string>,
    url: Option<string>,
    acceptHeaderValue: Option<string>,
    publisherId: Option<string>)

  /** What a harvest asks of the outside world: the format named by an
      accept header (`jenaTypeFromAcceptHeader`), fetching and parsing the
      source (a failure carries the exception's message, which may be
      absent), and the organization catalog. */
  datatype Remote = Remote(
    formatOf: Option<string> -> Option<Lang>,
    fetch: (HarvestDataSource, Lang) -> Result<Graph, Option<string>>,
    organization: string -> Option<Organization>)

  const NO_ACCEPT_HEADER := "Not able to harvest, no accept header supplied"

  /** Getting the source's graph: no usable format, a failure, or the graph. */
  datatype Fetch = NoFormat | Failed(message: Option<string>) | Fetched(graph: Graph)

  function Attempt(source: HarvestDataSource, remote: Remote): (r: Fetch)
    ensures r.NoFormat? <==> remote.formatOf(source.acceptHeaderValue) in {None, Some(RdfNull)}
  {
    var lang := remote.formatOf(source.acceptHeaderValue);
    if lang.None? || lang.value.RdfNull? then NoFormat
    else match remote.fetch(source, lang.value)
      case Ok(g) => Fetched(g)
      case Err(message) => Failed(message)
  }

  /** How a harvest ends: no report for a source without an id or URL, a
      report, or no end at all when the blank nodes of some event or
      catalog cannot all be skolemised (the skolemisation then recurses
      without bound). */
  datatype HarvestOutcome = NoReport | Done(report: HarvestReport) | Diverged

  /** `harvestEvents`. */
  method HarvestEvents(repo: Repositories, source: HarvestDataSource, date: int, force: bool, env: Env, remote: Remote)
    returns (outcome: HarvestOutcome)
    requires repo.Valid()
    modifies repo
    ensures repo.Valid()
    ensures source.id.None? || source.url.None? ==> outcome == NoReport && unchanged(repo)
    ensures source.id.Some? && source.url.Some? && Attempt(source, remote).NoFormat? ==>
      outcome == Done(EmptyReport(source.id.value, source.url.value, true, Some(NO_ACCEPT_HEADER), date)) && unchanged(repo)
    ensures source.id.Some? && source.url.Some? && Attempt(source, remote).Failed? ==>
      outcome == Done(EmptyReport(source.id.value, source.url.value, true, Attempt(source, remote).message, date)) && unchanged(repo)
    ensures source.id.Some? && source.url.Some? && Attempt(source, remote).Fetched? ==>
      var g := Attempt(source, remote).graph;
      if UpToDate(g, old(repo.harvestSources), source.url.value, force, env.iso) then
        outcome == Done(EmptyReport(source.id.value, source.url.value, false, None, date)) && unchanged(repo)
      else
        && repo.harvestSources == old(repo.harvestSources)[source.url.value := g] && repo.ServingKept()
        && outcome != NoReport
        && (outcome.Done? ==> (Succeeded(outcome.report, source.id.value, source.url.value, date)
                               && Reconciled(old(repo.eventMeta), repo.eventMeta, g, outcome.report, date, env)
                               && DbUpdated(old(Stores(repo)), Stores(repo), g, outcome.report, source.url.value, date,
                                            source.publisherId, force, env, remote.organization)))
        && (outcome.Diverged? ==> SkolemCycle(g))
  {
    if source.id.None? || source.url.None? {
      return NoReport;
    }
    var fetched := Attempt(source, remote);
    match fetched {
      case NoFormat =>
        outcome := Done(EmptyReport(source.id.value, source.url.value, true, Some(NO_ACCEPT_HEADER), date));
      case Failed(message) =>
        outcome := Done(EmptyReport(source.id.value, source.url.value, true, message, date));
      case Fetched(g) =>
        var report := UpdateIfChanged(repo, g, source.id.value, source.url.value, date, source.publisherId, force, env, remote.organization);
        outcome := if report.Some? then Done(report.value) else Diverged;
    }
  }
}
