# A verified model of the FDK event harvester

The FDK event harvester fetches RDF documents that describe public-sector
*events* (Core Vocabularies `cv:Event`, `cv:BusinessEvent`, `cv:LifeEvent`)
and the *catalogs* that list them. It splits each document into one graph per
event and per catalog, and gives every entity a stable FDK id. It keeps
metadata rows with issue and modification dates and the catalog each event
belongs to. It flags events their catalog no longer lists and publishes a
harvest report. Operators can remove an event by id, merge duplicate event
IRIs and purge removed events. A rebuild step derives catalog-record triples
for every event and the union graph served to the triple store.

This Dafny project models that core and proves what each operation
promises. It has these modules:

- `Wrappers`, `Rdf` (rdf.dfy): options and results; RDF graphs as finite sets of
  triples over IRIs, blank nodes, literals and dateTime literals; the vocabulary.
- `Skolem` (skolem.dfy): the round-by-round renaming of blank subjects to
  `base/.well-known/skolem/<hash>` IRIs (skolem IRIs as in section 3.5 of
  RDF 1.1 Concepts and Abstract Syntax, but under a `skolem` path segment
  rather than `genid`). It is proved to end exactly when the blank nodes are acyclic.
- `PullThrough` (pull_through.dfy): the recursive copying of related resources
  to a hop budget. Services and events are never copied.
- `Extraction` (extraction.dfy): the change test, the selection of event
  resources and the per-event graphs.
- `Catalogs` (catalogs.dfy): explicit catalogs, their member sets and
  with-events graphs. Also the generated catalog with its publisher and its
  labels as the code writes them, beside a corrected label rule (see Findings).
- `Store` (store.dfy): the repositories as one class `Repositories`:
  - meta rows by URI. The rows carry the fields their callers read and
    write (EventHarvester.kt:145-234, EventService.kt:38-110): an event row
    has `isPartOf` and `removed` besides the four fields the `EventMeta`
    class of DBO.kt:10-20 declares, and the catalog row `CatalogMeta` is not
    declared in DBO.kt at all;
  - graphs by fdkId, one map per variant;
  - source graphs by URL;
  - the triple store, the union graph and the sent report messages.
- `Harvester` (harvester.dfy): `harvestEvents`, `updateIfChanged`, `updateDB`
  and its event, catalog and removal phases.
- `EventService` (event_service.dfy): `removeEvent`, `removeDuplicates`, `purgeByFdkId`.
- `UpdateService` (update_service.dfy): `createMetaModel`, `updateMetaData`, `updateUnionModel`.
- `Dbo` (dbo.dfy): `TurtleDBO.equals` and `zippedModelsAreIsomorphic`.

The state-changing operations are methods on `Repositories` (or taking
one). Each states its new state through a specification function or
relation, and lemmas prove what the source promises about that relation.

Library collaborators are parameters:
- graph isomorphism, taken as an equivalence where a property needs it;
- `createIdFromString`;
- the skolem hash, a function of a blank node's outgoing triples;
- `jenaTypeFromAcceptHeader`;
- fetching and parsing a source (a graph or a failure with an optional message);
- the organization lookup;
- decoding a stored gzipped Turtle text.

Times are millisecond integers.

Behaviour of the code worth noting:
- A *removed* event that reappears in a harvest is saved again with fresh
  metadata and `removed = false` (EventHarvester.kt:188).
- Removal by absence flags rows whose `isPartOf` names a catalog saved in
  this pass and whose URI is absent from *all* harvested events, not only
  from that catalog's members (EventHarvester.kt:122-125, 228-230).
- With `keepRemovedFdkId`, `removeDuplicates` refuses when the *retained*
  row is removed. Without it, it refuses when the row to remove is removed
  (EventService.kt:74-82). Every entry is looked up in the rows as they
  were before the call, since nothing is saved until the last entry is done.
- The union graph includes the graphs of removed rows (UpdateService.kt:29-34).
- Skolemisation does not terminate on a cycle of blank nodes
  (HarvestHelpers.kt:256-267). The model returns an explicit outcome for it.

## Model

| member | source | states |
|---|---|---|
| Extraction.HarvestDiff | src/main/kotlin/no/fdk/fdk_event_harvester/harvester/HarvestHelpers.kt:32-38 | a missing stored graph is always a change; otherwise a change is exactly non-isomorphism with the stored graph; its partner Extraction.HarvestDiffOfEquivalence proves a re-harvested graph unchanged and the test symmetric |
| Extraction.HarvestDiffOfEquivalence | src/main/kotlin/no/fdk/fdk_event_harvester/harvester/HarvestHelpers.kt:32-38 | under an equivalence, a graph compared with itself is unchanged, and the test is symmetric |
| Extraction.ListResourcesWithEventType | src/main/kotlin/no/fdk/fdk_event_harvester/harvester/HarvestHelpers.kt:82-90 | lists the resources of cv:Event, then of cv:BusinessEvent, then of cv:LifeEvent, each class's resources once; a resource is in the list iff it has an event class |
| Extraction.ListingCounts | src/main/kotlin/no/fdk/fdk_event_harvester/harvester/HarvestHelpers.kt:82-90 | a resource appears in the listing once per event class it has, so one typed both cv:Event and cv:LifeEvent appears twice |
| Extraction.WithType | src/main/kotlin/no/fdk/fdk_event_harvester/harvester/HarvestHelpers.kt:82-90 | exactly the resources with an rdf:type triple to the class |
| Extraction.ExcludeBlankNodes | src/main/kotlin/no/fdk/fdk_event_harvester/harvester/HarvestHelpers.kt:112-119 | keeps exactly the IRI resources of the list, in order; a list without repeats stays without repeats |
| Extraction.ContainsFreeServices | src/main/kotlin/no/fdk/fdk_event_harvester/harvester/HarvestHelpers.kt:253-254 | true exactly when some event belongs to no catalog |
| Extraction.IsMemberOfAnyCatalog | src/main/kotlin/no/fdk/fdk_event_harvester/harvester/HarvestHelpers.kt:303-311 | defined as: some dcat:Catalog resource of the whole harvested graph lists the resource with containsEvent; Extraction.ExtractEventModel stores it as the model's flag, and Catalogs.GeneratedCatalogMembers proves the generated catalog holds exactly the events it rejects |
| Extraction.ExtractEventModel | src/main/kotlin/no/fdk/fdk_event_harvester/harvester/HarvestHelpers.kt:121-136 | the event's graph holds its own triples and whole non-excluded resources within its reach, and every non-excluded resource it points at; it is skolemised under the event's IRI; it is absent exactly when skolemisation would not end; membership is the catalog test |
| Extraction.EventPullSkipsExcluded | src/main/kotlin/no/fdk/fdk_event_harvester/harvester/HarvestHelpers.kt:211-225 | no triple of an excluded resource other than the event itself is in an event's graph |
| Extraction.SplitEventsFromRdf | src/main/kotlin/no/fdk/fdk_event_harvester/harvester/HarvestHelpers.kt:76-80 | one model per IRI-named entry of the event-class listing, in its order, so a resource with two event classes has two models; every model is the extracted model of an event resource, and every IRI event resource has one; blank event resources are dropped; absent only when some event's skolemisation would not end |
| PullThrough.ShouldAdd | src/main/kotlin/no/fdk/fdk_event_harvester/harvester/HarvestHelpers.kt:286-301 | excluded resources are never added; a blank resource is added iff not excluded; an IRI iff not excluded and not already typed in the model; its partner PullThrough.InReachNotExcluded proves no resource within reach is excluded |
| PullThrough.Excluded | src/main/kotlin/no/fdk/fdk_event_harvester/harvester/HarvestHelpers.kt:286-301 | defined as: the resource is typed cpsv:PublicService, cpsvno:Service or one of the event classes in the harvested graph; PullThrough.InReachNotExcluded and Extraction.EventPullSkipsExcluded prove such resources are never pulled in |
| PullThrough.TypedIn | src/main/kotlin/no/fdk/fdk_event_harvester/harvester/HarvestHelpers.kt:286-301 | defined as: the model being built has an rdf:type triple for the resource; PullThrough.ShouldAdd uses it to skip IRI resources already added |
| PullThrough.RecursiveAdd | src/main/kotlin/no/fdk/fdk_event_harvester/harvester/HarvestHelpers.kt:211-225 | every added triple comes from the harvested graph and belongs to a whole resource within reach of the start; the start's triples are added iff it should be added; with budget left, its resource objects are pulled too |
| PullThrough.InReachNotExcluded | src/main/kotlin/no/fdk/fdk_event_harvester/harvester/HarvestHelpers.kt:211-225 | no resource within reach is excluded |
| PullThrough.InReachWalk | src/main/kotlin/no/fdk/fdk_event_harvester/harvester/HarvestHelpers.kt:211-225 | a resource within reach is at the end of a walk of fewer triples than the hop budget |
| Catalogs.OwnKept | src/main/kotlin/no/fdk/fdk_event_harvester/harvester/HarvestHelpers.kt:103-110 | a catalog keeps all its own triples except containsEvent triples whose object is not an IRI; its partner Catalogs.CatalogPullContainsEvent proves no such triple and no event resource reaches the catalog graph |
| Catalogs.AddCatalogProperty | src/main/kotlin/no/fdk/fdk_event_harvester/harvester/HarvestHelpers.kt:103-110 | the four branches: a resource-valued statement is added and pulled through with budget 5; a literal is added; a containsEvent to an IRI is added and not expanded; any other containsEvent is dropped |
| Catalogs.ExtractCatalogModel | src/main/kotlin/no/fdk/fdk_event_harvester/harvester/HarvestHelpers.kt:92-101 | the catalog's graph holds its kept own triples and whole resources within reach of its other objects, and nothing else from the harvested graph |
| Catalogs.CatalogPull | src/main/kotlin/no/fdk/fdk_event_harvester/harvester/HarvestHelpers.kt:92-110 | defined as what a catalog's pull-through collects: its kept own triples, whole resources reached from its non-containsEvent objects, and nothing outside the harvested graph; Catalogs.ExtractCatalogModel establishes it and Catalogs.CatalogPullContainsEvent draws its consequences |
| Catalogs.CatalogPullContainsEvent | src/main/kotlin/no/fdk/fdk_event_harvester/harvester/HarvestHelpers.kt:103-110 | no containsEvent triple of the catalog has a blank or literal object, and no event resource's triples are pulled in |
| Catalogs.CatalogEvents | src/main/kotlin/no/fdk/fdk_event_harvester/harvester/HarvestHelpers.kt:46-52 | the member set is exactly the IRI objects of the catalog's containsEvent triples |
| Catalogs.WithContainsEvent | src/main/kotlin/no/fdk/fdk_event_harvester/harvester/HarvestHelpers.kt:44 | keeps exactly the catalogs with a containsEvent triple, in order; a list without repeats stays without repeats |
| Catalogs.MembersUnion | src/main/kotlin/no/fdk/fdk_event_harvester/harvester/HarvestHelpers.kt:57-59 | a triple is in the union iff it is in the graph of a harvested event in the member set |
| Catalogs.UnionEvents | src/main/kotlin/no/fdk/fdk_event_harvester/harvester/HarvestHelpers.kt:57-59 | the with-events graph is the catalog's own graph unioned with its members' graphs |
| Catalogs.ExplicitCatalog | src/main/kotlin/no/fdk/fdk_event_harvester/harvester/HarvestHelpers.kt:45-66 | an explicit catalog's URI, member set, skolemised own graph and with-events graph; absent exactly when its skolemisation would not end |
| Catalogs.ListCatalogs | src/main/kotlin/no/fdk/fdk_event_harvester/harvester/HarvestHelpers.kt:41-44 | exactly the IRI dcat:Catalog resources with a containsEvent triple, each listed once |
| Catalogs.ExplicitCatalogs | src/main/kotlin/no/fdk/fdk_event_harvester/harvester/HarvestHelpers.kt:40-67 | an extracted model for every such catalog and none other, one per catalog: no two models share a resource URI; absent only when some catalog's skolemisation would not end |
| Catalogs.SplitCatalogsFromRdf | src/main/kotlin/no/fdk/fdk_event_harvester/harvester/HarvestHelpers.kt:40-74 | the explicit catalogs of the graph, each its extracted model, each IRI dcat:Catalog with a containsEvent triple among them exactly once; then exactly one generated catalog `sourceURL#GeneratedCatalog` holding the events that belong to no catalog, even when it is empty, with the labels as written; absent only when some catalog's skolemisation would not end |
| Catalogs.GeneratedCatalogMembers | src/main/kotlin/no/fdk/fdk_event_harvester/harvester/HarvestHelpers.kt:69-73 | an event is in the generated catalog iff it was harvested and no dcat:Catalog of the whole graph lists it |
| Catalogs.FreeEvents | src/main/kotlin/no/fdk/fdk_event_harvester/harvester/HarvestHelpers.kt:69-70 | keeps exactly the events that belong to no catalog |
| Catalogs.EventUris | src/main/kotlin/no/fdk/fdk_event_harvester/harvester/HarvestHelpers.kt:143 | the URIs of the listed events |
| Catalogs.GeneratedCatalog | src/main/kotlin/no/fdk/fdk_event_harvester/harvester/HarvestHelpers.kt:138-156 | the generated catalog's URI is `sourceURL#GeneratedCatalog`, its member set is the URIs of the events it is given (the harvest gives it the free events), its own graph is the harvest-source catalog graph with the labels as written, and its with-events graph adds the members' graphs |
| Catalogs.CreateModelForHarvestSourceCatalog | src/main/kotlin/no/fdk/fdk_event_harvester/harvester/HarvestHelpers.kt:158-182 | builds the same own graph as Catalogs.HarvestSourceCatalogGraph triple by triple: the type, the publisher when the organization has a URI, the labels as written, and one containsEvent per member |
| Catalogs.HarvestSourceCatalogShape | src/main/kotlin/no/fdk/fdk_event_harvester/harvester/HarvestHelpers.kt:173-182 | the generated catalog is a dcat:Catalog whose triples are all about itself, with a publisher triple exactly when the organization has a URI |
| Catalogs.HarvestSourceCatalogEvents | src/main/kotlin/no/fdk/fdk_event_harvester/harvester/HarvestHelpers.kt:206-209 | its containsEvent objects are exactly the member URIs |
| Catalogs.HarvestSourceCatalogLabels | src/main/kotlin/no/fdk/fdk_event_harvester/harvester/HarvestHelpers.kt:184-204 | the generated catalog's rdfs:label values are exactly the labels as written, including the faulty nn label |
| Catalogs.HarvestSourceCatalogGraph | src/main/kotlin/no/fdk/fdk_event_harvester/harvester/HarvestHelpers.kt:158-182 | defined as the generated catalog's own graph: its type, its publisher, its labels as written and one containsEvent per member; Catalogs.HarvestSourceCatalogShape, Catalogs.HarvestSourceCatalogEvents and Catalogs.HarvestSourceCatalogLabels state its content |
| Catalogs.LabelsAsWritten | src/main/kotlin/no/fdk/fdk_event_harvester/harvester/HarvestHelpers.kt:184-204 | as written, and used by the harvest: nb label iff the nb-or-name value is non-blank; nn label gated on that same nb value; en label iff the en-or-name value is non-blank |
| Catalogs.NnLabelAsWrittenShowsNull | src/main/kotlin/no/fdk/fdk_event_harvester/harvester/HarvestHelpers.kt:191-195 | an organization with an nb label but no nn label and no name gets the label "null - Hendingskatalog" |
| Catalogs.Labels | src/main/kotlin/no/fdk/fdk_event_harvester/harvester/HarvestHelpers.kt:184-204 | corrected reference, not used by the harvest: each label is added iff its own language's value is non-blank |
| Catalogs.LabelsNeverNull | src/main/kotlin/no/fdk/fdk_event_harvester/harvester/HarvestHelpers.kt:184-204 | every corrected label comes from a present, non-blank name |
| Skolem.Renamable | src/main/kotlin/no/fdk/fdk_event_harvester/harvester/HarvestHelpers.kt:269-274 | a round renames exactly the blank subjects none of whose blank objects has triples of its own |
| Skolem.DoesNotContainAnon | src/main/kotlin/no/fdk/fdk_event_harvester/harvester/HarvestHelpers.kt:269-274 | defined as: no object of the resource is a blank node with triples of its own; Skolem.Renamable proves a round renames exactly the blank subjects for which it holds |
| Skolem.RenameBatch | src/main/kotlin/no/fdk/fdk_event_harvester/harvester/HarvestHelpers.kt:260-264 | one round renames each such subject to `base/.well-known/skolem/` plus the hash of its triples |
| Skolem.SkolemIri | src/main/kotlin/no/fdk/fdk_event_harvester/harvester/HarvestHelpers.kt:262 | defined as `base/.well-known/skolem/` followed by the hash; Skolem.RenameBatch proves each renamed subject gets it |
| Skolem.RecursiveBlankNodeSkolem | src/main/kotlin/no/fdk/fdk_event_harvester/harvester/HarvestHelpers.kt:256-267 | ends with every blank subject renamed to a skolem IRI under the base and no blank subject left, exactly when the blank nodes are acyclic; a graph without blank subjects is returned unchanged |
| Skolem.NoProgressMeansCycle | src/main/kotlin/no/fdk/fdk_event_harvester/harvester/HarvestHelpers.kt:256-267 | a round that renames nothing while blank subjects remain only happens on a cycle |
| Skolem.AcyclicByRounds | src/main/kotlin/no/fdk/fdk_event_harvester/harvester/HarvestHelpers.kt:256-267 | rounds that each rename blank nodes before the ones pointing at them witness acyclicity |
| Skolem.SkolemisedHasNoBlankSubject | src/main/kotlin/no/fdk/fdk_event_harvester/harvester/HarvestHelpers.kt:256-267 | a skolemised graph has no blank subject |
| Harvester.EventMetaFor | src/main/kotlin/no/fdk/fdk_event_harvester/harvester/EventHarvester.kt:207-223 | a row keeps the stored fdkId, issued and isPartOf (or derives the id from the URI and takes the harvest date); modified is the harvest date; the row is live; its partner Harvester.EventPhaseKeepsIdentity lifts this to the whole event phase |
| Harvester.EventUpdate | src/main/kotlin/no/fdk/fdk_event_harvester/harvester/EventHarvester.kt:185-205 | defined as the decision table of one event: absent, removed or changed saves a fresh row and the graph; unchanged and forced rewrites the graph; otherwise nothing; Harvester.UpdateDbos is proved to perform it |
| Harvester.UpdateDbos | src/main/kotlin/no/fdk/fdk_event_harvester/harvester/EventHarvester.kt:185-205 | the decision table: absent, removed or changed saves new meta and graph and reports the row; unchanged and forced rewrites the graph only and reports the stored row; otherwise nothing |
| Harvester.UpdateEventsSpec | src/main/kotlin/no/fdk/fdk_event_harvester/harvester/EventHarvester.kt:179-183 | defined as the events folded in order over the stores; Harvester.UpdateEvents is proved to compute it, and the lemmas below prove what it keeps |
| Harvester.UpdateEvents | src/main/kotlin/no/fdk/fdk_event_harvester/harvester/EventHarvester.kt:179-183 | the events are processed in order, each against the stores the earlier ones left, with the reports of the updated ones |
| Harvester.HarvestedEventsLive | src/main/kotlin/no/fdk/fdk_event_harvester/harvester/EventHarvester.kt:185-194 | after the event phase every harvested event has a live row |
| Harvester.EventPhaseKeepsLive | src/main/kotlin/no/fdk/fdk_event_harvester/harvester/EventHarvester.kt:185-205 | the event phase never flags a live row |
| Harvester.EventPhaseKeepsIdentity | src/main/kotlin/no/fdk/fdk_event_harvester/harvester/EventHarvester.kt:207-223 | stored rows keep fdkId, issued and isPartOf; new rows get the derived id, the harvest date and no catalog |
| Harvester.EventPhaseKeys | src/main/kotlin/no/fdk/fdk_event_harvester/harvester/EventHarvester.kt:185-194 | rows stay under their own URI, and new rows are harvested events |
| Harvester.ForcedReportsAll | src/main/kotlin/no/fdk/fdk_event_harvester/harvester/EventHarvester.kt:195-202 | a forced harvest reports every harvested event, one report each, in the order harvested |
| Harvester.ReportsAreHarvested | src/main/kotlin/no/fdk/fdk_event_harvester/harvester/EventHarvester.kt:179-183 | every reported event was harvested |
| Harvester.EventPhaseUntouched | src/main/kotlin/no/fdk/fdk_event_harvester/harvester/EventHarvester.kt:179-205 | rows of events not harvested are left as they were |
| Harvester.EventPhaseFacts | src/main/kotlin/no/fdk/fdk_event_harvester/harvester/EventHarvester.kt:179-223 | the event phase's combined effect on the rows |
| Harvester.CatalogMetaFor | src/main/kotlin/no/fdk/fdk_event_harvester/harvester/EventHarvester.kt:160-177 | a catalog row keeps the stored fdkId and issued (or derives them), with the harvest date as modified and the member set; its partner Harvester.CatalogPhaseKeepsIdentity lifts this to the whole catalog phase |
| Harvester.CatalogHasChanges | src/main/kotlin/no/fdk/fdk_event_harvester/harvester/EventHarvester.kt:236-238 | defined as: no stored row, or the harvest test against the stored graph by the row's fdkId; Harvester.CatalogsToUpdate selects by it |
| Harvester.CatalogFdkUri | src/main/kotlin/no/fdk/fdk_event_harvester/harvester/EventHarvester.kt:225-226 | defined as `eventsUri/catalogs/fdkId`; Harvester.CatalogFdkUriInjective proves different ids give different URIs |
| Harvester.CatalogFdkUriInjective | src/main/kotlin/no/fdk/fdk_event_harvester/harvester/EventHarvester.kt:225-226 | catalogs with different fdkIds have different FDK URIs |
| Harvester.CatalogsToUpdate | src/main/kotlin/no/fdk/fdk_event_harvester/harvester/EventHarvester.kt:141-144 | the catalogs to save are exactly those that are forced or changed, paired with the row found before any save; forced means all |
| Harvester.WithIsPartOf | src/main/kotlin/no/fdk/fdk_event_harvester/harvester/EventHarvester.kt:232-234 | defined as the event rows with every listed row pointed at the catalog; Harvester.AddIsPartOfToEvents is proved to perform it |
| Harvester.CatalogUpdate | src/main/kotlin/no/fdk/fdk_event_harvester/harvester/EventHarvester.kt:145-158 | defined as one planned catalog saved: its row, its graph and its events' isPartOf; Harvester.SaveCatalog is proved to perform it and Harvester.CatalogPhaseKeepsIdentity states what it keeps |
| Harvester.ApplyCatalogs | src/main/kotlin/no/fdk/fdk_event_harvester/harvester/EventHarvester.kt:145-158 | defined as the planned catalogs saved in order; Harvester.SavePlan is proved to compute it, and Harvester.CatalogPhaseKeepsEvents and Harvester.CatalogPhaseMembership state its effect on the event rows |
| Harvester.CatalogReports | src/main/kotlin/no/fdk/fdk_event_harvester/harvester/EventHarvester.kt:157 | one (fdkId, URI) report per saved catalog, in order |
| Harvester.CatalogPhaseKeepsEvents | src/main/kotlin/no/fdk/fdk_event_harvester/harvester/EventHarvester.kt:232-234 | the catalog phase changes only the isPartOf of event rows, and adds or deletes none |
| Harvester.CatalogPhaseMembership | src/main/kotlin/no/fdk/fdk_event_harvester/harvester/EventHarvester.kt:155 | a row listed by a saved catalog points to the FDK URI of such a catalog; a row no saved catalog lists keeps its isPartOf |
| Harvester.CatalogPhaseKeepsIdentity | src/main/kotlin/no/fdk/fdk_event_harvester/harvester/EventHarvester.kt:160-177 | a saved catalog keeps its stored fdkId and issued |
| Harvester.AddIsPartOfToEvents | src/main/kotlin/no/fdk/fdk_event_harvester/harvester/EventHarvester.kt:232-234 | every listed event with a row points to the catalog; other rows and events without a row are untouched |
| Harvester.SaveCatalog | src/main/kotlin/no/fdk/fdk_event_harvester/harvester/EventHarvester.kt:145-158 | saves the catalog's row and graph, updates its members' isPartOf and returns its (fdkId, URI) |
| Harvester.SavePlan | src/main/kotlin/no/fdk/fdk_event_harvester/harvester/EventHarvester.kt:145-158 | saves the planned catalogs one after the other, each against the stores the earlier ones left, and reports each in order |
| Harvester.UpdateCatalogs | src/main/kotlin/no/fdk/fdk_event_harvester/harvester/EventHarvester.kt:141-158 | plans on the stores as they were, then saves the planned catalogs in order, returning their reports |
| Harvester.RemovedNow | src/main/kotlin/no/fdk/fdk_event_harvester/harvester/EventHarvester.kt:228-230 | defined as the removal filter: a live row whose isPartOf names a saved catalog and whose URI was not harvested; Harvester.GetEventsRemovedThisHarvest finds exactly these rows |
| Harvester.LiveAndNotHarvested | src/main/kotlin/no/fdk/fdk_event_harvester/harvester/EventHarvester.kt:228-230 | keeps exactly the live rows whose URI was not harvested |
| Harvester.GetEventsRemovedThisHarvest | src/main/kotlin/no/fdk/fdk_event_harvester/harvester/EventHarvester.kt:228-230 | exactly the live rows whose isPartOf names a saved catalog and whose URI was not harvested |
| Harvester.RemovalFlags | src/main/kotlin/no/fdk/fdk_event_harvester/harvester/EventHarvester.kt:126-127 | saving those rows flagged removes exactly them and changes nothing else |
| Harvester.EventUriList | src/main/kotlin/no/fdk/fdk_event_harvester/harvester/EventHarvester.kt:124 | the harvested event URIs |
| Harvester.CatalogUriList | src/main/kotlin/no/fdk/fdk_event_harvester/harvester/EventHarvester.kt:123 | the FDK URIs of the saved catalogs |
| Harvester.EventPhase | src/main/kotlin/no/fdk/fdk_event_harvester/harvester/EventHarvester.kt:111-112 | the event phase leaves the event stores and the reports exactly as Harvester.UpdateEventsSpec gives them, and its effect on the rows in the form the lemmas below use |
| Harvester.CatalogPhase | src/main/kotlin/no/fdk/fdk_event_harvester/harvester/EventHarvester.kt:118-119 | the catalog phase leaves the catalog stores and the event rows exactly as Harvester.ApplyCatalogs gives them for the plan made on the stores as they were, and reports that plan's catalogs |
| Harvester.Removal | src/main/kotlin/no/fdk/fdk_event_harvester/harvester/EventHarvester.kt:121-127 | the rows found are exactly the live rows of saved catalogs that were not harvested, and saving them flagged flags exactly them |
| Harvester.PhasesComplete | src/main/kotlin/no/fdk/fdk_event_harvester/harvester/EventHarvester.kt:121-127 | after the removal, every row pointing to a saved catalog whose URI was not harvested is flagged |
| Harvester.RemovedIds | src/main/kotlin/no/fdk/fdk_event_harvester/harvester/EventHarvester.kt:121-138 | the reported removals are exactly the ids and URIs of the rows flagged |
| Harvester.Publisher | src/main/kotlin/no/fdk/fdk_event_harvester/harvester/EventHarvester.kt:114-116 | defined as the organization looked up only when the source names a publisher and some event belongs to no catalog; Harvester.DbUpdated gives it to the generated catalog of Harvester.UpdateDb |
| Harvester.PhasesLive | src/main/kotlin/no/fdk/fdk_event_harvester/harvester/EventHarvester.kt:110-139 | every harvested event ends live |
| Harvester.PhasesIdentity | src/main/kotlin/no/fdk/fdk_event_harvester/harvester/EventHarvester.kt:110-139 | the whole update keeps fdkId and issued of every stored row |
| Harvester.PhasesReported | src/main/kotlin/no/fdk/fdk_event_harvester/harvester/EventHarvester.kt:110-139 | every row this update flags is listed in removedResources |
| Harvester.PhasesJustified | src/main/kotlin/no/fdk/fdk_event_harvester/harvester/EventHarvester.kt:110-139 | every listed row was live and stored, was not harvested, is now flagged with the listed id, and belongs to a saved catalog |
| Harvester.PhasesReconciled | src/main/kotlin/no/fdk/fdk_event_harvester/harvester/EventHarvester.kt:110-139 | the report and the new rows satisfy all of the above together: every harvested event live, identities kept, every new flag reported, every reported removal justified, and every row of a saved catalog that was not harvested flagged |
| Harvester.UpdateDb | src/main/kotlin/no/fdk/fdk_event_harvester/harvester/EventHarvester.kt:110-139 | a report names the source with no error; for the models it split the graph into, the event graphs, catalog rows and catalog graphs are those of the event phase then the catalog phase planned on the old stores, the event rows those with the removals flagged; changedResources are the event phase's reports, changedCatalogs the saved catalogs' and removedResources the flagged rows'; the rows are reconciled as above; there is no report only when some pulled graph has a blank-node cycle; the with-records graphs, source graphs, triple store, union graph and sent messages are untouched |
| Harvester.UpdateIfChanged | src/main/kotlin/no/fdk/fdk_event_harvester/harvester/EventHarvester.kt:88-108 | an unforced harvest isomorphic to the stored source graph writes nothing and reports no error and no changes; otherwise the harvested graph is stored first, then the update runs with all that Harvester.UpdateDb states, on the stores as they were |
| Harvester.Attempt | src/main/kotlin/no/fdk/fdk_event_harvester/harvester/EventHarvester.kt:38-71 | a missing or unacceptable format, a fetch or parse failure, or the graph |
| Harvester.HarvestEvents | src/main/kotlin/no/fdk/fdk_event_harvester/harvester/EventHarvester.kt:32-86 | no report without id or URL; a missing or unacceptable accept header, or a failure, gives an error report and writes nothing; otherwise the outcome of the change test; when it changed, the harvested graph is stored and the stores, the report and the rows are as Harvester.UpdateDb states |
| Store.Repositories.FindAll | src/main/kotlin/no/fdk/fdk_event_harvester/service/UpdateService.kt:29 | exactly the stored rows |
| Store.Repositories.FindAllByFdkId | src/main/kotlin/no/fdk/fdk_event_harvester/repository/EventMetaRepository.kt:10 | exactly the stored rows with the id |
| Store.Repositories.FindAllByIsPartOf | src/main/kotlin/no/fdk/fdk_event_harvester/repository/EventMetaRepository.kt:9 | exactly the stored rows pointing to the catalog |
| Store.SaveFlagged | src/main/kotlin/no/fdk/fdk_event_harvester/service/EventService.kt:46 | saving flagged copies of stored rows flags exactly their URIs |
| EventService.RemoveEvent | src/main/kotlin/no/fdk/fdk_event_harvester/service/EventService.kt:38-60 | no row with the id gives NOT_FOUND and no row that is live gives BAD_REQUEST, both writing and sending nothing; otherwise every row with the id is flagged, nothing else changes, and one report names the id and the URI of one of its rows |
| EventService.FlagAndReport | src/main/kotlin/no/fdk/fdk_event_harvester/service/EventService.kt:46-58 | flags every row with the id and sends the manual-delete report |
| EventService.RemovedStaysRemoved | src/main/kotlin/no/fdk/fdk_event_harvester/service/EventService.kt:43-46 | after a removal every row with the id is removed, so removing it again fails; rows with other ids are unchanged |
| EventService.Widened | src/main/kotlin/no/fdk/fdk_event_harvester/service/EventService.kt:71-72 | the retained row gets the earlier issued and the later modified of the two rows, and nothing else changes |
| EventService.MergeEntry | src/main/kotlin/no/fdk/fdk_event_harvester/service/EventService.kt:66-87 | an entry fails only with BAD_REQUEST and otherwise saves two rows; its partners EventService.EntryFails and EventService.EntryShape state when it fails and what it saves |
| EventService.EntryFails | src/main/kotlin/no/fdk/fdk_event_harvester/service/EventService.kt:67-82 | an entry fails iff the row to remove is missing, or, with a retained row, the row whose id would be given up is removed |
| EventService.EntryShape | src/main/kotlin/no/fdk/fdk_event_harvester/service/EventService.kt:70-86 | an entry saves the row to remove flagged, then the retained row live; the retained row takes min issued, max modified and the fdkId the flag selects; a missing retained row is a copy of the removed one under the retained IRI; the reported resource is the retained row's old id or the removed row's |
| EventService.PlanMerges | src/main/kotlin/no/fdk/fdk_event_harvester/service/EventService.kt:66-86 | collects the saves and reports of all entries in order, stopping at the first failing one |
| EventService.PlanDuplicates | src/main/kotlin/no/fdk/fdk_event_harvester/service/EventService.kt:66-87 | the batch fails only with BAD_REQUEST; EventService.PlanMerges is proved to compute it, and EventService.DuplicatesFail, EventService.PlanSaves and EventService.PlanReported state its result |
| EventService.RemoveDuplicates | src/main/kotlin/no/fdk/fdk_event_harvester/service/EventService.kt:62-101 | a failing entry means BAD_REQUEST with nothing saved or sent; otherwise all saves applied in order and one report sent iff anything was reported |
| EventService.DuplicatesFail | src/main/kotlin/no/fdk/fdk_event_harvester/service/EventService.kt:66-87 | the batch fails iff some entry fails |
| EventService.PlanSaves | src/main/kotlin/no/fdk/fdk_event_harvester/service/EventService.kt:86-87 | the batch saves the two rows of each entry in turn |
| EventService.PlanReported | src/main/kotlin/no/fdk/fdk_event_harvester/service/EventService.kt:64-82 | the batch reports exactly what its entries report |
| EventService.DuplicatesReport | src/main/kotlin/no/fdk/fdk_event_harvester/service/EventService.kt:89-100 | a report is sent iff some retained row existed |
| EventService.MergedEntry | src/main/kotlin/no/fdk/fdk_event_harvester/service/EventService.kt:70-87 | for an entry no later entry overrides, the removed IRI ends flagged and the retained IRI holds the merged live row |
| EventService.DuplicatesLeaveOthers | src/main/kotlin/no/fdk/fdk_event_harvester/service/EventService.kt:66-87 | rows no entry names are unchanged |
| EventService.PurgeByFdkId | src/main/kotlin/no/fdk/fdk_event_harvester/service/EventService.kt:104-110 | a live row with the id gives BAD_REQUEST and deletes nothing; otherwise every row with the id and both graphs under it are deleted; no row at all is not an error |
| EventService.PurgedIsGone | src/main/kotlin/no/fdk/fdk_event_harvester/service/EventService.kt:104-110 | after a purge no row has the id, and other rows are unchanged |
| UpdateService.CreateMetaModel | src/main/kotlin/no/fdk/fdk_event_harvester/service/UpdateService.kt:56-69 | the record has exactly five triples, all about `eventsUri/fdkId` |
| UpdateService.MetaModelFields | src/main/kotlin/no/fdk/fdk_event_harvester/service/UpdateService.kt:56-69 | two rows get the same record iff they agree on fdkId, URI, issued and modified |
| UpdateService.RefreshKeys | src/main/kotlin/no/fdk/fdk_event_harvester/service/UpdateService.kt:42-51 | the loop writes exactly the ids of its rows with a stored graph without records |
| UpdateService.RefreshContent | src/main/kotlin/no/fdk/fdk_event_harvester/service/UpdateService.kt:47-50 | each written id holds the record of one of its rows unioned with the graph without records |
| UpdateService.RefreshRebuilds | src/main/kotlin/no/fdk/fdk_event_harvester/service/UpdateService.kt:41-51 | in any order of the rows, the loop rebuilds the records as specified |
| UpdateService.EachRowRecorded | src/main/kotlin/no/fdk/fdk_event_harvester/service/UpdateService.kt:44-50 | with one row per id, each row's with-records graph is its record unioned with its stored graph without records |
| UpdateService.RebuildIdempotent | src/main/kotlin/no/fdk/fdk_event_harvester/service/UpdateService.kt:41-54 | with one row per id, a second rebuild changes nothing |
| UpdateService.UpdateMetaData | src/main/kotlin/no/fdk/fdk_event_harvester/service/UpdateService.kt:41-54 | rebuilds the records, skips rows without a stored graph, then rebuilds the union |
| UpdateService.UnionOverMembers | src/main/kotlin/no/fdk/fdk_event_harvester/service/UpdateService.kt:29-34 | a triple is in the loop's union iff it is in the stored with-records graph of one of the rows |
| UpdateService.UnionOverAllRows | src/main/kotlin/no/fdk/fdk_event_harvester/service/UpdateService.kt:29-34 | in any order of the rows, the loop builds the union of all rows' graphs |
| UpdateService.UpdateUnionModel | src/main/kotlin/no/fdk/fdk_event_harvester/service/UpdateService.kt:26-39 | the same union goes to the triple store and the union graph |
| UpdateService.UnionBounds | src/main/kotlin/no/fdk/fdk_event_harvester/service/UpdateService.kt:29-34 | the union holds every row's with-records graph, and only triples of such graphs; missing graphs contribute nothing |
| UpdateService.UnionKeepsRemoved | src/main/kotlin/no/fdk/fdk_event_harvester/service/UpdateService.kt:29-34 | flagging rows removed does not change the union |
| Dbo.ZippedModelsAreIsomorphic | src/main/kotlin/no/fdk/fdk_event_harvester/model/DBO.kt:62-75 | equal only when both decode or neither does; texts that decode alike are equal under a reflexive isomorphism |
| Dbo.Equals | src/main/kotlin/no/fdk/fdk_event_harvester/model/DBO.kt:43-53 | null and other classes are unequal; equal documents have the same class and id |
| Dbo.EqualsByContent | src/main/kotlin/no/fdk/fdk_event_harvester/model/DBO.kt:49-52 | with the same class and id: equal iff both decode and are isomorphic, or neither decodes |
| Dbo.EqualsDependsOnGraphs | src/main/kotlin/no/fdk/fdk_event_harvester/model/DBO.kt:49-52 | equality with matching ids depends on the decoded graphs, not on the texts |
| Dbo.EqualsReflexive | src/main/kotlin/no/fdk/fdk_event_harvester/model/DBO.kt:43-53 | under an isomorphism that is an equivalence, a copy of a document equals it |
| Dbo.EqualsSymmetric | src/main/kotlin/no/fdk/fdk_event_harvester/model/DBO.kt:43-53 | under an isomorphism that is an equivalence, equality is symmetric |
| Dbo.EqualsTransitive | src/main/kotlin/no/fdk/fdk_event_harvester/model/DBO.kt:43-53 | under an isomorphism that is an equivalence, equality is transitive |

## Left out

- HTTP controllers and `EndpointPermissions`: request routing and API-key checks.
- `getEventById` and `getCatalogById` (EventService.kt:24-36): read-only lookups with format conversion.
- Adapters: fetching a source, the organization service and the triple store are network I/O. A fetch is the parameter `Remote.fetch`, the organization lookup a parameter returning an optional record, and the triple store the field `tripleStore`.
- `HarvesterActivity`: coroutines, the semaphore and metrics, and its filter of sources by data type.
- Gzip, Base64 and Turtle encoding of the stores: graphs are stored as graphs. A stored text that fails to parse is not modelled. For `TurtleDBO.equals`, decoding is a parameter that may fail.
- Jena internals (parsing, serialisation, isomorphism, the character-sorted skolem hash, SPARQL ASK). They are parameters or are written out as set operations: the ASK of `isMemberOfAnyCatalog` is Extraction.IsMemberOfAnyCatalog, and `containsTriple("<uri>", "a", "?o")` is PullThrough.TypedIn, an rdf:type check on the model being built. Namespace prefixes are not part of a graph.
- Iteration order of Jena and the repositories: lists come in some order, and properties are stated for every order.
- Exceptions raised after writing has begun (a store failure mid-update): writes in the model cannot fail. Fetch and parse failures, which happen before any write, are modelled.
- Report end times and the Oslo time-zone formatting: a report carries its start time only.
- `TurtleDBO.hashCode`: not modelled.
- `HarvestSourceTurtle`, `EventTurtle` and `FDKEventTurtle` are Kotlin data classes, and TurtleDBO.equals is open. Under Kotlin's rules each data class then generates its own field-by-field equals. The model describes `TurtleDBO.equals` as written.
- Harvester.UpdateDb: when a skolemisation would not end, the model returns no report. It then states only that the stores stay valid, the served graphs are untouched and some pulled graph has a blank-node cycle; which rows were already written is left open. The source never returns there, since the recursion overflows the stack.
- EventService.RemoveEvent: the reported URI is that of one of the rows with the id. The source takes the first row, in an order the repository does not specify.
- UpdateService.UpdateMetaData: when rows share an fdkId, which row's record is stored depends on the repository's order. The model states only that it is one of them.
- Blank nodes across stored graphs: graphs are sets of triples over labelled nodes, so UpdateService.UnionOf merges leaf blank nodes that skolemisation did not rename when two stored graphs use the same label, where parsing each stored text afresh keeps them apart.
- The unique index on `fdkId` (DBO.kt:15): the model does not assume ids are unique across rows, and states the operations for rows sharing an id.
- Catalogs.ExplicitCatalogs: when no result is given, the model states only that some dcat:Catalog resource's pulled graph has a blank cycle.

## Findings

| source | as written | input that shows it | evidently intended | confidence | as-written member | corrected member |
|---|---|---|---|---|---|---|
| src/main/kotlin/no/fdk/fdk_event_harvester/harvester/HarvestHelpers.kt:191-195 | the nn label of the generated catalog is added when the *nb* value is non-blank | an organization with prefLabel nb = "Testdirektoratet", no nn label and no name: the catalog gets the label "null - Hendingskatalog"@nn | the nn label is added when the nn-or-name value is non-blank, as the nb and en labels are | not executed | Catalogs.NnLabelAsWrittenShowsNull | Catalogs.LabelsNeverNull |

The harvest itself follows the code as written: Catalogs.HarvestSourceCatalogGraph
and Catalogs.CreateModelForHarvestSourceCatalog write the labels of
Catalogs.LabelsAsWritten. Catalogs.Labels is the corrected rule, and
Catalogs.LabelsNeverNull proves that none of its labels comes from a missing name.
