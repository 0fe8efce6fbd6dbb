/**
  Catalog extraction and the generated catalog (`splitCatalogsFromRDF`,
  `extractCatalogModel`, `addCatalogProperties`, `generatedCatalog`,
  `createModelForHarvestSourceCatalog` and its publisher, label and event
  builders in HarvestHelpers.kt).
 */
module Catalogs {
  import opened Wrappers
  import opened Rdf
  import opened Skolem
  import opened PullThrough
  import opened Extraction

  /** `CatalogRDFModel`. */
  datatype CatalogRdfModel = CatalogRdfModel(
    resourceUri: string,
    harvested: Graph,
    harvestedWithoutEvents: Graph,
    events: set<string>)

  /** The organization record the publisher lookup returns. */
  datatype PrefLabel = PrefLabel(nb: Option<string>, nn: Option<string>, en: Option<string>)
  datatype Organization = Organization(uri: Option<string>, name: Option<string>, prefLabel: Option<PrefLabel>)

  /** The hop budget of a catalog's pull-through. */
  const CATALOG_DEPTH := 5
  const GENERATED_CATALOG_SUFFIX := "#GeneratedCatalog"

  // ---------------------------------------------------------------- own graph

  /** The catalog's own triples that `addCatalogProperties` keeps: all but
      containsEvent triples whose object is not an IRI. */
  function OwnKept(g: Graph, c: Node): (r: Graph)
    ensures forall t :: t in r <==> t in g && t.s == c && (t.p != DCATNO_CONTAINS_EVENT || t.o.IRI?)
  {
    set t | t in g && t.s == c && (t.p != DCATNO_CONTAINS_EVENT || t.o.IRI?)
  }

  /** Within the catalog budget of a resource object of a non-containsEvent triple. */
  ghost predicate CatalogReach(g: Graph, c: Node, x: Node) {
    exists u | u in g && u.s == c && u.p != DCATNO_CONTAINS_EVENT && IsResource(u.o) ::
      InReach(g, u.o, CATALOG_DEPTH, x)
  }

  /** What `extractCatalogModel` yields before skolemisation: the kept own
      triples, whole resources within reach of the non-containsEvent objects,
      and at least every non-excluded such object other than the catalog. */
  ghost predicate CatalogPull(g: Graph, c: Node, m: Graph) {
    && OwnKept(g, c) <= m && m <= g
    && (forall t | t in m && t !in OwnKept(g, c) :: CatalogReach(g, c, t.s) && Outgoing(g, t.s) <= m)
    && (forall u | u in g && u.s == c && u.p != DCATNO_CONTAINS_EVENT && IsResource(u.o) && !Excluded(g, u.o) && u.o != c ::
          Outgoing(g, u.o) <= m)
  }

  /** `addCatalogProperties`: one own statement of the catalog. */
  method AddCatalogProperty(g: Graph, m: Graph, t: Triple) returns (m': Graph)
    ensures t.p == DCATNO_CONTAINS_EVENT ==> m' == if t.o.IRI? then m + {t} else m
    ensures t.p != DCATNO_CONTAINS_EVENT && !IsResource(t.o) ==> m' == m + {t}
    ensures t.p != DCATNO_CONTAINS_EVENT && IsResource(t.o) ==>
      && PulledFrom(g, m + {t}, m', t.o, CATALOG_DEPTH)
      && (ShouldAdd(g, m + {t}, t.o) ==> Outgoing(g, t.o) <= m')
      && (!ShouldAdd(g, m + {t}, t.o) ==> m' == m + {t})
  {
    if t.p != DCATNO_CONTAINS_EVENT && IsResource(t.o) {
      m' := RecursiveAdd(g, m + {t}, t.o, CATALOG_DEPTH);
    } else if t.p != DCATNO_CONTAINS_EVENT {
      m' := m + {t};
    } else if IsResource(t.o) && t.o.IRI? {
      m' := m + {t};
    } else {
      m' := m;
    }
  }

  /** `extractCatalogModel`: every own statement through `addCatalogProperties`. */
  method ExtractCatalogModel(g: Graph, c: Node) returns (m: Graph)
    ensures CatalogPull(g, c, m)
  {
    m := {};
    var todo := Outgoing(g, c);
    ghost var done: set<Triple> := {};
    while todo != {}
      invariant todo + done == Outgoing(g, c) && todo !! done
      invariant m <= g
      invariant forall t | t in done && (t.p != DCATNO_CONTAINS_EVENT || t.o.IRI?) :: t in m
      invariant forall t | t in m && t !in OwnKept(g, c) :: CatalogReach(g, c, t.s) && Outgoing(g, t.s) <= m
      invariant forall u | u in done && u.p != DCATNO_CONTAINS_EVENT && IsResource(u.o) && !Excluded(g, u.o) && u.o != c ::
                  Outgoing(g, u.o) <= m
      decreases todo
    {
      var t :| t in todo;
      var before := m;
      m := AddCatalogProperty(g, m, t);
      CatalogStep(g, c, before, m, t);
      todo := todo - {t};
      done := done + {t};
    }
  }

  /** One own statement keeps the loop's invariants. */
  lemma CatalogStep(g: Graph, c: Node, before: Graph, m: Graph, t: Triple)
    requires before <= g && t in g && t.s == c
    requires forall u | u in before && u !in OwnKept(g, c) :: CatalogReach(g, c, u.s) && Outgoing(g, u.s) <= before
    requires t.p == DCATNO_CONTAINS_EVENT ==> m == if t.o.IRI? then before + {t} else before
    requires t.p != DCATNO_CONTAINS_EVENT && !IsResource(t.o) ==> m == before + {t}
    requires t.p != DCATNO_CONTAINS_EVENT && IsResource(t.o) ==>
      && PulledFrom(g, before + {t}, m, t.o, CATALOG_DEPTH)
      && (ShouldAdd(g, before + {t}, t.o) ==> Outgoing(g, t.o) <= m)
      && (!ShouldAdd(g, before + {t}, t.o) ==> m == before + {t})
    ensures before <= m && m <= g
    ensures (t.p != DCATNO_CONTAINS_EVENT || t.o.IRI?) ==> t in m
    ensures forall u | u in m && u !in OwnKept(g, c) :: CatalogReach(g, c, u.s) && Outgoing(g, u.s) <= m
    ensures t.p != DCATNO_CONTAINS_EVENT && IsResource(t.o) && !Excluded(g, t.o) && t.o != c ==> Outgoing(g, t.o) <= m
  {
    if t.p != DCATNO_CONTAINS_EVENT && IsResource(t.o) {
      forall u | u in m && u !in OwnKept(g, c) ensures CatalogReach(g, c, u.s) && Outgoing(g, u.s) <= m {
        if u !in before + {t} {
          assert InReach(g, t.o, CATALOG_DEPTH, u.s);
        }
      }
      if !Excluded(g, t.o) && t.o != c && !ShouldAdd(g, before + {t}, t.o) {
        var w :| w in before + {t} && w.s == t.o && w.p == RDF_TYPE;
        assert w in before && w !in OwnKept(g, c);
      }
    }
  }

  /** A catalog not within reach of its own objects keeps containsEvent
      triples only with IRI objects; pulled resources never bring in the
      triples of an event, so members are not expanded inline. */
  lemma CatalogPullContainsEvent(g: Graph, c: Node, m: Graph)
    requires CatalogPull(g, c, m)
    ensures !CatalogReach(g, c, c) ==>
      forall t | t in m && t.s == c && t.p == DCATNO_CONTAINS_EVENT :: t.o.IRI?
    ensures forall t | t in m && t.s != c :: !IsEventTyped(g, t.s)
  {
    forall t | t in m && t.s != c ensures !IsEventTyped(g, t.s) {
      var u :| u in g && u.s == c && u.p != DCATNO_CONTAINS_EVENT && IsResource(u.o) && InReach(g, u.o, CATALOG_DEPTH, t.s);
      InReachNotExcluded(g, u.o, CATALOG_DEPTH, t.s);
    }
  }

  // ---------------------------------------------------------------- explicit catalogs

  /** `hasProperty(DCATNO.containsEvent)`, whatever the object. */
  predicate HasContainsEvent(g: Graph, c: Node) {
    exists t | t in g :: t.s == c && t.p == DCATNO_CONTAINS_EVENT
  }

  /** The member URIs: IRI objects of the catalog's containsEvent triples. */
  function CatalogEvents(g: Graph, c: Node): (r: set<string>)
    ensures forall u :: u in r <==> Triple(c, DCATNO_CONTAINS_EVENT, IRI(u)) in g
  {
    set t | t in g && t.s == c && t.p == DCATNO_CONTAINS_EVENT && t.o.IRI? :: t.o.iri
  }

  /** Keeps the resources that have a containsEvent triple, in order. */
  function WithContainsEvent(g: Graph, rs: seq<Node>): (r: seq<Node>)
    ensures forall x :: x in r <==> x in rs && HasContainsEvent(g, x)
    ensures Distinct(rs) ==> Distinct(r)
  {
    if rs == [] then []
    else
      assert Distinct(rs) ==> Distinct(rs[1..]) && rs[0] !in rs[1..];
      if HasContainsEvent(g, rs[0]) then [rs[0]] + WithContainsEvent(g, rs[1..])
      else WithContainsEvent(g, rs[1..])
  }

  /** The union of the sub-graphs of the events whose URI is in `members`. */
  function MembersUnion(evs: seq<EventRdfModel>, members: set<string>): (r: Graph)
    ensures forall t :: t in r <==> exists i | 0 <= i < |evs| :: evs[i].eventUri in members && t in evs[i].harvested
  {
    if evs == [] then {}
    else
      var last := evs[|evs| - 1];
      var rest := MembersUnion(evs[..|evs| - 1], members);
      assert forall i | 0 <= i < |evs| - 1 :: evs[i] == evs[..|evs| - 1][i];
      rest + if last.eventUri in members then last.harvested else {}
  }

  /** The `var catalogModel` loops: the base graph unioned, one event at a
      time, with the sub-graphs of the events in `members`. */
  method UnionEvents(base: Graph, evs: seq<EventRdfModel>, members: set<string>) returns (m: Graph)
    ensures m == base + MembersUnion(evs, members)
  {
    m := base;
    var i := 0;
    while i < |evs|
      invariant 0 <= i <= |evs|
      invariant m == base + MembersUnion(evs[..i], members)
      decreases |evs| - i
    {
      if evs[i].eventUri in members {
        m := m + evs[i].harvested;
      }
      assert evs[..i + 1][..i] == evs[..i];
      i := i + 1;
    }
    assert evs[..i] == evs;
  }

  /** `ct` is what `splitCatalogsFromRDF` yields for an explicit catalog of `g`. */
  ghost predicate ExplicitCatalogOf(g: Graph, evs: seq<EventRdfModel>, ct: CatalogRdfModel) {
    var c := IRI(ct.resourceUri);
    && HasType(g, c, DCAT_CATALOG) && HasContainsEvent(g, c)
    && ct.events == CatalogEvents(g, c)
    && (exists m :: CatalogPull(g, c, m) && SkolemisedFrom(m, ct.resourceUri, ct.harvestedWithoutEvents))
    && ct.harvested == ct.harvestedWithoutEvents + MembersUnion(evs, ct.events)
  }

  /** One explicit catalog; absent when its skolemisation would not terminate. */
  method ExplicitCatalog(g: Graph, evs: seq<EventRdfModel>, c: Node, hash: Graph -> string)
    returns (ct: Option<CatalogRdfModel>, ghost pulled: Graph)
    requires c.IRI? && HasType(g, c, DCAT_CATALOG) && HasContainsEvent(g, c)
    ensures CatalogPull(g, c, pulled)
    ensures ct.Some? <==> BlankAcyclic(pulled)
    ensures ct.Some? ==> ct.value.resourceUri == c.iri && ExplicitCatalogOf(g, evs, ct.value)
  {
    var members := CatalogEvents(g, c);
    var own := ExtractCatalogModel(g, c);
    pulled := own;
    var out, sigma := RecursiveBlankNodeSkolem(own, c.iri, hash);
    if out.Diverges? {
      return None, pulled;
    }
    var withEvents := UnionEvents(out.graph, evs, members);
    ct := Some(CatalogRdfModel(c.iri, withEvents, out.graph, members));
    assert IsSkolemRenaming(pulled, c.iri, sigma);
  }

  // ---------------------------------------------------------------- generated catalog

  /** `isNullOrBlank`: absent, or only whitespace in the sense of Kotlin's `Char.isWhitespace`. */
  predicate IsNullOrBlank(s: Option<string>) {
    s.None? || forall i | 0 <= i < |s.value| :: IsWhitespace(s.value[i])
  }

  predicate IsWhitespace(ch: char) {
    || ('\U{0009}' <= ch <= '\U{000D}') || ('\U{001C}' <= ch <= '\U{0020}')
    || ch == '\U{00A0}' || ch == '\U{1680}' || ('\U{2000}' <= ch <= '\U{200A}')
    || ch == '\U{2028}' || ch == '\U{2029}' || ch == '\U{202F}' || ch == '\U{205F}' || ch == '\U{3000}'
  }

  /** Kotlin's `a ?: b`. */
  function Elvis(a: Option<string>, b: Option<string>): Option<string> {
    if a.Some? then a else b
  }

  /** A nullable string in a string template: `null` prints as "null". */
  function Show(s: Option<string>): string {
    if s.Some? then s.value else "null"
  }

  function NbName(org: Option<Organization>): Option<string> {
    if org.None? then None
    else Elvis(if org.value.prefLabel.Some? then org.value.prefLabel.value.nb else None, org.value.name)
  }

  function NnName(org: Option<Organization>): Option<string> {
    if org.None? then None
    else Elvis(if org.value.prefLabel.Some? then org.value.prefLabel.value.nn else None, org.value.name)
  }

  function EnName(org: Option<Organization>): Option<string> {
    if org.None? then None
    else Elvis(if org.value.prefLabel.Some? then org.value.prefLabel.value.en else None, org.value.name)
  }

  /** The labels `addLabelForGeneratedCatalog` adds, as written: the nn
      label is guarded by the nb name, not by the nn name. */
  function LabelsAsWritten(org: Option<Organization>): (r: set<Node>)
    ensures Literal(Show(NbName(org)) + " - Hendelsekatalog", "nb") in r <==> !IsNullOrBlank(NbName(org))
    ensures Literal(Show(NnName(org)) + " - Hendingskatalog", "nn") in r <==> !IsNullOrBlank(NbName(org))
    ensures Literal(Show(EnName(org)) + " - Event catalog", "en") in r <==> !IsNullOrBlank(EnName(org))
    ensures forall l | l in r :: l.Literal? && l.lang in {"nb", "nn", "en"}
  {
    (if !IsNullOrBlank(NbName(org)) then {Literal(Show(NbName(org)) + " - Hendelsekatalog", "nb")} else {})
    + (if !IsNullOrBlank(NbName(org)) then {Literal(Show(NnName(org)) + " - Hendingskatalog", "nn")} else {})
    + (if !IsNullOrBlank(EnName(org)) then {Literal(Show(EnName(org)) + " - Event catalog", "en")} else {})
  }

  /** The labels with each language guarded by its own name: the rule the
      nb and en labels follow, applied to nn as well. */
  function Labels(org: Option<Organization>): (r: set<Node>)
    ensures Literal(Show(NbName(org)) + " - Hendelsekatalog", "nb") in r <==> !IsNullOrBlank(NbName(org))
    ensures Literal(Show(NnName(org)) + " - Hendingskatalog", "nn") in r <==> !IsNullOrBlank(NnName(org))
    ensures Literal(Show(EnName(org)) + " - Event catalog", "en") in r <==> !IsNullOrBlank(EnName(org))
    ensures forall l | l in r :: l.Literal? && l.lang in {"nb", "nn", "en"}
  {
    (if !IsNullOrBlank(NbName(org)) then {Literal(Show(NbName(org)) + " - Hendelsekatalog", "nb")} else {})
    + (if !IsNullOrBlank(NnName(org)) then {Literal(Show(NnName(org)) + " - Hendingskatalog", "nn")} else {})
    + (if !IsNullOrBlank(EnName(org)) then {Literal(Show(EnName(org)) + " - Event catalog", "en")} else {})
  }

  /** Every label has a name that is not blank behind it: none reads "null". */
  lemma LabelsNeverNull(org: Option<Organization>, l: Node)
    requires l in Labels(org)
    ensures exists s | s in [NbName(org), NnName(org), EnName(org)] :: !IsNullOrBlank(s) && s.Some?
  {
    if l.lang == "nb" {
      assert NbName(org) in [NbName(org), NnName(org), EnName(org)];
    } else if l.lang == "nn" {
      assert NnName(org) in [NbName(org), NnName(org), EnName(org)];
    } else {
      assert EnName(org) in [NbName(org), NnName(org), EnName(org)];
    }
  }

  /** An organization with a Bokmål name only: as written, the generated
      catalog gets the Nynorsk label "null - Hendingskatalog". */
  lemma NnLabelAsWrittenShowsNull()
    ensures var org := Some(Organization(None, None, Some(PrefLabel(Some("Testdirektoratet"), None, None))));
      Literal("null - Hendingskatalog", "nn") in LabelsAsWritten(org)
      && Literal("null - Hendingskatalog", "nn") !in Labels(org)
  {
    var org := Some(Organization(None, None, Some(PrefLabel(Some("Testdirektoratet"), None, None))));
    assert !IsNullOrBlank(NbName(org)) by {
      assert NbName(org) == Some("Testdirektoratet");
      assert !IsWhitespace(NbName(org).value[0]);
    }
    assert NnName(org) == None;
    assert Show(NnName(org)) + " - Hendingskatalog" == "null - Hendingskatalog";
  }

  /** The graph `createModelForHarvestSourceCatalog` builds, with the labels
      as `addLabelForGeneratedCatalog` writes them. */
  function HarvestSourceCatalogGraph(catalogUri: string, events: set<string>, org: Option<Organization>): Graph {
    var c := IRI(catalogUri);
    {Triple(c, RDF_TYPE, IRI(DCAT_CATALOG))}
    + (if org.Some? && org.value.uri.Some? then {Triple(c, DCT_PUBLISHER, IRI(org.value.uri.value))} else {})
    + (set l | l in LabelsAsWritten(org) :: Triple(c, RDFS_LABEL, l))
    + (set e | e in events :: Triple(c, DCATNO_CONTAINS_EVENT, IRI(e)))
  }

  /** The generated catalog is a dcat:Catalog whose only triples are about
      itself, and it has a publisher exactly when the organization has a URI. */
  lemma HarvestSourceCatalogShape(catalogUri: string, events: set<string>, org: Option<Organization>)
    ensures var m := HarvestSourceCatalogGraph(catalogUri, events, org);
      && HasType(m, IRI(catalogUri), DCAT_CATALOG)
      && (forall t | t in m :: t.s == IRI(catalogUri))
      && ((exists t | t in m :: t.p == DCT_PUBLISHER) <==> org.Some? && org.value.uri.Some?)
  {
    var m := HarvestSourceCatalogGraph(catalogUri, events, org);
    if org.Some? && org.value.uri.Some? {
      assert Triple(IRI(catalogUri), DCT_PUBLISHER, IRI(org.value.uri.value)) in m;
    }
  }

  /** The generated catalog's labels are exactly those `addLabelForGeneratedCatalog`
      adds: so an organization with a Bokmål name only gets "null - Hendingskatalog". */
  lemma HarvestSourceCatalogLabels(catalogUri: string, events: set<string>, org: Option<Organization>)
    ensures var m := HarvestSourceCatalogGraph(catalogUri, events, org);
      forall l :: Triple(IRI(catalogUri), RDFS_LABEL, l) in m <==> l in LabelsAsWritten(org)
  {
  }

  /** `cats` models the explicit catalogs of `g` that list events, then the
      generated catalog of the events no catalog lists. */
  ghost predicate CatalogsOf(g: Graph, evs: seq<EventRdfModel>, sourceUrl: string, org: Option<Organization>,
                             cats: seq<CatalogRdfModel>) {
    && |cats| >= 1
    && (forall i | 0 <= i < |cats| - 1 :: ExplicitCatalogOf(g, evs, cats[i]))
    && (forall c: Node | c.IRI? && HasType(g, c, DCAT_CATALOG) && HasContainsEvent(g, c) ::
          exists i | 0 <= i < |cats| - 1 :: cats[i].resourceUri == c.iri)
    && (forall i, j | 0 <= i < j < |cats| - 1 :: cats[i].resourceUri != cats[j].resourceUri)
    && var gen := cats[|cats| - 1];
    && gen.resourceUri == sourceUrl + GENERATED_CATALOG_SUFFIX
    && gen.events == EventUris(FreeEvents(evs))
    && gen.harvestedWithoutEvents == HarvestSourceCatalogGraph(gen.resourceUri, gen.events, org)
    && gen.harvested == gen.harvestedWithoutEvents + MembersUnion(FreeEvents(evs), gen.events)
  }

  /** The generated catalog lists exactly the given events. */
  lemma HarvestSourceCatalogEvents(catalogUri: string, events: set<string>, org: Option<Organization>)
    ensures CatalogEvents(HarvestSourceCatalogGraph(catalogUri, events, org), IRI(catalogUri)) == events
  {
    var m := HarvestSourceCatalogGraph(catalogUri, events, org);
    var c := IRI(catalogUri);
    forall e | e in CatalogEvents(m, c) ensures e in events {
      assert Triple(c, DCATNO_CONTAINS_EVENT, IRI(e)) in m;
    }
    forall e | e in events ensures e in CatalogEvents(m, c) {
      assert Triple(c, DCATNO_CONTAINS_EVENT, IRI(e)) in m;
    }
  }

  /** `createModelForHarvestSourceCatalog`: the type, the publisher, the
      labels and then one containsEvent triple per event. */
  method CreateModelForHarvestSourceCatalog(catalogUri: string, events: set<string>, org: Option<Organization>)
    returns (m: Graph)
    ensures m == HarvestSourceCatalogGraph(catalogUri, events, org)
  {
    var c := IRI(catalogUri);
    m := {Triple(c, RDF_TYPE, IRI(DCAT_CATALOG))};
    if org.Some? && org.value.uri.Some? {
      m := m + {Triple(c, DCT_PUBLISHER, IRI(org.value.uri.value))};
    }
    m := m + set l | l in LabelsAsWritten(org) :: Triple(c, RDFS_LABEL, l);
    ghost var head := m;
    var todo := events;
    while todo != {}
      invariant todo <= events
      invariant m == head + set e | e in events - todo :: Triple(c, DCATNO_CONTAINS_EVENT, IRI(e))
      decreases todo
    {
      var e :| e in todo;
      m := m + {Triple(c, DCATNO_CONTAINS_EVENT, IRI(e))};
      todo := todo - {e};
    }
    assert events - todo == events;
  }

  /** The URIs of a list of events. */
  function EventUris(evs: seq<EventRdfModel>): (r: set<string>)
    ensures forall u :: u in r <==> exists ev | ev in evs :: ev.eventUri == u
  {
    if evs == [] then {}
    else
      assert forall ev | ev in evs :: ev == evs[0] || ev in evs[1..];
      {evs[0].eventUri} + EventUris(evs[1..])
  }

  /** `generatedCatalog`: the catalog `sourceURL#GeneratedCatalog` listing
      the given events, with all their sub-graphs. */
  method GeneratedCatalog(evs: seq<EventRdfModel>, sourceUrl: string, org: Option<Organization>)
    returns (ct: CatalogRdfModel)
    ensures ct.resourceUri == sourceUrl + GENERATED_CATALOG_SUFFIX
    ensures ct.events == EventUris(evs)
    ensures ct.harvestedWithoutEvents == HarvestSourceCatalogGraph(ct.resourceUri, ct.events, org)
    ensures ct.harvested == ct.harvestedWithoutEvents + MembersUnion(evs, ct.events)
  {
    var eventUris := EventUris(evs);
    var uri := sourceUrl + GENERATED_CATALOG_SUFFIX;
    var own := CreateModelForHarvestSourceCatalog(uri, eventUris, org);
    var withEvents := UnionEvents(own, evs, eventUris);
    ct := CatalogRdfModel(uri, withEvents, own, eventUris);
  }

  /** The events no catalog lists (`filterNot { it.isMemberOfAnyCatalog }`). */
  function FreeEvents(evs: seq<EventRdfModel>): (r: seq<EventRdfModel>)
    ensures forall ev :: ev in r <==> ev in evs && !ev.isMemberOfAnyCatalog
  {
    if evs == [] then []
    else if !evs[0].isMemberOfAnyCatalog then [evs[0]] + FreeEvents(evs[1..])
    else FreeEvents(evs[1..])
  }

  // ---------------------------------------------------------------- splitting

  /** The catalogs `splitCatalogsFromRDF` extracts, in listing order: the
      IRI-named dcat:Catalog resources with a containsEvent triple. */
  method ListCatalogs(g: Graph) returns (cs: seq<Node>)
    ensures forall j | 0 <= j < |cs| :: cs[j].IRI? && HasType(g, cs[j], DCAT_CATALOG) && HasContainsEvent(g, cs[j])
    ensures forall c: Node | c.IRI? && HasType(g, c, DCAT_CATALOG) && HasContainsEvent(g, c) :: c in cs
    ensures Distinct(cs)
  {
    var typed := Enumerate(WithType(g, DCAT_CATALOG));
    cs := WithContainsEvent(g, ExcludeBlankNodes(typed));
    forall c: Node | c.IRI? && HasType(g, c, DCAT_CATALOG) && HasContainsEvent(g, c) ensures c in cs {
      assert c in ExcludeBlankNodes(typed);
    }
    forall j | 0 <= j < |cs| ensures cs[j].IRI? && HasType(g, cs[j], DCAT_CATALOG) && HasContainsEvent(g, cs[j]) {
      assert cs[j] in cs;
    }
  }

  /** The explicit catalogs of `splitCatalogsFromRDF`. */
  method ExplicitCatalogs(g: Graph, evs: seq<EventRdfModel>, hash: Graph -> string)
    returns (cats: Option<seq<CatalogRdfModel>>)
    ensures cats.Some? ==> forall i | 0 <= i < |cats.value| :: ExplicitCatalogOf(g, evs, cats.value[i])
    ensures cats.Some? ==> forall c: Node | c.IRI? && HasType(g, c, DCAT_CATALOG) && HasContainsEvent(g, c) ::
      exists i | 0 <= i < |cats.value| :: cats.value[i].resourceUri == c.iri
    ensures cats.Some? ==> forall i, j | 0 <= i < j < |cats.value| :: cats.value[i].resourceUri != cats.value[j].resourceUri
    ensures cats.None? ==> exists c: Node, m: Graph ::
      c.IRI? && HasType(g, c, DCAT_CATALOG) && CatalogPull(g, c, m) && !BlankAcyclic(m)
  {
    var cs := ListCatalogs(g);
    var out: seq<CatalogRdfModel> := [];
    var i := 0;
    while i < |cs|
      invariant 0 <= i <= |cs| && |out| == i
      invariant forall j | 0 <= j < i :: out[j].resourceUri == cs[j].iri && ExplicitCatalogOf(g, evs, out[j])
      decreases |cs| - i
    {
      var c := cs[i];
      var ct, pulled := ExplicitCatalog(g, evs, c, hash);
      if ct.None? {
        assert c.IRI? && HasType(g, c, DCAT_CATALOG) && CatalogPull(g, c, pulled) && !BlankAcyclic(pulled);
        return None;
      }
      out := out + [ct.value];
      i := i + 1;
    }
    CatalogsCovered(g, cs, out);
    assert forall i, j | 0 <= i < j < |out| :: cs[i] != cs[j] && cs[i].IRI? && cs[j].IRI?;
    cats := Some(out);
  }

  /** Models made one per listed catalog, in order, cover every IRI catalog
      of the graph that lists events. */
  lemma CatalogsCovered(g: Graph, cs: seq<Node>, out: seq<CatalogRdfModel>)
    requires forall c: Node | c.IRI? && HasType(g, c, DCAT_CATALOG) && HasContainsEvent(g, c) :: c in cs
    requires |out| == |cs| && forall j | 0 <= j < |cs| :: cs[j].IRI? && out[j].resourceUri == cs[j].iri
    ensures forall c: Node | c.IRI? && HasType(g, c, DCAT_CATALOG) && HasContainsEvent(g, c) ::
      exists j | 0 <= j < |out| :: out[j].resourceUri == c.iri
  {
    forall c: Node | c.IRI? && HasType(g, c, DCAT_CATALOG) && HasContainsEvent(g, c)
      ensures exists j | 0 <= j < |out| :: out[j].resourceUri == c.iri
    {
      var j :| 0 <= j < |cs| && cs[j] == c;
      assert out[j].resourceUri == c.iri;
    }
  }

  /** `splitCatalogsFromRDF`: the explicit catalogs, then the generated
      one; absent when the skolemisation of some catalog would not terminate. */
  method SplitCatalogsFromRdf(g: Graph, evs: seq<EventRdfModel>, sourceUrl: string,
                              org: Option<Organization>, hash: Graph -> string)
    returns (cats: Option<seq<CatalogRdfModel>>)
    ensures cats.Some? ==> CatalogsOf(g, evs, sourceUrl, org, cats.value)
    ensures cats.None? ==> exists c: Node, m: Graph ::
      c.IRI? && HasType(g, c, DCAT_CATALOG) && CatalogPull(g, c, m) && !BlankAcyclic(m)
  {
    var explicit := ExplicitCatalogs(g, evs, hash);
    if explicit.None? {
      return None;
    }
    var gen := GeneratedCatalog(FreeEvents(evs), sourceUrl, org);
    cats := Some(explicit.value + [gen]);
    assert forall i | 0 <= i < |explicit.value| :: cats.value[i] == explicit.value[i];
  }

  /** The generated catalog lists exactly the harvested events that no
      catalog of the harvested graph lists. */
  lemma GeneratedCatalogMembers(g: Graph, evs: seq<EventRdfModel>, u: string)
    requires forall ev | ev in evs :: ev.isMemberOfAnyCatalog == IsMemberOfAnyCatalog(g, IRI(ev.eventUri))
    ensures u in EventUris(FreeEvents(evs)) <==> u in EventUris(evs) && !IsMemberOfAnyCatalog(g, IRI(u))
  {
    if u in EventUris(FreeEvents(evs)) {
      var ev :| ev in FreeEvents(evs) && ev.eventUri == u;
    }
    if u in EventUris(evs) && !IsMemberOfAnyCatalog(g, IRI(u)) {
      var ev :| ev in evs && ev.eventUri == u;
      assert ev in FreeEvents(evs);
    }
  }
}
