/**
  Splitting a harvested graph into events (`splitEventsFromRDF`,
  `listResourcesWithEventType`, `excludeBlankNodes`, `extractEventModel`,
  `isMemberOfAnyCatalog`, `containsFreeServices` and `harvestDiff` in
  HarvestHelpers.kt).
 */
module Extraction {
  import opened Wrappers
  import opened Rdf
  import opened Skolem
  import opened PullThrough

  /** `EventRDFModel`: an event's URI, its skolemised sub-graph and whether a
      catalog of the harvested graph lists it. */
  datatype EventRdfModel = EventRdfModel(eventUri: string, harvested: Graph, isMemberOfAnyCatalog: bool)

  /** The hop budget of an event's pull-through. */
  const EVENT_DEPTH := 10

  /** `harvestDiff`: a missing stored graph always counts as a change;
      otherwise a change is a graph not isomorphic to the stored one. */
  function HarvestDiff(harvested: Graph, stored: Option<Graph>, iso: (Graph, Graph) -> bool): (changed: bool)
    ensures stored.None? ==> changed
    ensures stored.Some? ==> (changed <==> !iso(harvested, stored.value))
  {
    if stored.None? then true else !iso(harvested, stored.value)
  }

  /** Harvesting the stored graph again is not a change, and whether two
      graphs differ does not depend on which of them was stored. */
  lemma HarvestDiffOfEquivalence(h: Graph, k: Graph, iso: (Graph, Graph) -> bool)
    requires IsEquivalence(iso)
    ensures !HarvestDiff(h, Some(h), iso)
    ensures HarvestDiff(h, Some(k), iso) == HarvestDiff(k, Some(h), iso)
  {
  }

  /** `listResourcesWithProperty(RDF.type, c)`. */
  function WithType(g: Graph, c: string): (r: set<Node>)
    ensures forall x :: x in r <==> HasType(g, x, c)
  {
    set t | t in g && t.p == RDF_TYPE && t.o == IRI(c) :: t.s
  }

  /** `listResourcesWithEventType`: the resources of each event class, one
      class after the other; a resource with two event classes is listed twice. */
  method ListResourcesWithEventType(g: Graph) returns (rs: seq<Node>)
    ensures forall x :: x in rs <==> IsEventTyped(g, x)
    ensures ListedByEventType(g, rs)
  {
    var events := Enumerate(WithType(g, CV_EVENT));
    var businessEvents := Enumerate(WithType(g, CV_BUSINESS_EVENT));
    var lifeEvents := Enumerate(WithType(g, CV_LIFE_EVENT));
    rs := events + businessEvents + lifeEvents;
    assert rs[..|events|] == events;
    assert rs[|events|..|events| + |businessEvents|] == businessEvents;
    assert rs[|events| + |businessEvents|..] == lifeEvents;
  }

  /** `rs` lists the resources of cv:Event, then of cv:BusinessEvent, then
      of cv:LifeEvent, each class's resources once and in some order. */
  ghost predicate ListedByEventType(g: Graph, rs: seq<Node>) {
    var a := WithType(g, CV_EVENT);
    var b := WithType(g, CV_BUSINESS_EVENT);
    var c := WithType(g, CV_LIFE_EVENT);
    && |rs| == |a| + |b| + |c|
    && multiset(rs[..|a|]) == multiset(a)
    && multiset(rs[|a|..|a| + |b|]) == multiset(b)
    && multiset(rs[|a| + |b|..]) == multiset(c)
  }

  /** The number of event classes a resource has. */
  function EventClassCount(g: Graph, x: Node): nat {
    (if HasType(g, x, CV_EVENT) then 1 else 0)
    + (if HasType(g, x, CV_BUSINESS_EVENT) then 1 else 0)
    + (if HasType(g, x, CV_LIFE_EVENT) then 1 else 0)
  }

  /** A resource is listed once per event class it has: twice for an event
      typed both cv:Event and cv:LifeEvent, say. */
  lemma ListingCounts(g: Graph, rs: seq<Node>, x: Node)
    requires ListedByEventType(g, rs)
    ensures multiset(rs)[x] == EventClassCount(g, x)
  {
    var a := WithType(g, CV_EVENT);
    var b := WithType(g, CV_BUSINESS_EVENT);
    var c := WithType(g, CV_LIFE_EVENT);
    assert rs == rs[..|a|] + rs[|a|..|a| + |b|] + rs[|a| + |b|..];
    assert multiset(rs) == multiset(a) + multiset(b) + multiset(c);
    assert multiset(a)[x] == if HasType(g, x, CV_EVENT) then 1 else 0;
    assert multiset(b)[x] == if HasType(g, x, CV_BUSINESS_EVENT) then 1 else 0;
    assert multiset(c)[x] == if HasType(g, x, CV_LIFE_EVENT) then 1 else 0;
  }

  /** `evs` holds one model per IRI-named entry of the listing `rs`, in its order. */
  ghost predicate ModelsInOrder(rs: seq<Node>, evs: seq<EventRdfModel>) {
    var es := ExcludeBlankNodes(rs);
    |evs| == |es| && forall i | 0 <= i < |evs| :: IRI(evs[i].eventUri) == es[i]
  }

  /** `excludeBlankNodes`: keeps the IRI-named resources, in order. */
  function ExcludeBlankNodes(rs: seq<Node>): (r: seq<Node>)
    ensures forall x :: x in r <==> x in rs && x.IRI?
    ensures |r| <= |rs|
    ensures rs == [] ==> r == []
    ensures Distinct(rs) ==> Distinct(r)
  {
    if rs == [] then []
    else
      assert Distinct(rs) ==> Distinct(rs[1..]) && rs[0] !in rs[1..];
      if rs[0].IRI? then [rs[0]] + ExcludeBlankNodes(rs[1..])
      else ExcludeBlankNodes(rs[1..])
  }

  /** `isMemberOfAnyCatalog`: some resource typed dcat:Catalog in the whole
      harvested graph lists the event with dcatno:containsEvent. */
  predicate IsMemberOfAnyCatalog(g: Graph, e: Node) {
    exists t | t in g :: t.p == DCATNO_CONTAINS_EVENT && t.o == e && HasType(g, t.s, DCAT_CATALOG)
  }

  /** `containsFreeServices`: some event belongs to no catalog. */
  function ContainsFreeServices(evs: seq<EventRdfModel>): (r: bool)
    ensures r <==> exists i | 0 <= i < |evs| :: !evs[i].isMemberOfAnyCatalog
  {
    if evs == [] then false
    else !evs[0].isMemberOfAnyCatalog || ContainsFreeServices(evs[1..])
  }

  /** The reach of an event's pull-through: from one of its resource objects,
      with the event budget. */
  ghost predicate EventReach(g: Graph, e: Node, x: Node) {
    exists u | u in g && u.s == e && IsResource(u.o) :: InReach(g, u.o, EVENT_DEPTH, x)
  }

  /** What `extractEventModel` pulls together before skolemisation: the
      event's own triples, whole resources within the event's reach, and at
      least every non-excluded resource the event points at. */
  ghost predicate EventPull(g: Graph, e: Node, m: Graph) {
    && Outgoing(g, e) <= m && m <= g
    && (forall t | t in m && t.s != e :: EventReach(g, e, t.s) && Outgoing(g, t.s) <= m)
    && (forall u | u in g && u.s == e && IsResource(u.o) && !Excluded(g, u.o) :: Outgoing(g, u.o) <= m)
  }

  /** `extractEventModel`; `ghost pulled` is the graph before skolemisation,
      and the result is absent when that skolemisation would not terminate. */
  method ExtractEventModel(g: Graph, e: Node, hash: Graph -> string)
    returns (ev: Option<EventRdfModel>, ghost pulled: Graph)
    requires e.IRI?
    ensures EventPull(g, e, pulled)
    ensures ev.Some? <==> BlankAcyclic(pulled)
    ensures ev.Some? ==> ev.value.eventUri == e.iri
    ensures ev.Some? ==> SkolemisedFrom(pulled, e.iri, ev.value.harvested)
    ensures ev.Some? ==> ev.value.isMemberOfAnyCatalog == IsMemberOfAnyCatalog(g, e)
  {
    var model := Outgoing(g, e);
    var todo := set t | t in Outgoing(g, e) && IsResource(t.o);
    ghost var done: set<Triple> := {};
    while todo != {}
      invariant todo + done == set t | t in Outgoing(g, e) && IsResource(t.o)
      invariant Outgoing(g, e) <= model && model <= g
      invariant forall t | t in model && t.s != e :: EventReach(g, e, t.s) && Outgoing(g, t.s) <= model
      invariant forall u | u in done && !Excluded(g, u.o) :: Outgoing(g, u.o) <= model
      decreases todo
    {
      var t :| t in todo;
      var before := model;
      model := RecursiveAdd(g, model, t.o, EVENT_DEPTH);
      EventStep(g, e, before, model, t);
      todo := todo - {t};
      done := done + {t};
    }
    pulled := model;
    var out, sigma := RecursiveBlankNodeSkolem(model, e.iri, hash);
    if out.Skolemised? {
      ev := Some(EventRdfModel(e.iri, out.graph, IsMemberOfAnyCatalog(g, e)));
      assert IsSkolemRenaming(pulled, e.iri, sigma);
    } else {
      ev := None;
    }
  }

  /** One pull from an event's resource object keeps the loop's invariants. */
  lemma EventStep(g: Graph, e: Node, before: Graph, m: Graph, t: Triple)
    requires Outgoing(g, e) <= before && before <= g
    requires forall u | u in before && u.s != e :: EventReach(g, e, u.s) && Outgoing(g, u.s) <= before
    requires t in g && t.s == e && IsResource(t.o)
    requires PulledFrom(g, before, m, t.o, EVENT_DEPTH)
    requires ShouldAdd(g, before, t.o) ==> Outgoing(g, t.o) <= m
    requires !ShouldAdd(g, before, t.o) ==> m == before
    ensures Outgoing(g, e) <= m && m <= g
    ensures forall u | u in m && u.s != e :: EventReach(g, e, u.s) && Outgoing(g, u.s) <= m
    ensures !Excluded(g, t.o) ==> Outgoing(g, t.o) <= m
  {
    forall u | u in m && u.s != e ensures EventReach(g, e, u.s) && Outgoing(g, u.s) <= m {
      if u !in before {
        assert InReach(g, t.o, EVENT_DEPTH, u.s);
      }
    }
    if !Excluded(g, t.o) && !ShouldAdd(g, before, t.o) {
      var w :| w in before && w.s == t.o && w.p == RDF_TYPE;
      assert Outgoing(g, w.s) <= before;
    }
  }

  /** The only excluded resource whose triples an event model holds is the
      event itself. */
  lemma EventPullSkipsExcluded(g: Graph, e: Node, m: Graph, t: Triple)
    requires EventPull(g, e, m) && t in m && Excluded(g, t.s)
    ensures t.s == e
  {
    if t.s != e {
      var u :| u in g && u.s == e && IsResource(u.o) && InReach(g, u.o, EVENT_DEPTH, t.s);
      InReachNotExcluded(g, u.o, EVENT_DEPTH, t.s);
    }
  }

  /** `splitEventsFromRDF`: one model per IRI-named entry of the listing
      `listed`, in its order, so a resource with two event classes has two
      models; absent when the skolemisation of some event would not terminate. */
  method SplitEventsFromRdf(g: Graph, hash: Graph -> string) returns (evs: Option<seq<EventRdfModel>>, ghost listed: seq<Node>)
    ensures ListedByEventType(g, listed)
    ensures evs.Some? ==> ModelsInOrder(listed, evs.value)
    ensures evs.Some? ==> forall i | 0 <= i < |evs.value| ::
      IsEventTyped(g, IRI(evs.value[i].eventUri)) && EventModelOf(g, evs.value[i])
    ensures evs.Some? ==> forall x: Node | x.IRI? && IsEventTyped(g, x) ::
      exists i | 0 <= i < |evs.value| :: evs.value[i].eventUri == x.iri
    ensures evs.None? ==> exists x: Node, m: Graph :: x.IRI? && IsEventTyped(g, x) && EventPull(g, x, m) && !BlankAcyclic(m)
  {
    var rs := ListResourcesWithEventType(g);
    listed := rs;
    var es := ExcludeBlankNodes(rs);
    assert forall x :: x in es <==> x.IRI? && IsEventTyped(g, x);
    var out: seq<EventRdfModel> := [];
    var i := 0;
    while i < |es|
      invariant 0 <= i <= |es| && |out| == i
      invariant forall j | 0 <= j < i :: out[j].eventUri == es[j].iri && EventModelOf(g, out[j])
      decreases |es| - i
    {
      var e := es[i];
      assert e in es;
      var ev, pulled := ExtractEventModel(g, e, hash);
      if ev.None? {
        assert e.IRI? && IsEventTyped(g, e) && EventPull(g, e, pulled) && !BlankAcyclic(pulled);
        evs := None;
        return;
      }
      assert IRI(ev.value.eventUri) == e;
      assert EventModelOf(g, ev.value);
      out := out + [ev.value];
      i := i + 1;
    }
    EventsCovered(g, es, out);
    assert forall j | 0 <= j < |out| :: es[j] in es && IRI(out[j].eventUri) == es[j];
    evs := Some(out);
  }

  /** Models made one per listed IRI event, in order, cover exactly the
      IRI events of the graph. */
  lemma EventsCovered(g: Graph, es: seq<Node>, out: seq<EventRdfModel>)
    requires forall x :: x in es <==> x.IRI? && IsEventTyped(g, x)
    requires |out| == |es| && forall j | 0 <= j < |es| :: out[j].eventUri == es[j].iri
    ensures forall j | 0 <= j < |out| :: IsEventTyped(g, IRI(out[j].eventUri))
    ensures forall x: Node | x.IRI? && IsEventTyped(g, x) :: exists j | 0 <= j < |out| :: out[j].eventUri == x.iri
  {
    forall j | 0 <= j < |out|
      ensures IsEventTyped(g, IRI(out[j].eventUri))
    {
      assert es[j] in es && IRI(out[j].eventUri) == es[j];
    }
    forall x: Node | x.IRI? && IsEventTyped(g, x)
      ensures exists j | 0 <= j < |out| :: out[j].eventUri == x.iri
    {
      var j :| 0 <= j < |es| && es[j] == x;
    }
  }

  /** `ev` is what `extractEventModel` yields for its event on `g`. */
  ghost predicate EventModelOf(g: Graph, ev: EventRdfModel) {
    && (exists m :: EventPull(g, IRI(ev.eventUri), m) && SkolemisedFrom(m, ev.eventUri, ev.harvested))
    && ev.isMemberOfAnyCatalog == IsMemberOfAnyCatalog(g, IRI(ev.eventUri))
  }
}
