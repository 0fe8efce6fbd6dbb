/**
  Pull-through of related resources (`recursiveAddNonEventOrServiceResource`
  and `resourceShouldBeAdded` in HarvestHelpers.kt). Starting from one
  resource, the triples of every reachable resource are copied from the
  harvested graph into the model being built, to a hop budget, skipping
  services, events and IRI resources the model already types.
 */
module PullThrough {
  import opened Rdf

  /** Typed cpsv:PublicService, cpsvno:Service or one of the event classes in
      the harvested graph: such a resource's triples are never pulled in. */
  predicate Excluded(g: Graph, r: Node) {
    HasType(g, r, CPSV_PUBLIC_SERVICE) || HasType(g, r, CPSVNO_SERVICE) || IsEventTyped(g, r)
  }

  /** `containsTriple("<uri>", "a", "?o")`: the model has an rdf:type triple for the resource. */
  predicate TypedIn(m: Graph, r: Node) {
    exists t | t in m :: t.s == r && t.p == RDF_TYPE
  }

  /** `resourceShouldBeAdded`: the exclusion test on the harvested graph, then,
      for an IRI, the test that the model does not already type it. */
  predicate ShouldAdd(g: Graph, m: Graph, r: Node)
    ensures ShouldAdd(g, m, r) ==> !Excluded(g, r)
    ensures r.Blank? ==> (ShouldAdd(g, m, r) <==> !Excluded(g, r))
    ensures r.IRI? ==> (ShouldAdd(g, m, r) <==> !Excluded(g, r) && !TypedIn(m, r))
  {
    if Excluded(g, r) then false
    else if !r.IRI? then true
    else !TypedIn(m, r)
  }

  /** `x` is reachable from `r` through resource-valued triples of the
      harvested graph along non-excluded resources, within `count` levels of
      the recursion: `r` itself at `count`, its objects at `count - 1`, and so
      on while the budget stays positive. */
  ghost predicate InReach(g: Graph, r: Node, count: int, x: Node)
    decreases count
  {
    && !Excluded(g, r)
    && (x == r || (count - 1 > 0 && exists t | t in g && t.s == r && IsResource(t.o) :: InReach(g, t.o, count - 1, x)))
  }

  /** The triples of `r`'s resource objects are in `m`, unless `r`'s object
      is excluded or was already typed in `model` before the pull started. */
  ghost predicate ChildrenPulled(g: Graph, model: Graph, m: Graph, r: Node) {
    forall t | t in g && t.s == r && IsResource(t.o) && !Excluded(g, t.o) ::
      Outgoing(g, t.o) <= m || TypedIn(model, t.o)
  }

  /** What a pull adds: triples of the harvested graph whose subjects are
      within reach and whose whole outgoing triples come along. */
  ghost predicate PulledFrom(g: Graph, model: Graph, m: Graph, r: Node, count: int) {
    && model <= m && m <= model + g
    && forall t | t in m && t !in model :: InReach(g, r, count, t.s) && Outgoing(g, t.s) <= m
  }

  /** `recursiveAddNonEventOrServiceResource`: adds `r`'s triples when it
      should be added, and then, while the decremented budget is positive,
      pulls each of its resource objects with that budget. */
  method RecursiveAdd(g: Graph, model: Graph, r: Node, count: int) returns (m: Graph)
    ensures PulledFrom(g, model, m, r, count)
    ensures ShouldAdd(g, model, r) ==> Outgoing(g, r) <= m
    ensures !ShouldAdd(g, model, r) ==> m == model
    ensures ShouldAdd(g, model, r) && count - 1 > 0 ==> ChildrenPulled(g, model, m, r)
    decreases count
  {
    var newCount := count - 1;
    m := model;
    if ShouldAdd(g, model, r) {
      m := m + Outgoing(g, r);
      assert InReach(g, r, count, r);
      if newCount > 0 {
        var todo := set t | t in Outgoing(g, r) && IsResource(t.o);
        ghost var done: set<Triple> := {};
        while todo != {}
          invariant todo + done == set t | t in Outgoing(g, r) && IsResource(t.o)
          invariant PulledFrom(g, model, m, r, count) && Outgoing(g, r) <= m
          invariant forall t | t in done && !Excluded(g, t.o) :: Outgoing(g, t.o) <= m || TypedIn(model, t.o)
          decreases todo
        {
          var t :| t in todo;
          var before := m;
          m := RecursiveAdd(g, m, t.o, newCount);
          PullStep(g, model, before, m, r, count, t);
          todo := todo - {t};
          done := done + {t};
        }
      }
    }
  }

  /** One recursive call inside the loop keeps what the loop has established. */
  lemma PullStep(g: Graph, model: Graph, before: Graph, m: Graph, r: Node, count: int, t: Triple)
    requires PulledFrom(g, model, before, r, count) && Outgoing(g, r) <= before
    requires t in g && t.s == r && IsResource(t.o) && count - 1 > 0 && !Excluded(g, r)
    requires PulledFrom(g, before, m, t.o, count - 1)
    requires ShouldAdd(g, before, t.o) ==> Outgoing(g, t.o) <= m
    requires !ShouldAdd(g, before, t.o) ==> m == before
    ensures PulledFrom(g, model, m, r, count) && Outgoing(g, r) <= m
    ensures !Excluded(g, t.o) ==> Outgoing(g, t.o) <= m || TypedIn(model, t.o)
  {
    forall u | u in m && u !in model ensures InReach(g, r, count, u.s) && Outgoing(g, u.s) <= m {
      if u !in before {
        assert InReach(g, t.o, count - 1, u.s);
      }
    }
    if !Excluded(g, t.o) && !ShouldAdd(g, before, t.o) {
      TypedEarlier(g, model, before, r, count, t.o);
    }
  }

  /** An IRI typed in the model is typed in the model the pull started from,
      or its triples were pulled in already. */
  lemma TypedEarlier(g: Graph, model: Graph, m: Graph, r: Node, count: int, x: Node)
    requires PulledFrom(g, model, m, r, count) && TypedIn(m, x)
    ensures Outgoing(g, x) <= m || TypedIn(model, x)
  {
    var u :| u in m && u.s == x && u.p == RDF_TYPE;
    if u !in model {
      assert Outgoing(g, u.s) <= m;
    }
  }

  /** A resource within reach is not excluded. */
  lemma {:induction false} InReachNotExcluded(g: Graph, r: Node, count: int, x: Node)
    requires InReach(g, r, count, x)
    ensures !Excluded(g, x)
    decreases count
  {
    if x != r {
      var t :| t in g && t.s == r && IsResource(t.o) && InReach(g, t.o, count - 1, x);
      InReachNotExcluded(g, t.o, count - 1, x);
    }
  }

  /** `ts` is a walk from `r` to `x` along resource-valued triples of `g`
      whose resources are not excluded. */
  ghost predicate IsWalk(g: Graph, r: Node, ts: seq<Triple>, x: Node) {
    && (forall i | 0 <= i < |ts| :: ts[i] in g && IsResource(ts[i].o) && !Excluded(g, ts[i].s))
    && (forall i | 0 <= i < |ts| - 1 :: ts[i].o == ts[i + 1].s)
    && (ts == [] ==> x == r)
    && (ts != [] ==> ts[0].s == r && ts[|ts| - 1].o == x)
    && !Excluded(g, x)
  }

  /** The hop budget: a resource within reach is `r` itself or the end of a
      walk from `r` of fewer than `count` triples. */
  lemma {:induction false} InReachWalk(g: Graph, r: Node, count: int, x: Node) returns (ts: seq<Triple>)
    requires InReach(g, r, count, x)
    ensures IsWalk(g, r, ts, x)
    ensures ts == [] || |ts| < count
    decreases count
  {
    if x == r {
      ts := [];
    } else {
      var t :| t in g && t.s == r && IsResource(t.o) && InReach(g, t.o, count - 1, x);
      var rest := InReachWalk(g, t.o, count - 1, x);
      ts := [t] + rest;
      assert forall i | 1 <= i < |ts| :: ts[i] == rest[i - 1];
    }
  }
}
