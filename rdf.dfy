/** Option and Result, the failure-carrying values used throughout the model. */
module Wrappers {

  datatype Option<+T> = None | Some(value: T) {
    function GetOr(default: T): T {
      match this
      case Some(v) => v
      case None => default
    }
  }

  datatype Result<+T, +E> = Ok(value: T) | Err(error: E)
}

/**
  RDF graphs as finite sets of triples (section 3 of W3C RDF 1.1 Concepts and
  Abstract Syntax), the vocabulary the harvester looks at, and the graph
  queries that several components share.
 */
module Rdf {

  /** An RDF term. `DateTime` is an xsd:dateTime typed literal, kept as its
      millisecond timestamp. */
  datatype Node =
    | IRI(iri: string)
    | Blank(id: nat)
    | Literal(lexical: string, lang: string)
    | DateTime(millis: int)

  datatype Triple = Triple(s: Node, p: string, o: Node)

  type Graph = set<Triple>

  const RDF_TYPE := "http://www.w3.org/1999/02/22-rdf-syntax-ns#type"
  const RDFS_LABEL := "http://www.w3.org/2000/01/rdf-schema#label"
  const DCAT_CATALOG := "http://www.w3.org/ns/dcat#Catalog"
  const DCAT_CATALOG_RECORD := "http://www.w3.org/ns/dcat#CatalogRecord"
  const DCT_PUBLISHER := "http://purl.org/dc/terms/publisher"
  const DCT_IDENTIFIER := "http://purl.org/dc/terms/identifier"
  const DCT_ISSUED := "http://purl.org/dc/terms/issued"
  const DCT_MODIFIED := "http://purl.org/dc/terms/modified"
  const FOAF_PRIMARY_TOPIC := "http://xmlns.com/foaf/0.1/primaryTopic"
  const DCATNO_CONTAINS_EVENT := "https://data.norge.no/vocabulary/dcatno#containsEvent"
  const CPSV_PUBLIC_SERVICE := "http://purl.org/vocab/cpsv#PublicService"
  const CPSVNO_SERVICE := "https://data.norge.no/vocabulary/cpsvno#Service"
  const CV_EVENT := "http://data.europa.eu/m8g/Event"
  const CV_BUSINESS_EVENT := "http://data.europa.eu/m8g/BusinessEvent"
  const CV_LIFE_EVENT := "http://data.europa.eu/m8g/LifeEvent"

  /** Jena's `isResourceProperty`: the object of the statement is a resource. */
  predicate IsResource(n: Node) {
    n.IRI? || n.Blank?
  }

  /** `listProperties()` of a resource: the triples it is the subject of. */
  function Outgoing(g: Graph, n: Node): (r: Graph)
    ensures r <= g
    ensures forall t | t in r :: t.s == n
    ensures forall t | t in g && t.s == n :: t in r
  {
    set t | t in g && t.s == n
  }

  /** `listSubjects()`. */
  function Subjects(g: Graph): (r: set<Node>)
    ensures forall t | t in g :: t.s in r
    ensures forall n | n in r :: exists t | t in g :: t.s == n
  {
    set t | t in g :: t.s
  }

  /** The anonymous subjects of a graph. */
  function BlankSubjects(g: Graph): (r: set<Node>)
    ensures forall t | t in g && t.s.Blank? :: t.s in r
    ensures forall n | n in r :: n.Blank? && exists t | t in g :: t.s == n
  {
    set t | t in g && t.s.Blank? :: t.s
  }

  /** `resource.hasProperty(RDF.type, c)`. */
  predicate HasType(g: Graph, n: Node, c: string) {
    Triple(n, RDF_TYPE, IRI(c)) in g
  }

  /** Typed with one of the three event classes of the Core Vocabularies. */
  predicate IsEventTyped(g: Graph, n: Node) {
    HasType(g, n, CV_EVENT) || HasType(g, n, CV_BUSINESS_EVENT) || HasType(g, n, CV_LIFE_EVENT)
  }

  /** `Model.isIsomorphicWith` is taken as any equivalence relation on graphs
      (section 3.6 of RDF 1.1 Concepts); the algorithm itself is not modelled. */
  ghost predicate IsEquivalence(iso: (Graph, Graph) -> bool) {
    && (forall g :: iso(g, g))
    && (forall g, h :: iso(g, h) ==> iso(h, g))
    && (forall g, h, k :: iso(g, h) && iso(h, k) ==> iso(g, k))
  }

  /** No element occurs twice. */
  predicate Distinct<T(==)>(xs: seq<T>) {
    forall i, j | 0 <= i < j < |xs| :: xs[i] != xs[j]
  }

  /** Lists the elements of a finite set in some order, as Jena's iterators do. */
  method Enumerate<T>(s: set<T>) returns (xs: seq<T>)
    ensures forall x :: x in xs <==> x in s
    ensures |xs| == |s|
    ensures multiset(xs) == multiset(s)
    ensures Distinct(xs)
  {
    xs := [];
    var rest := s;
    while rest != {}
      invariant rest !! (set x | x in xs)
      invariant forall x :: x in s <==> x in rest || x in xs
      invariant |xs| + |rest| == |s|
      invariant multiset(xs) + multiset(rest) == multiset(s)
      invariant Distinct(xs)
      decreases |rest|
    {
      var x :| x in rest;
      assert multiset(rest) == multiset(rest - {x}) + multiset{x};
      xs := xs + [x];
      rest := rest - {x};
    }
  }
}
