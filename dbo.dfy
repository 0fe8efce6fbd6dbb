/**
  Equality of stored graph documents (`TurtleDBO.equals` in DBO.kt): same
  object, then same runtime class, then same id, then the two gzipped
  Turtle texts compared as graphs. Decoding (Base64, gunzip, Turtle
  parsing) is a parameter that may fail; graph comparison is a parameter
  taken as an equivalence where a property needs it.
 */
module Dbo {
  import opened Wrappers
  import opened Rdf

  /** The document classes of DBO.kt that share `TurtleDBO`. */
  datatype TurtleKind = HarvestSourceTurtle | EventTurtle | FdkEventTurtle

  /** A stored graph document: its class, its id and its gzipped Turtle text. */
  datatype TurtleDbo = TurtleDbo(kind: TurtleKind, id: string, turtle: string)

  /** The argument of `equals(other: Any?)`: null, an object of another
      class, or a stored graph document. */
  datatype Other = Null | Foreign | Document(dbo: TurtleDbo)

  /** `zippedModelsAreIsomorphic`: both texts decode and the graphs are
      isomorphic, or neither decodes. */
  function ZippedModelsAreIsomorphic(zip0: string, zip1: string, decode: string -> Option<Graph>,
                                     iso: (Graph, Graph) -> bool): (r: bool)
    ensures r && decode(zip0).Some? ==> decode(zip1).Some?
    ensures r && decode(zip0).None? ==> decode(zip1).None?
    ensures decode(zip0) == decode(zip1) && (forall g :: iso(g, g)) ==> r
  {
    match (decode(zip0), decode(zip1))
    case (Some(model0), Some(model1)) => iso(model0, model1)
    case (None, None) => true
    case _ => false
  }

  /** `TurtleDBO.equals`; `sameObject` is the reference test `this === other`. */
  function Equals(self: TurtleDbo, other: Other, sameObject: bool, decode: string -> Option<Graph>,
                  iso: (Graph, Graph) -> bool): (r: bool)
    requires sameObject ==> other == Document(self)
    ensures other.Null? || other.Foreign? ==> !r
    ensures r ==> other.Document? && other.dbo.kind == self.kind && other.dbo.id == self.id
  {
    if sameObject then true
    else if !other.Document? || other.dbo.kind != self.kind then false
    else if self.id != other.dbo.id then false
    else ZippedModelsAreIsomorphic(self.turtle, other.dbo.turtle, decode, iso)
  }

  /** Two documents of the same class and id are equal exactly when their
      texts decode to isomorphic graphs or both fail to decode. */
  lemma EqualsByContent(x: TurtleDbo, y: TurtleDbo, decode: string -> Option<Graph>, iso: (Graph, Graph) -> bool)
    requires x.kind == y.kind && x.id == y.id
    ensures Equals(x, Document(y), false, decode, iso) <==>
      || (decode(x.turtle).Some? && decode(y.turtle).Some? && iso(decode(x.turtle).value, decode(y.turtle).value))
      || (decode(x.turtle).None? && decode(y.turtle).None?)
  {
  }

  /** Equality with matching ids depends on the decoded graphs only, not on
      the texts: texts that decode alike compare alike. */
  lemma EqualsDependsOnGraphs(x: TurtleDbo, y: TurtleDbo, x2: TurtleDbo, y2: TurtleDbo,
                              decode: string -> Option<Graph>, iso: (Graph, Graph) -> bool)
    requires x2 == x.(turtle := x2.turtle) && y2 == y.(turtle := y2.turtle)
    requires decode(x.turtle) == decode(x2.turtle) && decode(y.turtle) == decode(y2.turtle)
    ensures Equals(x, Document(y), false, decode, iso) == Equals(x2, Document(y2), false, decode, iso)
  {
  }

  /** With an equivalence for isomorphism, `equals` is an equivalence on
      documents, as the contract of `equals` demands: reflexive even for two
      copies, symmetric, and transitive. */
  lemma EqualsReflexive(x: TurtleDbo, decode: string -> Option<Graph>, iso: (Graph, Graph) -> bool)
    requires IsEquivalence(iso)
    ensures Equals(x, Document(x), false, decode, iso)
  {
  }

  lemma EqualsSymmetric(x: TurtleDbo, y: TurtleDbo, decode: string -> Option<Graph>, iso: (Graph, Graph) -> bool)
    requires IsEquivalence(iso)
    ensures Equals(x, Document(y), false, decode, iso) == Equals(y, Document(x), false, decode, iso)
  {
    if x.kind == y.kind && x.id == y.id && decode(x.turtle).Some? && decode(y.turtle).Some? {
      var g, h := decode(x.turtle).value, decode(y.turtle).value;
      assert iso(g, h) ==> iso(h, g);
      assert iso(h, g) ==> iso(g, h);
    }
  }

  lemma EqualsTransitive(x: TurtleDbo, y: TurtleDbo, z: TurtleDbo, decode: string -> Option<Graph>, iso: (Graph, Graph) -> bool)
    requires IsEquivalence(iso)
    requires Equals(x, Document(y), false, decode, iso) && Equals(y, Document(z), false, decode, iso)
    ensures Equals(x, Document(z), false, decode, iso)
  {
    if decode(x.turtle).Some? {
      var g, h, k := decode(x.turtle).value, decode(y.turtle).value, decode(z.turtle).value;
      assert iso(g, h) && iso(h, k) ==> iso(g, k);
    }
  }
}
