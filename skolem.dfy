/**
  Blank-node skolemisation of an extracted graph (`recursiveBlankNodeSkolem`,
  `doesNotContainAnon`, `createSkolemID` in HarvestHelpers.kt). Each round
  renames every blank subject none of whose blank objects has outgoing
  triples to `baseURI + "/.well-known/skolem/" + hash`, in the sense of
  section 3.5 of RDF 1.1 Concepts (with a `skolem` path segment where the
  standard recommends `genid`), and then starts over. A round that renames
  nothing while blank subjects remain repeats forever in the source; the
  model returns `Diverges` for it.
 */
module Skolem {
  import opened Rdf

  const SKOLEM_PATH := "/.well-known/skolem/"

  function SkolemIri(base: string, id: string): Node {
    IRI(base + SKOLEM_PATH + id)
  }

  predicate IsSkolemIri(base: string, n: Node) {
    n.IRI? && base + SKOLEM_PATH <= n.iri
  }

  /** Simultaneous renaming of nodes in subject and object position, as
      `ResourceUtils.renameResource` does for one node. */
  function SubstNode(n: Node, sigma: map<Node, Node>): Node {
    if n in sigma then sigma[n] else n
  }

  function SubstTriple(t: Triple, sigma: map<Node, Node>): Triple {
    Triple(SubstNode(t.s, sigma), t.p, SubstNode(t.o, sigma))
  }

  function Subst(g: Graph, sigma: map<Node, Node>): Graph {
    set t | t in g :: SubstTriple(t, sigma)
  }

  /** `ResourceUtils.renameResource(from, to)`. */
  function Rename(g: Graph, from: Node, to: Node): Graph {
    Subst(g, map[from := to])
  }

  /** A renaming that replaces blank nodes by IRIs only. */
  ghost predicate BlankToIri(sigma: map<Node, Node>) {
    forall n | n in sigma :: n.Blank? && sigma[n].IRI?
  }

  /** `doesNotContainAnon`: no object of `x` is a blank node with triples of its own. */
  predicate DoesNotContainAnon(g: Graph, x: Node) {
    forall t | t in g && t.s == x :: !(t.o.Blank? && t.o in Subjects(g))
  }

  /** The blank subjects one round renames. */
  function Renamable(g: Graph): (r: set<Node>)
    ensures r <= BlankSubjects(g)
    ensures forall x | x in BlankSubjects(g) && DoesNotContainAnon(g, x) :: x in r
  {
    set x | x in BlankSubjects(g) && DoesNotContainAnon(g, x)
  }

  /** A ranking under which a blank node's blank objects that have triples of
      their own rank strictly lower: the blank nodes form no cycle. */
  ghost predicate Ranked(g: Graph, rank: Node -> nat) {
    forall t | t in g && t.s.Blank? && t.o.Blank? && t.o in Subjects(g) :: rank(t.o) < rank(t.s)
  }

  ghost predicate BlankAcyclic(g: Graph) {
    exists rank: Node -> nat :: Ranked(g, rank)
  }

  datatype SkolemOutcome = Skolemised(graph: Graph) | Diverges

  lemma {:induction false} SubstCompose(g: Graph, s1: map<Node, Node>, s2: map<Node, Node>)
    requires BlankToIri(s1) && BlankToIri(s2) && s1.Keys !! s2.Keys
    ensures Subst(Subst(g, s1), s2) == Subst(g, s1 + s2)
  {
    forall n ensures SubstNode(SubstNode(n, s1), s2) == SubstNode(n, s1 + s2) {
      if n in s1 {
        assert SubstNode(n, s1).IRI?;
      }
    }
    forall x | x in Subst(Subst(g, s1), s2) ensures x in Subst(g, s1 + s2) {
      var u :| u in Subst(g, s1) && x == SubstTriple(u, s2);
      var t :| t in g && u == SubstTriple(t, s1);
      assert x == SubstTriple(t, s1 + s2);
    }
    forall x | x in Subst(g, s1 + s2) ensures x in Subst(Subst(g, s1), s2) {
      var t :| t in g && x == SubstTriple(t, s1 + s2);
      assert SubstTriple(t, s1) in Subst(g, s1);
      assert x == SubstTriple(SubstTriple(t, s1), s2);
    }
  }

  /** Renaming blank nodes removes exactly them from the blank subjects. */
  lemma {:induction false} BlankSubjectsSubst(g: Graph, sigma: map<Node, Node>)
    requires BlankToIri(sigma)
    ensures BlankSubjects(Subst(g, sigma)) == BlankSubjects(g) - sigma.Keys
  {
    forall x | x in BlankSubjects(Subst(g, sigma)) ensures x in BlankSubjects(g) - sigma.Keys {
      var u :| u in Subst(g, sigma) && u.s == x;
      var t :| t in g && u == SubstTriple(t, sigma);
      assert t.s !in sigma;
    }
    forall x | x in BlankSubjects(g) - sigma.Keys ensures x in BlankSubjects(Subst(g, sigma)) {
      var t :| t in g && t.s == x;
      assert SubstTriple(t, sigma) in Subst(g, sigma);
    }
  }

  /** The triples of a renamable node do not change while other renamable
      nodes of the same round are renamed. */
  lemma {:induction false} OutgoingStable(g: Graph, sigma: map<Node, Node>, x: Node)
    requires BlankToIri(sigma) && sigma.Keys <= BlankSubjects(g)
    requires x in Renamable(g) && x !in sigma
    ensures Outgoing(Subst(g, sigma), x) == Outgoing(g, x)
  {
    forall u | u in Outgoing(Subst(g, sigma), x) ensures u in Outgoing(g, x) {
      var t :| t in g && u == SubstTriple(t, sigma);
      assert t.s !in sigma;
      assert t.s == x;
      assert t.o !in sigma;
      assert u == t;
    }
    forall t | t in Outgoing(g, x) ensures t in Outgoing(Subst(g, sigma), x) {
      assert t.o !in sigma;
      assert SubstTriple(t, sigma) == t;
    }
  }

  /** A ranking of a graph still ranks the graph after blank nodes are renamed. */
  lemma {:induction false} RankedSubst(g: Graph, sigma: map<Node, Node>, rank: Node -> nat)
    requires BlankToIri(sigma) && Ranked(g, rank)
    ensures Ranked(Subst(g, sigma), rank)
  {
    var h := Subst(g, sigma);
    forall u | u in h && u.s.Blank? && u.o.Blank? && u.o in Subjects(h)
      ensures rank(u.o) < rank(u.s)
    {
      var t :| t in g && u == SubstTriple(t, sigma);
      assert t.s !in sigma && t.o !in sigma;
      var v :| v in h && v.s == u.o;
      var w :| w in g && v == SubstTriple(w, sigma);
      assert w.s !in sigma;
      assert t.o in Subjects(g);
    }
  }

  lemma {:induction false} MinimumExists(s: set<Node>, rank: Node -> nat) returns (m: Node)
    requires s != {}
    ensures m in s && forall y | y in s :: rank(m) <= rank(y)
  {
    var x :| x in s;
    if s == {x} {
      m := x;
    } else {
      var m' := MinimumExists(s - {x}, rank);
      m := if rank(x) <= rank(m') then x else m';
    }
  }

  /** A blank node that has triples of its own is a blank subject. */
  lemma BlankSubjectOf(g: Graph, n: Node)
    ensures n.Blank? && n in Subjects(g) ==> n in BlankSubjects(g)
  {
    if n.Blank? && n in Subjects(g) {
      var v :| v in g && v.s == n;
    }
  }

  /** On an acyclic graph with blank subjects every round renames something:
      a lowest-ranked blank subject is renamable. */
  lemma {:induction false} Progress(g: Graph, rank: Node -> nat)
    requires Ranked(g, rank) && BlankSubjects(g) != {}
    ensures Renamable(g) != {}
  {
    var m := MinimumExists(BlankSubjects(g), rank);
    forall t | t in g && t.s == m ensures !(t.o.Blank? && t.o in Subjects(g)) {
      BlankSubjectOf(g, t.o);
    }
    assert m in Renamable(g);
  }

  /** One round: every renamable blank subject gets the IRI made from the hash
      of its triples; the renamings are applied one after the other, as the
      source's `forEach` does, and add up to one simultaneous renaming. */
  method RenameBatch(g: Graph, base: string, hash: Graph -> string)
    returns (r: Graph, ghost sigma: map<Node, Node>)
    ensures sigma.Keys == Renamable(g)
    ensures forall x | x in sigma :: sigma[x] == SkolemIri(base, hash(Outgoing(g, x)))
    ensures BlankToIri(sigma)
    ensures r == Subst(g, sigma)
  {
    var todo := Renamable(g);
    r, sigma := g, map[];
    SubstEmpty(g);
    while todo != {}
      invariant todo !! sigma.Keys && todo + sigma.Keys == Renamable(g)
      invariant forall x | x in sigma :: sigma[x] == SkolemIri(base, hash(Outgoing(g, x)))
      invariant BlankToIri(sigma)
      invariant r == Subst(g, sigma)
      decreases todo
    {
      var x :| x in todo;
      OutgoingStable(g, sigma, x);
      var iri := SkolemIri(base, hash(Outgoing(r, x)));
      SubstCompose(g, sigma, map[x := iri]);
      r := Rename(r, x, iri);
      sigma := sigma + map[x := iri];
      todo := todo - {x};
    }
  }

  /** What the rounds so far have renamed: blank subjects, each to an IRI under `base`. */
  ghost predicate Renaming(g: Graph, base: string, sigma: map<Node, Node>) {
    && BlankToIri(sigma)
    && sigma.Keys <= BlankSubjects(g)
    && forall n | n in sigma :: IsSkolemIri(base, sigma[n])
  }

  /** Round numbers under which a renamed node's blank objects that have
      triples were renamed in earlier rounds. */
  ghost predicate RoundsOrdered(g: Graph, roundOf: map<Node, nat>, round: nat) {
    && (forall n | n in roundOf :: roundOf[n] < round)
    && forall t | t in g && t.s in roundOf && t.o.Blank? && t.o in Subjects(g) ::
         t.o in roundOf && roundOf[t.o] < roundOf[t.s]
  }

  /** Records `round` as the round of every node in `named`. */
  function Stamp(roundOf: map<Node, nat>, named: set<Node>, round: nat): (r: map<Node, nat>)
    ensures r.Keys == roundOf.Keys + named
    ensures forall x | x in named :: r[x] == round
    ensures forall x | x in roundOf && x !in named :: r[x] == roundOf[x]
  {
    roundOf + map x | x in named :: round
  }

  /** The state between rounds: `cur` is the input with the renamings so far
      applied, and `roundOf` records the round each renamed node was named in. */
  ghost predicate Between(g: Graph, base: string, cur: Graph, sigma: map<Node, Node>,
                          roundOf: map<Node, nat>, round: nat) {
    && Renaming(g, base, sigma)
    && cur == Subst(g, sigma)
    && roundOf.Keys == sigma.Keys
    && RoundsOrdered(g, roundOf, round)
  }

  /** `recursiveBlankNodeSkolem`. After it no subject is blank; the result is
      the input with its blank subjects renamed to IRIs under `base`, each
      renamed in a round where none of its blank objects had triples; and it
      finishes exactly when the blank nodes form no cycle. */
  method RecursiveBlankNodeSkolem(g: Graph, base: string, hash: Graph -> string)
    returns (out: SkolemOutcome, ghost sigma: map<Node, Node>)
    ensures BlankToIri(sigma) && sigma.Keys <= BlankSubjects(g)
    ensures forall n | n in sigma :: IsSkolemIri(base, sigma[n])
    ensures out.Skolemised? ==> out.graph == Subst(g, sigma) && sigma.Keys == BlankSubjects(g)
    ensures out.Skolemised? ==> BlankSubjects(out.graph) == {}
    ensures out.Skolemised? <==> BlankAcyclic(g)
    ensures BlankSubjects(g) == {} ==> out == Skolemised(g)
  {
    var cur := g;
    sigma := map[];
    ghost var roundOf: map<Node, nat> := map[];
    ghost var round: nat := 0;
    SubstEmpty(g);
    while true
      invariant Between(g, base, cur, sigma, roundOf, round)
      decreases |BlankSubjects(g) - sigma.Keys|
    {
      var batch := Renamable(cur);
      if batch == {} {
        out := if BlankSubjects(cur) == {} then Skolemised(cur) else Diverges;
        Finish(g, base, cur, sigma, roundOf, round, out);
        return;
      }
      var next, step := RenameBatch(cur, base, hash);
      Advance(g, base, hash, cur, sigma, roundOf, round, next, step);
      cur := next;
      roundOf := Stamp(roundOf, step.Keys, round);
      sigma := sigma + step;
      round := round + 1;
    }
  }

  /** The last round: with no blank subject left the graph is skolemised and
      the round numbers rank the input; with some left and none renamable the
      source repeats the round forever. */
  lemma Finish(g: Graph, base: string, cur: Graph, sigma: map<Node, Node>,
               roundOf: map<Node, nat>, round: nat, out: SkolemOutcome)
    requires Between(g, base, cur, sigma, roundOf, round) && Renamable(cur) == {}
    requires out == if BlankSubjects(cur) == {} then Skolemised(cur) else Diverges
    ensures out.Skolemised? ==> sigma.Keys == BlankSubjects(g)
    ensures out.Skolemised? <==> BlankAcyclic(g)
    ensures BlankSubjects(g) == {} ==> out == Skolemised(g)
  {
    BlankSubjectsSubst(g, sigma);
    if BlankSubjects(cur) == {} {
      AcyclicByRounds(g, roundOf);
      if BlankSubjects(g) == {} {
        assert sigma == map[];
        SubstEmpty(g);
      }
    } else {
      NoProgressMeansCycle(g, sigma);
    }
  }

  /** One round keeps the state between rounds and names at least one more node. */
  lemma Advance(g: Graph, base: string, hash: Graph -> string, cur: Graph, sigma: map<Node, Node>,
                roundOf: map<Node, nat>, round: nat, next: Graph, step: map<Node, Node>)
    requires Between(g, base, cur, sigma, roundOf, round)
    requires step.Keys == Renamable(cur) && step.Keys != {} && BlankToIri(step)
    requires forall x | x in step :: step[x] == SkolemIri(base, hash(Outgoing(cur, x)))
    requires next == Subst(cur, step)
    ensures Between(g, base, next, sigma + step, Stamp(roundOf, step.Keys, round), round + 1)
    ensures |BlankSubjects(g) - (sigma + step).Keys| < |BlankSubjects(g) - sigma.Keys|
  {
    assert step.Keys <= BlankSubjects(g) - sigma.Keys by {
      BlankSubjectsSubst(g, sigma);
    }
    NextRound(g, base, sigma, step);
    NextRoundsOrdered(g, sigma, roundOf, round, step);
  }

  lemma SubstEmpty(g: Graph)
    ensures Subst(g, map[]) == g
  {
    forall t | t in g ensures SubstTriple(t, map[]) == t { }
  }

  lemma SubsetSmaller(a: set<Node>, b: set<Node>, removed: set<Node>)
    requires removed != {} && removed <= b && a == b - removed
    ensures |a| < |b|
  {
    var x :| x in removed;
    assert a <= b - {x};
    assert |a| <= |b - {x}|;
  }

  /** One round keeps the loop's invariants and shrinks the blank subjects left. */
  lemma NextRound(g: Graph, base: string, sigma: map<Node, Node>, step: map<Node, Node>)
    requires Renaming(g, base, sigma)
    requires step.Keys <= BlankSubjects(g) - sigma.Keys && step.Keys != {} && BlankToIri(step)
    requires forall x | x in step :: exists id :: step[x] == SkolemIri(base, id)
    ensures Subst(Subst(g, sigma), step) == Subst(g, sigma + step)
    ensures Renaming(g, base, sigma + step)
    ensures |BlankSubjects(g) - (sigma + step).Keys| < |BlankSubjects(g) - sigma.Keys|
  {
    SubstCompose(g, sigma, step);
    Shrinks(BlankSubjects(g), sigma, step);
    NextRenaming(g, base, sigma, step);
  }

  lemma Shrinks(all: set<Node>, sigma: map<Node, Node>, step: map<Node, Node>)
    requires step.Keys <= all - sigma.Keys && step.Keys != {}
    ensures |all - (sigma + step).Keys| < |all - sigma.Keys|
  {
    var left := all - sigma.Keys;
    assert all - (sigma + step).Keys == left - step.Keys;
    SubsetSmaller(left - step.Keys, left, step.Keys);
  }

  lemma NextRenaming(g: Graph, base: string, sigma: map<Node, Node>, step: map<Node, Node>)
    requires Renaming(g, base, sigma)
    requires step.Keys <= BlankSubjects(g) && BlankToIri(step)
    requires forall x | x in step :: exists id :: step[x] == SkolemIri(base, id)
    ensures Renaming(g, base, sigma + step)
  {
    forall n | n in step ensures IsSkolemIri(base, step[n]) {
      var id :| step[n] == SkolemIri(base, id);
      assert step[n].iri == (base + SKOLEM_PATH) + id;
    }
  }

  lemma NextRoundsOrdered(g: Graph, sigma: map<Node, Node>, roundOf: map<Node, nat>, round: nat,
                          step: map<Node, Node>)
    requires BlankToIri(sigma) && roundOf.Keys == sigma.Keys && RoundsOrdered(g, roundOf, round)
    requires step.Keys == Renamable(Subst(g, sigma))
    ensures RoundsOrdered(g, Stamp(roundOf, step.Keys, round), round + 1)
  {
    assert step.Keys !! sigma.Keys by {
      BlankSubjectsSubst(g, sigma);
    }
    var r' := Stamp(roundOf, step.Keys, round);
    assert forall n | n in r' :: r'[n] < round + 1 by {
      assert forall n | n in roundOf :: roundOf[n] < round;
    }
    forall t | t in g && t.s in r' && t.o.Blank? && t.o in Subjects(g)
      ensures t.o in r' && r'[t.o] < r'[t.s]
    {
      OrderedAt(g, sigma, roundOf, round, step, t);
    }
  }

  lemma OrderedAt(g: Graph, sigma: map<Node, Node>, roundOf: map<Node, nat>, round: nat,
                  step: map<Node, Node>, t: Triple)
    requires BlankToIri(sigma) && roundOf.Keys == sigma.Keys && RoundsOrdered(g, roundOf, round)
    requires step.Keys == Renamable(Subst(g, sigma)) && step.Keys !! sigma.Keys
    requires t in g && t.o.Blank? && t.o in Subjects(g)
    requires t.s in roundOf || t.s in step.Keys
    ensures var r' := Stamp(roundOf, step.Keys, round);
      t.o in r' && r'[t.o] < r'[t.s]
  {
    if t.s in step.Keys {
      Blocked(g, sigma, t);
    }
  }

  /** A node renamed in this round has no blank object with triples that is
      still waiting for a name. */
  lemma Blocked(g: Graph, sigma: map<Node, Node>, t: Triple)
    requires BlankToIri(sigma)
    requires t in g && t.o.Blank? && t.o in Subjects(g)
    requires t.s in Renamable(Subst(g, sigma))
    ensures t.o in sigma
  {
    var cur := Subst(g, sigma);
    BlankSubjectsSubst(g, sigma);
    BlankSubjectOf(g, t.o);
    assert t.s !in sigma;
    assert SubstTriple(t, sigma) in cur;
  }

  /** When every blank subject has been renamed, the round numbers rank the graph. */
  lemma AcyclicByRounds(g: Graph, roundOf: map<Node, nat>)
    requires BlankSubjects(g) <= roundOf.Keys
    requires forall t | t in g && t.s in roundOf && t.o.Blank? && t.o in Subjects(g) ::
               t.o in roundOf && roundOf[t.o] < roundOf[t.s]
    ensures BlankAcyclic(g)
  {
    var rank: Node -> nat := n => if n in roundOf then roundOf[n] else 0;
    assert Ranked(g, rank);
  }

  /** A round that renames nothing while blank subjects remain can only
      happen when the blank nodes form a cycle. */
  lemma NoProgressMeansCycle(g: Graph, sigma: map<Node, Node>)
    requires BlankToIri(sigma)
    requires BlankSubjects(Subst(g, sigma)) != {} && Renamable(Subst(g, sigma)) == {}
    ensures !BlankAcyclic(g)
  {
    if BlankAcyclic(g) {
      var rank :| Ranked(g, rank);
      RankedSubst(g, sigma, rank);
      Progress(Subst(g, sigma), rank);
    }
  }

  /** `sigma` renames exactly the blank subjects of `m`, each to an IRI under `base`. */
  ghost predicate IsSkolemRenaming(m: Graph, base: string, sigma: map<Node, Node>) {
    && BlankToIri(sigma)
    && sigma.Keys == BlankSubjects(m)
    && forall n | n in sigma :: IsSkolemIri(base, sigma[n])
  }

  /** `out` is `m` with its blank subjects skolemised under `base`. */
  ghost predicate SkolemisedFrom(m: Graph, base: string, out: Graph) {
    exists sigma :: IsSkolemRenaming(m, base, sigma) && out == Subst(m, sigma)
  }

  /** A skolemised graph has no blank subject. */
  lemma SkolemisedHasNoBlankSubject(m: Graph, base: string, out: Graph)
    requires SkolemisedFrom(m, base, out)
    ensures BlankSubjects(out) == {}
  {
    var sigma :| IsSkolemRenaming(m, base, sigma) && out == Subst(m, sigma);
    BlankSubjectsSubst(m, sigma);
  }
}
