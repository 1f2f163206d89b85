/**
 Directed graphs as adjacency lists, walks in them, and the closure argument that
 every graph search of the project rests on.

 An identifier may be listed as a target without being a key of the map: the catalog
 does not stop an entity from pointing at an identifier that is not registered.
 */
module Graph {

  type Adjacency = map<string, seq<string>>

  predicate Edge(g: Adjacency, a: string, b: string) {
    a in g && b in g[a]
  }

  /** There is a walk of exactly `n` edges from `a` to `b`. */
  ghost predicate Walk(g: Adjacency, a: string, b: string, n: nat)
    decreases n
  {
    if n == 0 then a == b else exists c :: Edge(g, a, c) && Walk(g, c, b, n - 1)
  }

  ghost predicate Reaches(g: Adjacency, a: string, b: string) {
    exists n: nat :: Walk(g, a, b, n)
  }

  /** Reachable over at least one edge. */
  ghost predicate ReachesByEdges(g: Adjacency, a: string, b: string) {
    exists n: nat :: n > 0 && Walk(g, a, b, n)
  }

  ghost predicate HasCycle(g: Adjacency) {
    exists a :: ReachesByEdges(g, a, a)
  }

  /** Every registered target of a member is a member. */
  ghost predicate Closed(g: Adjacency, s: set<string>) {
    forall a, b :: a in s && Edge(g, a, b) && b in g ==> b in s
  }

  /** All identifiers that occur in the graph. */
  ghost function Universe(g: Adjacency): set<string> {
    g.Keys + set a, i | a in g && 0 <= i < |g[a]| :: g[a][i]
  }

  lemma EdgeInUniverse(g: Adjacency, a: string, b: string)
    requires Edge(g, a, b)
    ensures a in Universe(g) && b in Universe(g)
  {
    var i :| 0 <= i < |g[a]| && g[a][i] == b;
  }

  lemma {:induction false} WalkConcat(g: Adjacency, a: string, b: string, c: string, m: nat, n: nat)
    requires Walk(g, a, b, m) && Walk(g, b, c, n)
    ensures Walk(g, a, c, m + n)
    decreases m
  {
    if m > 0 {
      var d :| Edge(g, a, d) && Walk(g, d, b, m - 1);
      WalkConcat(g, d, b, c, m - 1, n);
    }
  }

  lemma EdgeWalk(g: Adjacency, a: string, b: string)
    requires Edge(g, a, b)
    ensures Walk(g, a, b, 1) && ReachesByEdges(g, a, b)
  {
    assert Walk(g, b, b, 0);
  }

  lemma ReachesThenEdge(g: Adjacency, a: string, b: string, c: string)
    requires Reaches(g, a, b) && Edge(g, b, c)
    ensures ReachesByEdges(g, a, c)
  {
    var n: nat :| Walk(g, a, b, n);
    EdgeWalk(g, b, c);
    WalkConcat(g, a, b, c, n, 1);
  }

  lemma EdgeThenReaches(g: Adjacency, a: string, b: string, c: string)
    requires Edge(g, a, b) && Reaches(g, b, c)
    ensures ReachesByEdges(g, a, c)
  {
    var n: nat :| Walk(g, b, c, n);
    assert Walk(g, a, c, n + 1);
  }

  lemma ByEdgesIsReaches(g: Adjacency, a: string, b: string)
    requires ReachesByEdges(g, a, b)
    ensures Reaches(g, a, b)
  {
    var n: nat :| n > 0 && Walk(g, a, b, n);
  }

  lemma ReachesSelf(g: Adjacency, a: string)
    ensures Reaches(g, a, a)
  {
    assert Walk(g, a, a, 0);
  }

  /** A walk over at least one edge has a first edge. */
  lemma FirstEdge(g: Adjacency, a: string, b: string) returns (c: string)
    requires ReachesByEdges(g, a, b)
    ensures Edge(g, a, c) && Reaches(g, c, b)
  {
    var n: nat :| n > 0 && Walk(g, a, b, n);
    c :| Edge(g, a, c) && Walk(g, c, b, n - 1);
  }

  /** Nothing but itself can be reached from an unregistered id. */
  lemma DeadEnd(g: Adjacency, x: string, s: string)
    requires x !in g
    ensures Reaches(g, x, s) ==> x == s
  {
  }

  /** A walk cannot leave a closed set and end at a registered identifier. */
  lemma {:induction false} ClosedContainsWalk(g: Adjacency, s: set<string>, a: string, b: string, n: nat)
    requires Closed(g, s) && a in s && b in g
    requires Walk(g, a, b, n)
    ensures b in s
    decreases n
  {
    if n > 0 {
      var c :| Edge(g, a, c) && Walk(g, c, b, n - 1);
      if n - 1 > 0 {
        var d :| Edge(g, c, d) && Walk(g, d, b, n - 2);
      }
      ClosedContainsWalk(g, s, c, b, n - 1);
    }
  }

  lemma ClosedContainsReachable(g: Adjacency, s: set<string>, a: string, b: string)
    requires Closed(g, s) && a in s && b in g && Reaches(g, a, b)
    ensures b in s
  {
    var n: nat :| Walk(g, a, b, n);
    ClosedContainsWalk(g, s, a, b, n);
  }
}
