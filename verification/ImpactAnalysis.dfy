/**
 Who is affected when an entity fails: the backward closure computed by
 `collectImpactedEntities` (layer2/relationship_mapper.go:298-330).
 */
module ImpactAnalysis {
  import opened Graph

  /** Every registered entity with a non-empty dependency walk to `id`, on cyclic graphs too. */
  ghost function ImpactedBy(g: Adjacency, id: string): set<string> {
    set x | x in g && ReachesByEdges(g, x, id)
  }

  /** Everything that depends on `x` directly is in `found`. */
  ghost predicate DependentsIn(g: Adjacency, x: string, found: set<string>) {
    forall p :: Edge(g, p, x) ==> p in found
  }

  /** `found0` grew to `found` by entities that reach `x` and whose dependents are all found. */
  ghost predicate Grown(g: Adjacency, x: string, found0: set<string>, found: set<string>) {
    && found0 <= found <= g.Keys
    && forall y :: y in found && y !in found0 ==> ReachesByEdges(g, y, x) && DependentsIn(g, y, found)
  }

  /** What one call of `collectImpactedEntities` on `x` achieves. */
  ghost predicate Collected(g: Adjacency, x: string, found0: set<string>, found: set<string>) {
    Grown(g, x, found0, found) && DependentsIn(g, x, found)
  }

  lemma GrownTransitive(g: Adjacency, x: string, y: string, found0: set<string>, found1: set<string>, found2: set<string>)
    requires Grown(g, x, found0, found1) && y !in found1 && Edge(g, y, x)
    requires Collected(g, y, found1 + {y}, found2)
    ensures Grown(g, x, found0, found2) && found1 <= found2 && y in found2
  {
    EdgeWalk(g, y, x);
    forall z | z in found2 && z !in found0 ensures ReachesByEdges(g, z, x) && DependentsIn(g, z, found2) {
      if z !in found1 && z != y {
        ByEdgesIsReaches(g, z, y);
        ReachesThenEdge(g, z, y, x);
      }
    }
  }

  lemma GrownSame(g: Adjacency, x: string, found: set<string>)
    requires found <= g.Keys
    ensures Grown(g, x, found, found)
  {
  }

  lemma GrownContains(g: Adjacency, x: string, found0: set<string>, found: set<string>)
    requires Grown(g, x, found0, found)
    ensures found0 <= found <= g.Keys
  {
  }

  lemma GrownIsCollected(g: Adjacency, x: string, found0: set<string>, found: set<string>)
    requires Grown(g, x, found0, found) && forall p :: Edge(g, p, x) ==> p in found
    ensures Collected(g, x, found0, found)
  {
  }

  /** Started from nothing, a call finds exactly the impacted entities. */
  lemma CollectedIsImpacted(g: Adjacency, x: string, found: set<string>)
    requires Collected(g, x, {}, found)
    ensures found == ImpactedBy(g, x)
  {
    forall y, n: nat | n > 0 && Walk(g, y, x, n) ensures y in found {
      WalkersFound(g, x, found, y, n);
    }
    forall y | y in ImpactedBy(g, x) ensures y in found {
    }
  }

  lemma {:induction false} WalkersFound(g: Adjacency, x: string, found: set<string>, y: string, n: nat)
    requires Collected(g, x, {}, found)
    requires n > 0 && Walk(g, y, x, n)
    ensures y in found
    decreases n
  {
    var c :| Edge(g, y, c) && Walk(g, c, x, n - 1);
    if n > 1 {
      WalkersFound(g, x, found, c, n - 1);
    }
  }

  /** An entity is impacted by nothing exactly when nothing depends on it directly. */
  lemma UnimpactedIffNoDependents(g: Adjacency, id: string)
    ensures ImpactedBy(g, id) == {} <==> forall p :: !Edge(g, p, id)
  {
    forall p | Edge(g, p, id) ensures p in ImpactedBy(g, id) {
      EdgeWalk(g, p, id);
    }
    if p :| p in ImpactedBy(g, id) {
      var n: nat :| n > 0 && Walk(g, p, id, n);
      var q := LastEdge(g, p, id, n);
    }
  }

  lemma {:induction false} LastEdge(g: Adjacency, a: string, b: string, n: nat) returns (q: string)
    requires n > 0 && Walk(g, a, b, n)
    ensures Edge(g, q, b)
    decreases n
  {
    var c :| Edge(g, a, c) && Walk(g, c, b, n - 1);
    if n == 1 {
      q := a;
    } else {
      q := LastEdge(g, c, b, n - 1);
    }
  }
}
