/**
 The depth-bounded graph built by `buildGraph` (layer2/relationship_mapper.go:89-147), as a
 function over the relationships of the catalog, and what it is worth.

 The search shares one visited set, so an entity first met at the end of a long path is not
 expanded again when a shorter path reaches it. `ExactnessThreshold` says for which
 depths that cannot matter.
 */
module DependencyGraphs {
  import opened Graph
  import opened Entities

  type Links = map<string, seq<Relationship>>

  datatype GraphEdge = GraphEdge(from: string, to: string, relationship: string)

  datatype Built = Built(nodes: set<string>, edges: seq<GraphEdge>)

  function EdgeFor(id: string, rel: Relationship): GraphEdge {
    GraphEdge(id, rel.targetID, rel.relType)
  }

  function Room(depth: nat, maxDepth: int): nat {
    if depth > maxDepth then 0 else maxDepth - depth + 1
  }

  /** The search from `id`, met at `depth`. */
  function Explore(g: Links, id: string, depth: nat, maxDepth: int, b: Built): Built
    decreases Room(depth, maxDepth), 1, 0
  {
    if depth > maxDepth || id in b.nodes || id !in g then b
    else ExploreFrom(g, id, 0, depth, maxDepth, Built(b.nodes + {id}, b.edges))
  }

  /** The rest of the loop over the relationships of `id`, from number `i` on. */
  function ExploreFrom(g: Links, id: string, i: nat, depth: nat, maxDepth: int, b: Built): Built
    requires id in g && i <= |g[id]| && depth <= maxDepth
    decreases Room(depth, maxDepth), 0, |g[id]| - i
  {
    if i == |g[id]| then b
    else
      var b1 := b.(edges := b.edges + [EdgeFor(id, g[id][i])]);
      ExploreFrom(g, id, i + 1, depth, maxDepth, Explore(g, g[id][i].targetID, depth + 1, maxDepth, b1))
  }

  lemma ExploreUnfolded(g: Links, id: string, depth: nat, maxDepth: int, b: Built)
    ensures Explore(g, id, depth, maxDepth, b)
         == if depth > maxDepth || id in b.nodes || id !in g then b
            else ExploreFrom(g, id, 0, depth, maxDepth, Built(b.nodes + {id}, b.edges))
  {
  }

  lemma ExploreFromUnfolded(g: Links, id: string, i: nat, depth: nat, maxDepth: int, b: Built)
    requires id in g && i <= |g[id]| && depth <= maxDepth
    ensures ExploreFrom(g, id, i, depth, maxDepth, b)
         == if i == |g[id]| then b
            else ExploreFrom(g, id, i + 1, depth, maxDepth,
              Explore(g, g[id][i].targetID, depth + 1, maxDepth, Built(b.nodes, b.edges + [EdgeFor(id, g[id][i])])))
  {
  }

  function Build(g: Links, id: string, maxDepth: int): Built {
    Explore(g, id, 0, maxDepth, Built({}, []))
  }

  /** The links as a graph, whatever the type of a relationship. */
  function Adj(g: Links): Adjacency {
    map id | id in g :: TargetsOf(g[id])
  }

  /** Registered entities at most `d` relationships away. */
  ghost function Ball(g: Links, id: string, d: int): set<string> {
    set v | v in g && exists n: nat :: n <= d && Walk(Adj(g), id, v, n)
  }

  ghost function Reachable(g: Links, id: string): set<string> {
    set v | v in g && Reaches(Adj(g), id, v)
  }

  lemma LinkIsEdge(g: Links, id: string, i: nat)
    requires id in g && i < |g[id]|
    ensures Edge(Adj(g), id, g[id][i].targetID)
  {
    assert TargetsOf(g[id])[i] == g[id][i].targetID;
  }

  // ---------- The depth bound is never exceeded ----------

  lemma {:induction false} ExploreStaysNear(g: Links, root: string, id: string, depth: nat, maxDepth: int, b: Built)
    requires Walk(Adj(g), root, id, depth) && b.nodes <= Ball(g, root, maxDepth)
    ensures Explore(g, id, depth, maxDepth, b).nodes <= Ball(g, root, maxDepth)
    decreases Room(depth, maxDepth), 1, 0
  {
    if !(depth > maxDepth || id in b.nodes || id !in g) {
      ExploreFromStaysNear(g, root, id, 0, depth, maxDepth, Built(b.nodes + {id}, b.edges));
    }
  }

  lemma {:induction false} ExploreFromStaysNear(g: Links, root: string, id: string, i: nat, depth: nat, maxDepth: int, b: Built)
    requires id in g && i <= |g[id]| && depth <= maxDepth
    requires Walk(Adj(g), root, id, depth) && b.nodes <= Ball(g, root, maxDepth)
    ensures ExploreFrom(g, id, i, depth, maxDepth, b).nodes <= Ball(g, root, maxDepth)
    decreases Room(depth, maxDepth), 0, |g[id]| - i
  {
    if i < |g[id]| {
      var b1 := b.(edges := b.edges + [EdgeFor(id, g[id][i])]);
      LinkIsEdge(g, id, i);
      EdgeWalk(Adj(g), id, g[id][i].targetID);
      WalkConcat(Adj(g), root, id, g[id][i].targetID, depth, 1);
      ExploreStaysNear(g, root, g[id][i].targetID, depth + 1, maxDepth, b1);
      ExploreFromStaysNear(g, root, id, i + 1, depth, maxDepth, Explore(g, g[id][i].targetID, depth + 1, maxDepth, b1));
    }
  }

  /** Every node of the graph is at most `maxDepth` relationships away. */
  lemma NodesNear(g: Links, id: string, maxDepth: int)
    ensures Build(g, id, maxDepth).nodes <= Ball(g, id, maxDepth)
  {
    ExploreStaysNear(g, id, id, 0, maxDepth, Built({}, []));
  }

  // ---------- With room for every entity nothing is missed ----------

  /** The new nodes have all their registered targets among the nodes. */
  ghost predicate Expanded(g: Links, nodes0: set<string>, nodes: set<string>) {
    && nodes0 <= nodes <= g.Keys
    && forall v, t :: v in nodes && v !in nodes0 && Edge(Adj(g), v, t) && t in g ==> t in nodes
  }

  lemma {:induction false} ExploreExpands(g: Links, id: string, depth: nat, maxDepth: int, b: Built)
    requires maxDepth >= |g| - 1 && b.nodes <= g.Keys && depth <= |b.nodes|
    ensures var r := Explore(g, id, depth, maxDepth, b);
      Expanded(g, b.nodes, r.nodes) && (id in g ==> id in r.nodes)
    decreases Room(depth, maxDepth), 1, 0
  {
    if depth > maxDepth {
      FullSubset(b.nodes, g.Keys);
    } else if id !in b.nodes && id in g {
      var b1 := Built(b.nodes + {id}, b.edges);
      ExploreFromExpands(g, id, 0, depth, maxDepth, b1);
      var r := ExploreFrom(g, id, 0, depth, maxDepth, b1);
      forall t | Edge(Adj(g), id, t) && t in g ensures t in r.nodes {
        var j :| 0 <= j < |g[id]| && TargetsOf(g[id])[j] == t;
        assert g[id][j].targetID == t;
      }
    }
  }

  lemma {:induction false} ExploreFromExpands(g: Links, id: string, i: nat, depth: nat, maxDepth: int, b: Built)
    requires id in g && i <= |g[id]| && depth <= maxDepth
    requires maxDepth >= |g| - 1 && b.nodes <= g.Keys && depth < |b.nodes|
    ensures var r := ExploreFrom(g, id, i, depth, maxDepth, b);
      && Expanded(g, b.nodes, r.nodes)
      && forall j :: i <= j < |g[id]| && g[id][j].targetID in g ==> g[id][j].targetID in r.nodes
    decreases Room(depth, maxDepth), 0, |g[id]| - i
  {
    if i < |g[id]| {
      var b1 := b.(edges := b.edges + [EdgeFor(id, g[id][i])]);
      var b2 := Explore(g, g[id][i].targetID, depth + 1, maxDepth, b1);
      ExploreExpands(g, g[id][i].targetID, depth + 1, maxDepth, b1);
      SubsetSize(b1.nodes, b2.nodes);
      ExploreFromExpands(g, id, i + 1, depth, maxDepth, b2);
    }
  }

  lemma {:induction false} SubsetSize(a: set<string>, b: set<string>)
    requires a <= b
    ensures |a| <= |b|
  {
    if x :| x in a {
      SubsetSize(a - {x}, b - {x});
    }
  }

  lemma FullSubset(a: set<string>, b: set<string>)
    requires a <= b && |a| >= |b|
    ensures a == b
  {
    if x :| x in b && x !in a {
      SubsetSize(a, b - {x});
    }
  }

  /** With a bound of at least the number of entities minus one, the nodes are the reachable entities. */
  lemma DeepEnough(g: Links, id: string, maxDepth: int)
    requires maxDepth >= |g| - 1 && maxDepth >= 0
    ensures Build(g, id, maxDepth).nodes == Reachable(g, id)
  {
    var nodes := Build(g, id, maxDepth).nodes;
    NodesNear(g, id, maxDepth);
    ExploreExpands(g, id, 0, maxDepth, Built({}, []));
    if id in g {
      assert Closed(Adj(g), nodes);
      forall v | v in Reachable(g, id) ensures v in nodes {
        ClosedContainsReachable(Adj(g), nodes, id, v);
      }
    } else {
      forall v | v in g ensures !Reaches(Adj(g), id, v) {
        DeadEnd(Adj(g), id, v);
      }
    }
  }

  // ---------- Edges ----------

  /** The relationships recorded for `id`, in order. */
  function Recorded(edges: seq<GraphEdge>, id: string): seq<Relationship> {
    if edges == [] then []
    else
      var n := |edges| - 1;
      Recorded(edges[..n], id)
        + if edges[n].from == id then [Relationship(edges[n].relationship, edges[n].to)] else []
  }

  lemma RecordedAppend(edges: seq<GraphEdge>, e: GraphEdge, id: string)
    ensures Recorded(edges + [e], id)
         == Recorded(edges, id) + if e.from == id then [Relationship(e.relationship, e.to)] else []
  {
    assert (edges + [e])[..|edges|] == edges;
  }

  /** Entities outside `open` have all of their relationships recorded if visited, else none. */
  ghost predicate Booked(g: Links, b: Built, open: set<string>) {
    forall v :: v !in open ==> Recorded(b.edges, v) == if v in b.nodes && v in g then g[v] else []
  }

  lemma {:induction false} ExploreBooks(g: Links, id: string, depth: nat, maxDepth: int, b: Built, open: set<string>)
    requires Booked(g, b, open) && open <= b.nodes
    ensures var r := Explore(g, id, depth, maxDepth, b);
      && Booked(g, r, open) && b.nodes <= r.nodes
      && forall v :: v in open ==> Recorded(r.edges, v) == Recorded(b.edges, v)
    decreases Room(depth, maxDepth), 1, 0
  {
    if !(depth > maxDepth || id in b.nodes || id !in g) {
      ExploreFromBooks(g, id, 0, depth, maxDepth, Built(b.nodes + {id}, b.edges), open);
    }
  }

  lemma {:induction false} ExploreFromBooks(g: Links, id: string, i: nat, depth: nat, maxDepth: int, b: Built, open: set<string>)
    requires id in g && i <= |g[id]| && depth <= maxDepth
    requires id !in open && id in b.nodes && open <= b.nodes
    requires Booked(g, b, open + {id}) && Recorded(b.edges, id) == g[id][..i]
    ensures var r := ExploreFrom(g, id, i, depth, maxDepth, b);
      && Booked(g, r, open) && b.nodes <= r.nodes
      && forall v :: v in open ==> Recorded(r.edges, v) == Recorded(b.edges, v)
    decreases Room(depth, maxDepth), 0, |g[id]| - i
  {
    hide Recorded, Booked, Explore, ExploreFrom;
    ExploreFromUnfolded(g, id, i, depth, maxDepth, b);
    if i < |g[id]| {
      var b1 := Built(b.nodes, b.edges + [EdgeFor(id, g[id][i])]);
      EdgeBooked(g, id, i, b, open);
      ExploreBooks(g, g[id][i].targetID, depth + 1, maxDepth, b1, open + {id});
      ExploreFromBooks(g, id, i + 1, depth, maxDepth, Explore(g, g[id][i].targetID, depth + 1, maxDepth, b1), open);
    } else {
      AllBooked(g, id, b, open);
    }
  }

  lemma EdgeBooked(g: Links, id: string, i: nat, b: Built, open: set<string>)
    requires id in g && i < |g[id]| && id !in open
    requires Booked(g, b, open + {id}) && Recorded(b.edges, id) == g[id][..i]
    ensures var b1 := Built(b.nodes, b.edges + [EdgeFor(id, g[id][i])]);
      && Booked(g, b1, open + {id}) && Recorded(b1.edges, id) == g[id][..i + 1]
      && forall v :: v in open ==> Recorded(b1.edges, v) == Recorded(b.edges, v)
  {
    hide Recorded;
    var e := EdgeFor(id, g[id][i]);
    forall v ensures Recorded(b.edges + [e], v) == Recorded(b.edges, v) + if v == id then [g[id][i]] else [] {
      RecordedAppend(b.edges, e, v);
    }
    assert g[id][..i + 1] == g[id][..i] + [g[id][i]];
  }

  lemma AllBooked(g: Links, id: string, b: Built, open: set<string>)
    requires id in g && id in b.nodes && Booked(g, b, open + {id}) && Recorded(b.edges, id) == g[id][..|g[id]|]
    ensures Booked(g, b, open)
  {
    hide Recorded;
    assert g[id][..|g[id]|] == g[id];
  }

  /** Each relationship of each node is an edge exactly once, in order, and there are no other edges. */
  lemma EdgesExact(g: Links, id: string, maxDepth: int)
    ensures var r := Build(g, id, maxDepth);
      forall v :: Recorded(r.edges, v) == if v in r.nodes && v in g then g[v] else []
  {
    ExploreBooks(g, id, 0, maxDepth, Built({}, []), {});
    NodesNear(g, id, maxDepth);
  }

  // ---------- For which depths the bound is exact ----------

  /** For every catalog of `n` entities, exactly the entities within distance `d` are found. */
  ghost predicate AlwaysExact(n: nat, d: nat) {
    forall g: Links, id :: |g| == n && id in g ==> Build(g, id, d).nodes == Ball(g, id, d)
  }

  lemma {:induction false} ExploreFromMeets(g: Links, id: string, i: nat, depth: nat, maxDepth: int, b: Built)
    requires id in g && i <= |g[id]| && depth < maxDepth
    ensures var r := ExploreFrom(g, id, i, depth, maxDepth, b);
      && b.nodes <= r.nodes
      && forall j :: i <= j < |g[id]| && g[id][j].targetID in g ==> g[id][j].targetID in r.nodes
    decreases |g[id]| - i
  {
    if i < |g[id]| {
      var b1 := b.(edges := b.edges + [EdgeFor(id, g[id][i])]);
      ExploreKeeps(g, g[id][i].targetID, depth + 1, maxDepth, b1);
      ExploreFromMeets(g, id, i + 1, depth, maxDepth, Explore(g, g[id][i].targetID, depth + 1, maxDepth, b1));
    }
  }

  lemma {:induction false} ExploreKeeps(g: Links, id: string, depth: nat, maxDepth: int, b: Built)
    requires depth <= maxDepth
    ensures b.nodes <= Explore(g, id, depth, maxDepth, b).nodes
    ensures id in g ==> id in Explore(g, id, depth, maxDepth, b).nodes
    decreases Room(depth, maxDepth), 1, 0
  {
    if id !in b.nodes && id in g {
      ExploreFromKeeps(g, id, 0, depth, maxDepth, Built(b.nodes + {id}, b.edges));
    }
  }

  lemma {:induction false} ExploreFromKeeps(g: Links, id: string, i: nat, depth: nat, maxDepth: int, b: Built)
    requires id in g && i <= |g[id]| && depth <= maxDepth
    ensures b.nodes <= ExploreFrom(g, id, i, depth, maxDepth, b).nodes
    decreases Room(depth, maxDepth), 0, |g[id]| - i
  {
    if i < |g[id]| {
      var b1 := b.(edges := b.edges + [EdgeFor(id, g[id][i])]);
      if depth + 1 <= maxDepth {
        ExploreKeeps(g, g[id][i].targetID, depth + 1, maxDepth, b1);
      }
      ExploreFromKeeps(g, id, i + 1, depth, maxDepth, Explore(g, g[id][i].targetID, depth + 1, maxDepth, b1));
    }
  }

  lemma ShallowExact(g: Links, id: string, d: nat)
    requires d <= 1 && id in g
    ensures Build(g, id, d).nodes == Ball(g, id, d)
  {
    var nodes := Build(g, id, d).nodes;
    NodesNear(g, id, d);
    ExploreKeeps(g, id, 0, d, Built({}, []));
    assert Built({}, []).nodes + {id} == {id};
    assert Build(g, id, d) == ExploreFrom(g, id, 0, 0, d, Built({id}, []));
    forall v | v in Ball(g, id, d) ensures v in nodes {
      var n: nat :| n <= d && Walk(Adj(g), id, v, n);
      if n == 1 {
        var c :| Edge(Adj(g), id, c) && Walk(Adj(g), c, v, 0);
        var j :| 0 <= j < |g[id]| && TargetsOf(g[id])[j] == v;
        ExploreFromMeets(g, id, 0, 0, d, Built({id}, []));
        assert g[id][j].targetID == v;
      }
    }
  }

  /** The name of entity number `k` of the witness. */
  function Name(k: nat): string {
    seq(k, _ => 'e')
  }

  function Link(k: nat): Relationship {
    Relationship(RELATION_DEPENDS_ON, Name(k))
  }

  /** A chain of length `d` with a shortcut from its start to its end, one more step, and loose entities. */
  function Shortcut(n: nat, d: nat): Links {
    map k | k in Names(n) ::
      if |k| == 0 then [Link(1), Link(d)] else if |k| <= d then [Link(|k| + 1)] else []
  }

  function Names(n: nat): set<string> {
    if n == 0 then {} else Names(n - 1) + {Name(n - 1)}
  }

  lemma {:induction false} NamesAre(n: nat)
    ensures |Names(n)| == n
    ensures forall s :: s in Names(n) <==> |s| < n && s == Name(|s|)
  {
    if n > 0 {
      NamesAre(n - 1);
      assert |Name(n - 1)| == n - 1;
    }
  }

  lemma NameIn(n: nat, k: nat)
    requires k < n
    ensures Name(k) in Names(n) && |Name(k)| == k
  {
    NamesAre(n);
    assert |Name(k)| == k;
  }

  lemma ChainLink(n: nat, d: nat, k: nat)
    requires 1 <= k <= d && d + 2 <= n
    ensures Name(k) in Shortcut(n, d) && Shortcut(n, d)[Name(k)] == [Link(k + 1)]
  {
    hide Names, Name;
    NameIn(n, k);
  }

  lemma ChainStep(n: nat, d: nat, k: nat, b: Built) returns (b1: Built)
    requires 1 <= k <= d && d + 2 <= n && Name(k) !in b.nodes
    ensures b1.nodes == b.nodes + {Name(k)}
    ensures Explore(Shortcut(n, d), Name(k), k, d, b) == Explore(Shortcut(n, d), Name(k + 1), k + 1, d, b1)
  {
    hide Explore, ExploreFrom, Shortcut, Name;
    ChainLink(n, d, k);
    b1 := OneLink(Shortcut(n, d), Name(k), Link(k + 1), k, d, b);
  }

  lemma OneLink(g: Links, id: string, link: Relationship, depth: nat, d: nat, b: Built) returns (b1: Built)
    requires id in g && g[id] == [link] && depth <= d && id !in b.nodes
    ensures b1.nodes == b.nodes + {id}
    ensures Explore(g, id, depth, d, b) == Explore(g, link.targetID, depth + 1, d, b1)
  {
    var b0 := Built(b.nodes + {id}, b.edges);
    b1 := b0.(edges := b0.edges + [EdgeFor(id, link)]);
    var r := Explore(g, link.targetID, depth + 1, d, b1);
    assert ExploreFrom(g, id, 0, depth, d, b0) == ExploreFrom(g, id, 1, depth, d, r) == r;
  }

  /** Going down the chain uses up the whole depth, so the step after its end is not taken. */
  lemma {:induction false} DownTheChain(n: nat, d: nat, k: nat, b: Built)
    requires 1 <= k <= d && d + 2 <= n
    requires forall j :: k <= j <= d ==> Name(j) !in b.nodes
    ensures var r := Explore(Shortcut(n, d), Name(k), k, d, b);
      Name(d) in r.nodes && (Name(d + 1) in r.nodes ==> Name(d + 1) in b.nodes)
    decreases d - k
  {
    var b1 := ChainStep(n, d, k, b);
    assert |Name(d + 1)| == d + 1 && |Name(k)| == k;
    if k < d {
      forall j | k + 1 <= j <= d ensures Name(j) !in b1.nodes {
        assert |Name(j)| == j;
      }
      DownTheChain(n, d, k + 1, b1);
    }
  }

  lemma ShortcutFar(n: nat, d: nat)
    requires 2 <= d && d + 2 <= n
    ensures Name(d + 1) !in Build(Shortcut(n, d), Name(0), d).nodes
  {
    hide DependencyTargets, Adj;
    var g, root := Shortcut(n, d), Name(0);
    NamesAre(n);
    assert |root| == 0 && |Name(d)| == d && |Name(d + 1)| == d + 1;
    assert root in g && g[root] == [Link(1), Link(d)];
    var b1 := Built({root}, [EdgeFor(root, Link(1))]);
    forall j | 1 <= j <= d ensures Name(j) !in b1.nodes {
      assert |Name(j)| == j;
    }
    DownTheChain(n, d, 1, b1);
    TwoLinks(g, root, Link(1), Link(d), d);
    var b2 := Explore(g, Name(1), 1, d, b1);
    var b3 := b2.(edges := b2.edges + [EdgeFor(root, Link(d))]);
    assert Name(d) in b3.nodes;
    assert Explore(g, Name(d), 1, d, b3) == b3;
  }

  lemma TwoLinks(g: Links, id: string, first: Relationship, second: Relationship, d: nat)
    requires id in g && g[id] == [first, second]
    ensures
      var b1 := Built({id}, [EdgeFor(id, first)]);
      var b2 := Explore(g, first.targetID, 1, d, b1);
      Build(g, id, d) == Explore(g, second.targetID, 1, d, b2.(edges := b2.edges + [EdgeFor(id, second)]))
  {
    var b0 := Built({id}, []);
    var b1 := Built({id}, [EdgeFor(id, first)]);
    assert Built({}, []).nodes + {id} == {id};
    assert b0.(edges := b0.edges + [EdgeFor(id, first)]) == b1;
    assert Build(g, id, d) == ExploreFrom(g, id, 0, 0, d, b0);
    var b2 := Explore(g, first.targetID, 1, d, b1);
    assert ExploreFrom(g, id, 0, 0, d, b0) == ExploreFrom(g, id, 1, 0, d, b2);
  }

  lemma ShortcutLinks(n: nat, d: nat)
    requires 2 <= d && d + 2 <= n
    ensures var g := Shortcut(n, d);
      && Name(0) in g && g[Name(0)] == [Link(1), Link(d)]
      && Name(d) in g && g[Name(d)] == [Link(d + 1)] && Name(d + 1) in g
  {
    hide Names, Name;
    ChainLink(n, d, d);
    NameIn(n, 0);
    NameIn(n, d + 1);
  }

  lemma ShortcutNear(n: nat, d: nat)
    requires 2 <= d && d + 2 <= n
    ensures Name(d + 1) in Ball(Shortcut(n, d), Name(0), d)
  {
    hide Shortcut, Name, Walk, Adj;
    var g, root, far := Shortcut(n, d), Name(0), Name(d + 1);
    ShortcutLinks(n, d);
    LinkIsEdge(g, root, 1);
    LinkIsEdge(g, Name(d), 0);
    EdgeWalk(Adj(g), root, Name(d));
    EdgeWalk(Adj(g), Name(d), far);
    WalkConcat(Adj(g), root, Name(d), far, 1, 1);
  }

  lemma ShortcutMissed(n: nat, d: nat)
    requires 2 <= d && d + 2 <= n
    ensures !AlwaysExact(n, d)
  {
    var g := Shortcut(n, d);
    ShortcutFar(n, d);
    ShortcutNear(n, d);
    NamesAre(n);
    assert |Name(0)| == 0 && Name(0) in g;
    assert g.Keys == Names(n) && |g| == n;
  }

  /**
   The bound means "at most `d` relationships away" on every catalog of `n` entities exactly
   when `d` is at most one or at least `n - 1`.
   */
  lemma ExactnessThreshold(n: nat, d: nat)
    ensures AlwaysExact(n, d) <==> d <= 1 || d >= n - 1
  {
    if d <= 1 || d >= n - 1 {
      forall g: Links, id | |g| == n && id in g ensures Build(g, id, d).nodes == Ball(g, id, d) {
        if d <= 1 {
          ShallowExact(g, id, d);
        } else {
          DeepEnough(g, id, d);
          NodesNear(g, id, d);
        }
      }
    } else {
      ShortcutMissed(n, d);
    }
  }
}
