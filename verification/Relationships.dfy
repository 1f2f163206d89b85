/**
 Searches over the relationships of the catalog (layer2/relationship_mapper.go). The maps that
 the searches share by reference are objects here as well.
 */
module Relationships {
  import opened Graph
  import opened Entities
  import opened Catalog
  import opened CycleDetection
  import opened ImpactAnalysis
  import opened DependencyGraphs

  /** A `map[string]bool` that callers share by reference. */
  class Marks {
    var marks: map<string, bool>

    constructor ()
      ensures marks == map[]
    {
      marks := map[];
    }

    predicate Has(id: string)
      reads this
      ensures Has(id) <==> id in Ids()
    {
      id in marks && marks[id]
    }

    ghost function Ids(): set<string>
      reads this
    {
      set id | id in marks && marks[id]
    }

    method Put(id: string, b: bool)
      modifies this
      ensures Ids() == if b then old(Ids()) + {id} else old(Ids()) - {id}
    {
      marks := marks[id := b];
    }
  }

  /** A `map[string]*Entity` that callers share by reference. */
  class EntityTable {
    var items: map<string, Entity>

    constructor ()
      ensures items == map[]
    {
      items := map[];
    }

    ghost predicate From(entities: map<string, Entity>)
      reads this
    {
      forall id :: id in items ==> id in entities && items[id] == entities[id]
    }

    /** Each entity once, in any order. */
    method Values() returns (r: seq<Entity>)
      requires forall id :: id in items ==> items[id].id == id
      ensures forall i :: 0 <= i < |r| ==> r[i].id in items && items[r[i].id] == r[i]
      ensures forall id :: id in items ==> items[id] in r
      ensures forall i, j :: 0 <= i < j < |r| ==> r[i] != r[j]
      ensures |r| == |items.Keys|
    {
      r := [];
      var todo := items.Keys;
      while todo != {}
        invariant todo <= items.Keys && |r| + |todo| == |items.Keys|
        invariant forall i :: 0 <= i < |r| ==> r[i].id in items.Keys - todo && items[r[i].id] == r[i]
        invariant forall id :: id in items && id !in todo ==> items[id] in r
        invariant forall i, j :: 0 <= i < j < |r| ==> r[i] != r[j]
        decreases todo
      {
        var id :| id in todo;
        r := r + [items[id]];
        todo := todo - {id};
      }
    }
  }

  class DependencyGraph {
    var nodes: map<string, Entity>
    var edges: seq<GraphEdge>

    constructor ()
      ensures nodes == map[] && edges == []
    {
      nodes, edges := map[], [];
    }

    ghost function Value(): Built
      reads this
    {
      Built(nodes.Keys, edges)
    }

    ghost predicate From(entities: map<string, Entity>)
      reads this
    {
      forall id :: id in nodes ==> id in entities && nodes[id] == entities[id]
    }
  }

  /** The error reports a culprit of the search from `root`. */
  ghost predicate Accuses(g: Adjacency, root: string, error: CatalogError) {
    error.CircularDependency? && Culprit(g, root, error.from, error.to)
  }

  function LinksOf(views: Views): Links {
    map id | id in views :: views[id].relationships
  }

  class RelationshipMapper {
    const catalog: EntityCatalog

    constructor (catalog: EntityCatalog)
      ensures this.catalog == catalog
    {
      this.catalog := catalog;
    }

    ghost method Graphed() returns (g: Adjacency)
      ensures g == catalog.Dependencies() && g.Keys == catalog.entities.Keys
    {
      g := catalog.Dependencies();
    }

    lemma Targets(g: Adjacency, id: string)
      requires g == catalog.Dependencies()
      ensures id in g <==> id in catalog.entities
      ensures id in g ==>
        var deps := OfType(catalog.entities[id].relationships, RELATION_DEPENDS_ON);
        |g[id]| == |deps| && forall i :: 0 <= i < |deps| ==> g[id][i] == deps[i].targetID
    {
      if id in g { TargetsByIndex(catalog.entities[id].relationships); }
    }

    /**
     `g` is the dependency graph; `scan` and `scan'` are the edge counts of the trail before and
     after. They are for the proof only. An error names a dependency that closes a cycle or that is
     a second edge to an unregistered id.
     */
    method DetectCycle(id: string, visited: Marks, recStack: Marks,
                       ghost g: Adjacency, ghost root: string, ghost scan: map<string, nat>)
      returns (err: Outcome, ghost scan': map<string, nat>)
      requires catalog.Valid() && visited != recStack && g == catalog.Dependencies()
      requires Entry(g, root, Trail(visited.Ids(), recStack.Ids(), scan), id)
      modifies visited, recStack
      ensures err.Fail? ==> Accuses(g, root, err.error)
      ensures err.Ok? ==> Exit(g, root, old(Trail(visited.Ids(), recStack.Ids(), scan)),
                               Trail(visited.Ids(), recStack.Ids(), scan'), id)
      decreases Universe(g) - visited.Ids()
    {
      hide Entry, Exit, Scanning, Universe, Culprit, OfType, DependencyTargets;
      hide Marks.Ids, Marks.Has, EntityCatalog.Valid, DependenciesOf, ViewsOf;
      ghost var t0 := Trail(visited.Ids(), recStack.Ids(), scan);
      scan' := scan;
      Targets(g, id);
      visited.Put(id, true);
      recStack.Put(id, true);
      var entity := catalog.Get(id);
      if entity.NotFound? {
        EnterUnregistered(g, root, t0, id);
        return Ok, scan';
      }
      var deps := entity.value.GetRelationships(RELATION_DEPENDS_ON);
      scan' := scan[id := 0];
      Enter(g, root, t0, id);
      for i := 0 to |deps|
        invariant Scanning(g, root, t0, Trail(visited.Ids(), recStack.Ids(), scan'), id, i) && g == catalog.Dependencies()
      {
        var target := deps[i].targetID;
        ghost var t1 := Trail(visited.Ids(), recStack.Ids(), scan');
        if !visited.Has(target) {
          CallReady(g, root, t0, t1, id, i);
          err, scan' := DetectCycle(target, visited, recStack, g, root, scan');
          if err.Fail? {
            return;
          }
          CallDone(g, root, t0, t1, Trail(visited.Ids(), recStack.Ids(), scan'), id, i);
          scan' := scan'[id := i + 1];
        } else if recStack.Has(target) {
          Alarm(g, root, t0, t1, id, i);
          return Fail(CircularDependency(id, target)), scan';
        } else {
          Skip(g, root, t0, t1, id, i);
          scan' := scan'[id := i + 1];
        }
      }
      Leave(g, root, t0, Trail(visited.Ids(), recStack.Ids(), scan'), id);
      recStack.Put(id, false);
      return Ok, scan';
    }

    /** One search with fresh maps. */
    method CheckFrom(root: string, ghost g: Adjacency) returns (err: Outcome)
      requires catalog.Valid() && g == catalog.Dependencies() && root in g
      ensures err.Fail? ==> Verdict(g) && Accuses(g, root, err.error)
      ensures err.Ok? ==> Clear(g, root)
    {
      hide Entry, Exit, Culprit, Verdict, Clear, DependenciesOf, ViewsOf;
      var visited := new Marks();
      var recStack := new Marks();
      assert visited.Ids() == {} && recStack.Ids() == {};
      Start(g, root);
      ghost var scan: map<string, nat>;
      err, scan := DetectCycle(root, visited, recStack, g, root, map[]);
      if err.Fail? {
        CulpritFound(g, root, err.error.from, err.error.to);
      } else {
        Completed(g, root, Trail(visited.Ids(), recStack.Ids(), scan));
      }
    }

    /**
     Fails exactly on catalogs with a cycle or with an unregistered id reached twice from one
     entity, and names a dependency on the cycle or one of the two edges.
     */
    method ValidateDependencies() returns (err: Outcome)
      requires catalog.Valid()
      ensures err.Fail? <==> Verdict(catalog.Dependencies())
      ensures TargetsRegistered(catalog.Dependencies()) ==> (err.Fail? <==> HasCycle(catalog.Dependencies()))
      ensures err.Fail? ==> exists root :: root in catalog.entities && Accuses(catalog.Dependencies(), root, err.error)
    {
      hide Accuses, HasCycle, Verdict, Clear, TargetsRegistered, DependenciesOf, ViewsOf;
      ghost var g := Graphed();
      if TargetsRegistered(g) { VerdictWhenRegistered(g); }
      var list := catalog.List();
      for i := 0 to |list|
        invariant g == catalog.Dependencies() && forall j :: 0 <= j < i ==> Clear(g, list[j].id)
      {
        err := CheckFrom(list[i].id, g);
        if err.Fail? {
          return;
        }
      }
      forall root | root in g ensures Clear(g, root) {
        assert catalog.entities[root] in list;
      }
      AllClear(g);
      return Ok;
    }

    // ---------- Impact ----------

    method CollectImpactedEntities(entity: Entity, impacted: EntityTable, ghost g: Adjacency)
      requires catalog.Valid() && impacted.From(catalog.entities) && g == catalog.Dependencies()
      modifies impacted
      ensures impacted.From(catalog.entities)
      ensures Collected(g, entity.id, old(impacted.items.Keys), impacted.items.Keys)
      decreases catalog.entities.Keys - impacted.items.Keys, 1
    {
      hide DependenciesOf, DependencyTargets, Grown, DependentsIn, Collected, Edge, ViewsOf;
      ghost var found0 := impacted.items.Keys;
      DependenciesFacts(catalog.entities);
      GrownSame(g, entity.id, found0);
      var all := catalog.List();
      for i := 0 to |all|
        invariant impacted.From(catalog.entities)
        invariant Grown(g, entity.id, found0, impacted.items.Keys)
        invariant forall k :: 0 <= k < i && Edge(g, all[k].id, entity.id) ==> all[k].id in impacted.items
      {
        ghost var found1 := impacted.items.Keys;
        CollectDependent(all[i], entity, impacted, g, found0);
        assert found1 <= impacted.items.Keys;
      }
      forall p | Edge(g, p, entity.id) ensures p in impacted.items {
        assert catalog.entities[p] in all;
      }
      GrownIsCollected(g, entity.id, found0, impacted.items.Keys);
    }

    /** The inner loop: `e` is impacted, and all that depends on it, if it depends on `entity`. */
    method CollectDependent(e: Entity, entity: Entity, impacted: EntityTable, ghost g: Adjacency, ghost found0: set<string>)
      requires catalog.Valid() && impacted.From(catalog.entities) && g == catalog.Dependencies()
      requires e.id in catalog.entities && catalog.entities[e.id] == e
      requires Grown(g, entity.id, found0, impacted.items.Keys)
      modifies impacted
      ensures impacted.From(catalog.entities) && old(impacted.items.Keys) <= impacted.items.Keys
      ensures Grown(g, entity.id, found0, impacted.items.Keys)
      ensures Edge(g, e.id, entity.id) ==> e.id in impacted.items
      decreases catalog.entities.Keys - found0, 0
    {
      hide DependenciesOf, DependencyTargets, DependentsIn, Collected, Edge, Grown, ViewsOf;
      DependenciesFacts(catalog.entities);
      GrownContains(g, entity.id, found0, impacted.items.Keys);
      var rels := e.relationships;
      for j := 0 to |rels|
        invariant impacted.From(catalog.entities) && old(impacted.items.Keys) <= impacted.items.Keys
        invariant Grown(g, entity.id, found0, impacted.items.Keys)
        invariant Relationship(RELATION_DEPENDS_ON, entity.id) in rels[..j] ==> e.id in impacted.items
      {
        if rels[j].relType == RELATION_DEPENDS_ON && rels[j].targetID == entity.id {
          assert rels[j] == Relationship(RELATION_DEPENDS_ON, entity.id);
          if e.id !in impacted.items {
            ghost var found1 := impacted.items.Keys;
            impacted.items := impacted.items[e.id := e];
            assert e.id in catalog.entities.Keys - found0 && impacted.items.Keys == found1 + {e.id};
            CollectImpactedEntities(e, impacted, g);
            GrownTransitive(g, entity.id, e.id, found0, found1, impacted.items.Keys);
          }
        }
      }
      assert rels[..|rels|] == rels;
    }

    /** The impacted entities, each once, in any order. */
    method GetImpactedEntities(id: string) returns (r: Lookup<seq<Entity>>)
      requires catalog.Valid()
      ensures r.NotFound? <==> id !in catalog.entities
      ensures r.NotFound? ==> r.error == EntityNotFound(id)
      ensures r.Found? ==>
        && (forall i :: 0 <= i < |r.value| ==>
              && r.value[i].id in ImpactedBy(catalog.Dependencies(), id)
              && r.value[i].id in catalog.entities && catalog.entities[r.value[i].id] == r.value[i])
        && (forall x :: x in ImpactedBy(catalog.Dependencies(), id) ==> x in catalog.entities && catalog.entities[x] in r.value)
        && (forall i, j :: 0 <= i < j < |r.value| ==> r.value[i] != r.value[j])
        && |r.value| == |ImpactedBy(catalog.Dependencies(), id)|
    {
      hide DependenciesOf, ViewsOf, ImpactedBy;
      var entity := catalog.Get(id);
      if entity.NotFound? {
        return NotFound(entity.error);
      }
      var impacted := new EntityTable();
      DependenciesFacts(catalog.entities);
      ghost var g := catalog.Dependencies();
      CollectImpactedEntities(entity.value, impacted, g);
      CollectedIsImpacted(g, id, impacted.items.Keys);
      var result := impacted.Values();
      assert g == catalog.Dependencies();
      return Found(result);
    }

    // ---------- Dependency graph ----------

    ghost predicate LinksAre(g: Links)
      reads catalog, catalog.Objects()
    {
      g.Keys == catalog.entities.Keys && forall id :: id in g ==> g[id] == catalog.entities[id].relationships
    }

    method BuildGraph(id: string, depth: nat, maxDepth: int, graph: DependencyGraph, visited: Marks,
                      ghost g: Links)
      returns (err: Outcome)
      requires catalog.Valid() && LinksAre(g)
      requires graph.From(catalog.entities) && visited.Ids() == graph.nodes.Keys
      modifies graph, visited
      ensures graph.From(catalog.entities) && visited.Ids() == graph.nodes.Keys
      ensures graph.Value() == Explore(g, id, depth, maxDepth, old(graph.Value()))
      ensures err == if depth <= maxDepth && id !in old(graph.nodes) && id !in catalog.entities
                     then Fail(EntityNotFound(id)) else Ok
      decreases Room(depth, maxDepth)
    {
      hide Marks.Ids, Marks.Has, Explore, ExploreFrom, LinksOf, ViewsOf;
      ghost var b0 := graph.Value();
      ghost var result := Explore(g, id, depth, maxDepth, b0);
      ExploreUnfolded(g, id, depth, maxDepth, b0);
      if depth > maxDepth || visited.Has(id) {
        return Ok;
      }
      var entity := catalog.Get(id);
      if entity.NotFound? {
        return Fail(entity.error);
      }
      visited.Put(id, true);
      graph.nodes := graph.nodes[id := entity.value];
      var rels := entity.value.relationships;
      for i := 0 to |rels|
        invariant graph.From(catalog.entities) && visited.Ids() == graph.nodes.Keys && LinksAre(g)
        invariant ExploreFrom(g, id, i, depth, maxDepth, graph.Value()) == result
      {
        ExploreFromUnfolded(g, id, i, depth, maxDepth, graph.Value());
        graph.edges := graph.edges + [EdgeFor(id, rels[i])];
        var ignored := BuildGraph(rels[i].targetID, depth + 1, maxDepth, graph, visited, g);
      }
      ExploreFromUnfolded(g, id, |rels|, depth, maxDepth, graph.Value());
      return Ok;
    }

    /** An error only for an unregistered start with a non-negative bound. */
    method GetDependencyGraph(id: string, maxDepth: int) returns (graph: DependencyGraph, err: Outcome)
      requires catalog.Valid()
      ensures fresh(graph)
      ensures err == if maxDepth >= 0 && id !in catalog.entities then Fail(EntityNotFound(id)) else Ok
      ensures graph.From(catalog.entities)
      ensures graph.Value() == Build(LinksOf(catalog.Views()), id, maxDepth)
      ensures graph.nodes.Keys <= Ball(LinksOf(catalog.Views()), id, maxDepth)
      ensures maxDepth >= 0 && maxDepth >= |catalog.entities| - 1 ==>
        graph.nodes.Keys == Reachable(LinksOf(catalog.Views()), id)
      ensures forall v :: Recorded(graph.edges, v) == if v in graph.nodes then graph.nodes[v].relationships else []
    {
      hide Explore, LinksOf, ViewsOf, Recorded, DependencyGraphs.Reachable, Ball;
      graph := new DependencyGraph();
      var visited := new Marks();
      assert visited.Ids() == {};
      ghost var g := LinksOf(catalog.Views());
      LinksFacts(catalog.entities);
      err := BuildGraph(id, 0, maxDepth, graph, visited, g);
      GraphMeans(g, id, maxDepth);
    }
  }

  lemma LinksFacts(entities: map<string, Entity>)
    ensures LinksOf(ViewsOf(entities)).Keys == entities.Keys && |LinksOf(ViewsOf(entities))| == |entities|
    ensures forall id :: id in entities ==> LinksOf(ViewsOf(entities))[id] == entities[id].relationships
  {
    assert LinksOf(ViewsOf(entities)).Keys == entities.Keys;
  }

  lemma GraphMeans(g: Links, id: string, maxDepth: int)
    ensures var r := Build(g, id, maxDepth);
      && r.nodes <= Ball(g, id, maxDepth)
      && (maxDepth >= 0 && maxDepth >= |g| - 1 ==> r.nodes == DependencyGraphs.Reachable(g, id))
      && forall v :: Recorded(r.edges, v) == if v in r.nodes && v in g then g[v] else []
  {
    NodesNear(g, id, maxDepth);
    EdgesExact(g, id, maxDepth);
    if maxDepth >= 0 && maxDepth >= |g| - 1 { DeepEnough(g, id, maxDepth); }
  }

  lemma DependenciesFacts(entities: map<string, Entity>)
    ensures DependenciesOf(ViewsOf(entities)).Keys == entities.Keys
    ensures forall p, x :: Edge(DependenciesOf(ViewsOf(entities)), p, x) <==>
                           p in entities && Relationship(RELATION_DEPENDS_ON, x) in entities[p].relationships
  {
  }
}
