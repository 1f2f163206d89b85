/**
 The registration API (layer2/registration.go). It edits the stored objects in place and then
 registers them again, so that the catalog takes the new keys, not the old ones, out of its
 indexes; the contracts of `Update` and `UpdateState` say what that costs.
 */
module Registration {
  import opened Common
  import opened Graph
  import opened Entities
  import opened Indexes
  import opened Catalog
  import opened CycleDetection
  import opened ImpactAnalysis
  import opened Relationships

  datatype RegistrationRequest = RegistrationRequest(id: string, entityType: string, name: string, adapters: seq<string>)

  const VALID_TYPES := ["server", "api", "database", "job", "pipeline", "device", "script"]

  function ValidateRequest(req: RegistrationRequest): (r: Outcome)
    ensures r.Ok? <==> req.id != "" && req.name != "" && req.entityType in VALID_TYPES
    ensures r.Fail? ==> r.error.InvalidRequest? && Wanting(req, r.error.reason)
  {
    if req.id == "" then Fail(InvalidRequest("entity ID is required"))
    else if req.entityType == "" then Fail(InvalidRequest("entity type is required"))
    else if req.name == "" then Fail(InvalidRequest("entity name is required"))
    else if req.entityType !in VALID_TYPES then Fail(InvalidRequest("invalid entity type"))
    else Ok
  }

  /** The first thing that is wrong with a request, in the order id, type, name, known type. */
  predicate Wanting(req: RegistrationRequest, reason: string) {
    || (reason == "entity ID is required" && |req.id| == 0)
    || (reason == "entity type is required" && |req.id| > 0 && |req.entityType| == 0)
    || (reason == "entity name is required" && |req.id| > 0 && |req.entityType| > 0 && |req.name| == 0)
    || (reason == "invalid entity type" && |req.id| > 0 && |req.entityType| > 0 && |req.name| > 0)
  }

  /** The relationships that do not lead to `id`, in order. */
  function Without(rels: seq<Relationship>, id: string): (r: seq<Relationship>)
    ensures forall rel :: rel in r <==> rel in rels && rel.targetID != id
  {
    if rels == [] then []
    else
      var n := |rels| - 1;
      assert rels == rels[..n] + [rels[n]];
      Without(rels[..n], id) + if rels[n].targetID != id then [rels[n]] else []
  }

  lemma WithoutInOrder(rels: seq<Relationship>, rel: Relationship, id: string)
    ensures Without([], id) == []
    ensures Without(rels + [rel], id) == if rel.targetID == id then Without(rels, id) else Without(rels, id) + [rel]
  {
    assert (rels + [rel])[..|rels|] == rels;
  }

  method RemoveTarget(rels: seq<Relationship>, id: string) returns (r: seq<Relationship>)
    ensures r == Without(rels, id)
  {
    r := [];
    for i := 0 to |rels|
      invariant r == Without(rels[..i], id)
    {
      assert rels[..i + 1][..i] == rels[..i];
      if rels[i].targetID != id {
        r := r + [rels[i]];
      }
    }
    assert rels[..|rels|] == rels;
  }

  class RegistrationAPI {
    const catalog: EntityCatalog
    const mapper: RelationshipMapper

    constructor (catalog: EntityCatalog, mapper: RelationshipMapper)
      requires mapper.catalog == catalog
      ensures this.catalog == catalog && this.mapper == mapper
    {
      this.catalog, this.mapper := catalog, mapper;
    }

    ghost predicate Valid()
      reads catalog
    {
      mapper.catalog == catalog && catalog.Valid()
    }

    /** A fresh object replaces whatever is registered under the id. */
    method Register(req: RegistrationRequest, now: int) returns (r: Outcome)
      requires Valid()
      modifies catalog
      ensures Valid()
      ensures r == ValidateRequest(req)
      ensures catalog.State() == if r.Fail? then old(catalog.State()) else
        Filed(old(catalog.State()), req.id, EntityView(req.entityType, req.name, req.adapters, [], [], "unknown", 0.0, now))
      ensures old(catalog.IndexesExact()) ==> catalog.IndexesExact()
      ensures old(catalog.IndexesSound()) ==> catalog.IndexesSound()
    {
      hide ExactFor, SoundFor, ViewsOf, Refile;
      r := ValidateRequest(req);
      if r.Fail? {
        return;
      }
      var entity := new Entity(req.id, req.entityType, req.name, req.adapters, now);
      r := catalog.Register(entity);
    }

    /**
     Registers a stored object again that was edited in place since the indexes were built, when
     the entities showed `views`. Nothing but the indexes changes.
     */
    method Reregister(entity: Entity, ghost views: Views) returns (r: Outcome)
      requires Valid() && entity.id in catalog.entities && catalog.entities[entity.id] == entity
      requires entity.id in views && views[entity.id].entityType == entity.entityType
      requires catalog.Views() == views[entity.id := entity.View()]
      modifies catalog
      ensures Valid() && r == Ok && catalog.entities == old(catalog.entities)
      ensures catalog.State() == Edited(old(catalog.State()).(views := views), entity.id, entity.View())
      ensures ExactFor(old(catalog.byType), old(catalog.byAdapter), old(catalog.byState), views) ==>
        (catalog.IndexesExact() <==>
          && entity.state == views[entity.id].state
          && multiset(views[entity.id].adapters) <= multiset(entity.adapters))
      ensures SoundFor(old(catalog.byType), old(catalog.byAdapter), old(catalog.byState), views) ==> catalog.IndexesSound()
    {
      hide ExactFor, SoundFor, ViewsOf, Refile, Shown, TypesOf, StatesOf, AdaptersOf;
      KeysNow(views, entity.id, entity.View());
      RefiledInPlaceFor(catalog.byType, catalog.byAdapter, catalog.byState, views, entity.id, entity.View());
      r := catalog.Register(entity);
    }

    /**
     After the change the indexes are exact if and only if the state was not changed: the listing
     under the old state stays behind.
     */
    method UpdateState(id: string, state: string, score: real, now: int) returns (r: Outcome)
      requires Valid()
      modifies catalog, catalog.Objects()
      ensures Valid() && catalog.entities == old(catalog.entities)
      ensures r == if id in catalog.entities then Ok else Fail(EntityNotFound(id))
      ensures var views := old(catalog.Views());
        catalog.State() == if r.Fail? then old(catalog.State()) else
          Edited(old(catalog.State()), id, views[id].(state := state, healthScore := score, lastSeenAt := now))
      ensures old(catalog.IndexesSound()) ==> catalog.IndexesSound()
      ensures r.Ok? && old(catalog.IndexesExact()) ==>
        (catalog.IndexesExact() <==> state == old(catalog.entities[id].state))
      ensures r.Ok? ==> forall s ::
        Mult(catalog.byState, s, id) == Max(Mult(old(catalog.byState), s, id), if s == state then 1 else 0)
    {
      hide ExactFor, SoundFor, Refile, Mult, ViewsOf;
      ViewsKeys(catalog.entities);
      var found := catalog.Get(id);
      if found.NotFound? {
        return Fail(found.error);
      }
      ghost var views, sx := catalog.Views(), catalog.byState;
      found.value.UpdateState(state, score, now);
      catalog.EditedInPlace(found.value);
      r := Reregister(found.value, views);
      InPlaceMult(sx, state, id);
    }

    /** The indexes stay exact if and only if the update drops no adapter. */
    method Update(id: string, name: Option<string>, adapters: Option<seq<string>>, now: int) returns (r: Outcome)
      requires Valid()
      modifies catalog, catalog.Objects()
      ensures Valid() && catalog.entities == old(catalog.entities)
      ensures r == if id in catalog.entities then Ok else Fail(EntityNotFound(id))
      ensures var views := old(catalog.Views());
        catalog.State() == if r.Fail? then old(catalog.State()) else
          Edited(old(catalog.State()), id, views[id].(name := if name.Some? then name.value else views[id].name,
                                                      adapters := if adapters.Some? then adapters.value else views[id].adapters,
                                                      lastSeenAt := now))
      ensures old(catalog.IndexesSound()) ==> catalog.IndexesSound()
      ensures r.Ok? && old(catalog.IndexesExact()) ==>
        (catalog.IndexesExact() <==> multiset(old(catalog.entities[id].adapters)) <= multiset(catalog.entities[id].adapters))
    {
      hide ExactFor, SoundFor, Refile, ViewsOf;
      ViewsKeys(catalog.entities);
      var found := catalog.Get(id);
      if found.NotFound? {
        return Fail(found.error);
      }
      ghost var views := catalog.Views();
      var e := found.value;
      if name.Some? {
        e.name := name.value;
      }
      if adapters.Some? {
        e.adapters := adapters.value;
      }
      e.lastSeenAt := now;
      catalog.EditedInPlace(e);
      r := Reregister(e, views);
    }

    method AddCapability(id: string, capability: string) returns (r: Outcome)
      requires Valid()
      modifies catalog, catalog.Objects()
      ensures Valid() && catalog.entities == old(catalog.entities)
      ensures r == if id in catalog.entities then Ok else Fail(EntityNotFound(id))
      ensures var views := old(catalog.Views());
        catalog.State() == if r.Fail? then old(catalog.State()) else
          Edited(old(catalog.State()), id, views[id].(capabilities := WithCapability(views[id].capabilities, capability)))
      ensures old(catalog.IndexesSound()) ==> catalog.IndexesSound()
      ensures old(catalog.IndexesExact()) ==> catalog.IndexesExact()
    {
      hide ExactFor, SoundFor, Refile, ViewsOf;
      ViewsKeys(catalog.entities);
      var found := catalog.Get(id);
      if found.NotFound? {
        return Fail(found.error);
      }
      ghost var views := catalog.Views();
      found.value.AddCapability(capability);
      catalog.EditedInPlace(found.value);
      r := Reregister(found.value, views);
    }

    /** Only a registered target is accepted. */
    method AddRelationship(id: string, relType: string, target: string) returns (r: Outcome)
      requires Valid()
      modifies catalog, catalog.Objects()
      ensures Valid() && catalog.entities == old(catalog.entities)
      ensures r == if id !in catalog.entities then Fail(EntityNotFound(id))
                   else if target !in catalog.entities then Fail(TargetNotFound(target)) else Ok
      ensures var views := old(catalog.Views());
        catalog.State() == if r.Fail? then old(catalog.State()) else
          Edited(old(catalog.State()), id, views[id].(relationships := views[id].relationships + [Relationship(relType, target)]))
      ensures old(catalog.IndexesSound()) ==> catalog.IndexesSound()
      ensures old(catalog.IndexesExact()) ==> catalog.IndexesExact()
      ensures old(TargetsRegistered(catalog.Dependencies())) ==> TargetsRegistered(catalog.Dependencies())
    {
      hide ExactFor, SoundFor, Refile, TargetsRegistered, DependenciesOf, ViewsOf;
      ViewsKeys(catalog.entities);
      var found := catalog.Get(id);
      if found.NotFound? {
        return Fail(found.error);
      }
      var other := catalog.Get(target);
      if other.NotFound? {
        return Fail(TargetNotFound(target));
      }
      ghost var views := catalog.Views();
      found.value.AddRelationship(relType, target);
      catalog.EditedInPlace(found.value);
      r := Reregister(found.value, views);
      LinkedStaysRegistered(views, id, Relationship(relType, target));
    }

    /** Succeeds exactly for a registered entity that nothing depends on. */
    method Deregister(id: string) returns (r: Outcome)
      requires Valid()
      modifies catalog
      ensures Valid()
      ensures r.Ok? <==> id in old(catalog.entities) && forall p :: !Edge(old(catalog.Dependencies()), p, id)
      ensures r.Fail? ==> r.error == if id !in old(catalog.entities) then EntityNotFound(id)
                                     else HasDependents(|ImpactedBy(old(catalog.Dependencies()), id)|)
      ensures catalog.State() == if r.Ok? then Removed(old(catalog.State()), id) else old(catalog.State())
      ensures old(catalog.IndexesSound()) ==> catalog.IndexesSound()
      ensures old(catalog.IndexesExact()) ==> catalog.IndexesExact()
      ensures old(TargetsRegistered(catalog.Dependencies())) ==> TargetsRegistered(catalog.Dependencies())
    {
      hide ExactFor, SoundFor, TargetsRegistered, DependenciesOf, ViewsOf, ImpactedBy, Edge;
      ghost var g := catalog.Dependencies();
      var impacted := mapper.GetImpactedEntities(id);
      if impacted.NotFound? {
        return Fail(impacted.error);
      }
      UnimpactedIffNoDependents(g, id);
      if |impacted.value| > 0 {
        assert impacted.value[0].id in ImpactedBy(g, id);
        return Fail(HasDependents(|impacted.value|));
      }
      assert ImpactedBy(g, id) == {};
      ViewsKeys(catalog.entities);
      RemovalStaysRegistered(catalog.Views(), id);
      r := catalog.Unregister(id);
    }

    /**
     Removes the entity whatever depends on it. The entities impacted by it, and only they, lose
     their relationships to it, of whatever type; no dependency on it remains. `changes` are the
     edits, in the order they are made, and then the removal.
     */
    method ForceDeregister(id: string) returns (r: Outcome, ghost changes: seq<Change>)
      requires Valid()
      modifies catalog, catalog.Objects()
      ensures Valid()
      ensures r == if id in old(catalog.entities) then Ok else Fail(EntityNotFound(id))
      ensures catalog.Views() == if r.Fail? then old(catalog.Views()) else
        Detached(old(catalog.Views()), id, ImpactedBy(old(catalog.Dependencies()), id)) - {id}
      ensures catalog.State() == ApplyAll(old(catalog.State()), changes)
      ensures r.Fail? ==> changes == []
      ensures r.Ok? ==> changes != [] && changes[|changes| - 1] == Remove(id)
      ensures forall i :: 0 <= i < |changes| - 1 ==> Detaches(changes[i], old(catalog.Views()), id)
      ensures r.Ok? ==> forall p :: !Edge(catalog.Dependencies(), p, id)
      ensures old(catalog.IndexesSound()) ==> catalog.IndexesSound()
      ensures old(catalog.IndexesExact()) ==> catalog.IndexesExact()
      ensures old(TargetsRegistered(catalog.Dependencies())) ==> TargetsRegistered(catalog.Dependencies())
    {
      hide ExactFor, SoundFor, TargetsRegistered, DependenciesOf, ImpactedBy, Edge, Detached, Without, Refile;
      hide ApplyAll, Detaches;
      ghost var views, g := catalog.Views(), catalog.Dependencies();
      DetachedStaysRegistered(views, id);
      changes := [];
      NothingApplied(catalog.State());
      var impacted := mapper.GetImpactedEntities(id);
      if impacted.NotFound? {
        return Fail(impacted.error), [];
      }
      var list := impacted.value;
      DetachedNone(views, id);
      ghost var done: set<string> := {};
      for i := 0 to |list|
        invariant Valid() && catalog.entities == old(catalog.entities)
        invariant catalog.Views() == Detached(views, id, done)
        invariant done == set k | 0 <= k < i :: list[k].id
        invariant catalog.State() == ApplyAll(old(catalog.State()), changes)
        invariant forall k :: 0 <= k < |changes| ==> Detaches(changes[k], views, id)
        invariant old(catalog.IndexesSound()) ==> catalog.IndexesSound()
        invariant old(catalog.IndexesExact()) ==> catalog.IndexesExact()
      {
        var entity := list[i];
        changes := Detach(entity, id, views, done, old(catalog.State()), changes);
        done := done + {entity.id};
      }
      assert done == ImpactedBy(g, id) by {
        forall x | x in ImpactedBy(g, id) ensures x in done {
          assert catalog.entities[x] in list;
        }
      }
      changes := RemoveNext(id, old(catalog.State()), changes);
      r := Ok;
    }

    /** The removal after `changes`. */
    method RemoveNext(id: string, ghost start: CatalogState, ghost changes: seq<Change>) returns (ghost changes': seq<Change>)
      requires Valid() && id in catalog.entities && catalog.State() == ApplyAll(start, changes)
      modifies catalog
      ensures Valid() && catalog.entities == old(catalog.entities) - {id} && catalog.Views() == old(catalog.Views()) - {id}
      ensures changes' == changes + [Remove(id)] && catalog.State() == ApplyAll(start, changes')
      ensures old(catalog.IndexesSound()) ==> catalog.IndexesSound()
      ensures old(catalog.IndexesExact()) ==> catalog.IndexesExact()
    {
      hide ExactFor, SoundFor, ViewsOf, ApplyAll;
      ViewsKeys(catalog.entities);
      ApplyAllLast(start, changes, Remove(id));
      changes' := changes + [Remove(id)];
      var ignored := catalog.Unregister(id);
    }

    /** One round of the loop: `entity` drops its relationships to `id` and is registered again. */
    method Detach(entity: Entity, id: string, ghost views: Views, ghost done: set<string>,
                  ghost start: CatalogState, ghost changes: seq<Change>)
      returns (ghost changes': seq<Change>)
      requires catalog.State() == ApplyAll(start, changes)
      requires Valid() && entity.id in catalog.entities && catalog.entities[entity.id] == entity
      requires catalog.Views() == Detached(views, id, done) && entity.id !in done
      modifies catalog, entity`relationships
      ensures Valid() && catalog.entities == old(catalog.entities)
      ensures catalog.Views() == Detached(views, id, done + {entity.id})
      ensures |changes'| == |changes| + 1 && changes'[..|changes|] == changes && Detaches(changes'[|changes|], views, id)
      ensures catalog.State() == ApplyAll(start, changes')
      ensures old(catalog.IndexesSound()) ==> catalog.IndexesSound()
      ensures old(catalog.IndexesExact()) ==> catalog.IndexesExact()
    {
      hide ExactFor, SoundFor, Without, Refile, ViewsOf, Detached, Edited, ApplyAll;
      ViewsKeys(catalog.entities);
      ghost var now := catalog.Views();
      DetachedMore(views, id, done, entity.id);
      var kept := RemoveTarget(entity.relationships, id);
      entity.relationships := kept;
      catalog.EditedInPlace(entity);
      ghost var c := Edit(entity.id, entity.View());
      ApplyAllLast(start, changes, c);
      changes' := changes + [c];
      var ignored := Reregister(entity, now);
    }
  }

  function WithCapability(capabilities: seq<string>, capability: string): seq<string> {
    if capability in capabilities then capabilities else capabilities + [capability]
  }

  /** The entities of `ids` without their relationships to `id`. */
  function Detached(views: Views, id: string, ids: set<string>): Views {
    map x | x in views ::
      if x in ids then views[x].(relationships := Without(views[x].relationships, id)) else views[x]
  }

  /** An edit that takes the relationships to `id` away from an entity and nothing else. */
  ghost predicate Detaches(c: Change, views: Views, id: string) {
    c.Edit? && c.id in views && c.view == views[c.id].(relationships := Without(views[c.id].relationships, id))
  }

  lemma DetachedNone(views: Views, id: string)
    ensures Detached(views, id, {}) == views
  {
  }

  lemma DetachedMore(views: Views, id: string, done: set<string>, x: string)
    requires x in Detached(views, id, done) && x !in done
    ensures x in views && Detached(views, id, done)[x] == views[x]
    ensures var now := Detached(views, id, done);
      Detached(views, id, done + {x}) == now[x := now[x].(relationships := Without(now[x].relationships, id))]
  {
  }

  lemma KeysNow(views: Views, id: string, v: EntityView)
    ensures Shown(TypesOf(views[id := v]), id) == [v.entityType]
    ensures Shown(StatesOf(views[id := v]), id) == [v.state]
    ensures Shown(AdaptersOf(views[id := v]), id) == v.adapters
    ensures views[id := v][id := v] == views[id := v]
  {
  }

  lemma InPlaceMult(ix: Index, state: string, id: string)
    ensures forall s ::
      Mult(Refile(ix, [state], [state], id), s, id) == Max(Mult(ix, s, id), if s == state then 1 else 0)
  {
    forall s {
      RefileMult(ix, [state], [state], id, s, id);
    }
  }

  // ---------- Dependencies stay on registered entities ----------

  lemma EdgeIsRelationship(views: Views, a: string, b: string)
    ensures Edge(DependenciesOf(views), a, b) <==>
            a in views && Relationship(RELATION_DEPENDS_ON, b) in views[a].relationships
  {
  }

  lemma LinkedStaysRegistered(views: Views, id: string, rel: Relationship)
    requires id in views && rel.targetID in views
    ensures var after := views[id := views[id].(relationships := views[id].relationships + [rel])];
      TargetsRegistered(DependenciesOf(views)) ==> TargetsRegistered(DependenciesOf(after))
  {
    var after := views[id := views[id].(relationships := views[id].relationships + [rel])];
    if TargetsRegistered(DependenciesOf(views)) {
      forall a, b | Edge(DependenciesOf(after), a, b) ensures b in after {
        EdgeIsRelationship(after, a, b);
        EdgeIsRelationship(views, a, b);
      }
    }
  }

  /**
   Removing an entity keeps all dependencies on registered entities if and only if no other
   entity depends on it: `Unregister` and `CleanupStale` do not look.
   */
  lemma RemovalStaysRegistered(views: Views, id: string)
    requires id in views
    ensures TargetsRegistered(DependenciesOf(views)) ==>
      (TargetsRegistered(DependenciesOf(views - {id})) <==> forall p :: p != id ==> !Edge(DependenciesOf(views), p, id))
  {
    var g, h := DependenciesOf(views), DependenciesOf(views - {id});
    assert forall a, b :: Edge(h, a, b) <==> Edge(g, a, b) && a != id;
  }

  lemma DetachedStaysRegistered(views: Views, id: string)
    ensures var g := DependenciesOf(views);
      var after := Detached(views, id, ImpactedBy(g, id)) - {id};
      && (forall p :: !Edge(DependenciesOf(after), p, id))
      && (TargetsRegistered(g) ==> TargetsRegistered(DependenciesOf(after)))
  {
    var g := DependenciesOf(views);
    var impacted := ImpactedBy(g, id);
    var after := Detached(views, id, impacted) - {id};
    forall a, b | Edge(DependenciesOf(after), a, b) ensures Edge(g, a, b) && b != id {
      EdgeIsRelationship(after, a, b);
      EdgeIsRelationship(views, a, b);
      if b == id {
        EdgeWalk(g, a, id);
      }
    }
  }

}
