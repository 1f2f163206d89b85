/** The central registry of entities and its three indexes (layer2/catalog.go). */
module Catalog {
  import opened Entities
  import opened Indexes
  import Graph

  datatype CatalogError =
    | EmptyID
    | EntityNotFound(id: string)
    | TargetNotFound(id: string)
    | HasDependents(count: nat)
    | CircularDependency(from: string, to: string)
    | InvalidRequest(reason: string)

  datatype Outcome = Ok | Fail(error: CatalogError)

  datatype Lookup<T> = Found(value: T) | NotFound(error: CatalogError)

  /** The registered entities behind a list of ids, in order; unknown ids are skipped. */
  function Resolve(entities: map<string, Entity>, ids: seq<string>): seq<Entity> {
    if ids == [] then []
    else
      var n := |ids| - 1;
      Resolve(entities, ids[..n]) + if ids[n] in entities then [entities[ids[n]]] else []
  }

  lemma {:induction false} ResolveMult(entities: map<string, Entity>, ids: seq<string>, id: string)
    requires forall x :: x in entities ==> entities[x].id == x
    requires id in entities
    ensures multiset(Resolve(entities, ids))[entities[id]] == multiset(ids)[id]
  {
    if ids != [] {
      ResolveMult(entities, ids[..|ids| - 1], id);
      SplitLast(ids);
    }
  }

  lemma {:induction false} ResolveInOrder(entities: map<string, Entity>, a: seq<string>, b: seq<string>)
    ensures Resolve(entities, a + b) == Resolve(entities, a) + Resolve(entities, b)
  {
    if b == [] {
      assert a + b == a;
    } else {
      var n := |b| - 1;
      assert (a + b)[..|a| + n] == a + b[..n] && (a + b)[|a| + n] == b[n];
      ResolveInOrder(entities, a, b[..n]);
    }
  }

  lemma {:induction false} ResolveRegistered(entities: map<string, Entity>, ids: seq<string>)
    requires forall x :: x in entities ==> entities[x].id == x
    ensures forall e :: e in Resolve(entities, ids) ==> e.id in ids && e.id in entities && entities[e.id] == e
  {
    if ids != [] {
      ResolveRegistered(entities, ids[..|ids| - 1]);
    }
  }

  // ---------- What the registered entities say, as values ----------

  type Views = map<string, EntityView>

  ghost function ViewsOf(entities: map<string, Entity>): Views
    reads entities.Values
  {
    map id | id in entities :: entities[id].View()
  }

  /** The key of every entity in the type index. */
  function TypesOf(views: Views): Filing {
    map id | id in views :: [views[id].entityType]
  }

  function StatesOf(views: Views): Filing {
    map id | id in views :: [views[id].state]
  }

  function AdaptersOf(views: Views): Filing {
    map id | id in views :: views[id].adapters
  }

  /** Who depends on whom, as a graph over ids. */
  function DependenciesOf(views: Views): Graph.Adjacency {
    map id | id in views :: DependencyTargets(views[id].relationships)
  }

  lemma KeysWith(views: Views, id: string, v: EntityView)
    ensures TypesOf(views[id := v]) == TypesOf(views)[id := [v.entityType]]
    ensures StatesOf(views[id := v]) == StatesOf(views)[id := [v.state]]
    ensures AdaptersOf(views[id := v]) == AdaptersOf(views)[id := v.adapters]
  {
    TypesWith(views, id, v);
    StatesWith(views, id, v);
    hide TypesOf, StatesOf;
  }

  lemma TypesWith(views: Views, id: string, v: EntityView)
    ensures TypesOf(views[id := v]) == TypesOf(views)[id := [v.entityType]]
  {
  }

  lemma StatesWith(views: Views, id: string, v: EntityView)
    ensures StatesOf(views[id := v]) == StatesOf(views)[id := [v.state]]
  {
  }

  lemma KeysWithout(views: Views, id: string)
    ensures TypesOf(views - {id}) == TypesOf(views) - {id}
    ensures StatesOf(views - {id}) == StatesOf(views) - {id}
    ensures AdaptersOf(views - {id}) == AdaptersOf(views) - {id}
  {
  }

  /** All three indexes say exactly what the entities say. */
  ghost predicate ExactFor(byType: Index, byAdapter: Index, byState: Index, views: Views) {
    Exact(byType, TypesOf(views)) && Exact(byState, StatesOf(views)) && Exact(byAdapter, AdaptersOf(views))
  }

  /**
   What survives every sequence of operations, in-place edits included: the type index is exact,
   and no entity is missing under its current state or adapters.
   */
  ghost predicate SoundFor(byType: Index, byAdapter: Index, byState: Index, views: Views) {
    Exact(byType, TypesOf(views)) && Covers(byState, StatesOf(views)) && Covers(byAdapter, AdaptersOf(views))
  }

  /** The keys filed for `id`, or none. */
  function Shown(keysOf: Filing, id: string): seq<string> {
    if id in keysOf then keysOf[id] else []
  }

  // ---------- The catalog as a value ----------

  datatype CatalogState = CatalogState(views: Views, byType: Index, byAdapter: Index, byState: Index)

  /** A fresh object registered: the keys of the object it replaces are taken out. */
  function Filed(s: CatalogState, id: string, v: EntityView): CatalogState {
    CatalogState(
      s.views[id := v],
      Refile(s.byType, Shown(TypesOf(s.views), id), [v.entityType], id),
      Refile(s.byAdapter, Shown(AdaptersOf(s.views), id), v.adapters, id),
      Refile(s.byState, Shown(StatesOf(s.views), id), [v.state], id))
  }

  /** A stored object edited in place to show `v` and registered again: the new keys are taken out. */
  function Edited(s: CatalogState, id: string, v: EntityView): CatalogState {
    CatalogState(
      s.views[id := v],
      Refile(s.byType, [v.entityType], [v.entityType], id),
      Refile(s.byAdapter, v.adapters, v.adapters, id),
      Refile(s.byState, [v.state], [v.state], id))
  }

  function Removed(s: CatalogState, id: string): CatalogState
    requires id in s.views
  {
    var v := s.views[id];
    CatalogState(
      s.views - {id},
      RemoveAll(s.byType, [v.entityType], id),
      RemoveAll(s.byAdapter, v.adapters, id),
      RemoveAll(s.byState, [v.state], id))
  }

  /**
   One change to the catalog. `Edit` is what `Update`, `UpdateState`, `AddCapability`,
   `AddRelationship` and each round of `ForceDeregister` do; `Remove` is what `Unregister` and each
   removal of `CleanupStale` do.
   */
  datatype Change =
    | File(id: string, view: EntityView)
    | Edit(id: string, view: EntityView)
    | Remove(id: string)

  /** Registration refuses an empty id; an edit cannot change the type, and needs a stored object. */
  function Apply(s: CatalogState, c: Change): CatalogState {
    match c
    case File(id, v) => if id == "" then s else Filed(s, id, v)
    case Edit(id, v) => if id !in s.views then s else Edited(s, id, v.(entityType := s.views[id].entityType))
    case Remove(id) => if id !in s.views then s else Removed(s, id)
  }

  function ApplyAll(s: CatalogState, changes: seq<Change>): CatalogState {
    if changes == [] then s
    else Apply(ApplyAll(s, changes[..|changes| - 1]), changes[|changes| - 1])
  }

  lemma ApplyAllLast(s: CatalogState, changes: seq<Change>, c: Change)
    ensures ApplyAll(s, changes + [c]) == Apply(ApplyAll(s, changes), c)
  {
    assert (changes + [c])[..|changes|] == changes;
  }

  lemma NothingApplied(s: CatalogState)
    ensures ApplyAll(s, []) == s
  {
  }

  lemma ViewsKeys(entities: map<string, Entity>)
    ensures ViewsOf(entities).Keys == entities.Keys
    ensures forall id :: id in entities ==> ViewsOf(entities)[id] == entities[id].View()
  {
  }

  method RemoveFromSlice(slice: seq<string>, item: string) returns (r: seq<string>)
    ensures r == RemoveFirst(slice, item)
  {
    for i := 0 to |slice|
      invariant item !in slice[..i]
    {
      if slice[i] == item {
        RemoveFirstAt(slice, item, i);
        return slice[..i] + slice[i + 1..];
      }
    }
    assert slice == slice[..|slice|];
    RemoveFirstAbsent(slice, item);
    return slice;
  }

  /** Registering `v` under `id` after taking out what is shown there now. */
  lemma RefiledFor(byType: Index, byAdapter: Index, byState: Index, views: Views, id: string, v: EntityView)
    ensures
      var tx := Refile(byType, Shown(TypesOf(views), id), [v.entityType], id);
      var ax := Refile(byAdapter, Shown(AdaptersOf(views), id), v.adapters, id);
      var sx := Refile(byState, Shown(StatesOf(views), id), [v.state], id);
      && (ExactFor(byType, byAdapter, byState, views) ==> ExactFor(tx, ax, sx, views[id := v]))
      && (SoundFor(byType, byAdapter, byState, views) ==> SoundFor(tx, ax, sx, views[id := v]))
  {
    hide Exact, Covers, Refile, StatesOf, AdaptersOf, TypesOf;
    KeysWith(views, id, v);
    if ExactFor(byType, byAdapter, byState, views) {
      RefileExact(byType, TypesOf(views), [v.entityType], id);
      RefileExact(byAdapter, AdaptersOf(views), v.adapters, id);
      RefileExact(byState, StatesOf(views), [v.state], id);
    }
    if SoundFor(byType, byAdapter, byState, views) {
      RefileExact(byType, TypesOf(views), [v.entityType], id);
      CoversLess(byAdapter, AdaptersOf(views), id);
      CoversLess(byState, StatesOf(views), id);
      RefileCovers(byAdapter, AdaptersOf(views), Shown(AdaptersOf(views), id), v.adapters, id);
      RefileCovers(byState, StatesOf(views), Shown(StatesOf(views), id), [v.state], id);
    }
  }

  /** Dropping what is registered under `id`. */
  lemma DroppedFor(byType: Index, byAdapter: Index, byState: Index, views: Views, id: string)
    requires id in views
    ensures
      var tx := RemoveAll(byType, [views[id].entityType], id);
      var ax := RemoveAll(byAdapter, views[id].adapters, id);
      var sx := RemoveAll(byState, [views[id].state], id);
      && (ExactFor(byType, byAdapter, byState, views) ==> ExactFor(tx, ax, sx, views - {id}))
      && (SoundFor(byType, byAdapter, byState, views) ==> SoundFor(tx, ax, sx, views - {id}))
  {
    var types, adapters, states := TypesOf(views), AdaptersOf(views), StatesOf(views);
    assert types[id] == [views[id].entityType] && adapters[id] == views[id].adapters && states[id] == [views[id].state];
    hide Exact, Covers, RemoveAll, StatesOf, AdaptersOf, TypesOf;
    KeysWithout(views, id);
    if ExactFor(byType, byAdapter, byState, views) {
      RemoveExact(byType, types, id);
      RemoveExact(byAdapter, adapters, id);
      RemoveExact(byState, states, id);
    }
    if SoundFor(byType, byAdapter, byState, views) {
      RemoveExact(byType, types, id);
      RemoveCovers(byAdapter, adapters, adapters[id], id);
      RemoveCovers(byState, states, states[id], id);
    }
  }

  /**
   Registering a stored object again after it was edited in place to show `v`: the new keys are
   taken out and put in. The indexes are exact exactly when the edit dropped no key.
   */
  lemma RefiledInPlaceFor(byType: Index, byAdapter: Index, byState: Index, views: Views, id: string, v: EntityView)
    requires id in views && v.entityType == views[id].entityType
    ensures
      var tx := Refile(byType, [v.entityType], [v.entityType], id);
      var ax := Refile(byAdapter, v.adapters, v.adapters, id);
      var sx := Refile(byState, [v.state], [v.state], id);
      && (ExactFor(byType, byAdapter, byState, views) ==>
            (ExactFor(tx, ax, sx, views[id := v]) <==>
               v.state == views[id].state && multiset(views[id].adapters) <= multiset(v.adapters)))
      && (SoundFor(byType, byAdapter, byState, views) ==> SoundFor(tx, ax, sx, views[id := v]))
  {
    var types, adapters, states := TypesOf(views), AdaptersOf(views), StatesOf(views);
    assert types[id] == [v.entityType] && adapters[id] == views[id].adapters && states[id] == [views[id].state];
    SingleBelow(views[id].state, v.state);
    hide Exact, Covers, Refile, StatesOf, AdaptersOf, TypesOf;
    KeysWith(views, id, v);
    if ExactFor(byType, byAdapter, byState, views) {
      RefileInPlaceExact(byType, types, [v.entityType], id);
      RefileInPlaceExact(byAdapter, adapters, v.adapters, id);
      RefileInPlaceExact(byState, states, [v.state], id);
    }
    if SoundFor(byType, byAdapter, byState, views) {
      RefileInPlaceExact(byType, types, [v.entityType], id);
      CoversLess(byAdapter, adapters, id);
      CoversLess(byState, states, id);
      RefileCovers(byAdapter, adapters, v.adapters, v.adapters, id);
      RefileCovers(byState, states, [v.state], [v.state], id);
    }
  }

  lemma CoversLess(ix: Index, keysOf: Filing, id: string)
    requires Covers(ix, keysOf)
    ensures Covers(ix, keysOf - {id})
  {
    forall k, x ensures Mult(ix, k, x) >= Owed(keysOf - {id}, k, x) {
      assert Mult(ix, k, x) >= Owed(keysOf, k, x);
    }
  }

  lemma SingleBelow(a: string, b: string)
    ensures multiset([a]) <= multiset([b]) <==> a == b
  {
    assert a in multiset([a]);
  }

  class EntityCatalog {
    var entities: map<string, Entity>
    var byType: Index
    var byAdapter: Index
    var byState: Index

    ghost predicate Valid()
      reads this
    {
      forall id :: id in entities ==> id != "" && entities[id].id == id
    }

    ghost function Objects(): set<Entity>
      reads this
    {
      entities.Values
    }

    ghost function Views(): Views
      reads this, Objects()
    {
      ViewsOf(entities)
    }

    ghost function State(): CatalogState
      reads this, Objects()
    {
      CatalogState(Views(), byType, byAdapter, byState)
    }

    ghost function Dependencies(): Graph.Adjacency
      reads this, Objects()
    {
      DependenciesOf(Views())
    }

    ghost predicate IndexesExact()
      reads this, Objects()
    {
      ExactFor(byType, byAdapter, byState, Views())
    }

    ghost predicate IndexesSound()
      reads this, Objects()
    {
      SoundFor(byType, byAdapter, byState, Views())
    }

    constructor ()
      ensures Valid() && entities == map[] && byType == map[] && byAdapter == map[] && byState == map[]
      ensures IndexesExact() && IndexesSound()
    {
      entities, byType, byAdapter, byState := map[], map[], map[], map[];
    }

    /** After an edit of one stored object in place, the views differ there only. */
    twostate lemma EditedInPlace(e: Entity)
      requires Valid() && e.id in entities && entities[e.id] == e && entities == old(entities)
      requires forall id :: id in entities && id != e.id ==> unchanged(entities[id])
      ensures Views() == old(Views())[e.id := e.View()]
    {
    }

    // ---------- Index maintenance ----------

    method AddToIndexes(entity: Entity)
      modifies this`byType, this`byAdapter, this`byState
      ensures byType == AddAll(old(byType), [entity.entityType], entity.id)
      ensures byAdapter == AddAll(old(byAdapter), entity.adapters, entity.id)
      ensures byState == AddAll(old(byState), [entity.state], entity.id)
    {
      SingleKey(byType, entity.entityType, entity.id);
      byType := byType[entity.entityType := Ids(byType, entity.entityType) + [entity.id]];
      byAdapter := FileUnder(byAdapter, entity.adapters, entity.id);
      SingleKey(byState, entity.state, entity.id);
      byState := byState[entity.state := Ids(byState, entity.state) + [entity.id]];
    }

    static method FileUnder(ix: Index, keys: seq<string>, id: string) returns (r: Index)
      ensures r == AddAll(ix, keys, id)
    {
      r := ix;
      for i := 0 to |keys|
        invariant r == AddAll(ix, keys[..i], id)
      {
        assert keys[..i + 1][..i] == keys[..i];
        r := r[keys[i] := Ids(r, keys[i]) + [id]];
      }
      assert keys[..|keys|] == keys;
    }

    method RemoveFromIndexes(entity: Entity)
      modifies this`byType, this`byAdapter, this`byState
      ensures byType == RemoveAll(old(byType), [entity.entityType], entity.id)
      ensures byAdapter == RemoveAll(old(byAdapter), entity.adapters, entity.id)
      ensures byState == RemoveAll(old(byState), [entity.state], entity.id)
    {
      SingleKey(byType, entity.entityType, entity.id);
      var ids := RemoveFromSlice(Ids(byType, entity.entityType), entity.id);
      byType := byType[entity.entityType := ids];
      byAdapter := StrikeUnder(byAdapter, entity.adapters, entity.id);
      SingleKey(byState, entity.state, entity.id);
      ids := RemoveFromSlice(Ids(byState, entity.state), entity.id);
      byState := byState[entity.state := ids];
    }

    static method StrikeUnder(ix: Index, keys: seq<string>, id: string) returns (r: Index)
      ensures r == RemoveAll(ix, keys, id)
    {
      r := ix;
      for i := 0 to |keys|
        invariant r == RemoveAll(ix, keys[..i], id)
      {
        assert keys[..i + 1][..i] == keys[..i];
        var ids := RemoveFromSlice(Ids(r, keys[i]), id);
        r := r[keys[i] := ids];
      }
      assert keys[..|keys|] == keys;
    }

    static lemma SingleKey(ix: Index, key: string, id: string)
      ensures AddAll(ix, [key], id) == AddOne(ix, key, id)
      ensures RemoveAll(ix, [key], id) == RemoveOne(ix, key, id)
    {
      assert [key][..0] == [];
      assert AddAll(ix, [], id) == ix && RemoveAll(ix, [], id) == ix;
    }

    // ---------- Registration ----------

    /** Register without the check for an empty id. */
    method Store(entity: Entity)
      requires Valid() && entity.id != ""
      modifies this
      ensures Valid()
      ensures entities == old(entities)[entity.id := entity]
      ensures State() == Filed(old(State()), entity.id, entity.View())
    {
      hide AddAll, RemoveAll, TypesOf, AdaptersOf, StatesOf, Shown, ViewsOf;
      RemoveNothing(byType, entity.id);
      RemoveNothing(byAdapter, entity.id);
      RemoveNothing(byState, entity.id);
      KeysShown(entities, entity.id);
      if entity.id in entities {
        RemoveFromIndexes(entities[entity.id]);
      }
      entities := entities[entity.id := entity];
      AddToIndexes(entity);
      ViewsWith(old(entities), entity);
    }

    static lemma ViewsWith(m: map<string, Entity>, e: Entity)
      ensures ViewsOf(m[e.id := e]) == ViewsOf(m)[e.id := e.View()]
    {
    }

    static lemma ViewsWithout(m: map<string, Entity>, id: string)
      ensures ViewsOf(m - {id}) == ViewsOf(m) - {id}
    {
    }

    static lemma KeysShown(m: map<string, Entity>, id: string)
      ensures Shown(TypesOf(ViewsOf(m)), id) == if id in m then [m[id].entityType] else []
      ensures Shown(AdaptersOf(ViewsOf(m)), id) == if id in m then m[id].adapters else []
      ensures Shown(StatesOf(ViewsOf(m)), id) == if id in m then [m[id].state] else []
    {
    }

    static lemma RemoveNothing(ix: Index, id: string)
      ensures RemoveAll(ix, [], id) == ix
    {
    }

    method Register(entity: Entity) returns (r: Outcome)
      requires Valid()
      modifies this
      ensures r == if entity.id == "" then Fail(EmptyID) else Ok
      ensures Valid()
      ensures entities == if r.Ok? then old(entities)[entity.id := entity] else old(entities)
      ensures State() == if r.Ok? then Filed(old(State()), entity.id, entity.View()) else old(State())
      ensures old(IndexesExact()) ==> IndexesExact()
      ensures old(IndexesSound()) ==> IndexesSound()
    {
      hide ExactFor, SoundFor, Refile, StatesOf, AdaptersOf, TypesOf;
      if entity.id == "" {
        return Fail(EmptyID);
      }
      RefiledFor(byType, byAdapter, byState, Views(), entity.id, entity.View());
      Store(entity);
      return Ok;
    }

    method Unregister(id: string) returns (r: Outcome)
      requires Valid()
      modifies this
      ensures Valid()
      ensures r == if id in old(entities) then Ok else Fail(EntityNotFound(id))
      ensures entities == old(entities) - {id}
      ensures State() == if r.Ok? then Removed(old(State()), id) else old(State())
      ensures old(IndexesExact()) ==> IndexesExact()
      ensures old(IndexesSound()) ==> IndexesSound()
    {
      hide ExactFor, SoundFor;
      if id !in entities {
        return Fail(EntityNotFound(id));
      }
      Drop(id);
      return Ok;
    }

    /** Takes a registered entity out of the indexes and out of the map. */
    method Drop(id: string)
      requires Valid() && id in entities
      modifies this
      ensures Valid()
      ensures entities == old(entities) - {id} && |entities| == |old(entities)| - 1
      ensures State() == Removed(old(State()), id)
      ensures old(IndexesExact()) ==> IndexesExact()
      ensures old(IndexesSound()) ==> IndexesSound()
    {
      hide ExactFor, SoundFor, RemoveAll, ViewsOf, StatesOf, TypesOf, AdaptersOf;
      ViewsKeys(entities);
      ViewsWithout(entities, id);
      DroppedFor(byType, byAdapter, byState, Views(), id);
      RemoveFromIndexes(entities[id]);
      entities := entities - {id};
      assert entities.Keys == old(entities).Keys - {id};
    }

    /** A removal after `removals`. */
    method DropNext(id: string, ghost start: CatalogState, ghost removals: seq<Change>) returns (ghost removals': seq<Change>)
      requires Valid() && id in entities && State() == ApplyAll(start, removals)
      modifies this
      ensures Valid()
      ensures entities == old(entities) - {id} && |entities| == |old(entities)| - 1
      ensures removals' == removals + [Remove(id)] && State() == ApplyAll(start, removals')
      ensures old(IndexesExact()) ==> IndexesExact()
      ensures old(IndexesSound()) ==> IndexesSound()
    {
      hide ExactFor, SoundFor, ViewsOf, Removed, ApplyAll;
      ViewsKeys(entities);
      ApplyAllLast(start, removals, Remove(id));
      removals' := removals + [Remove(id)];
      Drop(id);
    }

    /**
     Removes every entity last seen before the cutoff; ids are visited in any order. `removals`
     says in which.
     */
    method CleanupStale(maxAge: int, now: int) returns (removed: nat, ghost removals: seq<Change>)
      requires Valid()
      modifies this
      ensures Valid()
      ensures forall id :: id in entities <==> id in old(entities) && old(entities)[id].lastSeenAt >= now - maxAge
      ensures forall id :: id in entities ==> entities[id] == old(entities)[id]
      ensures removed == |old(entities)| - |entities| == |removals|
      ensures State() == ApplyAll(old(State()), removals) && forall c :: c in removals ==> c.Remove?
      ensures old(IndexesExact()) ==> IndexesExact()
      ensures old(IndexesSound()) ==> IndexesSound()
    {
      hide ExactFor, SoundFor, ViewsOf, ApplyAll, Apply, State, IndexesExact, IndexesSound, Valid;
      var cutoff := now - maxAge;
      removed, removals := 0, [];
      NothingApplied(State());
      var todo := entities.Keys;
      while todo != {}
        invariant Valid()
        invariant todo <= entities.Keys
        invariant forall id :: id in entities ==> id in old(entities) && entities[id] == old(entities)[id]
        invariant forall id :: id in old(entities) ==>
          (id in entities <==> id in todo || old(entities)[id].lastSeenAt >= cutoff)
        invariant removed + |entities| == |old(entities)| && removed == |removals|
        invariant State() == ApplyAll(old(State()), removals) && forall c :: c in removals ==> c.Remove?
        invariant old(IndexesExact()) ==> IndexesExact()
        invariant old(IndexesSound()) ==> IndexesSound()
        decreases todo
      {
        var id :| id in todo;
        if entities[id].lastSeenAt < cutoff {
          removed := removed + 1;
          removals := DropNext(id, old(State()), removals);
        }
        todo := todo - {id};
      }
    }

    // ---------- Queries ----------

    method Get(id: string) returns (r: Lookup<Entity>)
      ensures r == if id in entities then Found(entities[id]) else NotFound(EntityNotFound(id))
    {
      if id !in entities {
        return NotFound(EntityNotFound(id));
      }
      return Found(entities[id]);
    }

    /** Every entity once, in any order. */
    method List() returns (r: seq<Entity>)
      requires Valid()
      ensures |r| == |entities|
      ensures forall i :: 0 <= i < |r| ==> r[i].id in entities && entities[r[i].id] == r[i]
      ensures forall id :: id in entities ==> entities[id] in r
      ensures forall i, j :: 0 <= i < j < |r| ==> r[i] != r[j]
    {
      r := [];
      var todo := entities.Keys;
      while todo != {}
        invariant todo <= entities.Keys && |r| + |todo| == |entities|
        invariant forall i :: 0 <= i < |r| ==> r[i].id in entities - todo && entities[r[i].id] == r[i]
        invariant forall id :: id in entities && id !in todo ==> entities[id] in r
        invariant forall i, j :: 0 <= i < j < |r| ==> r[i] != r[j]
        decreases todo
      {
        var id :| id in todo;
        r := r + [entities[id]];
        todo := todo - {id};
      }
    }

    method ListIndexed(ix: Index, key: string) returns (r: seq<Entity>)
      ensures r == Resolve(entities, Ids(ix, key))
    {
      r := [];
      var ids := Ids(ix, key);
      for i := 0 to |ids|
        invariant r == Resolve(entities, ids[..i])
      {
        assert ids[..i + 1][..i] == ids[..i];
        if ids[i] in entities {
          r := r + [entities[ids[i]]];
        }
      }
      assert ids[..|ids|] == ids;
    }

    /** With exact indexes every entity of the type is listed once and nothing else is. */
    method ListByType(entityType: string) returns (r: seq<Entity>)
      requires Valid()
      ensures r == Resolve(entities, Ids(byType, entityType))
      ensures Exact(byType, TypesOf(Views())) ==>
        forall id :: id in entities ==> multiset(r)[entities[id]] == if entities[id].entityType == entityType then 1 else 0
      ensures forall e :: e in r ==> e.id in entities && entities[e.id] == e
    {
      hide TypesOf, Covers, Exact, Resolve, ViewsOf;
      r := ListIndexed(byType, entityType);
      TypesShown();
      ListedByKey(byType, TypesOf(Views()), entityType);
    }

    method ListByState(state: string) returns (r: seq<Entity>)
      requires Valid()
      ensures r == Resolve(entities, Ids(byState, state))
      ensures Covers(byState, StatesOf(Views())) ==>
        forall id :: id in entities && entities[id].state == state ==> entities[id] in r
      ensures Exact(byState, StatesOf(Views())) ==>
        forall id :: id in entities ==> multiset(r)[entities[id]] == if entities[id].state == state then 1 else 0
    {
      hide StatesOf, Covers, Exact, Resolve, ViewsOf;
      r := ListIndexed(byState, state);
      StatesShown();
      ListedByKey(byState, StatesOf(Views()), state);
    }

    method ListByAdapter(adapter: string) returns (r: seq<Entity>)
      requires Valid()
      ensures r == Resolve(entities, Ids(byAdapter, adapter))
      ensures Covers(byAdapter, AdaptersOf(Views())) ==>
        forall id :: id in entities && adapter in entities[id].adapters ==> entities[id] in r
      ensures Exact(byAdapter, AdaptersOf(Views())) ==>
        forall id :: id in entities ==> multiset(r)[entities[id]] == multiset(entities[id].adapters)[adapter]
    {
      hide AdaptersOf, Covers, Exact, Resolve, ViewsOf;
      r := ListIndexed(byAdapter, adapter);
      AdaptersShown();
      ListedByKey(byAdapter, AdaptersOf(Views()), adapter);
    }

    lemma TypesShown()
      ensures TypesOf(Views()).Keys == entities.Keys
      ensures forall id :: id in entities ==> TypesOf(Views())[id] == [entities[id].entityType]
    {
    }

    lemma StatesShown()
      ensures StatesOf(Views()).Keys == entities.Keys
      ensures forall id :: id in entities ==> StatesOf(Views())[id] == [entities[id].state]
    {
    }

    lemma AdaptersShown()
      ensures AdaptersOf(Views()).Keys == entities.Keys
      ensures forall id :: id in entities ==> AdaptersOf(Views())[id] == entities[id].adapters
    {
    }

    lemma ListedByKey(ix: Index, keysOf: Filing, key: string)
      requires Valid() && keysOf.Keys == entities.Keys
      ensures var r := Resolve(entities, Ids(ix, key));
        && (forall e :: e in r ==> e.id in entities && entities[e.id] == e)
        && (forall id :: id in entities ==> multiset(r)[entities[id]] == Mult(ix, key, id))
        && (Exact(ix, keysOf) ==> forall id :: id in entities ==> multiset(r)[entities[id]] == multiset(keysOf[id])[key])
        && (Covers(ix, keysOf) ==> forall id :: id in entities && key in keysOf[id] ==> entities[id] in r)
    {
      var r := Resolve(entities, Ids(ix, key));
      ResolveRegistered(entities, Ids(ix, key));
      forall id | id in entities ensures multiset(r)[entities[id]] == Mult(ix, key, id) {
        ResolveMult(entities, Ids(ix, key), id);
      }
      if Exact(ix, keysOf) {
        forall id | id in entities ensures multiset(r)[entities[id]] == multiset(keysOf[id])[key] {
          assert Mult(ix, key, id) == Owed(keysOf, key, id);
        }
      }
      if Covers(ix, keysOf) {
        forall id | id in entities && key in keysOf[id] ensures entities[id] in r {
          assert Mult(ix, key, id) >= Owed(keysOf, key, id);
        }
      }
    }

    method GetStats() returns (total: nat, typeCounts: map<string, nat>, stateCounts: map<string, nat>)
      requires Valid()
      ensures total == |entities|
      ensures typeCounts == map k | k in byType :: |byType[k]|
      ensures stateCounts == map k | k in byState :: |byState[k]|
      ensures Exact(byType, TypesOf(Views())) ==> Total(byType, typeCounts.Keys) == total
      ensures Covers(byState, StatesOf(Views())) ==>
        Total(byState, stateCounts.Keys) >= total && (Total(byState, stateCounts.Keys) == total <==> Exact(byState, StatesOf(Views())))
    {
      total := |entities|;
      typeCounts := CountIds(byType);
      assert typeCounts.Keys == byType.Keys;
      stateCounts := CountIds(byState);
      assert stateCounts.Keys == byState.Keys;
      assert TypesOf(Views()).Keys == entities.Keys && StatesOf(Views()).Keys == entities.Keys;
      if Exact(byType, TypesOf(Views())) { CountsAddUp(byType, TypesOf(Views())); }
      if Covers(byState, StatesOf(Views())) { CountsAddUp(byState, StatesOf(Views())); }
    }

    static method CountIds(ix: Index) returns (counts: map<string, nat>)
      ensures counts == map k | k in ix :: |ix[k]|
    {
      counts := map[];
      var todo := ix.Keys;
      while todo != {}
        invariant todo <= ix.Keys
        invariant counts == map k | k in ix && k !in todo :: |ix[k]|
        decreases todo
      {
        var k :| k in todo;
        counts := counts[k := |ix[k]|];
        todo := todo - {k};
      }
    }
  }

  /**
   The listings of a one-key index in which no entity is missing, summed over the keys in use,
   count the entities if and only if the index is exact.
   */
  lemma CountsAddUp(ix: Index, keysOf: Filing)
    requires Covers(ix, keysOf)
    requires forall id :: id in keysOf ==> |keysOf[id]| == 1
    ensures Total(ix, ix.Keys) >= |keysOf|
    ensures Total(ix, ix.Keys) == |keysOf| <==> Exact(ix, keysOf)
  {
    forall id | id in keysOf ensures keysOf[id][0] in ix.Keys {
      assert Mult(ix, keysOf[id][0], id) >= Owed(keysOf, keysOf[id][0], id);
      assert keysOf[id][0] in keysOf[id];
    }
    TotalIsCountIff(ix, keysOf, ix.Keys);
    if ExactOn(ix, keysOf, ix.Keys) {
      forall k, id ensures Mult(ix, k, id) == Owed(keysOf, k, id) {
        if k !in ix { assert Mult(ix, k, id) >= Owed(keysOf, k, id); }
      }
    }
  }
}
