/**
 Runs of the catalog on values: registering fresh objects, editing stored ones in place and
 registering them again, and removing, in any order.
 */
module CatalogRuns {
  import opened Entities
  import opened Indexes
  import opened Catalog

  function Run(changes: seq<Change>): CatalogState {
    ApplyAll(CatalogState(map[], map[], map[], map[]), changes)
  }

  /** So whatever is known of runs is known of the catalog after any sequence of its operations. */
  lemma {:induction false} RunContinues(before: seq<Change>, changes: seq<Change>)
    ensures Run(before + changes) == ApplyAll(Run(before), changes)
  {
    hide Apply;
    if changes == [] {
      assert before + changes == before;
    } else {
      var n := |changes| - 1;
      RunContinues(before, changes[..n]);
      assert before + changes == before + changes[..n] + [changes[n]];
      ApplyAllLast(CatalogState(map[], map[], map[], map[]), before + changes[..n], changes[n]);
    }
  }

  /** No stored object was ever edited to another state. */
  predicate StatesKept(changes: seq<Change>) {
    changes == []
    || (StatesKept(changes[..|changes| - 1]) && KeepsState(Run(changes[..|changes| - 1]), changes[|changes| - 1]))
  }

  predicate KeepsState(s: CatalogState, c: Change) {
    c.Edit? && c.id in s.views ==> c.view.state == s.views[c.id].state
  }

  predicate KeepsAdapters(s: CatalogState, c: Change) {
    c.Edit? && c.id in s.views ==> multiset(s.views[c.id].adapters) <= multiset(c.view.adapters)
  }

  ghost predicate Sound(s: CatalogState) {
    SoundFor(s.byType, s.byAdapter, s.byState, s.views)
  }

  // ---------- What every run keeps ----------

  lemma ApplySound(s: CatalogState, c: Change)
    requires Sound(s)
    ensures Sound(Apply(s, c))
  {
    hide SoundFor, ExactFor, Refile, RemoveAll, StatesOf, TypesOf, AdaptersOf, Shown;
    match c
    case File(id, v) => RefiledFor(s.byType, s.byAdapter, s.byState, s.views, id, v);
    case Edit(id, v) =>
      if id in s.views {
        RefiledInPlaceFor(s.byType, s.byAdapter, s.byState, s.views, id, v.(entityType := s.views[id].entityType));
      }
    case Remove(id) => if id in s.views { DroppedFor(s.byType, s.byAdapter, s.byState, s.views, id); }
  }

  /** The type index is exact after every run; no entity is missing under its state or an adapter. */
  lemma {:induction false} RunSound(changes: seq<Change>)
    ensures Sound(Run(changes))
  {
    if changes == [] {
    } else {
      RunSound(changes[..|changes| - 1]);
      ApplySound(Run(changes[..|changes| - 1]), changes[|changes| - 1]);
    }
  }

  // ---------- When the indexes are exact ----------

  /** An index that covers the filing lists something too often if it is not exact. */
  lemma Excess(ix: Index, keysOf: Filing) returns (k: string, x: string)
    requires Covers(ix, keysOf) && !Exact(ix, keysOf)
    ensures Mult(ix, k, x) > Owed(keysOf, k, x)
  {
    k, x :| Mult(ix, k, x) != Owed(keysOf, k, x);
    assert Mult(ix, k, x) >= Owed(keysOf, k, x);
  }

  lemma ExcessSurvivesRefile(ix: Index, keysOf: Filing, newKeys: seq<string>, id: string)
    requires Covers(ix, keysOf) && !Exact(ix, keysOf)
    ensures !Exact(Refile(ix, Shown(keysOf, id), newKeys, id), keysOf[id := newKeys])
  {
    var k, x := Excess(ix, keysOf);
    var after := Refile(ix, Shown(keysOf, id), newKeys, id);
    RefileMult(ix, Shown(keysOf, id), newKeys, id, k, x);
    assert Mult(after, k, x) != Owed(keysOf[id := newKeys], k, x);
  }

  lemma ExcessSurvivesRemoval(ix: Index, keysOf: Filing, id: string)
    requires Covers(ix, keysOf) && !Exact(ix, keysOf) && id in keysOf
    ensures !Exact(RemoveAll(ix, keysOf[id], id), keysOf - {id})
  {
    var k, x := Excess(ix, keysOf);
    RemoveAllMult(ix, keysOf[id], id, k, x);
    assert Mult(RemoveAll(ix, keysOf[id], id), k, x) != Owed(keysOf - {id}, k, x);
  }

  /**
   With one key per entity an edit in place cannot repair the index either: where it makes a
   stale listing true again, the listing under the key it leaves becomes stale.
   */
  lemma ExcessSurvivesEdit(ix: Index, keysOf: Filing, id: string, was: string, now: string)
    requires Covers(ix, keysOf) && !Exact(ix, keysOf) && id in keysOf && keysOf[id] == [was]
    ensures !Exact(Refile(ix, [now], [now], id), keysOf[id := [now]])
  {
    var k, x := Excess(ix, keysOf);
    var after, filed := Refile(ix, [now], [now], id), keysOf[id := [now]];
    RefileMult(ix, [now], [now], id, k, x);
    if x == id && k == now && was != now {
      assert Mult(ix, was, id) >= Owed(keysOf, was, id) >= 1;
      RefileMult(ix, [now], [now], id, was, id);
      assert Mult(after, was, id) != Owed(filed, was, id);
    } else {
      assert Mult(after, k, x) != Owed(filed, k, x);
    }
  }

  ghost predicate StatesExact(s: CatalogState) {
    Exact(s.byState, StatesOf(s.views))
  }

  /** A step leaves the state index exact if and only if it was exact and the step keeps the state. */
  lemma ApplyStates(s: CatalogState, c: Change)
    requires Sound(s)
    ensures StatesExact(Apply(s, c)) <==> StatesExact(s) && KeepsState(s, c)
  {
    var keysOf := StatesOf(s.views);
    match c
    case File(id, v) =>
      KeysWith(s.views, id, v);
      if StatesExact(s) { RefileExact(s.byState, keysOf, [v.state], id); } else { ExcessSurvivesRefile(s.byState, keysOf, [v.state], id); }
    case Edit(id, v) =>
      if id in s.views {
        KeysWith(s.views, id, v.(entityType := s.views[id].entityType));
        if StatesExact(s) {
          RefileInPlaceExact(s.byState, keysOf, [v.state], id);
          SingleBelow(s.views[id].state, v.state);
        } else {
          ExcessSurvivesEdit(s.byState, keysOf, id, s.views[id].state, v.state);
        }
      }
    case Remove(id) =>
      if id in s.views {
        KeysWithout(s.views, id);
        if StatesExact(s) { RemoveExact(s.byState, keysOf, id); } else { ExcessSurvivesRemoval(s.byState, keysOf, id); }
      }
  }

  /**
   After any run the state index is exact if and only if no edit in place ever changed a state.
   A single such edit cannot be undone by whatever follows, removal of the entity included.
   */
  lemma {:induction false} StateIndexExactIff(changes: seq<Change>)
    ensures StatesExact(Run(changes)) <==> StatesKept(changes)
  {
    if changes == [] {
    } else {
      var before := changes[..|changes| - 1];
      StateIndexExactIff(before);
      RunSound(before);
      ApplyStates(Run(before), changes[|changes| - 1]);
    }
  }

  /**
   The statistics by type always add up to the number of entities; those by state do so if and
   only if no edit in place ever changed a state.
   */
  lemma StatisticsAddUp(changes: seq<Change>)
    ensures var s := Run(changes);
      && Total(s.byType, s.byType.Keys) == |s.views|
      && (Total(s.byState, s.byState.Keys) == |s.views| <==> StatesKept(changes))
  {
    var s := Run(changes);
    RunSound(changes);
    StateIndexExactIff(changes);
    assert |TypesOf(s.views)| == |StatesOf(s.views)| == |s.views| by {
      assert TypesOf(s.views).Keys == StatesOf(s.views).Keys == s.views.Keys;
    }
    CountsAddUp(s.byType, TypesOf(s.views));
    CountsAddUp(s.byState, StatesOf(s.views));
  }

  // ---------- The adapter index ----------

  /** By how many listings an edit of `id` takes the adapter `a` away; negative if it adds some. */
  function Drop(s: CatalogState, c: Change, a: string, id: string): int {
    if c.Edit? && c.id == id && id in s.views
    then multiset(s.views[id].adapters)[a] as int - multiset(c.view.adapters)[a] as int
    else 0
  }

  /** What edits took away in all, from change number `k` on. */
  function NetDrop(changes: seq<Change>, k: nat, a: string, id: string): int {
    if k >= |changes| then 0
    else
      var n := |changes| - 1;
      NetDrop(changes[..n], k, a, id) + Drop(Run(changes[..n]), changes[n], a, id)
  }

  /** The listings of `id` under `a` that are left over. */
  function Stale(changes: seq<Change>, a: string, id: string): nat {
    if changes == [] then 0
    else
      var n := |changes| - 1;
      AtLeastZero(Stale(changes[..n], a, id) + Drop(Run(changes[..n]), changes[n], a, id))
  }

  function AtLeastZero(n: int): nat {
    if n > 0 then n else 0
  }

  /** Refiling fresh objects and removing leave over what was left over; so does an edit of another entity. */
  lemma StaleKept(ix: Index, keysOf: Filing, newKeys: seq<string>, x: string, a: string, id: string, left: nat)
    requires Mult(ix, a, id) == Owed(keysOf, a, id) + left
    ensures Mult(Refile(ix, Shown(keysOf, x), newKeys, x), a, id) == Owed(keysOf[x := newKeys], a, id) + left
    ensures Mult(RemoveAll(ix, Shown(keysOf, x), x), a, id) == Owed(keysOf - {x}, a, id) + left
    ensures id != x ==> Mult(Refile(ix, newKeys, newKeys, x), a, id) == Owed(keysOf[x := newKeys], a, id) + left
  {
    hide Refile, RemoveAll, Mult;
    RefileMult(ix, Shown(keysOf, x), newKeys, x, a, id);
    RefileMult(ix, newKeys, newKeys, x, a, id);
    RemoveAllMult(ix, Shown(keysOf, x), x, a, id);
  }

  lemma StaleEdited(ix: Index, keysOf: Filing, newKeys: seq<string>, a: string, id: string, left: nat)
    requires Mult(ix, a, id) == Owed(keysOf, a, id) + left && id in keysOf
    ensures Mult(Refile(ix, newKeys, newKeys, id), a, id)
         == Owed(keysOf[id := newKeys], a, id) + AtLeastZero(left + multiset(keysOf[id])[a] - multiset(newKeys)[a])
  {
    hide Refile, Mult;
    RefileMult(ix, newKeys, newKeys, id, a, id);
  }

  lemma ApplyStale(s: CatalogState, c: Change, a: string, id: string, left: nat)
    requires Mult(s.byAdapter, a, id) == Owed(AdaptersOf(s.views), a, id) + left
    ensures var r := Apply(s, c);
      Mult(r.byAdapter, a, id) == Owed(AdaptersOf(r.views), a, id) + AtLeastZero(left + Drop(s, c, a, id))
  {
    hide Refile, RemoveAll, Mult, Owed, TypesOf, StatesOf;
    var keysOf := AdaptersOf(s.views);
    match c
    case File(x, v) =>
      KeysWith(s.views, x, v);
      StaleKept(s.byAdapter, keysOf, v.adapters, x, a, id, left);
    case Edit(x, v) =>
      if x in s.views {
        KeysWith(s.views, x, v.(entityType := s.views[x].entityType));
        if x == id {
          StaleEdited(s.byAdapter, keysOf, v.adapters, a, id, left);
        } else {
          StaleKept(s.byAdapter, keysOf, v.adapters, x, a, id, left);
        }
      }
    case Remove(x) =>
      if x in s.views {
        KeysWithout(s.views, x);
        StaleKept(s.byAdapter, keysOf, [], x, a, id, left);
      }
  }

  lemma {:induction false} RunStale(changes: seq<Change>, a: string, id: string)
    ensures var s := Run(changes); Mult(s.byAdapter, a, id) == Owed(AdaptersOf(s.views), a, id) + Stale(changes, a, id)
  {
    if changes == [] {
    } else {
      var n := |changes| - 1;
      RunStale(changes[..n], a, id);
      ApplyStale(Run(changes[..n]), changes[n], a, id, Stale(changes[..n], a, id));
    }
  }

  /** What is left over is the most that edits took away from any point on. */
  lemma {:induction false} StaleIsMost(changes: seq<Change>, a: string, id: string)
    ensures forall k: nat :: NetDrop(changes, k, a, id) <= Stale(changes, a, id)
    ensures exists k: nat :: NetDrop(changes, k, a, id) == Stale(changes, a, id)
  {
    if changes == [] {
      assert NetDrop(changes, 0, a, id) == 0;
    } else {
      var n := |changes| - 1;
      StaleIsMost(changes[..n], a, id);
      var drop := Drop(Run(changes[..n]), changes[n], a, id);
      forall k: nat ensures NetDrop(changes, k, a, id) <= Stale(changes, a, id) {
        assert NetDrop(changes[..n], k, a, id) <= Stale(changes[..n], a, id);
      }
      var k: nat :| NetDrop(changes[..n], k, a, id) == Stale(changes[..n], a, id);
      assert NetDrop(changes, |changes|, a, id) == 0 && NetDrop(changes[..n], n, a, id) == 0;
      var j := if k < n then k else n;
      assert NetDrop(changes, j, a, id) == Stale(changes[..n], a, id) + drop;
    }
  }

  /** From no point on have the edits of an entity, on balance, taken an adapter away from it. */
  ghost predicate NothingDropped(changes: seq<Change>) {
    forall k: nat, a, id :: NetDrop(changes, k, a, id) <= 0
  }

  ghost predicate NothingStale(changes: seq<Change>) {
    forall a, id :: Stale(changes, a, id) == 0
  }

  lemma NothingDroppedIff(changes: seq<Change>)
    ensures NothingDropped(changes) <==> NothingStale(changes)
  {
    if NothingDropped(changes) {
      forall a, id ensures Stale(changes, a, id) == 0 {
        StaleIsMost(changes, a, id);
        var k: nat :| NetDrop(changes, k, a, id) == Stale(changes, a, id);
        assert NetDrop(changes, k, a, id) <= 0;
      }
      assert NothingStale(changes);
    }
    if NothingStale(changes) {
      forall k: nat, a, id ensures NetDrop(changes, k, a, id) <= 0 {
        StaleIsMost(changes, a, id);
        assert Stale(changes, a, id) == 0;
      }
      assert NothingDropped(changes);
    }
  }

  /**
   After any run the adapter index is exact if and only if from no point of the run on the edits
   of an entity have, on balance, taken an adapter away from it.
   */
  lemma AdapterIndexExactIff(changes: seq<Change>)
    ensures Exact(Run(changes).byAdapter, AdaptersOf(Run(changes).views)) <==> NothingDropped(changes)
  {
    NothingDroppedIff(changes);
    forall a, id
      ensures var s := Run(changes);
        Mult(s.byAdapter, a, id) == Owed(AdaptersOf(s.views), a, id) <==> Stale(changes, a, id) == 0
    {
      RunStale(changes, a, id);
    }
  }

  lemma ApplyAdapters(s: CatalogState, c: Change)
    requires Exact(s.byAdapter, AdaptersOf(s.views))
    ensures Exact(Apply(s, c).byAdapter, AdaptersOf(Apply(s, c).views)) <==> KeepsAdapters(s, c)
  {
    var keysOf := AdaptersOf(s.views);
    match c
    case File(id, v) =>
      KeysWith(s.views, id, v);
      RefileExact(s.byAdapter, keysOf, v.adapters, id);
    case Edit(id, v) =>
      if id in s.views {
        KeysWith(s.views, id, v.(entityType := s.views[id].entityType));
        RefileInPlaceExact(s.byAdapter, keysOf, v.adapters, id);
      }
    case Remove(id) =>
      if id in s.views {
        KeysWithout(s.views, id);
        RemoveExact(s.byAdapter, keysOf, id);
      }
  }
}
