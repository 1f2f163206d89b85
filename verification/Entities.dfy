/** Managed entities and their relationships (layer2/entity.go). */
module Entities {

  const RELATION_DEPENDS_ON := "depends_on"

  datatype Relationship = Relationship(relType: string, targetID: string)

  /** The relationships of one type, in order. */
  function OfType(rels: seq<Relationship>, relType: string): (r: seq<Relationship>)
    ensures forall rel :: rel in r <==> rel in rels && rel.relType == relType
  {
    if rels == [] then []
    else
      var n := |rels| - 1;
      assert rels == rels[..n] + [rels[n]];
      OfType(rels[..n], relType) + if rels[n].relType == relType then [rels[n]] else []
  }

  /** Nothing is moved or repeated: each relationship is looked at in turn. */
  lemma OfTypeInOrder(rels: seq<Relationship>, rel: Relationship, relType: string)
    ensures OfType([], relType) == []
    ensures OfType(rels + [rel], relType) == if rel.relType == relType then OfType(rels, relType) + [rel] else OfType(rels, relType)
  {
    assert (rels + [rel])[..|rels|] == rels;
  }

  function TargetsOf(rels: seq<Relationship>): seq<string> {
    seq(|rels|, i requires 0 <= i < |rels| => rels[i].targetID)
  }

  /** The ids a list of relationships depends on. */
  function DependencyTargets(rels: seq<Relationship>): (r: seq<string>)
    ensures forall id :: id in r <==> Relationship(RELATION_DEPENDS_ON, id) in rels
  {
    var deps := OfType(rels, RELATION_DEPENDS_ON);
    var ids := TargetsOf(deps);
    assert forall id :: Relationship(RELATION_DEPENDS_ON, id) in deps ==> id in ids by {
      forall id | Relationship(RELATION_DEPENDS_ON, id) in deps ensures id in ids {
        var i :| 0 <= i < |deps| && deps[i] == Relationship(RELATION_DEPENDS_ON, id);
        assert ids[i] == id;
      }
    }
    assert forall id :: id in ids ==> Relationship(RELATION_DEPENDS_ON, id) in deps by {
      forall id | id in ids ensures Relationship(RELATION_DEPENDS_ON, id) in deps {
        var i :| 0 <= i < |ids| && ids[i] == id;
        assert deps[i] in deps;
      }
    }
    ids
  }

  /** Everything an entity shows but its id, as a value. */
  datatype EntityView = EntityView(
    entityType: string, name: string, adapters: seq<string>, capabilities: seq<string>,
    relationships: seq<Relationship>, state: string, healthScore: real, lastSeenAt: int)

  /** No operation of the layer changes the id or the type of an entity once it is built. */
  class Entity {
    const id: string
    const entityType: string
    var name: string
    var adapters: seq<string>
    var capabilities: seq<string>
    var relationships: seq<Relationship>
    var state: string
    var healthScore: real
    var lastSeenAt: int

    ghost function View(): EntityView
      reads this
    {
      EntityView(entityType, name, adapters, capabilities, relationships, state, healthScore, lastSeenAt)
    }

    constructor (id: string, entityType: string, name: string, adapters: seq<string>, now: int)
      ensures this.id == id
      ensures View() == EntityView(entityType, name, adapters, [], [], "unknown", 0.0, now)
    {
      this.id, this.entityType, this.name, this.adapters := id, entityType, name, adapters;
      capabilities, relationships := [], [];
      state, healthScore, lastSeenAt := "unknown", 0.0, now;
    }

    method GetRelationships(relType: string) returns (results: seq<Relationship>)
      ensures results == OfType(relationships, relType)
    {
      results := [];
      for i := 0 to |relationships|
        invariant results == OfType(relationships[..i], relType)
      {
        assert relationships[..i + 1][..i] == relationships[..i];
        if relationships[i].relType == relType {
          results := results + [relationships[i]];
        }
      }
      assert relationships[..|relationships|] == relationships;
    }

    method AddCapability(capability: string)
      modifies this`capabilities
      ensures capabilities == if capability in old(capabilities) then old(capabilities)
                              else old(capabilities) + [capability]
    {
      for i := 0 to |capabilities|
        invariant capability !in capabilities[..i]
        invariant capabilities == old(capabilities)
      {
        if capabilities[i] == capability { return; }
      }
      assert capabilities == capabilities[..|capabilities|];
      capabilities := capabilities + [capability];
    }

    method AddRelationship(relType: string, targetID: string)
      modifies this`relationships
      ensures relationships == old(relationships) + [Relationship(relType, targetID)]
    {
      relationships := relationships + [Relationship(relType, targetID)];
    }

    method UpdateState(newState: string, score: real, now: int)
      modifies this`state, this`healthScore, this`lastSeenAt
      ensures state == newState && healthScore == score && lastSeenAt == now
    {
      state, healthScore, lastSeenAt := newState, score, now;
    }
  }
}
