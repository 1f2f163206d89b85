/**
 The secondary indexes of the entity catalog as values: a map from an index key
 (a type, a state or an adapter id) to the list of entity ids filed under it.

 `keysOf` maps every registered id to the keys it ought to be filed under. An index is
 `Exact` when it says precisely that, and `Covers` it when it says at least that.
 */
module Indexes {
  import opened Common

  type Index = map<string, seq<string>>
  type Filing = map<string, seq<string>>

  function Ids(ix: Index, k: string): seq<string> {
    if k in ix then ix[k] else []
  }

  /** How often `id` is listed under `k`. */
  function Mult(ix: Index, k: string, id: string): nat {
    multiset(Ids(ix, k))[id]
  }

  /** How often `id` ought to be listed under `k`. */
  function Owed(keysOf: Filing, k: string, id: string): nat {
    if id in keysOf then multiset(keysOf[id])[k] else 0
  }

  ghost predicate Exact(ix: Index, keysOf: Filing) {
    forall k, id :: Mult(ix, k, id) == Owed(keysOf, k, id)
  }

  ghost predicate Covers(ix: Index, keysOf: Filing) {
    forall k, id :: Mult(ix, k, id) >= Owed(keysOf, k, id)
  }

  /** `s` without its first occurrence of `x`. */
  function RemoveFirst(s: seq<string>, x: string): seq<string> {
    if s == [] then [] else if s[0] == x then s[1..] else [s[0]] + RemoveFirst(s[1..], x)
  }

  lemma FirstCounts(x: string, rest: seq<string>, y: string)
    ensures multiset([x] + rest)[y] == multiset(rest)[y] + if x == y then 1 else 0
  {
  }

  lemma {:induction false} RemoveFirstAt(s: seq<string>, x: string, i: nat)
    requires i < |s| && s[i] == x && x !in s[..i]
    ensures RemoveFirst(s, x) == s[..i] + s[i + 1..]
  {
    if i > 0 {
      assert s[0] in s[..i];
      assert s[1..][..i - 1] == s[1..i] && s[1..][i..] == s[i + 1..];
      RemoveFirstAt(s[1..], x, i - 1);
    }
  }

  lemma {:induction false} RemoveFirstAbsent(s: seq<string>, x: string)
    requires x !in s
    ensures RemoveFirst(s, x) == s
  {
    if s != [] {
      RemoveFirstAbsent(s[1..], x);
    }
  }

  lemma {:induction false} RemoveFirstMult(s: seq<string>, x: string, y: string)
    ensures multiset(RemoveFirst(s, x))[y] == Minus(multiset(s)[y], if x == y then 1 else 0)
  {
    if s != [] {
      FirstCounts(s[0], s[1..], y);
      FirstCounts(s[0], RemoveFirst(s[1..], x), y);
      RemoveFirstMult(s[1..], x, y);
      assert s == [s[0]] + s[1..];
    }
  }

  function AddOne(ix: Index, k: string, id: string): Index {
    ix[k := Ids(ix, k) + [id]]
  }

  function RemoveOne(ix: Index, k: string, id: string): Index {
    ix[k := RemoveFirst(Ids(ix, k), id)]
  }

  function AddAll(ix: Index, keys: seq<string>, id: string): Index {
    if keys == [] then ix else AddOne(AddAll(ix, keys[..|keys| - 1], id), keys[|keys| - 1], id)
  }

  function RemoveAll(ix: Index, keys: seq<string>, id: string): Index {
    if keys == [] then ix else RemoveOne(RemoveAll(ix, keys[..|keys| - 1], id), keys[|keys| - 1], id)
  }

  function Minus(m: nat, n: nat): nat {
    if m >= n then m - n else 0
  }

  lemma SplitLast(keys: seq<string>)
    requires keys != []
    ensures multiset(keys) == multiset(keys[..|keys| - 1]) + multiset{keys[|keys| - 1]}
  {
    assert keys == keys[..|keys| - 1] + [keys[|keys| - 1]];
  }

  lemma RemoveOneMult(ix: Index, key: string, id: string, k: string, x: string)
    ensures Mult(RemoveOne(ix, key, id), k, x) == Minus(Mult(ix, k, x), if x == id && k == key then 1 else 0)
  {
    hide RemoveFirst;
    RemoveFirstMult(Ids(ix, key), id, x);
  }

  lemma AddOneMult(ix: Index, key: string, id: string, k: string, x: string)
    ensures Mult(AddOne(ix, key, id), k, x) == Mult(ix, k, x) + if x == id && k == key then 1 else 0
  {
  }

  lemma {:induction false} AddAllMult(ix: Index, keys: seq<string>, id: string, k: string, x: string)
    ensures Mult(AddAll(ix, keys, id), k, x) == Mult(ix, k, x) + if x == id then multiset(keys)[k] else 0
  {
    if keys != [] {
      var rest, key := keys[..|keys| - 1], keys[|keys| - 1];
      SplitLast(keys);
      AddAllMult(ix, rest, id, k, x);
      AddOneMult(AddAll(ix, rest, id), key, id, k, x);
    }
  }

  lemma {:induction false} RemoveAllMult(ix: Index, keys: seq<string>, id: string, k: string, x: string)
    ensures Mult(RemoveAll(ix, keys, id), k, x)
         == Minus(Mult(ix, k, x), if x == id then multiset(keys)[k] else 0)
  {
    if keys != [] {
      var rest, key := keys[..|keys| - 1], keys[|keys| - 1];
      RemoveAllMult(ix, rest, id, k, x);
      RemoveOneMult(RemoveAll(ix, rest, id), key, id, k, x);
      SplitLast(keys);
      assert multiset(keys)[k] == multiset(rest)[k] + if k == key then 1 else 0;
    }
  }

  /** What `Register` does to one index: take the old keys out, put the new keys in. */
  function Refile(ix: Index, oldKeys: seq<string>, newKeys: seq<string>, id: string): Index {
    AddAll(RemoveAll(ix, oldKeys, id), newKeys, id)
  }

  lemma RefileMult(ix: Index, oldKeys: seq<string>, newKeys: seq<string>, id: string, k: string, x: string)
    ensures Mult(Refile(ix, oldKeys, newKeys, id), k, x)
         == if x == id then Minus(Mult(ix, k, x), multiset(oldKeys)[k]) + multiset(newKeys)[k] else Mult(ix, k, x)
  {
    RemoveAllMult(ix, oldKeys, id, k, x);
    AddAllMult(RemoveAll(ix, oldKeys, id), newKeys, id, k, x);
  }

  /** Refiling a fresh object keeps an exact index exact. */
  lemma RefileExact(ix: Index, keysOf: Filing, newKeys: seq<string>, id: string)
    requires Exact(ix, keysOf)
    ensures Exact(Refile(ix, if id in keysOf then keysOf[id] else [], newKeys, id), keysOf[id := newKeys])
  {
    var oldKeys := if id in keysOf then keysOf[id] else [];
    var after := Refile(ix, oldKeys, newKeys, id);
    forall k, x
      ensures Mult(after, k, x) == Owed(keysOf[id := newKeys], k, x)
    {
      RefileMult(ix, oldKeys, newKeys, id, k, x);
    }
  }

  /** Whatever is taken out, the entity just filed is covered and the others are untouched. */
  lemma RefileCovers(ix: Index, keysOf: Filing, oldKeys: seq<string>, newKeys: seq<string>, id: string)
    requires Covers(ix, keysOf - {id})
    ensures Covers(Refile(ix, oldKeys, newKeys, id), keysOf[id := newKeys])
  {
    var after := Refile(ix, oldKeys, newKeys, id);
    forall k, x ensures Mult(after, k, x) >= Owed(keysOf[id := newKeys], k, x) {
      RefileMult(ix, oldKeys, newKeys, id, k, x);
      assert Mult(ix, k, x) >= Owed(keysOf - {id}, k, x);
    }
  }

  /**
   Refiling after the stored object was edited in place takes out the new keys rather than
   the old ones. The index stays exact precisely when no old key is dropped by the edit.
   */
  lemma RefileInPlaceExact(ix: Index, keysOf: Filing, newKeys: seq<string>, id: string)
    requires Exact(ix, keysOf) && id in keysOf
    ensures Exact(Refile(ix, newKeys, newKeys, id), keysOf[id := newKeys])
       <==> multiset(keysOf[id]) <= multiset(newKeys)
  {
    var oldKeys, after, filed := keysOf[id], Refile(ix, newKeys, newKeys, id), keysOf[id := newKeys];
    forall k ensures Mult(after, k, id) == Max(multiset(oldKeys)[k], multiset(newKeys)[k]) {
      RefileMult(ix, newKeys, newKeys, id, k, id);
    }
    if multiset(oldKeys) <= multiset(newKeys) {
      forall k, x ensures Mult(after, k, x) == Owed(filed, k, x) {
        RefileMult(ix, newKeys, newKeys, id, k, x);
      }
    }
    if Exact(after, filed) {
      forall k ensures multiset(oldKeys)[k] <= multiset(newKeys)[k] {
        assert Mult(after, k, id) == Owed(filed, k, id);
      }
    }
  }

  /** Taking an entity out of an exact index by the keys it is filed under keeps it exact. */
  lemma RemoveExact(ix: Index, keysOf: Filing, id: string)
    requires Exact(ix, keysOf) && id in keysOf
    ensures Exact(RemoveAll(ix, keysOf[id], id), keysOf - {id})
  {
    forall k, x
      ensures Mult(RemoveAll(ix, keysOf[id], id), k, x)
           == Owed(keysOf - {id}, k, x)
    {
      RemoveAllMult(ix, keysOf[id], id, k, x);
    }
  }

  lemma RemoveCovers(ix: Index, keysOf: Filing, keys: seq<string>, id: string)
    requires Covers(ix, keysOf)
    ensures Covers(RemoveAll(ix, keys, id), keysOf - {id})
  {
    forall k, x ensures Mult(RemoveAll(ix, keys, id), k, x) >= Owed(keysOf - {id}, k, x)
    {
      RemoveAllMult(ix, keys, id, k, x);
    }
  }

  // ---------- Totals ----------

  /** Number of listings under the given keys. */
  ghost function Total(ix: Index, keys: set<string>): nat {
    if keys == {} then 0 else var k :| k in keys; |Ids(ix, k)| + Total(ix, keys - {k})
  }

  /** A list that holds every member of a set is at least as long, and as long only if it holds nothing else. */
  lemma CoverLength(s: seq<string>, elems: set<string>)
    requires forall x :: x in elems ==> multiset(s)[x] >= 1
    ensures |s| >= |elems|
    ensures |s| == |elems| <==> forall x :: multiset(s)[x] == if x in elems then 1 else 0
  {
    var all, once := multiset(s), multiset(elems);
    assert once <= all;
    assert all == once + (all - once);
    if |s| == |elems| {
      assert |all - once| == 0;
    }
    if forall x :: all[x] == if x in elems then 1 else 0 {
      assert all == once;
    }
  }

  /** The listings of the given keys are as they ought to be. */
  ghost predicate ExactOn(ix: Index, keysOf: Filing, keys: set<string>) {
    forall k, id :: k in keys ==> Mult(ix, k, id) == Owed(keysOf, k, id)
  }

  ghost predicate CoversOn(ix: Index, keysOf: Filing, keys: set<string>) {
    forall k, id :: k in keys ==> Mult(ix, k, id) >= Owed(keysOf, k, id)
  }

  /**
   With one key per entity and no entity missing, the listings add up to at least the number of
   entities, and to exactly that number if and only if every listing is as it ought to be.
   */
  lemma {:induction false} TotalIsCountIff(ix: Index, keysOf: Filing, keys: set<string>)
    requires forall id :: id in keysOf ==> |keysOf[id]| == 1 && keysOf[id][0] in keys
    requires CoversOn(ix, keysOf, keys)
    ensures Total(ix, keys) >= |keysOf|
    ensures Total(ix, keys) == |keysOf| <==> ExactOn(ix, keysOf, keys)
    decreases keys
  {
    if keys == {} {
      assert keysOf.Keys == {};
    } else {
      var k := TotalStep(ix, keys);
      var here := set id | id in keysOf && keysOf[id][0] == k;
      ListedUnder(ix, keysOf, k, here);
      OwedElsewhere(keysOf, k, here);
      RestCount(keysOf, here);
      ExactOnSplit(ix, keysOf, keys, k, here);
      TotalIsCountIff(ix, keysOf - here, keys - {k});
    }
  }

  lemma ExactOnSplit(ix: Index, keysOf: Filing, keys: set<string>, k: string, here: set<string>)
    requires k in keys && CoversOn(ix, keysOf, keys)
    requires forall l, id :: l != k ==> Owed(keysOf - here, l, id) == Owed(keysOf, l, id)
    ensures CoversOn(ix, keysOf - here, keys - {k})
    ensures ExactOn(ix, keysOf, keys)
       <==> ExactOn(ix, keysOf - here, keys - {k}) && forall id :: Mult(ix, k, id) == Owed(keysOf, k, id)
  {
    hide Mult, Owed;
    var rest := keysOf - here;
    forall l, id | l in keys - {k} ensures Mult(ix, l, id) >= Owed(rest, l, id) {
      assert Mult(ix, l, id) >= Owed(keysOf, l, id);
    }
    if ExactOn(ix, keysOf, keys) {
      forall l, id | l in keys - {k} ensures Mult(ix, l, id) == Owed(rest, l, id) {
        assert Mult(ix, l, id) == Owed(keysOf, l, id);
      }
    }
    if ExactOn(ix, rest, keys - {k}) && forall id :: Mult(ix, k, id) == Owed(keysOf, k, id) {
      forall l, id | l in keys ensures Mult(ix, l, id) == Owed(keysOf, l, id) {
        if l != k { assert Mult(ix, l, id) == Owed(rest, l, id); }
      }
    }
  }

  lemma TotalStep(ix: Index, keys: set<string>) returns (k: string)
    requires keys != {}
    ensures k in keys && Total(ix, keys) == |Ids(ix, k)| + Total(ix, keys - {k})
  {
    k :| k in keys && Total(ix, keys) == |Ids(ix, k)| + Total(ix, keys - {k});
  }

  lemma RestCount(keysOf: Filing, here: set<string>)
    requires here <= keysOf.Keys
    ensures |keysOf| == |keysOf - here| + |here|
  {
    var rest := keysOf - here;
    assert keysOf.Keys == rest.Keys + here && rest.Keys !! here;
    assert |keysOf.Keys| == |rest.Keys| + |here|;
  }

  lemma ListedUnder(ix: Index, keysOf: Filing, k: string, here: set<string>)
    requires forall id :: id in keysOf ==> |keysOf[id]| == 1
    requires forall id :: Mult(ix, k, id) >= Owed(keysOf, k, id)
    requires here == set id | id in keysOf && keysOf[id][0] == k
    ensures |Ids(ix, k)| >= |here|
    ensures |Ids(ix, k)| == |here| <==> forall id :: Mult(ix, k, id) == Owed(keysOf, k, id)
  {
    forall id ensures Owed(keysOf, k, id) == if id in here then 1 else 0 {
      if id in keysOf { assert keysOf[id] == [keysOf[id][0]]; }
    }
    forall id | id in here ensures multiset(Ids(ix, k))[id] >= 1 {
      assert Mult(ix, k, id) >= Owed(keysOf, k, id);
    }
    CoverLength(Ids(ix, k), here);
    assert forall id :: Mult(ix, k, id) == multiset(Ids(ix, k))[id];
  }

  lemma OwedElsewhere(keysOf: Filing, k: string, here: set<string>)
    requires forall id :: id in keysOf ==> |keysOf[id]| == 1
    requires here == set id | id in keysOf && keysOf[id][0] == k
    ensures forall l, id :: l != k ==> Owed(keysOf - here, l, id) == Owed(keysOf, l, id)
  {
    forall l, id | l != k ensures Owed(keysOf - here, l, id) == Owed(keysOf, l, id) {
      if id in here { assert keysOf[id] == [k]; }
    }
  }
}
