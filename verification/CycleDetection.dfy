/**
 Theory of circular-dependency detection: `ValidateDependencies` and its depth-first search
 `detectCycle` (layer2/relationship_mapper.go:332-367).

 The search never takes an unregistered id off the recursion stack, so a second
 edge to the same unregistered id is reported as a cycle. `Verdict` says exactly when an
 error is returned.
 */
module CycleDetection {
  import opened Graph
  import opened Entities

  /** Two different edges, both reachable from `root`, lead to one unregistered id. */
  ghost predicate DanglingTwice(g: Adjacency, root: string) {
    exists u, i, v, j ::
      && ScannedEdge(g, root, u, i) && ScannedEdge(g, root, v, j)
      && (u, i) != (v, j) && g[u][i] == g[v][j] && g[u][i] !in g
  }

  ghost predicate ScannedEdge(g: Adjacency, root: string, u: string, i: int) {
    u in g && 0 <= i < |g[u]| && Reaches(g, root, u)
  }

  /**
   A dependency of `from` on `to` that is reachable from `root` and either closes a cycle or is one
   of two edges to an unregistered id.
   */
  ghost predicate Culprit(g: Adjacency, root: string, from: string, to: string) {
    exists i :: ScannedEdge(g, root, from, i) && g[from][i] == to
      && if to in g then Reaches(g, to, from)
         else exists u, j :: ScannedEdge(g, root, u, j) && (u, j) != (from, i) && g[u][j] == to
  }

  lemma CulpritMeans(g: Adjacency, root: string, from: string, to: string)
    requires Culprit(g, root, from, to)
    ensures Edge(g, from, to) && Reaches(g, root, from)
    ensures HasCycle(g) || DanglingTwice(g, root)
    ensures to in g ==> ReachesByEdges(g, from, from)
  {
    if to in g {
      ReachesThenEdge(g, to, from, to);
      EdgeThenReaches(g, from, to, from);
    }
  }

  /** Exactly when `ValidateDependencies` returns an error. */
  ghost predicate Verdict(g: Adjacency) {
    HasCycle(g) || exists root :: root in g && DanglingTwice(g, root)
  }

  /** Every dependency is on a registered entity. */
  ghost predicate TargetsRegistered(g: Adjacency) {
    forall a, b :: Edge(g, a, b) ==> b in g
  }

  /** On catalogs without dangling dependencies the verdict is the presence of a cycle. */
  lemma VerdictWhenRegistered(g: Adjacency)
    requires TargetsRegistered(g)
    ensures Verdict(g) <==> HasCycle(g)
  {
    if root :| root in g && DanglingTwice(g, root) {
      var u, i, v, j :|
        && ScannedEdge(g, root, u, i) && ScannedEdge(g, root, v, j)
        && (u, i) != (v, j) && g[u][i] == g[v][j] && g[u][i] !in g;
      assert Edge(g, u, g[u][i]);
    }
  }

  /**
   An acyclic catalog that is rejected: `r` depends on `a` and `b`, and both of these depend on
   an id `x` that is not registered.
   */
  lemma FalseAlarm(r: string, a: string, b: string, x: string)
    requires r != a && r != b && r != x && a != b && a != x && b != x
    ensures Verdict(Diamond(r, a, b, x)) && !HasCycle(Diamond(r, a, b, x))
  {
    var g := Diamond(r, a, b, x);
    assert g[r][0] == a && g[r][1] == b && g[a][0] == x && g[b][0] == x;
    EdgeWalk(g, r, a);
    EdgeWalk(g, r, b);
    assert ScannedEdge(g, r, a, 0) && ScannedEdge(g, r, b, 0);
    assert DanglingTwice(g, r);
    if s :| ReachesByEdges(g, s, s) {
      var t := FirstEdge(g, s, s);
      DeadEnd(g, x, s);
      DeadEnd(g, x, r);
      if t != x {
        assert s == r;
        OnlyWayOn(g, t, x, r);
      }
    }
  }

  lemma OnlyWayOn(g: Adjacency, t: string, x: string, s: string)
    requires t in g && g[t] == [x]
    ensures Reaches(g, t, s) ==> t == s || Reaches(g, x, s)
  {
    if n: nat :| n > 0 && Walk(g, t, s, n) {
      var u :| Edge(g, t, u) && Walk(g, u, s, n - 1);
      assert Walk(g, x, s, n - 1);
    }
  }

  function Diamond(r: string, a: string, b: string, x: string): Adjacency {
    map[r := [a, b], a := [x], b := [x]]
  }
  /**
   Where a search stands: the ids marked in the two maps, and for every registered, visited id
   how many of its edges have been followed.
   */
  datatype Trail = Trail(seen: set<string>, stack: set<string>, scan: map<string, nat>)

  /** `pending` is the unregistered id whose edge the caller is about to count, if any. */
  ghost predicate SearchInv(g: Adjacency, root: string, t: Trail, pending: set<string>) {
    && t.stack <= t.seen <= Universe(g)
    && t.scan.Keys == t.seen * g.Keys
    && (forall u :: u in t.scan ==> t.scan[u] <= |g[u]| && Reaches(g, root, u))
    && (forall u, i :: u in t.scan && 0 <= i < t.scan[u] ==> g[u][i] in t.seen)
    && (forall u :: u in t.seen && u !in g ==> u in t.stack)
    && Finished(g, t.stack, t.scan)
    && OnceOnly(g, t.scan)
    && (forall x :: x in t.seen && x !in g && x !in pending ==> exists u, j :: Followed(g, t.scan, u, j) && g[u][j] == x)
  }

  ghost predicate Followed(g: Adjacency, scan: map<string, nat>, u: string, i: int) {
    u in scan && u in g && 0 <= i < scan[u] && i < |g[u]|
  }

  /** Visited entities off the stack are completely scanned, closed and free of cycles. */
  ghost predicate Finished(g: Adjacency, stack: set<string>, scan: map<string, nat>) {
    forall u :: u in scan && u !in stack ==>
      && u in g && scan[u] == |g[u]|
      && !ReachesByEdges(g, u, u)
      && forall t :: Edge(g, u, t) && t in g ==> t in scan && t !in stack
  }

  /** No two followed edges lead to the same unregistered id. */
  ghost predicate OnceOnly(g: Adjacency, scan: map<string, nat>) {
    forall u, i, v, j :: Followed(g, scan, u, i) && Followed(g, scan, v, j) && (u, i) != (v, j) && g[u][i] == g[v][j]
      ==> g[u][i] in g
  }

  /** What a call of `DetectCycle` on `id` starts from. */
  ghost predicate Entry(g: Adjacency, root: string, t: Trail, id: string) {
    && SearchInv(g, root, t, {})
    && id in Universe(g) && id !in t.seen && Reaches(g, root, id)
    && forall s :: s in t.stack && s in g ==> ReachesByEdges(g, s, id)
  }

  /** What a successful call on `id` that started from `t0` leaves behind. */
  ghost predicate Exit(g: Adjacency, root: string, t0: Trail, t: Trail, id: string) {
    && SearchInv(g, root, t, if id in g then {} else {id})
    && t0.seen + {id} <= t.seen
    && t.stack * g.Keys == t0.stack * g.Keys
    && Agree(g, t0, t)
    && (id !in g ==> t.scan == t0.scan)
  }

  /** Inside the loop over the edges of `id`, before edge `i`. */
  ghost predicate Scanning(g: Adjacency, root: string, t0: Trail, t: Trail, id: string, i: nat) {
    && Entry(g, root, t0, id) && SearchInv(g, root, t, {})
    && id in g && i <= |g[id]|
    && t0.seen + {id} <= t.seen
    && t.stack * g.Keys == t0.stack * g.Keys + {id}
    && Agree(g, t0, t)
    && id in t.scan && t.scan[id] == i
    && forall j :: 0 <= j < i && g[id][j] in g ==> g[id][j] !in t.stack
  }

  /** Entities on the old stack have followed no further edge. */
  ghost predicate Agree(g: Adjacency, t0: Trail, t: Trail) {
    forall u :: u in t0.stack && u in g ==> u in t.scan && u in t0.scan && t.scan[u] == t0.scan[u]
  }

  lemma Start(g: Adjacency, root: string)
    requires root in g
    ensures Entry(g, root, Trail({}, {}, map[]), root)
  {
    ReachesSelf(g, root);
  }

  lemma EnterUnregistered(g: Adjacency, root: string, t: Trail, id: string)
    requires Entry(g, root, t, id) && id !in g
    ensures Exit(g, root, t, Trail(t.seen + {id}, t.stack + {id}, t.scan), id)
  {
  }

  lemma Enter(g: Adjacency, root: string, t: Trail, id: string)
    requires Entry(g, root, t, id) && id in g
    ensures Scanning(g, root, t, Trail(t.seen + {id}, t.stack + {id}, t.scan[id := 0]), id, 0)
  {
    hide Reaches, ReachesByEdges, Universe, Edge;
    var t' := Trail(t.seen + {id}, t.stack + {id}, t.scan[id := 0]);
    forall x | x in t'.seen && x !in g ensures exists u, j :: Followed(g, t'.scan, u, j) && g[u][j] == x {
      var u, j :| Followed(g, t.scan, u, j) && g[u][j] == x;
      assert Followed(g, t'.scan, u, j);
    }
    assert OnceOnly(g, t'.scan) by {
      assert forall u, i :: Followed(g, t'.scan, u, i) ==> Followed(g, t.scan, u, i);
    }
  }

  lemma CallReady(g: Adjacency, root: string, t0: Trail, t: Trail, id: string, i: nat)
    requires Scanning(g, root, t0, t, id, i) && i < |g[id]| && g[id][i] !in t.seen
    ensures Entry(g, root, t, g[id][i])
    ensures Universe(g) - t.seen < Universe(g) - t0.seen
  {
    var target := g[id][i];
    EdgeInUniverse(g, id, target);
    ReachesThenEdge(g, root, id, target);
    ByEdgesIsReaches(g, root, target);
    StackReaches(g, t0, t, id, target);
    assert id in Universe(g) - t0.seen;
  }

  lemma StackReaches(g: Adjacency, t0: Trail, t: Trail, id: string, target: string)
    requires Edge(g, id, target)
    requires t.stack * g.Keys == t0.stack * g.Keys + {id}
    requires forall s :: s in t0.stack && s in g ==> ReachesByEdges(g, s, id)
    ensures forall s :: s in t.stack && s in g ==> ReachesByEdges(g, s, target)
  {
    forall s | s in t.stack && s in g ensures ReachesByEdges(g, s, target) {
      assert s in t0.stack * g.Keys + {id};
      if s == id {
        EdgeWalk(g, id, target);
      } else {
        ByEdgesIsReaches(g, s, id);
        ReachesThenEdge(g, s, id, target);
      }
    }
  }

  /** One more edge of `id` counts as followed. */
  lemma FollowedOne(g: Adjacency, root: string, t: Trail, pending: set<string>, id: string, i: nat)
    requires SearchInv(g, root, t, pending)
    requires id in t.scan && id in t.stack && id in g && t.scan[id] == i < |g[id]| && g[id][i] in t.seen
    requires pending <= {g[id][i]}
    requires g[id][i] in g || forall u, j :: Followed(g, t.scan, u, j) ==> g[u][j] != g[id][i]
    ensures SearchInv(g, root, t.(scan := t.scan[id := i + 1]), {})
  {
    hide Reaches, ReachesByEdges, Universe, Edge;
    var scan' := t.scan[id := i + 1];
    assert Followed(g, scan', id, i);
    forall u, j | Followed(g, scan', u, j) ensures Followed(g, t.scan, u, j) || (u, j) == (id, i) {
    }
    forall x | x in t.seen && x !in g ensures exists u, j :: Followed(g, scan', u, j) && g[u][j] == x {
      if x != g[id][i] {
        var u, j :| Followed(g, t.scan, u, j) && g[u][j] == x;
        assert Followed(g, scan', u, j);
      }
    }
  }

  /** A successful search of a new target. */
  lemma CallDone(g: Adjacency, root: string, t0: Trail, t1: Trail, t: Trail, id: string, i: nat)
    requires Scanning(g, root, t0, t1, id, i) && i < |g[id]| && g[id][i] !in t1.seen
    requires Exit(g, root, t1, t, g[id][i])
    ensures id in t.scan && Scanning(g, root, t0, t.(scan := t.scan[id := i + 1]), id, i + 1)
  {
    hide Reaches, ReachesByEdges, Universe, Edge, Finished, OnceOnly;
    var target := g[id][i];
    assert id in t1.stack * g.Keys && id in t.stack * g.Keys;
    forall u, j | target !in g && Followed(g, t.scan, u, j) ensures g[u][j] != target {
      assert Followed(g, t1.scan, u, j);
    }
    FollowedOne(g, root, t, if target in g then {} else {target}, id, i);
    forall j | 0 <= j < i + 1 && g[id][j] in g ensures g[id][j] !in t.stack {
      var x := g[id][j];
      assert x in t.stack * g.Keys <==> x in t1.stack * g.Keys;
    }
    forall u | u in t0.stack && u in g ensures u in t.scan && t.scan[u] == t0.scan[u] && u != id {
      assert u in t1.stack * g.Keys;
    }
  }

  /** A target that was visited before and has left the stack. */
  lemma Skip(g: Adjacency, root: string, t0: Trail, t: Trail, id: string, i: nat)
    requires Scanning(g, root, t0, t, id, i) && i < |g[id]| && g[id][i] in t.seen && g[id][i] !in t.stack
    ensures id in t.scan && Scanning(g, root, t0, t.(scan := t.scan[id := i + 1]), id, i + 1)
  {
    assert id in t.stack * g.Keys;
    FollowedOne(g, root, t, {}, id, i);
  }

  /** An edge back to the stack closes a cycle or is a second edge to an unregistered id. */
  lemma Alarm(g: Adjacency, root: string, t0: Trail, t: Trail, id: string, i: nat)
    requires Scanning(g, root, t0, t, id, i) && i < |g[id]| && g[id][i] in t.stack
    ensures Culprit(g, root, id, g[id][i])
  {
    var target := g[id][i];
    assert ScannedEdge(g, root, id, i);
    if target in g {
      assert target in t0.stack * g.Keys + {id};
      if target == id {
        ReachesSelf(g, id);
      } else {
        ByEdgesIsReaches(g, target, id);
      }
    } else {
      var u, j :| Followed(g, t.scan, u, j) && g[u][j] == target;
      assert ScannedEdge(g, root, u, j) && (u, j) != (id, i);
    }
  }

  /** An entity all of whose edges are followed leaves the stack closed and cycle-free. */
  lemma Leave(g: Adjacency, root: string, t0: Trail, t: Trail, id: string)
    requires id in g && Scanning(g, root, t0, t, id, |g[id]|)
    ensures Exit(g, root, t0, t.(stack := t.stack - {id}), id)
  {
    hide Reaches, ReachesByEdges, Universe;
    var done := set u | u in t.scan && u !in t.stack;
    assert Closed(g, done);
    assert id in t.stack * g.Keys && id !in t0.stack;
    forall c | Edge(g, id, c) && c in g ensures c in done {
      var j :| 0 <= j < |g[id]| && g[id][j] == c;
    }
    NoCycleAbove(g, done, id);
  }

  /** An entity above a closed set it is not part of lies on no cycle. */
  lemma NoCycleAbove(g: Adjacency, done: set<string>, id: string)
    requires Closed(g, done) && id in g && id !in done
    requires forall c :: Edge(g, id, c) && c in g ==> c in done
    ensures !ReachesByEdges(g, id, id)
  {
    if ReachesByEdges(g, id, id) {
      var c := FirstEdge(g, id, id);
      if c !in g {
        DeadEnd(g, c, id);
      } else {
        ClosedContainsReachable(g, done, c, id);
      }
    }
  }

  /** A completed search from `root` has seen no cycle and no doubly reached unregistered id. */
  lemma Completed(g: Adjacency, root: string, t: Trail)
    requires root in g && Exit(g, root, Trail({}, {}, map[]), t, root)
    ensures Clear(g, root)
  {
    var done := set u | u in t.scan && u !in t.stack;
    assert t.stack * g.Keys == {};
    assert forall u :: u in t.scan ==> u in g;
    assert root in t.scan && Closed(g, done) && done == t.scan.Keys;
    forall u, i | ScannedEdge(g, root, u, i) ensures Followed(g, t.scan, u, i) {
      ClosedContainsReachable(g, done, root, u);
    }
  }

  ghost predicate Clear(g: Adjacency, root: string) {
    !ReachesByEdges(g, root, root) && !DanglingTwice(g, root)
  }

  lemma CulpritFound(g: Adjacency, root: string, from: string, to: string)
    requires root in g && Culprit(g, root, from, to)
    ensures Verdict(g)
  {
    CulpritMeans(g, root, from, to);
  }

  lemma AllClear(g: Adjacency)
    requires forall root :: root in g ==> Clear(g, root)
    ensures !Verdict(g)
  {
    forall a ensures !ReachesByEdges(g, a, a) {
      if a in g {
        assert Clear(g, a);
      }
    }
    forall root | root in g ensures !DanglingTwice(g, root) {
      assert Clear(g, root);
    }
  }

  lemma TargetsByIndex(rels: seq<Relationship>)
    ensures var deps := OfType(rels, RELATION_DEPENDS_ON);
      && |DependencyTargets(rels)| == |deps|
      && forall i :: 0 <= i < |deps| ==> DependencyTargets(rels)[i] == deps[i].targetID
  {
  }
}
