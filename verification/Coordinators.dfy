/** Coordinator election in the mesh (layer1/mesh_coordinator.go). The lowest id wins. */
module Coordinators {
  import opened Indexes

  // ---------- The order of ids ----------

  /** Lexicographic order. */
  predicate AtMost(a: string, b: string) {
    a == [] || (b != [] && (a[0] < b[0] || (a[0] == b[0] && AtMost(a[1..], b[1..]))))
  }

  lemma {:induction false} Total(a: string, b: string)
    ensures AtMost(a, b) || AtMost(b, a)
    ensures AtMost(a, b) && AtMost(b, a) ==> a == b
  {
    if a != [] && b != [] && a[0] == b[0] {
      Total(a[1..], b[1..]);
      assert a == [a[0]] + a[1..] && b == [b[0]] + b[1..];
    }
  }

  lemma {:induction false} Transitive(a: string, b: string, c: string)
    requires AtMost(a, b) && AtMost(b, c)
    ensures AtMost(a, c)
  {
    if a != [] && a[0] == b[0] == c[0] {
      Transitive(a[1..], b[1..], c[1..]);
    }
  }

  /** The order of the library: a prefix comes first, otherwise the first difference decides. */
  lemma {:induction false} AtMostMeans(a: string, b: string)
    ensures AtMost(a, b) <==> a <= b || exists k :: FirstDifference(a, b, k) && a[k] < b[k]
  {
    if a != [] && b != [] && a[0] == b[0] {
      AtMostMeans(a[1..], b[1..]);
      assert a == [a[0]] + a[1..] && b == [b[0]] + b[1..];
      assert a <= b <==> a[1..] <= b[1..];
      if k :| FirstDifference(a[1..], b[1..], k) && a[1..][k] < b[1..][k] {
        assert a[..k + 1] == [a[0]] + a[1..][..k] && b[..k + 1] == [b[0]] + b[1..][..k];
        assert FirstDifference(a, b, k + 1) && a[k + 1] < b[k + 1];
      }
      if k :| FirstDifference(a, b, k) && a[k] < b[k] {
        assert k > 0 && a[1..][..k - 1] == a[..k][1..] && b[1..][..k - 1] == b[..k][1..];
        assert FirstDifference(a[1..], b[1..], k - 1) && a[1..][k - 1] < b[1..][k - 1];
      }
    } else if a != [] && b != [] {
      assert FirstDifference(a, b, 0);
      NotPrefix(a, b);
      forall k | FirstDifference(a, b, k) ensures k == 0 {
        HeadsAgree(a, b, k);
      }
    }
  }

  lemma NotPrefix(a: string, b: string)
    requires a != [] && b != [] && a[0] != b[0]
    ensures !(a <= b)
  {
  }

  lemma HeadsAgree(a: string, b: string, k: nat)
    requires FirstDifference(a, b, k)
    ensures k > 0 ==> a[0] == b[0]
  {
    if k > 0 {
      assert a[0] == a[..k][0] == b[..k][0] == b[0];
    }
  }

  ghost predicate FirstDifference(a: string, b: string, k: int) {
    0 <= k < |a| && k < |b| && a[..k] == b[..k] && a[k] != b[k]
  }

  ghost predicate Sorted(s: seq<string>) {
    forall i, j :: 0 <= i < j < |s| ==> AtMost(s[i], s[j])
  }

  ghost predicate IsLowest(m: string, ids: set<string>) {
    m in ids && forall x :: x in ids ==> AtMost(m, x)
  }

  lemma LowestUnique(m: string, n: string, ids: set<string>)
    requires IsLowest(m, ids) && IsLowest(n, ids)
    ensures m == n
  {
    Total(m, n);
  }

  method Insert(x: string, s: seq<string>) returns (r: seq<string>)
    requires Sorted(s)
    ensures Sorted(r) && multiset(r) == multiset(s) + multiset{x}
  {
    hide AtMost;
    var i := 0;
    while i < |s| && AtMost(s[i], x)
      invariant i <= |s| && forall j :: 0 <= j < i ==> AtMost(s[j], x)
    {
      i := i + 1;
    }
    r := s[..i] + [x] + s[i..];
    assert s == s[..i] + s[i..];
    forall j | i <= j < |s| ensures AtMost(x, s[j]) {
      Total(x, s[i]);
      if i < j { Transitive(x, s[i], s[j]); }
    }
  }

  /** Stands for the library sort: any ordered arrangement. */
  method SortStrings(s: seq<string>) returns (r: seq<string>)
    ensures Sorted(r) && multiset(r) == multiset(s)
  {
    r := [];
    for i := 0 to |s|
      invariant Sorted(r) && multiset(r) == multiset(s[..i])
    {
      assert s[..i + 1] == s[..i] + [s[i]];
      r := Insert(s[i], r);
    }
    assert s[..|s|] == s;
  }

  // ---------- One node ----------

  datatype Topology = FullMesh | Hierarchical

  datatype Node = Node(localID: string, peers: seq<string>, coordinatorID: string, isCoordinator: bool)

  function Members(n: Node): set<string> {
    {n.localID} + set p | p in n.peers
  }

  ghost predicate Elected(n: Node) {
    IsLowest(n.coordinatorID, Members(n)) && (n.isCoordinator <==> n.coordinatorID == n.localID)
  }

  function Connections(n: Node, t: Topology): seq<string> {
    if t == FullMesh || n.isCoordinator then n.peers
    else if n.coordinatorID != "" && n.coordinatorID != n.localID then [n.coordinatorID]
    else []
  }

  class MeshCoordinator {
    const localID: string
    var peers: seq<string>
    var coordinatorID: string
    var isCoordinator: bool

    function View(): Node
      reads this
    {
      Node(localID, peers, coordinatorID, isCoordinator)
    }

    /** Only a coordinator that knows no peer may not have elected yet. */
    ghost predicate Valid()
      reads this
    {
      Elected(View()) || peers == []
    }

    constructor (localID: string)
      ensures Valid() && View() == Node(localID, [], "", false)
    {
      this.localID, peers, coordinatorID, isCoordinator := localID, [], "", false;
    }

    method Elect()
      modifies this`coordinatorID, this`isCoordinator
      ensures Elected(View())
    {
      var all := [localID] + peers;
      var sorted := SortStrings(all);
      FirstIsLowest(all, sorted);
      coordinatorID := sorted[0];
      isCoordinator := coordinatorID == localID;
      assert Members(View()) == set x | x in all;
    }

    method UpdatePeers(peerIDs: seq<string>)
      modifies this
      ensures Valid() && Elected(View()) && peers == peerIDs
    {
      peers := peerIDs;
      Elect();
    }

    method AddPeer(peerID: string)
      requires Valid()
      modifies this
      ensures Valid() && Elected(View())
      ensures peers == if peerID in old(peers) then old(peers) else old(peers) + [peerID]
    {
      for i := 0 to |peers|
        invariant peerID !in peers[..i] && peers == old(peers) && Valid()
      {
        if peers[i] == peerID {
          return;
        }
      }
      assert peers == peers[..|peers|];
      peers := peers + [peerID];
      Elect();
    }

    method RemovePeer(peerID: string)
      modifies this
      ensures Valid() && Elected(View())
      ensures peers == RemoveFirst(old(peers), peerID)
    {
      var rest := DropFirst(peers, peerID);
      peers := rest;
      Elect();
    }

    method ShouldConnectTo(topology: Topology) returns (r: seq<string>)
      ensures r == Connections(View(), topology)
    {
      if topology == FullMesh {
        return peers;
      }
      if isCoordinator {
        return peers;
      }
      if coordinatorID != "" && coordinatorID != localID {
        return [coordinatorID];
      }
      return [];
    }
  }

  lemma FirstIsLowest(all: seq<string>, sorted: seq<string>)
    requires all != [] && Sorted(sorted) && multiset(sorted) == multiset(all)
    ensures sorted != [] && IsLowest(sorted[0], set x | x in all)
  {
    assert all[0] in multiset(sorted);
    assert sorted[0] in multiset(all);
    forall x | x in all ensures AtMost(sorted[0], x) {
      assert x in multiset(sorted);
      var j :| 0 <= j < |sorted| && sorted[j] == x;
      Total(x, x);
    }
  }

  method DropFirst(s: seq<string>, x: string) returns (r: seq<string>)
    ensures r == RemoveFirst(s, x)
  {
    hide RemoveFirst;
    for i := 0 to |s|
      invariant x !in s[..i]
    {
      if s[i] == x {
        RemoveFirstAt(s, x, i);
        return s[..i] + s[i + 1..];
      }
    }
    assert s == s[..|s|];
    RemoveFirstAbsent(s, x);
    return s;
  }

  // ---------- Many nodes ----------

  /** The outcome depends on who is known, not on how that came about. */
  lemma OrderDoesNotMatter(n1: Node, n2: Node)
    requires Elected(n1) && Elected(n2) && Members(n1) == Members(n2)
    ensures n1.coordinatorID == n2.coordinatorID
    ensures n1.localID == n2.localID ==> n1.isCoordinator == n2.isCoordinator
  {
    LowestUnique(n1.coordinatorID, n2.coordinatorID, Members(n1));
  }

  /** Every node of the cluster knows exactly the other nodes, and perhaps lists itself, and has elected. */
  ghost predicate Cluster(nodes: map<string, Node>) {
    forall id :: id in nodes ==>
      && nodes[id].localID == id && Members(nodes[id]) == nodes.Keys
      && Elected(nodes[id])
  }

  /** All nodes name the lowest id, and only its node considers itself coordinator. */
  lemma Agreement(nodes: map<string, Node>, m: string)
    requires Cluster(nodes) && IsLowest(m, nodes.Keys)
    ensures forall id :: id in nodes ==> nodes[id].coordinatorID == m && (nodes[id].isCoordinator <==> id == m)
  {
    hide IsLowest;
    forall id | id in nodes ensures nodes[id].coordinatorID == m && (nodes[id].isCoordinator <==> id == m) {
      LowestUnique(nodes[id].coordinatorID, m, nodes.Keys);
    }
  }

  /** The connections nodes ask for, without direction. */
  function Links(nodes: map<string, Node>, t: Topology): set<set<string>> {
    set u, v | u in nodes && v in Connections(nodes[u], t) :: {u, v}
  }

  function Star(m: string, others: set<string>): set<set<string>> {
    set x | x in others :: {m, x}
  }

  lemma {:induction false} StarSize(m: string, others: set<string>)
    requires m !in others
    ensures |Star(m, others)| == |others|
  {
    if others != {} {
      var x :| x in others;
      StarSize(m, others - {x});
      assert Star(m, others) == Star(m, others - {x}) + {{m, x}};
      forall y | y in others - {x} ensures {m, y} != {m, x} {
        assert y in {m, y} && y !in {m, x};
      }
    }
  }

  /** A coordinator that was given its own id as a peer links to itself as well. */
  function SelfLink(n: Node): set<set<string>> {
    if n.localID in n.peers then {{n.localID}} else {}
  }

  /**
   In the hierarchical topology the links are a star around the coordinator, one for every other
   node, and nothing else if and only if the coordinator does not list itself as a peer.
   */
  lemma HierarchicalIsStar(nodes: map<string, Node>, m: string)
    requires Cluster(nodes) && IsLowest(m, nodes.Keys)
    ensures Links(nodes, Hierarchical) == Star(m, nodes.Keys - {m}) + SelfLink(nodes[m])
    ensures |Star(m, nodes.Keys - {m})| == |nodes| - 1
    ensures Links(nodes, Hierarchical) == Star(m, nodes.Keys - {m}) <==> m !in nodes[m].peers
  {
    hide Links, Star, Connections, ConnectsAsStar, AtMost, SelfLink;
    Agreement(nodes, m);
    forall u | u in nodes ensures ConnectsAsStar(nodes[u], m, nodes.Keys) {
      NodeInStar(nodes[u], m, nodes.Keys);
    }
    LinksAreStar(nodes, m);
    StarSize(m, nodes.Keys - {m});
    assert |nodes.Keys - {m}| == |nodes.Keys| - 1;
    NoLoopInStar(m, nodes.Keys - {m});
    LoopOrNot(Star(m, nodes.Keys - {m}), nodes[m]);
  }

  lemma LoopOrNot(star: set<set<string>>, n: Node)
    requires {n.localID} !in star
    ensures star + SelfLink(n) == star <==> n.localID !in n.peers
  {
    assert n.localID in n.peers ==> {n.localID} in star + SelfLink(n);
  }

  lemma NoLoopInStar(m: string, others: set<string>)
    requires m !in others
    ensures {m} !in Star(m, others)
  {
    forall x | x in others ensures {m, x} != {m} {
      assert x in {m, x};
    }
  }

  /** The coordinator links to all it lists; another node to the coordinator, unless that has the empty id. */
  ghost predicate ConnectsAsStar(n: Node, m: string, ids: set<string>) {
    var c := Connections(n, Hierarchical);
    if n.localID == m then forall v :: v in c <==> v in ids && (v != m || m in n.peers)
    else forall v :: v in c ==> v == m
  }

  lemma NodeInStar(n: Node, m: string, ids: set<string>)
    requires Members(n) == ids
    requires n.coordinatorID == m && (n.isCoordinator <==> n.localID == m)
    ensures ConnectsAsStar(n, m, ids)
  {
    forall v ensures v in n.peers <==> v in ids && (v != n.localID || n.localID in n.peers) {
      assert v in Members(n) <==> v == n.localID || v in n.peers;
    }
  }

  lemma LinksAreStar(nodes: map<string, Node>, m: string)
    requires m in nodes && forall u :: u in nodes ==> nodes[u].localID == u && ConnectsAsStar(nodes[u], m, nodes.Keys)
    ensures Links(nodes, Hierarchical) == Star(m, nodes.Keys - {m}) + SelfLink(nodes[m])
  {
    hide Connections;
    var links, star := Links(nodes, Hierarchical), Star(m, nodes.Keys - {m}) + SelfLink(nodes[m]);
    forall u, v | u in nodes && v in Connections(nodes[u], Hierarchical) ensures {u, v} in star {
      assert ConnectsAsStar(nodes[u], m, nodes.Keys);
      if u == m {
        assert {u, v} == {m, v};
        if v == m { assert {m, v} == {m}; }
      } else {
        assert {u, v} == {m, u};
      }
    }
    if m in nodes[m].peers {
      assert ConnectsAsStar(nodes[m], m, nodes.Keys) && {m, m} == {m};
    }
    forall x | x in nodes.Keys - {m} ensures {m, x} in links {
      assert ConnectsAsStar(nodes[m], m, nodes.Keys);
    }
  }

  function Pairs(ids: set<string>): set<set<string>> {
    set u, v | u in ids && v in ids && u != v :: {u, v}
  }

  function SelfLinks(nodes: map<string, Node>): set<set<string>> {
    set u | u in nodes && u in nodes[u].peers :: {u}
  }

  /** In the full mesh every pair of nodes is linked, and a node to itself exactly if it lists itself. */
  lemma FullMeshIsComplete(nodes: map<string, Node>)
    requires Cluster(nodes)
    ensures Links(nodes, FullMesh) == Pairs(nodes.Keys) + SelfLinks(nodes)
  {
    hide Cluster, Connections;
    var all := Pairs(nodes.Keys) + SelfLinks(nodes);
    forall u, v | u in nodes && v in Connections(nodes[u], FullMesh) ensures {u, v} in all {
      ListedInMesh(nodes, u, v);
      if v == u { assert {u, v} == {u}; }
    }
    forall u, v | u in nodes && v in nodes && u != v ensures {u, v} in Links(nodes, FullMesh) {
      ListedInMesh(nodes, u, v);
    }
    forall u | u in nodes && u in nodes[u].peers ensures {u} in Links(nodes, FullMesh) {
      ListedInMesh(nodes, u, u);
      assert {u} == {u, u};
    }
  }

  lemma ListedInMesh(nodes: map<string, Node>, u: string, v: string)
    requires Cluster(nodes) && u in nodes
    ensures v in Connections(nodes[u], FullMesh) <==> v in nodes && (v != u || u in nodes[u].peers)
  {
    hide Elected;
    assert v in Members(nodes[u]) <==> v == u || v in nodes[u].peers;
  }
}
