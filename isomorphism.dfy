/**
 * The exact isomorphism oracle: rebuilding a graph under a vertex bijection
 * and the exhaustive search over all bijections.
 */
module Isomorphism {
  import opened Digraph
  import opened GraphStore
  import opened Permutations

  /** Edges of the partial image: every edge x→y of a with x < node, and the
      edges node→y whose y has already left rest. */
  ghost predicate Placed(a: Adj, node: int, rest: set<int>, x: int, y: int)
  {
    (x < node && Edge(a, x, y)) || (x == node && Edge(a, x, y) && y !in rest)
  }

  /** One add_edge(pr[node], pr[node2]) of apply_permutation creates exactly
      the image of the edge node→node2. */
  lemma PlaceStep(a: Adj, r: Adj, pr: seq<int>, node: int, node2: int, rest: set<int>)
    requires Simple(a) && Simple(r) && |r| == |a| && IsPerm(pr, |a|)
    requires 0 <= node < |a| && node2 in rest && rest <= a[node]
    requires forall x, y :: 0 <= x < |a| && 0 <= y < |a| ==>
               (Edge(r, pr[x], pr[y]) <==> Placed(a, node, rest, x, y))
    ensures 0 <= node2 < |a|
    ensures forall x, y :: 0 <= x < |a| && 0 <= y < |a| ==>
              (Edge(Toggle(r, pr[node], pr[node2]), pr[x], pr[y]) <==> Placed(a, node, rest - {node2}, x, y))
  {
    var n := |a|;
    assert Edge(a, node, node2);
    var r' := Toggle(r, pr[node], pr[node2]);
    assert pr[node] != pr[node2] by {
      if pr[node] == pr[node2] { PermInjective(pr, n, node, node2); }
    }
    assert !Edge(r, pr[node], pr[node2]);
    assert !Edge(r, pr[node2], pr[node]) by {
      assert !Placed(a, node, rest, node2, node);
    }
    forall x, y | 0 <= x < n && 0 <= y < n
      ensures Edge(r', pr[x], pr[y]) <==> Placed(a, node, rest - {node2}, x, y)
    {
      assert Edge(r', pr[x], pr[y]) == AfterToggle(r, pr[node], pr[node2], pr[x], pr[y]);
      if pr[x] == pr[node] && pr[y] == pr[node2] {
        PermInjective(pr, n, x, node);
        PermInjective(pr, n, y, node2);
      } else if pr[x] == pr[node2] && pr[y] == pr[node] {
        PermInjective(pr, n, x, node2);
        PermInjective(pr, n, y, node);
      }
    }
  }

  /** The inner loop of apply_permutation: add_edge(pr[node], pr[node2]) for
      every successor node2 of node. */
  method PlaceSuccessors(r: Graph, g: Graph, pr: seq<int>, node: int)
    requires g.Valid() && r.Valid() && r != g && |r.nodes| == |g.nodes| && IsPerm(pr, |g.nodes|)
    requires 0 <= node < |g.nodes|
    requires forall x, y :: 0 <= x < |g.nodes| && 0 <= y < |g.nodes| ==>
               (Edge(r.nodes, pr[x], pr[y]) <==> x < node && Edge(g.nodes, x, y))
    modifies r
    ensures r.Valid() && |r.nodes| == |g.nodes|
    ensures forall x, y :: 0 <= x < |g.nodes| && 0 <= y < |g.nodes| ==>
              (Edge(r.nodes, pr[x], pr[y]) <==> x < node + 1 && Edge(g.nodes, x, y))
  {
    var n := |g.nodes|;
    var rest := g.nodes[node];
    while rest != {}
      invariant r.Valid() && |r.nodes| == n
      invariant rest <= g.nodes[node]
      invariant forall x, y :: 0 <= x < n && 0 <= y < n ==>
                  (Edge(r.nodes, pr[x], pr[y]) <==> Placed(g.nodes, node, rest, x, y))
      decreases rest
    {
      ghost var some := Member(rest);
      var node2 :| node2 in rest;
      PlaceStep(g.nodes, r.nodes, pr, node, node2, rest);
      r.AddEdge(pr[node], pr[node2]);
      rest := rest - {node2};
    }
  }

  /** apply_permutation(g, pr): a fresh graph with the edge pr[x]→pr[y] for
      every edge x→y of g; g itself is not modified. */
  method ApplyPermutation(g: Graph, pr: seq<int>) returns (r: Graph)
    requires g.Valid() && IsPerm(pr, |g.nodes|)
    ensures fresh(r) && r.Valid()
    ensures r.nodes == Permute(g.nodes, pr)
    ensures r.edgeCount == g.edgeCount
  {
    var n := |g.nodes|;
    r := new Graph(n);
    for node := 0 to n
      invariant fresh(r) && r.Valid() && |r.nodes| == n
      invariant forall x, y :: 0 <= x < n && 0 <= y < n ==>
                  (Edge(r.nodes, pr[x], pr[y]) <==> x < node && Edge(g.nodes, x, y))
    {
      PlaceSuccessors(r, g, pr, node);
    }
    PermuteUnique(g.nodes, pr, r.nodes);
    PermuteEdgeCount(g.nodes, pr);
  }

  /** When no bijection in the exhaustive list maps a onto b, none does. */
  lemma NoneIsomorphic(a: Adj, b: Adj)
    requires InRange(a)
    requires forall t :: 0 <= t < |AllPermutations(|a|)| ==> Permute(a, AllPermutations(|a|)[t]) != b
    ensures forall p :: IsPerm(p, |a|) ==> Permute(a, p) != b
  {
    var allPrs := AllPermutations(|a|);
    forall p | IsPerm(p, |a|)
      ensures Permute(a, p) != b
    {
      AllPermutationsComplete(p, |a|);
      var t :| 0 <= t < |allPrs| && allPrs[t] == p;
    }
  }

  /** are_isomorphic(g1, g2): false at once when the vertex or edge counts
      differ, otherwise true exactly when some bijection maps g1's successor
      sets onto g2's. */
  method AreIsomorphic(g1: Graph, g2: Graph) returns (r: bool)
    requires g1.Valid() && g2.Valid()
    ensures r <==> && |g1.nodes| == |g2.nodes|
                   && g1.edgeCount == g2.edgeCount
                   && exists p :: IsPerm(p, |g1.nodes|) && Permute(g1.nodes, p) == g2.nodes
    ensures r <==> Isomorphic(g1.nodes, g2.nodes)
  {
    if |g1.nodes| != |g2.nodes| || g1.edgeCount != g2.edgeCount {
      assert !Isomorphic(g1.nodes, g2.nodes) by {
        if Isomorphic(g1.nodes, g2.nodes) {
          IsomorphicEdgeCount(g1.nodes, g2.nodes);
        }
      }
      return false;
    }
    var n := |g1.nodes|;
    var allPrs := AllPermutations(n);
    for k := 0 to |allPrs|
      invariant forall t :: 0 <= t < k ==> Permute(g1.nodes, allPrs[t]) != g2.nodes
    {
      var h := ApplyPermutation(g1, allPrs[k]);
      if h.nodes == g2.nodes {
        return true;
      }
    }
    NoneIsomorphic(g1.nodes, g2.nodes);
    return false;
  }
}
