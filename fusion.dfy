/**
 * The driver: the seed graphs (the empty graph and the matchings
 * 0→1, 2→3, ...), the fusion class of each seed, and the total count.
 */
module Fusion {
  import opened Digraph
  import opened GraphStore
  import opened Enumerator
  import opened Closure

  /** The edges of the k-th seed: 2i→2i+1 for every i < k. */
  ghost predicate MatchingEdge(k: int, x: int, y: int)
  {
    0 <= x && x % 2 == 0 && y == x + 1 && x < 2 * k
  }

  /** The k-th seed has exactly the matching edges of its index. */
  ghost predicate IsSeed(g: Graph, n: nat, k: int)
    reads g
  {
    && g.Valid() && |g.nodes| == n && g.edgeCount == k
    && forall x, y :: Edge(g.nodes, x, y) <==> MatchingEdge(k, x, y)
  }

  /** The graph with the edges 0→1, 2→3, ..., (m-2)→(m-1) on n vertices. */
  method Matching(n: nat, m: nat) returns (gr: Graph)
    requires m % 2 == 0 && m <= n
    ensures fresh(gr) && IsSeed(gr, n, m / 2)
  {
    gr := new Graph(n);
    var i := 0;
    while i < m
      invariant i % 2 == 0 && i <= m
      invariant gr.Valid() && |gr.nodes| == n && gr.edgeCount == i / 2
      invariant forall x, y :: Edge(gr.nodes, x, y) <==> MatchingEdge(i / 2, x, y)
      decreases m - i
    {
      assert !Edge(gr.nodes, i, i + 1) && !Edge(gr.nodes, i + 1, i);
      gr.AddEdge(i, i + 1);
      i := i + 2;
    }
  }

  /** create_source_graphs(n): the empty graph, then one matching for each
      even m with 2 <= m <= n, so n / 2 + 1 seeds in all; seed k has the
      edges 2i→2i+1 for i < k and k edges. */
  method CreateSourceGraphs(n: nat) returns (seeds: seq<Graph>)
    ensures |seeds| == n / 2 + 1
    ensures forall k :: 0 <= k < |seeds| ==> IsSeed(seeds[k], n, k)
  {
    var upper := if n % 2 == 0 then n + 1 else n;
    assert upper % 2 == 1;
    var empty := new Graph(n);
    seeds := [empty];
    var m := 2;
    while m < upper
      invariant m % 2 == 0 && 2 <= m <= upper + 1
      invariant |seeds| == m / 2
      invariant forall k :: 0 <= k < |seeds| ==> IsSeed(seeds[k], n, k)
      decreases upper - m
    {
      var gr := Matching(n, m);
      seeds := seeds + [gr];
      m := m + 2;
    }
  }

  /** The sum of the class sizes. */
  function TotalSize(classes: seq<seq<Graph>>): (r: nat)
    ensures classes != [] ==> r >= |classes[|classes| - 1]|
  {
    if classes == [] then 0 else TotalSize(classes[..|classes| - 1]) + |classes[|classes| - 1]|
  }

  /** What get_all_inclass_graphs returns for a seed: a list starting with
      the seed, of well-formed graphs on n vertices all reachable from it,
      no two with the same hash, and closed under the rewrites up to the
      hash: every rewrite of a listed graph has the hash of a listed graph. */
  ghost predicate FusionClass(graphs: seq<Graph>, n: nat, hash: Adj -> Digest)
    reads graphs
  {
    && |graphs| > 0
    && (forall i :: 0 <= i < |graphs| ==>
          graphs[i].Valid() && |graphs[i].nodes| == n && Reachable(graphs[0].nodes, graphs[i].nodes))
    && (forall i, j :: 0 <= i < j < |graphs| ==> hash(graphs[i].nodes) != hash(graphs[j].nodes))
    && (forall i, m :: 0 <= i < |graphs| && Fits(m, n) ==>
          exists j :: 0 <= j < |graphs| && hash(Apply(graphs[i].nodes, m)) == hash(graphs[j].nodes))
  }

  /** One iteration of the loop of main: get_all_inclass_graphs on one seed,
      whose hash table main does not use. */
  method ClassOf(seed: Graph, n: nat, hash: Adj -> Digest) returns (inclassGraphs: seq<Graph>)
    requires seed.Valid() && |seed.nodes| == n
    ensures FusionClass(inclassGraphs, n, hash) && inclassGraphs[0] == seed
  {
    var inclassHashes;
    inclassGraphs, inclassHashes := GetAllInclassGraphs(seed, n, hash);
  }

  /** The loop of main over the seeds: the fusion class of each, and the
      running sum of their sizes. */
  method ClassesOf(seeds: seq<Graph>, n: nat, hash: Adj -> Digest)
    returns (fusionClasses: seq<seq<Graph>>, overallCount: nat)
    requires forall k :: 0 <= k < |seeds| ==> IsSeed(seeds[k], n, k)
    ensures |fusionClasses| == |seeds|
    ensures overallCount == TotalSize(fusionClasses)
    ensures forall k :: 0 <= k < |seeds| ==>
              FusionClass(fusionClasses[k], n, hash) && fusionClasses[k][0] == seeds[k]
  {
    overallCount := 0;
    fusionClasses := [];
    for s := 0 to |seeds|
      invariant |fusionClasses| == s
      invariant overallCount == TotalSize(fusionClasses)
      invariant forall k :: 0 <= k < s ==>
                  FusionClass(fusionClasses[k], n, hash) && fusionClasses[k][0] == seeds[k]
    {
      var inclassGraphs := ClassOf(seeds[s], n, hash);
      overallCount := overallCount + |inclassGraphs|;
      fusionClasses := fusionClasses + [inclassGraphs];
      assert fusionClasses[..s] == fusionClasses[..|fusionClasses| - 1];
    }
  }

  /** main(n): gen(n), then the fusion class of every seed; the classes are
      returned with the number of kept graphs of gen and the summed class
      sizes, the two numbers main prints last. */
  method FusionClasses(n: nat, hash: Adj -> Digest)
    returns (fusionClasses: seq<seq<Graph>>, allCount: nat, overallCount: nat)
    ensures |fusionClasses| == n / 2 + 1
    ensures overallCount == TotalSize(fusionClasses)
    ensures forall k :: 0 <= k < |fusionClasses| ==>
              FusionClass(fusionClasses[k], n, hash) && IsSeed(fusionClasses[k][0], n, k)
  {
    var allGraphs := Gen(n, hash);
    allCount := |allGraphs|;
    var sourceGraphs := CreateSourceGraphs(n);
    fusionClasses, overallCount := ClassesOf(sourceGraphs, n, hash);
  }
}
