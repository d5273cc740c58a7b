/**
 * Relabelling vertices commutes with both rewrites. As a consequence, when
 * the hash is an isomorphism invariant that also separates non-isomorphic
 * graphs, the list get_all_inclass_graphs returns meets the isomorphism
 * class of every graph reachable from the seed.
 */
module Symmetry {
  import opened Digraph
  import opened GraphStore
  import opened Permutations
  import opened Rewrite
  import opened Closure

  /** One toggle seen through a relabelling: toggling (p[i], p[j]) in the
      image affects p[x]→p[y] as toggling (i, j) affects x→y. */
  lemma AfterToggleImage(a: Adj, p: seq<int>, i: int, j: int, x: int, y: int)
    requires InRange(a) && IsPerm(p, |a|)
    requires 0 <= i < |a| && 0 <= j < |a| && 0 <= x < |a| && 0 <= y < |a|
    ensures AfterToggle(Permute(a, p), p[i], p[j], p[x], p[y]) <==> AfterToggle(a, i, j, x, y)
  {
    var n := |a|;
    assert p[i] == p[j] <==> i == j by {
      if p[i] == p[j] { PermInjective(p, n, i, j); }
    }
    assert p[x] == p[i] <==> x == i by {
      if p[x] == p[i] { PermInjective(p, n, x, i); }
    }
    assert p[x] == p[j] <==> x == j by {
      if p[x] == p[j] { PermInjective(p, n, x, j); }
    }
    assert p[y] == p[i] <==> y == i by {
      if p[y] == p[i] { PermInjective(p, n, y, i); }
    }
    assert p[y] == p[j] <==> y == j by {
      if p[y] == p[j] { PermInjective(p, n, y, j); }
    }
  }

  /** The same for a whole fan of toggles at v, when P' and S' are the
      images of P and S. */
  lemma FanEdgeImage(a: Adj, p: seq<int>, v: int, P: set<int>, S: set<int>, P': set<int>, S': set<int>,
                     x: int, y: int)
    requires InRange(a) && IsPerm(p, |a|)
    requires 0 <= v < |a| && 0 <= x < |a| && 0 <= y < |a|
    requires forall z :: 0 <= z < |a| ==> (p[z] in P' <==> z in P) && (p[z] in S' <==> z in S)
    ensures FanEdge(Permute(a, p), p[v], P', S', p[x], p[y]) <==> FanEdge(a, v, P, S, x, y)
  {
    var n := |a|;
    assert p[x] == p[v] <==> x == v by {
      if p[x] == p[v] { PermInjective(p, n, x, v); }
    }
    assert p[y] == p[v] <==> y == v by {
      if p[y] == p[v] { PermInjective(p, n, y, v); }
    }
    AfterToggleImage(a, p, y, v, x, y);
    AfterToggleImage(a, p, x, v, x, y);
    AfterToggleImage(a, p, v, y, x, y);
    AfterToggleImage(a, p, v, x, x, y);
  }

  /** Two adjacencies on n vertices agree when they agree on every
      relabelled pair. */
  lemma ImageExt(r: Adj, s: Adj, p: seq<int>)
    requires |r| == |s| && InRange(r) && InRange(s) && IsPerm(p, |r|)
    requires forall x, y :: 0 <= x < |r| && 0 <= y < |r| ==> (Edge(r, p[x], p[y]) <==> Edge(s, p[x], p[y]))
    ensures r == s
  {
    var q := Inverse(p);
    forall v, w | 0 <= v < |r| && 0 <= w < |r|
      ensures Edge(r, v, w) <==> Edge(s, v, w)
    {
      assert p[q[v]] == v && p[q[w]] == w;
    }
    AdjExt(r, s);
  }

  /** transform1 commutes with relabelling: redirecting p[u] onto p[v] in
      the image of a is the image of redirecting u onto v in a. */
  lemma Transform1Image(a: Adj, p: seq<int>, u: int, v: int)
    requires InRange(a) && IsPerm(p, |a|) && 0 <= u < |a| && 0 <= v < |a|
    ensures InRange(Transform1Adj(a, u, v))
    ensures Transform1Adj(Permute(a, p), p[u], p[v]) == Permute(Transform1Adj(a, u, v), p)
  {
    var n := |a|;
    var b := Permute(a, p);
    var P, S := Pred(a, u), a[u];
    var P', S' := Pred(b, p[u]), b[p[u]];
    forall z | 0 <= z < n
      ensures (p[z] in P' <==> z in P) && (p[z] in S' <==> z in S)
    {
      assert Edge(b, p[z], p[u]) <==> Edge(a, z, u);
      assert Edge(b, p[u], p[z]) <==> Edge(a, u, z);
    }
    var l, r := Transform1Adj(b, p[u], p[v]), Permute(Transform1Adj(a, u, v), p);
    forall x, y | 0 <= x < n && 0 <= y < n
      ensures Edge(l, p[x], p[y]) <==> Edge(r, p[x], p[y])
    {
      FanEdgeImage(a, p, v, P, S, P', S', x, y);
    }
    ImageExt(l, r, p);
  }

  /** transform2 commutes with relabelling. */
  lemma Transform2Image(a: Adj, p: seq<int>, w: int)
    requires InRange(a) && IsPerm(p, |a|) && 0 <= w < |a|
    ensures InRange(Transform2Adj(a, w))
    ensures Transform2Adj(Permute(a, p), p[w]) == Permute(Transform2Adj(a, w), p)
  {
    var n := |a|;
    var l, r := Transform2Adj(Permute(a, p), p[w]), Permute(Transform2Adj(a, w), p);
    forall x, y | 0 <= x < n && 0 <= y < n
      ensures Edge(l, p[x], p[y]) <==> Edge(r, p[x], p[y])
    {
      assert p[x] == p[w] <==> x == w by {
        if p[x] == p[w] { PermInjective(p, n, x, w); }
      }
      assert p[y] == p[w] <==> y == w by {
        if p[y] == p[w] { PermInjective(p, n, y, w); }
      }
      assert FlipEdge(Permute(a, p), p[w], Below(n), p[x], p[y]) <==> FlipEdge(a, w, Below(n), x, y);
    }
    ImageExt(l, r, p);
  }

  /** A step on an isomorphic copy is matched by a step on the original
      whose result is isomorphic to it. */
  lemma StepOnCopy(a: Adj, c: Adj, m: Move) returns (m': Move)
    requires Isomorphic(a, c) && Fits(m, |c|)
    ensures Fits(m', |a|) && Isomorphic(Apply(a, m'), Apply(c, m))
  {
    var n := |a|;
    var p :| IsPerm(p, n) && Permute(a, p) == c;
    var q := Inverse(p);
    match m {
      case Redirect(u, v) =>
        m' := Redirect(q[u], q[v]);
        Transform1Image(a, p, q[u], q[v]);
        assert p[q[u]] == u && p[q[v]] == v;
        IsomorphicToImage(Apply(a, m'), p);
      case Reverse(w) =>
        m' := Reverse(q[w]);
        Transform2Image(a, p, q[w]);
        assert p[q[w]] == w;
        IsomorphicToImage(Apply(a, m'), p);
    }
  }

  /** The hash gives isomorphic graphs the same digest. */
  ghost predicate Invariant(hash: Adj -> Digest)
  {
    forall x, y :: Isomorphic(x, y) ==> hash(x) == hash(y)
  }

  /** The hash gives non-isomorphic simple graphs on n vertices different
      digests. (No hash into 2^128 digests does this for every n; for the
      small vertex counts the program is run on, a canonical labelling
      hash does.) */
  ghost predicate Separating(hash: Adj -> Digest, n: nat)
  {
    forall x, y :: Simple(x) && Simple(y) && |x| == n && |y| == n && hash(x) == hash(y) ==> Isomorphic(x, y)
  }

  /** The keys are digests of listed simple graphs on n vertices, and every
      step from a listed graph leads to a key. */
  ghost predicate ClosedTable(reps: seq<Adj>, keys: set<Digest>, n: nat, hash: Adj -> Digest)
  {
    && (forall i :: 0 <= i < |reps| ==> Simple(reps[i]) && |reps[i]| == n)
    && (forall h :: h in keys ==> exists i :: 0 <= i < |reps| && hash(reps[i]) == h)
    && (forall i, m :: 0 <= i < |reps| && Fits(m, n) ==> hash(Apply(reps[i], m)) in keys)
  }

  /** A closed table under an invariant, separating hash. */
  ghost predicate Complete(reps: seq<Adj>, keys: set<Digest>, n: nat, hash: Adj -> Digest)
  {
    ClosedTable(reps, keys, n, hash) && Invariant(hash) && Separating(hash, n)
  }

  /** With an invariant, separating hash, one step from a graph whose hash
      is a key of a closed table leads to a key again. */
  lemma KeyStep(reps: seq<Adj>, keys: set<Digest>, n: nat, hash: Adj -> Digest, a: Adj, m: Move)
    requires Complete(reps, keys, n, hash)
    requires Simple(a) && |a| == n && hash(a) in keys && Fits(m, n)
    ensures hash(Apply(a, m)) in keys
  {
    var i :| 0 <= i < |reps| && hash(reps[i]) == hash(a);
    assert Isomorphic(reps[i], a);
    var m' := StepOnCopy(reps[i], a, m);
    var b, c := Apply(reps[i], m'), Apply(a, m);
    assert Isomorphic(b, c);
    assert hash(b) == hash(c);
    assert hash(b) in keys;
  }

  /** Hence every graph reachable from such a graph has its hash among the
      keys. */
  lemma {:induction false} KeysReach(reps: seq<Adj>, keys: set<Digest>, n: nat, hash: Adj -> Digest,
                                     a: Adj, ms: seq<Move>, b: Adj)
    requires Complete(reps, keys, n, hash)
    requires Simple(a) && |a| == n && hash(a) in keys && Reaches(a, ms, b)
    ensures hash(b) in keys
    decreases |ms|
  {
    if ms != [] {
      KeyStep(reps, keys, n, hash, a, ms[0]);
      ApplySimple(a, ms[0]);
      KeysReach(reps, keys, n, hash, Apply(a, ms[0]), ms[1..], b);
    }
  }

  /** When the hash is an isomorphism invariant that separates
      non-isomorphic simple graphs, a closed table whose list starts from the
      seed meets the isomorphism class of every graph reachable from the
      seed: the fusion class is complete up to isomorphism. */
  lemma ClassComplete(seed: Adj, reps: seq<Adj>, keys: set<Digest>, n: nat, hash: Adj -> Digest)
    requires Simple(seed) && |seed| == n && hash(seed) in keys
    requires Complete(reps, keys, n, hash)
    ensures forall b :: Reachable(seed, b) ==> exists i :: 0 <= i < |reps| && Isomorphic(reps[i], b)
  {
    forall b | Reachable(seed, b)
      ensures exists i :: 0 <= i < |reps| && Isomorphic(reps[i], b)
    {
      var ms :| Reaches(seed, ms, b);
      KeysReach(reps, keys, n, hash, seed, ms, b);
      ReachesSimple(seed, ms, b);
      ReachesSize(seed, ms, b);
      var i :| 0 <= i < |reps| && hash(reps[i]) == hash(b);
      assert Isomorphic(reps[i], b);
    }
  }

  /** The successor sets of a list of stored graphs, with a table whose keys
      are their hashes and that holds every step from them, form a closed
      table. */
  lemma StoredClosed(graphs: seq<Graph>, reps: seq<Adj>, hashes: map<Digest, seq<Graph>>, n: nat,
                     hash: Adj -> Digest)
    requires Stored(graphs, reps, n) && ClosedList(graphs, hashes, n, hash)
    ensures ClosedTable(reps, hashes.Keys, n, hash)
  {
    forall h | h in hashes.Keys
      ensures exists i :: 0 <= i < |reps| && hash(reps[i]) == h
    {
      var i :| 0 <= i < |graphs| && hash(graphs[i].nodes) == h;
      assert hash(reps[i]) == h;
    }
  }

  /** The same for the list and table get_all_inclass_graphs returns: under
      an invariant, separating hash every graph reachable from the seed is
      isomorphic to a listed one. */
  lemma InclassComplete(seed: Graph, graphs: seq<Graph>, hashes: map<Digest, seq<Graph>>, n: nat,
                        hash: Adj -> Digest)
    requires |graphs| > 0 && graphs[0] == seed
    requires forall i :: 0 <= i < |graphs| ==> graphs[i].Valid() && |graphs[i].nodes| == n
    requires forall i :: 0 <= i < |graphs| ==> hash(graphs[i].nodes) in hashes
    requires ClosedList(graphs, hashes, n, hash)
    requires Invariant(hash) && Separating(hash, n)
    ensures forall b :: Reachable(seed.nodes, b) ==> exists i :: 0 <= i < |graphs| && Isomorphic(graphs[i].nodes, b)
  {
    var reps := seq(|graphs|, i requires 0 <= i < |graphs| reads graphs => graphs[i].nodes);
    StoredClosed(graphs, reps, hashes, n, hash);
    ClassComplete(seed.nodes, reps, hashes.Keys, n, hash);
  }

  // ------------------------------------------- the hash assumptions can hold

  /** The edge count, as a digest. */
  ghost function CountHash(a: Adj): Digest
  {
    if EdgeCount(a) < DIGEST_SPACE then EdgeCount(a) else 0
  }

  /** The simple graphs on two vertices: no edge, 0→1, or 1→0. */
  lemma TwoVertexGraphs(x: Adj)
    requires Simple(x) && |x| == 2
    ensures x == [{}, {}] || x == [{1}, {}] || x == [{}, {0}]
  {
    assert forall y :: y in x[0] ==> y == 1;
    assert forall y :: y in x[1] ==> y == 0;
    var s0: set<int> := if 1 in x[0] then {1} else {};
    var s1: set<int> := if 0 in x[1] then {0} else {};
    assert x[0] == s0 by { assert forall y :: y in x[0] <==> y in s0; }
    assert x[1] == s1 by { assert forall y :: y in x[1] <==> y in s1; }
    assert x == [s0, s1];
  }

  /** Their edge counts. */
  lemma TwoVertexCounts()
    ensures EdgeCount([{}, {}]) == 0
    ensures EdgeCount([{1}, {}]) == 1 && EdgeCount([{}, {0}]) == 1
  {
    var e, f, g: Adj := [{}, {}], [{1}, {}], [{}, {0}];
    EdgesAt(e);
    EdgesAt(f);
    EdgesAt(g);
    assert Edges(e) == {} by { assert forall d :: d !in Edges(e); }
    assert Edges(f) == {(0, 1)} by { assert forall d :: d in Edges(f) <==> d == (0, 1); }
    assert Edges(g) == {(1, 0)} by { assert forall d :: d in Edges(g) <==> d == (1, 0); }
  }

  /** Swapping the two vertices maps 0→1 onto 1→0. */
  lemma TwoVertexSwap()
    ensures Isomorphic([{1}, {}], [{}, {0}])
  {
    var a, b: Adj := [{1}, {}], [{}, {0}];
    var p := [1, 0];
    assert IsPerm(p, 2) by { assert 0 == p[1] && 1 == p[0]; }
    PermuteUnique(a, p, b);
  }

  /** The hash assumptions of InclassComplete are not vacuous: on two
      vertices the edge count is an invariant, separating hash. */
  lemma CountHashTwoVertices()
    ensures Invariant(CountHash) && Separating(CountHash, 2)
  {
    forall x, y | Isomorphic(x, y)
      ensures CountHash(x) == CountHash(y)
    {
      IsomorphicEdgeCount(x, y);
    }
    forall x, y | Simple(x) && Simple(y) && |x| == 2 && |y| == 2 && CountHash(x) == CountHash(y)
      ensures Isomorphic(x, y)
    {
      TwoVertexGraphs(x);
      TwoVertexGraphs(y);
      TwoVertexCounts();
      TwoVertexSwap();
      if x == y {
        IsomorphicReflexive(x);
      } else if x == [{}, {0}] {
        IsomorphicSymmetric([{1}, {}], [{}, {0}]);
      }
    }
  }
}
