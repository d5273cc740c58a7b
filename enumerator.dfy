/**
 * gen: every assignment of a state (absent, i→j, j→i) to the pairs i < j,
 * each built into a graph by add_edge and kept when no kept graph in its hash
 * bucket is isomorphic to it.
 */
module Enumerator {
  import opened Digraph
  import opened GraphStore
  import opened Permutations
  import opened Isomorphism
  import opened Pairs

  /** 3 to the power m. */
  function Pow3(m: nat): (r: nat)
    ensures r >= 1
  {
    if m == 0 then 1 else 3 * Pow3(m - 1)
  }

  /** d prepended to each tuple of cs. */
  function Prefix(d: int, cs: seq<seq<int>>): (r: seq<seq<int>>)
    ensures |r| == |cs| && forall k :: 0 <= k < |cs| ==> r[k] == [d] + cs[k]
  {
    seq(|cs|, k requires 0 <= k < |cs| => [d] + cs[k])
  }

  /** A tuple of m states, each 0, 1 or 2. */
  predicate IsCombo(c: seq<int>, m: nat)
  {
    |c| == m && forall k :: 0 <= k < m ==> 0 <= c[k] <= 2
  }

  /** Prepending a state to tuples of m - 1 states gives tuples of m states. */
  lemma PrefixCombos(d: int, cs: seq<seq<int>>, m: nat)
    requires 0 <= d <= 2 && m > 0
    requires forall c :: c in cs ==> IsCombo(c, m - 1)
    ensures forall c :: c in Prefix(d, cs) ==> IsCombo(c, m)
  {
    forall c | c in Prefix(d, cs)
      ensures IsCombo(c, m)
    {
      var k :| 0 <= k < |cs| && Prefix(d, cs)[k] == c;
      assert cs[k] in cs;
      assert forall t :: 0 < t < m ==> c[t] == cs[k][t - 1];
    }
  }

  /** itertools.product([0, 1, 2], repeat=m), in its lexicographic order:
      3^m tuples, each of m states. */
  function Product3(m: nat): (r: seq<seq<int>>)
    ensures |r| == Pow3(m)
  {
    if m == 0 then [[]]
    else
      var rest := Product3(m - 1);
      Prefix(0, rest) + Prefix(1, rest) + Prefix(2, rest)
  }

  /** Each enumerated tuple has m states, each 0, 1 or 2. */
  lemma {:induction false} Product3Sound(m: nat)
    ensures forall c :: c in Product3(m) ==> IsCombo(c, m)
  {
    if m > 0 {
      var rest := Product3(m - 1);
      Product3Sound(m - 1);
      PrefixCombos(0, rest, m);
      PrefixCombos(1, rest, m);
      PrefixCombos(2, rest, m);
    }
  }

  /** A tuple of m states, each 0, 1 or 2, is one state followed by a tuple of m - 1. */
  lemma ComboTail(c: seq<int>, m: nat)
    requires IsCombo(c, m) && m > 0
    ensures IsCombo(c[1..], m - 1) && 0 <= c[0] <= 2 && c == [c[0]] + c[1..]
  {
    forall k | 0 <= k < m - 1
      ensures 0 <= c[1..][k] <= 2
    {
      assert c[1..][k] == c[k + 1];
    }
  }

  /** The t-th element of block d of three blocks of equal length. */
  lemma PickBlock(p0: seq<seq<int>>, p1: seq<seq<int>>, p2: seq<seq<int>>, d: int, t: nat) returns (i: nat)
    requires |p0| == |p1| == |p2| && t < |p0| && 0 <= d <= 2
    ensures i < |p0 + p1 + p2|
    ensures d == 0 ==> (p0 + p1 + p2)[i] == p0[t]
    ensures d == 1 ==> (p0 + p1 + p2)[i] == p1[t]
    ensures d == 2 ==> (p0 + p1 + p2)[i] == p2[t]
  {
    i := if d == 0 then t else if d == 1 then |p0| + t else 2 * |p0| + t;
  }

  /** Prepending a state d to an enumerated tuple of m - 1 states gives an
      enumerated tuple of m states, in block d. */
  lemma Product3At(m: nat, d: int, t: nat) returns (i: nat)
    requires m > 0 && 0 <= d <= 2 && t < |Product3(m - 1)|
    ensures i < |Product3(m)| && Product3(m)[i] == [d] + Product3(m - 1)[t]
  {
    var rest := Product3(m - 1);
    var p0, p1, p2 := Prefix(0, rest), Prefix(1, rest), Prefix(2, rest);
    i := PickBlock(p0, p1, p2, d, t);
    assert Product3(m) == p0 + p1 + p2;
    var block := Prefix(d, rest);
    assert Product3(m)[i] == block[t] by {
      if d == 0 { assert block == p0; } else if d == 1 { assert block == p1; } else { assert block == p2; }
    }
  }

  /** Every tuple of m states is enumerated, at position t. */
  lemma {:induction false} Product3Complete(c: seq<int>, m: nat) returns (t: nat)
    requires IsCombo(c, m)
    ensures t < |Product3(m)| && Product3(m)[t] == c
    decreases m
  {
    if m == 0 {
      t := 0;
    } else {
      ComboTail(c, m);
      var t' := Product3Complete(c[1..], m - 1);
      t := Product3At(m, c[0], t');
    }
  }

  /** b is the graph that combo describes over edges: the pair edges[k] is
      absent, edges[k].0→edges[k].1 or edges[k].1→edges[k].0 as combo[k] is
      0, 1 or 2. */
  ghost predicate Encodes(b: Adj, edges: seq<(int, int)>, combo: seq<int>)
  {
    && |combo| == |edges|
    && forall k :: 0 <= k < |combo| ==>
         && (Edge(b, edges[k].0, edges[k].1) <==> combo[k] == 1)
         && (Edge(b, edges[k].1, edges[k].0) <==> combo[k] == 2)
  }

  /** Number of states of c that are 1 or 2. */
  function Arrows(c: seq<int>): (r: nat)
    ensures r <= |c|
  {
    if c == [] then 0 else Arrows(c[..|c| - 1]) + (if c[|c| - 1] == 1 || c[|c| - 1] == 2 then 1 else 0)
  }

  /** A simple graph on n vertices is determined by the states of its pairs. */
  lemma EncodesUnique(n: nat, b1: Adj, b2: Adj, combo: seq<int>)
    requires Simple(b1) && Simple(b2) && |b1| == n && |b2| == n
    requires Encodes(b1, PairList(n), combo) && Encodes(b2, PairList(n), combo)
    ensures b1 == b2
  {
    var edges := PairList(n);
    forall x, y | 0 <= x < n && 0 <= y < n
      ensures Edge(b1, x, y) <==> Edge(b2, x, y)
    {
      if x < y {
        PairListComplete(n, x, y);
        var k :| 0 <= k < |edges| && edges[k] == (x, y);
      } else if y < x {
        PairListComplete(n, y, x);
        var k :| 0 <= k < |edges| && edges[k] == (y, x);
      }
    }
    AdjExt(b1, b2);
  }

  /** Every simple graph on n vertices is described by one of the enumerated
      tuples. */
  lemma EveryGraphEncoded(n: nat, b: Adj) returns (t: nat)
    requires Simple(b) && |b| == n
    ensures t < |Product3(n * (n - 1) / 2)| && Encodes(b, PairList(n), Product3(n * (n - 1) / 2)[t])
  {
    var edges := PairList(n);
    var c := seq(|edges|, k requires 0 <= k < |edges| =>
                 if Edge(b, edges[k].0, edges[k].1) then 1
                 else if Edge(b, edges[k].1, edges[k].0) then 2
                 else 0);
    t := Product3Complete(c, |edges|);
    assert Encodes(b, edges, c);
  }

  /** After the first k pairs of combo: those pairs in their states, the
      rest absent. */
  ghost predicate BuiltUpTo(b: Adj, edges: seq<(int, int)>, combo: seq<int>, k: int)
    requires 0 <= k <= |combo| == |edges|
  {
    && (forall t :: 0 <= t < k ==>
          && (Edge(b, edges[t].0, edges[t].1) <==> combo[t] == 1)
          && (Edge(b, edges[t].1, edges[t].0) <==> combo[t] == 2))
    && (forall t :: k <= t < |edges| ==>
          !Edge(b, edges[t].0, edges[t].1) && !Edge(b, edges[t].1, edges[t].0))
  }

  /** One pair of the combination: add_edge on an absent pair creates the
      arrow the state asks for and touches no other listed pair. */
  lemma BuildStep(n: nat, edges: seq<(int, int)>, combo: seq<int>, k: int, b: Adj)
    requires edges == PairList(n) && |combo| == |edges| && 0 <= k < |combo| && |b| == n
    requires BuiltUpTo(b, edges, combo, k)
    ensures BuiltUpTo(if combo[k] == 1 then Toggle(b, edges[k].0, edges[k].1)
                      else if combo[k] == 2 then Toggle(b, edges[k].1, edges[k].0)
                      else b, edges, combo, k + 1)
  {
    var (i, j) := edges[k];
    var r := if combo[k] == 1 then Toggle(b, i, j) else if combo[k] == 2 then Toggle(b, j, i) else b;
    forall t | 0 <= t < |edges|
      ensures Edge(r, edges[t].0, edges[t].1) == (if t == k then combo[k] == 1 else Edge(b, edges[t].0, edges[t].1))
      ensures Edge(r, edges[t].1, edges[t].0) == (if t == k then combo[k] == 2 else Edge(b, edges[t].1, edges[t].0))
    {
      var (x, y) := edges[t];
      if combo[k] == 1 {
        assert Edge(r, x, y) == AfterToggle(b, i, j, x, y);
        assert Edge(r, y, x) == AfterToggle(b, i, j, y, x);
      } else if combo[k] == 2 {
        assert Edge(r, x, y) == AfterToggle(b, j, i, x, y);
        assert Edge(r, y, x) == AfterToggle(b, j, i, y, x);
      }
    }
  }

  /** One more state of the tuple adds one arrow unless it is 0. */
  lemma ArrowsNext(combo: seq<int>, k: int)
    requires 0 <= k < |combo|
    ensures Arrows(combo[..k + 1]) == Arrows(combo[..k]) + (if combo[k] == 1 || combo[k] == 2 then 1 else 0)
  {
    assert combo[..k + 1][..k] == combo[..k];
  }

  /** The loop body of gen that builds one graph: add_edge(i, j) where the
      state is 1 and add_edge(j, i) where it is 2, for the pairs in order. */
  method BuildGraph(n: nat, edges: seq<(int, int)>, combo: seq<int>) returns (g: Graph)
    requires edges == PairList(n) && |combo| == |edges|
    ensures fresh(g) && g.Valid() && |g.nodes| == n
    ensures Encodes(g.nodes, edges, combo)
    ensures g.edgeCount == Arrows(combo)
  {
    g := new Graph(n);
    for k := 0 to |combo|
      invariant fresh(g) && g.Valid() && |g.nodes| == n
      invariant BuiltUpTo(g.nodes, edges, combo, k)
      invariant g.edgeCount == Arrows(combo[..k])
    {
      var (i, j) := edges[k];
      BuildStep(n, edges, combo, k, g.nodes);
      ArrowsNext(combo, k);
      assert !Edge(g.nodes, i, j) && !Edge(g.nodes, j, i);
      if combo[k] == 1 {
        g.AddEdge(i, j);
      } else if combo[k] == 2 {
        g.AddEdge(j, i);
      }
    }
    assert combo[..|combo|] == combo;
  }

  /** Where g stands in gs. */
  lemma Position(gs: seq<Graph>, g: Graph) returns (i: int)
    requires g in gs
    ensures 0 <= i < |gs| && gs[i] == g
  {
    i :| 0 <= i < |gs| && gs[i] == g;
  }

  /** The for-else scan of gen over one hash bucket: whether some graph of
      the bucket is isomorphic to graph. */
  method AnyIsomorphic(bucket: seq<Graph>, graph: Graph) returns (found: bool)
    requires graph.Valid() && forall t :: 0 <= t < |bucket| ==> bucket[t].Valid()
    ensures found <==> exists t :: 0 <= t < |bucket| && Isomorphic(bucket[t].nodes, graph.nodes)
  {
    for t := 0 to |bucket|
      invariant forall s :: 0 <= s < t ==> !Isomorphic(bucket[s].nodes, graph.nodes)
    {
      var iso := AreIsomorphic(bucket[t], graph);
      if iso {
        return true;
      }
    }
    return false;
  }

  /** Every simple graph on n vertices described by one of the first c
      tuples is isomorphic to a kept graph. */
  ghost predicate Covered(reps: seq<Adj>, n: nat, edges: seq<(int, int)>, combos: seq<seq<int>>, c: int)
  {
    forall t, b :: 0 <= t < c && t < |combos| && Simple(b) && |b| == n && Encodes(b, edges, combos[t]) ==>
      exists i :: 0 <= i < |reps| && Isomorphic(reps[i], b)
  }

  /** Kept graphs with the same hash are not isomorphic. */
  ghost predicate Apart(reps: seq<Adj>, hash: Adj -> Digest)
  {
    forall i, j :: 0 <= i < j < |reps| && hash(reps[i]) == hash(reps[j]) ==> !Isomorphic(reps[i], reps[j])
  }

  /** One more tuple is covered: its graph g is kept, or was isomorphic to a
      kept graph. */
  lemma CoverStep(reps: seq<Adj>, reps': seq<Adj>, n: nat, edges: seq<(int, int)>, combos: seq<seq<int>>, c: int, g: Adj)
    requires edges == PairList(n) && 0 <= c < |combos|
    requires Simple(g) && |g| == n && Encodes(g, edges, combos[c])
    requires Covered(reps, n, edges, combos, c)
    requires reps' == reps + [g] || (reps' == reps && exists i :: 0 <= i < |reps| && Isomorphic(reps[i], g))
    ensures Covered(reps', n, edges, combos, c + 1)
  {
    forall t, b | 0 <= t < c + 1 && t < |combos| && Simple(b) && |b| == n && Encodes(b, edges, combos[t])
      ensures exists i :: 0 <= i < |reps'| && Isomorphic(reps'[i], b)
    {
      if t < c {
        var i :| 0 <= i < |reps| && Isomorphic(reps[i], b);
        assert reps'[i] == reps[i];
      } else {
        EncodesUnique(n, g, b, combos[c]);
        if reps' == reps + [g] {
          IsomorphicReflexive(b);
          assert reps'[|reps|] == b;
        } else {
          var i :| 0 <= i < |reps| && Isomorphic(reps[i], g);
        }
      }
    }
  }

  /** A graph isomorphic to no kept graph with its hash may be kept. */
  lemma ApartStep(reps: seq<Adj>, hash: Adj -> Digest, g: Adj)
    requires Apart(reps, hash)
    requires forall i :: 0 <= i < |reps| && hash(reps[i]) == hash(g) ==> !Isomorphic(reps[i], g)
    ensures Apart(reps + [g], hash)
  {
    var r := reps + [g];
    forall i, j | 0 <= i < j < |r| && hash(r[i]) == hash(r[j])
      ensures !Isomorphic(r[i], r[j])
    {
      assert r[i] == reps[i];
      if j < |reps| {
        assert r[j] == reps[j];
      }
    }
  }

  /** The hash buckets index the kept graphs: every bucket member is a kept
      graph with the bucket's hash, and every kept graph is in the bucket of
      its hash. */
  ghost predicate Indexed(graphs: seq<Graph>, buckets: map<Digest, seq<Graph>>, reps: seq<Adj>, hash: Adj -> Digest)
  {
    && |reps| == |graphs|
    && (forall h, g :: h in buckets && g in buckets[h] ==>
          exists i :: 0 <= i < |graphs| && graphs[i] == g && hash(reps[i]) == h)
    && (forall i :: 0 <= i < |graphs| ==> hash(reps[i]) in buckets && graphs[i] in buckets[hash(reps[i])])
  }

  /** Keeping one more graph and appending it to the bucket of its hash keeps
      the buckets an index of the kept graphs. */
  lemma IndexedAdd(graphs: seq<Graph>, buckets: map<Digest, seq<Graph>>, reps: seq<Adj>, hash: Adj -> Digest,
                   graph: Graph, g: Adj, bucket: seq<Graph>)
    requires Indexed(graphs, buckets, reps, hash)
    requires hash(g) in buckets ==> bucket == buckets[hash(g)]
    requires hash(g) !in buckets ==> bucket == []
    ensures Indexed(graphs + [graph], buckets[hash(g) := bucket + [graph]], reps + [g], hash)
  {
    var graphs', buckets', reps' := graphs + [graph], buckets[hash(g) := bucket + [graph]], reps + [g];
    forall h, x | h in buckets' && x in buckets'[h]
      ensures exists i :: 0 <= i < |graphs'| && graphs'[i] == x && hash(reps'[i]) == h
    {
      if h == hash(g) && x == graph {
        assert graphs'[|graphs|] == x && reps'[|graphs|] == g;
      } else {
        assert x in buckets[h] by {
          if h == hash(g) { assert x in bucket; }
        }
        var i :| 0 <= i < |graphs| && graphs[i] == x && hash(reps[i]) == h;
        assert graphs'[i] == x && reps'[i] == reps[i];
      }
    }
    forall i | 0 <= i < |graphs'|
      ensures hash(reps'[i]) in buckets' && graphs'[i] in buckets'[hash(reps'[i])]
    {
      if i < |graphs| {
        assert graphs'[i] == graphs[i] && reps'[i] == reps[i];
        if hash(reps[i]) == hash(g) {
          assert graphs[i] in bucket;
        }
      }
    }
  }

  /** gen drops a built graph exactly when the list is not empty, its hash
      is a key, and a kept graph with that hash is isomorphic to it. */
  ghost predicate Dropped(graphs: seq<Graph>, graphHashes: map<Digest, seq<Graph>>, g: Adj,
                          hash: Adj -> Digest, reps: seq<Adj>)
  {
    && graphs != [] && hash(g) in graphHashes
    && exists i :: 0 <= i < |reps| && hash(reps[i]) == hash(g) && Isomorphic(reps[i], g)
  }

  /** The classification step of gen for one built graph: kept (appended to
      graphs and to the bucket of its hash, a new bucket when the hash is
      unseen) unless it is dropped; a dropped graph changes nothing. */
  method Admit(graphs: seq<Graph>, graphHashes: map<Digest, seq<Graph>>, graph: Graph, hash: Adj -> Digest,
               ghost reps: seq<Adj>, ghost n: nat)
    returns (graphs': seq<Graph>, graphHashes': map<Digest, seq<Graph>>)
    requires graph.Valid() && |graph.nodes| == n
    requires Stored(graphs, reps, n)
    requires Indexed(graphs, graphHashes, reps, hash) && Apart(reps, hash)
    requires graphs == [] ==> graphHashes == map[]
    ensures graphs' != []
    ensures Dropped(graphs, graphHashes, graph.nodes, hash, reps) ==>
              graphs' == graphs && graphHashes' == graphHashes
    ensures !Dropped(graphs, graphHashes, graph.nodes, hash, reps) ==>
              && graphs' == graphs + [graph]
              && graphHashes' == graphHashes[hash(graph.nodes) :=
                   (if hash(graph.nodes) in graphHashes then graphHashes[hash(graph.nodes)] else []) + [graph]]
              && Stored(graphs', reps + [graph.nodes], n)
              && Indexed(graphs', graphHashes', reps + [graph.nodes], hash)
              && Apart(reps + [graph.nodes], hash)
  {
    var graphH := hash(graph.nodes);
    if graphs != [] {
      if graphH !in graphHashes {
        ApartStep(reps, hash, graph.nodes);
        IndexedAdd(graphs, graphHashes, reps, hash, graph, graph.nodes, []);
        assert [] + [graph] == [graph];
        graphs' := graphs + [graph];
        graphHashes' := graphHashes[graphH := [graph]];
      } else {
        var bucket := graphHashes[graphH];
        forall t | 0 <= t < |bucket|
          ensures bucket[t].Valid()
        {
          assert bucket[t] in bucket;
          ghost var i :| 0 <= i < |graphs| && graphs[i] == bucket[t] && hash(reps[i]) == graphH;
        }
        var found := AnyIsomorphic(bucket, graph);
        if found {
          ghost var t :| 0 <= t < |bucket| && Isomorphic(bucket[t].nodes, graph.nodes);
          assert bucket[t] in bucket;
          ghost var i :| 0 <= i < |graphs| && graphs[i] == bucket[t] && hash(reps[i]) == graphH;
          assert Isomorphic(reps[i], graph.nodes);
          graphs', graphHashes' := graphs, graphHashes;
        } else {
          forall i | 0 <= i < |reps| && hash(reps[i]) == graphH
            ensures !Isomorphic(reps[i], graph.nodes)
          {
            ghost var t := Position(bucket, graphs[i]);
          }
          ApartStep(reps, hash, graph.nodes);
          IndexedAdd(graphs, graphHashes, reps, hash, graph, graph.nodes, bucket);
          graphs' := graphs + [graph];
          graphHashes' := graphHashes[graphH := bucket + [graph]];
        }
      }
    } else {
      ApartStep(reps, hash, graph.nodes);
      IndexedAdd(graphs, graphHashes, reps, hash, graph, graph.nodes, []);
      assert [] + [graph] == [graph];
      graphs' := graphs + [graph];
      graphHashes' := graphHashes[graphH := [graph]];
    }
  }

  /** One iteration of the loop of gen: the graph of tuple c is built and
      offered to the kept list. */
  method Sift1(n: nat, hash: Adj -> Digest, edges: seq<(int, int)>, combos: seq<seq<int>>, c: int,
               graphs: seq<Graph>, graphHashes: map<Digest, seq<Graph>>, ghost reps: seq<Adj>)
    returns (graphs': seq<Graph>, graphHashes': map<Digest, seq<Graph>>, ghost reps': seq<Adj>)
    requires edges == PairList(n) && forall c :: c in combos ==> IsCombo(c, |edges|)
    requires 0 <= c < |combos|
    requires Stored(graphs, reps, n) && Indexed(graphs, graphHashes, reps, hash)
    requires graphs == [] ==> graphHashes == map[]
    requires Apart(reps, hash) && Covered(reps, n, edges, combos, c)
    ensures Stored(graphs', reps', n) && Indexed(graphs', graphHashes', reps', hash)
    ensures graphs' == [] ==> graphHashes' == map[]
    ensures Apart(reps', hash) && Covered(reps', n, edges, combos, c + 1)
  {
    assert combos[c] in combos;
    var graph := BuildGraph(n, edges, combos[c]);
    graphs', graphHashes' := Admit(graphs, graphHashes, graph, hash, reps, n);
    reps' := if |graphs'| != |reps| then reps + [graph.nodes] else reps;
    CoverStep(reps, reps', n, edges, combos, c, graph.nodes);
  }

  /** The loop of gen over the tuples of combos: builds each graph and
      admits it, keeping one graph per class met so far. */
  method Sift(n: nat, hash: Adj -> Digest, edges: seq<(int, int)>, combos: seq<seq<int>>)
    returns (graphs: seq<Graph>, ghost reps: seq<Adj>)
    requires edges == PairList(n) && forall c :: c in combos ==> IsCombo(c, |edges|)
    ensures Stored(graphs, reps, n) && Apart(reps, hash)
    ensures Covered(reps, n, edges, combos, |combos|)
  {
    graphs := [];
    var graphHashes: map<Digest, seq<Graph>> := map[];
    reps := [];
    for c := 0 to |combos|
      invariant Stored(graphs, reps, n)
      invariant Indexed(graphs, graphHashes, reps, hash)
      invariant graphs == [] ==> graphHashes == map[]
      invariant Apart(reps, hash)
      invariant Covered(reps, n, edges, combos, c)
    {
      graphs, graphHashes, reps := Sift1(n, hash, edges, combos, c, graphs, graphHashes, reps);
    }
  }

  /** gen(n): one kept graph per isomorphism class of the simple graphs on n
      vertices, tried in the enumeration order. No two kept graphs with the
      same hash are isomorphic, and every simple graph on n vertices is
      isomorphic to a kept one. */
  method Gen(n: nat, hash: Adj -> Digest) returns (graphs: seq<Graph>)
    ensures forall i :: 0 <= i < |graphs| ==> graphs[i].Valid() && |graphs[i].nodes| == n
    ensures forall i, j :: 0 <= i < j < |graphs| && hash(graphs[i].nodes) == hash(graphs[j].nodes) ==>
              !Isomorphic(graphs[i].nodes, graphs[j].nodes)
    ensures forall b :: Simple(b) && |b| == n ==>
              exists i :: 0 <= i < |graphs| && Isomorphic(graphs[i].nodes, b)
  {
    var combos := Product3(n * (n - 1) / 2);
    var edges := PairList(n);
    Product3Sound(|edges|);
    ghost var reps;
    graphs, reps := Sift(n, hash, edges, combos);
    assert forall i :: 0 <= i < |graphs| ==> graphs[i].nodes == reps[i];
    CoveredAll(reps, n, edges, combos);
  }

  /** Once every tuple has been tried, every simple graph on n vertices is
      isomorphic to a kept one. */
  lemma CoveredAll(reps: seq<Adj>, n: nat, edges: seq<(int, int)>, combos: seq<seq<int>>)
    requires edges == PairList(n) && combos == Product3(|edges|)
    requires Covered(reps, n, edges, combos, |combos|)
    ensures forall b :: Simple(b) && |b| == n ==> exists i :: 0 <= i < |reps| && Isomorphic(reps[i], b)
  {
    forall b | Simple(b) && |b| == n
      ensures exists i :: 0 <= i < |reps| && Isomorphic(reps[i], b)
    {
      var t := EveryGraphEncoded(n, b);
      assert Encodes(b, edges, combos[t]);
    }
  }

  /** When the hash is the same for isomorphic graphs, as a graph invariant
      is, no two kept graphs are isomorphic at all. */
  lemma KeptPairwiseNonIsomorphic(reps: seq<Adj>, hash: Adj -> Digest)
    requires forall i :: 0 <= i < |reps| ==> Simple(reps[i])
    requires forall a, b :: InRange(a) && Isomorphic(a, b) ==> hash(a) == hash(b)
    requires forall i, j :: 0 <= i < j < |reps| && hash(reps[i]) == hash(reps[j]) ==> !Isomorphic(reps[i], reps[j])
    ensures forall i, j :: 0 <= i < |reps| && 0 <= j < |reps| && i != j ==> !Isomorphic(reps[i], reps[j])
  {
    forall i, j | 0 <= i < |reps| && 0 <= j < |reps| && i != j
      ensures !Isomorphic(reps[i], reps[j])
    {
      if Isomorphic(reps[i], reps[j]) {
        if j < i {
          IsomorphicSymmetric(reps[i], reps[j]);
        }
        assert false;
      }
    }
  }
}
