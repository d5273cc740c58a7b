/**
 * The fusion class of a seed graph: every graph reachable from it by
 * transform1 over ordered pairs of distinct vertices and transform2 over
 * vertices, explored breadth first and deduplicated by hash alone.
 */
module Closure {
  import opened Digraph
  import opened GraphStore
  import opened Rewrite
  import opened Pairs

  /** One rewrite step: transform1(g, u, v) or transform2(g, w). */
  datatype Move = Redirect(u: int, v: int) | Reverse(w: int)

  /** The step is one the explorer tries on a graph with n vertices. */
  ghost predicate Fits(m: Move, n: int)
  {
    match m
    case Redirect(u, v) => 0 <= u < n && 0 <= v < n && u != v
    case Reverse(w) => 0 <= w < n
  }

  /** The successor sets after the step. */
  ghost function Apply(a: Adj, m: Move): (r: Adj)
    requires Fits(m, |a|)
    ensures |r| == |a|
  {
    match m
    case Redirect(u, v) => Transform1Adj(a, u, v)
    case Reverse(w) => Transform2Adj(a, w)
  }

  /** Applying the steps ms in turn leads from a to b. */
  ghost predicate Reaches(a: Adj, ms: seq<Move>, b: Adj)
    decreases |ms|
  {
    if ms == [] then a == b
    else Fits(ms[0], |a|) && Reaches(Apply(a, ms[0]), ms[1..], b)
  }

  /** Some sequence of steps leads from a to b. */
  ghost predicate Reachable(a: Adj, b: Adj)
  {
    exists ms :: Reaches(a, ms, b)
  }

  /** Steps keep the vertex count. */
  lemma {:induction false} ReachesSize(a: Adj, ms: seq<Move>, b: Adj)
    requires Reaches(a, ms, b)
    ensures |b| == |a|
    decreases |ms|
  {
    if ms != [] {
      ReachesSize(Apply(a, ms[0]), ms[1..], b);
    }
  }

  /** A trace extended by one more step. */
  lemma {:induction false} ReachesSnoc(a: Adj, ms: seq<Move>, b: Adj, m: Move)
    requires Reaches(a, ms, b) && Fits(m, |b|)
    ensures Reaches(a, ms + [m], Apply(b, m))
    decreases |ms|
  {
    if ms == [] {
      assert ([] + [m])[1..] == [];
    } else {
      ReachesSnoc(Apply(a, ms[0]), ms[1..], b, m);
      assert (ms + [m])[1..] == ms[1..] + [m];
    }
  }

  /** Every graph reaches itself. */
  lemma ReachableRefl(a: Adj)
    ensures Reachable(a, a)
  {
    assert Reaches(a, [], a);
  }

  /** Reachability is closed under one more step. */
  lemma ReachableStep(a: Adj, b: Adj, m: Move)
    requires Reachable(a, b) && Fits(m, |b|)
    ensures Reachable(a, Apply(b, m))
  {
    var ms :| Reaches(a, ms, b);
    ReachesSnoc(a, ms, b, m);
  }

  /** Both rewrites keep a graph simple. */
  lemma ApplySimple(a: Adj, m: Move)
    requires Simple(a) && Fits(m, |a|)
    ensures Simple(Apply(a, m))
  {
    match m {
      case Redirect(u, v) => Transform1Pairs(a, u, v);
      case Reverse(w) => Transform2Reverses(a, w);
    }
  }

  /** So everything reachable from a simple graph is simple. */
  lemma {:induction false} ReachesSimple(a: Adj, ms: seq<Move>, b: Adj)
    requires Simple(a) && Reaches(a, ms, b)
    ensures Simple(b)
    decreases |ms|
  {
    if ms != [] {
      ApplySimple(a, ms[0]);
      ReachesSimple(Apply(a, ms[0]), ms[1..], b);
    }
  }

  /** Every listed graph is reachable from seed. */
  ghost predicate FromSeed(seed: Adj, reps: seq<Adj>)
  {
    forall i :: 0 <= i < |reps| ==> Reachable(seed, reps[i])
  }

  lemma FromSeedAdd(seed: Adj, reps: seq<Adj>, a: Adj)
    requires FromSeed(seed, reps) && Reachable(seed, a)
    ensures FromSeed(seed, reps + [a])
  {
    forall i | 0 <= i < |reps| + 1
      ensures Reachable(seed, (reps + [a])[i])
    {
      if i < |reps| {
        assert (reps + [a])[i] == reps[i];
      }
    }
  }

  /** The hash table of the explorer: one key per listed graph, each bucket
      holding exactly that graph, and no key shared. */
  ghost predicate Keyed(hashes: map<Digest, seq<Graph>>, graphs: seq<Graph>, reps: seq<Adj>, hash: Adj -> Digest)
  {
    && |reps| == |graphs| == |hashes|
    && (forall i :: 0 <= i < |reps| ==> hash(reps[i]) in hashes && hashes[hash(reps[i])] == [graphs[i]])
    && (forall h :: h in hashes ==> exists i :: 0 <= i < |reps| && hash(reps[i]) == h)
    && (forall i, j :: 0 <= i < j < |reps| ==> hash(reps[i]) != hash(reps[j]))
  }

  /** Every step from the first k listed graphs leads to a hash already in the
      table. */
  ghost predicate ClosedBelow(reps: seq<Adj>, k: int, hashes: map<Digest, seq<Graph>>, n: nat, hash: Adj -> Digest)
  {
    forall i, m :: 0 <= i < k && i < |reps| && |reps[i]| == n && Fits(m, n) ==> hash(Apply(reps[i], m)) in hashes
  }

  /** The table grew by at most newly appended graphs: everything listed
      before stays, at the same place. */
  ghost predicate Grown(graphs: seq<Graph>, reps: seq<Adj>, hashes: map<Digest, seq<Graph>>,
                        graphs': seq<Graph>, reps': seq<Adj>, hashes': map<Digest, seq<Graph>>)
  {
    && |graphs| <= |graphs'| && graphs'[..|graphs|] == graphs
    && |reps| <= |reps'| && reps'[..|reps|] == reps
    && hashes.Keys <= hashes'.Keys
  }

  /** A graph whose hash is not yet a key, appended with its own bucket:
      every listed graph still sits alone in the bucket of its hash. */
  lemma KeyedAddBuckets(hashes: map<Digest, seq<Graph>>, graphs: seq<Graph>, reps: seq<Adj>, hash: Adj -> Digest,
                        g: Graph, a: Adj, hashes': map<Digest, seq<Graph>>, graphs': seq<Graph>, reps': seq<Adj>)
    requires Keyed(hashes, graphs, reps, hash) && hash(a) !in hashes
    requires hashes' == hashes[hash(a) := [g]] && graphs' == graphs + [g] && reps' == reps + [a]
    ensures forall i :: 0 <= i < |reps'| ==> hash(reps'[i]) in hashes' && hashes'[hash(reps'[i])] == [graphs'[i]]
  {
    forall i | 0 <= i < |reps'|
      ensures hash(reps'[i]) in hashes' && hashes'[hash(reps'[i])] == [graphs'[i]]
    {
      if i < |reps| {
        assert reps'[i] == reps[i] && graphs'[i] == graphs[i];
      }
    }
  }

  /** After the same append every key is still the hash of a listed graph. */
  lemma KeyedAddKeys(hashes: map<Digest, seq<Graph>>, reps: seq<Adj>, hash: Adj -> Digest,
                     g: Graph, a: Adj, hashes': map<Digest, seq<Graph>>, reps': seq<Adj>)
    requires forall h :: h in hashes ==> exists i :: 0 <= i < |reps| && hash(reps[i]) == h
    requires hashes' == hashes[hash(a) := [g]] && reps' == reps + [a]
    ensures forall h :: h in hashes' ==> exists i :: 0 <= i < |reps'| && hash(reps'[i]) == h
  {
    forall h | h in hashes'
      ensures exists i :: 0 <= i < |reps'| && hash(reps'[i]) == h
    {
      if h != hash(a) {
        var i :| 0 <= i < |reps| && hash(reps[i]) == h;
        assert reps'[i] == reps[i];
      } else {
        assert hash(reps'[|reps|]) == h;
      }
    }
  }

  /** After the same append no two listed graphs share a hash. */
  lemma KeyedAddDistinct(hashes: map<Digest, seq<Graph>>, graphs: seq<Graph>, reps: seq<Adj>, hash: Adj -> Digest,
                         a: Adj, reps': seq<Adj>)
    requires Keyed(hashes, graphs, reps, hash) && hash(a) !in hashes && reps' == reps + [a]
    ensures forall i, j :: 0 <= i < j < |reps'| ==> hash(reps'[i]) != hash(reps'[j])
  {
    forall i, j | 0 <= i < j < |reps'|
      ensures hash(reps'[i]) != hash(reps'[j])
    {
      assert reps'[i] == reps[i];
      if j < |reps| {
        assert reps'[j] == reps[j];
      }
    }
  }

  /** A graph whose hash is not yet a key, appended with its own bucket,
      keeps the table keyed. */
  lemma KeyedAdd(hashes: map<Digest, seq<Graph>>, graphs: seq<Graph>, reps: seq<Adj>, hash: Adj -> Digest,
                 g: Graph, a: Adj)
    requires Keyed(hashes, graphs, reps, hash) && hash(a) !in hashes
    ensures Keyed(hashes[hash(a) := [g]], graphs + [g], reps + [a], hash)
  {
    var hashes', graphs', reps' := hashes[hash(a) := [g]], graphs + [g], reps + [a];
    KeyedAddBuckets(hashes, graphs, reps, hash, g, a, hashes', graphs', reps');
    KeyedAddKeys(hashes, reps, hash, g, a, hashes', reps');
    KeyedAddDistinct(hashes, graphs, reps, hash, a, reps');
  }


  /** A graph appended to the list and to its end of the queue. */
  lemma StoredAdd(graphs: seq<Graph>, reps: seq<Adj>, queue: seq<Graph>, n: nat, g: Graph)
    requires Stored(graphs, reps, n) && g.Valid() && |g.nodes| == n
    requires |queue| <= |graphs| && queue == graphs[|graphs| - |queue|..]
    ensures Stored(graphs + [g], reps + [g.nodes], n)
    ensures queue + [g] == (graphs + [g])[|graphs + [g]| - |queue + [g]|..]
  {
    var graphs', reps' := graphs + [g], reps + [g.nodes];
    forall i | 0 <= i < |graphs'|
      ensures graphs'[i].Valid() && graphs'[i].nodes == reps'[i] && |reps'[i]| == n
    {
      if i < |graphs| {
        assert graphs'[i] == graphs[i] && reps'[i] == reps[i];
      }
    }
  }

  /** One candidate of get_all_inclass_graphs: appended to the queue, the
      table and the list exactly when its hash is not yet a key. */
  method Offer(graphs: seq<Graph>, hashes: map<Digest, seq<Graph>>, queue: seq<Graph>, candidate: Graph,
               hash: Adj -> Digest, ghost reps: seq<Adj>, ghost seed: Adj, ghost n: nat)
    returns (graphs': seq<Graph>, hashes': map<Digest, seq<Graph>>, queue': seq<Graph>, ghost reps': seq<Adj>)
    requires candidate.Valid() && |candidate.nodes| == n && Reachable(seed, candidate.nodes)
    requires Stored(graphs, reps, n) && Keyed(hashes, graphs, reps, hash)
    requires FromSeed(seed, reps)
    requires |queue| <= |graphs| && queue == graphs[|graphs| - |queue|..]
    ensures Stored(graphs', reps', n) && Keyed(hashes', graphs', reps', hash)
    ensures FromSeed(seed, reps')
    ensures |queue'| <= |graphs'| && queue' == graphs'[|graphs'| - |queue'|..]
    ensures Grown(graphs, reps, hashes, graphs', reps', hashes')
    ensures hash(candidate.nodes) in hashes'
    ensures hash(candidate.nodes) in hashes ==> graphs' == graphs && hashes' == hashes && queue' == queue
    ensures hash(candidate.nodes) !in hashes ==>
              graphs' == graphs + [candidate] && queue' == queue + [candidate] &&
              hashes' == hashes[hash(candidate.nodes) := [candidate]]
  {
    var h := hash(candidate.nodes);
    if h !in hashes {
      KeyedAdd(hashes, graphs, reps, hash, candidate, candidate.nodes);
      StoredAdd(graphs, reps, queue, n, candidate);
      FromSeedAdd(seed, reps, candidate.nodes);
      queue' := queue + [candidate];
      hashes' := hashes[h := [candidate]];
      graphs' := graphs + [candidate];
      reps' := reps + [candidate.nodes];
      assert graphs'[..|graphs|] == graphs && reps'[..|reps|] == reps;
    } else {
      graphs', hashes', queue', reps' := graphs, hashes, queue, reps;
      assert graphs'[..|graphs|] == graphs && reps'[..|reps|] == reps;
    }
  }

  lemma GrownTrans(graphs: seq<Graph>, reps: seq<Adj>, hashes: map<Digest, seq<Graph>>,
                   graphs': seq<Graph>, reps': seq<Adj>, hashes': map<Digest, seq<Graph>>,
                   graphs'': seq<Graph>, reps'': seq<Adj>, hashes'': map<Digest, seq<Graph>>)
    requires Grown(graphs, reps, hashes, graphs', reps', hashes')
    requires Grown(graphs', reps', hashes', graphs'', reps'', hashes'')
    ensures Grown(graphs, reps, hashes, graphs'', reps'', hashes'')
  {
    assert graphs''[..|graphs|] == graphs''[..|graphs'|][..|graphs|];
    assert reps''[..|reps|] == reps''[..|reps'|][..|reps|];
  }

  /** Closedness of the processed graphs survives growth of the table. */
  lemma ClosedGrown(graphs: seq<Graph>, reps: seq<Adj>, hashes: map<Digest, seq<Graph>>,
                    graphs': seq<Graph>, reps': seq<Adj>, hashes': map<Digest, seq<Graph>>,
                    k: int, n: nat, hash: Adj -> Digest)
    requires ClosedBelow(reps, k, hashes, n, hash) && k <= |reps|
    requires Grown(graphs, reps, hashes, graphs', reps', hashes')
    ensures ClosedBelow(reps', k, hashes', n, hash)
  {
    forall i, m | 0 <= i < k && i < |reps'| && |reps'[i]| == n && Fits(m, n)
      ensures hash(Apply(reps'[i], m)) in hashes'
    {
      assert reps'[i] == reps'[..|reps|][i];
    }
  }

  /** The explorer's state: the list, the table and the queue agree, the
      queue is the unprocessed end of the list, and every listed graph is a
      well-formed store on n vertices reachable from seed. */
  ghost predicate Table(graphs: seq<Graph>, hashes: map<Digest, seq<Graph>>, queue: seq<Graph>,
                        reps: seq<Adj>, seed: Adj, n: nat, hash: Adj -> Digest)
    reads graphs
  {
    && Stored(graphs, reps, n) && Keyed(hashes, graphs, reps, hash) && FromSeed(seed, reps)
    && |queue| <= |graphs| && queue == graphs[|graphs| - |queue|..]
  }

  /** transform1(a, u, v) for each of the first d pairs of duos leads to a
      hash in the table. */
  ghost predicate RedirectsDone(a: Adj, duos: seq<(int, int)>, d: int, hashes: map<Digest, seq<Graph>>,
                                hash: Adj -> Digest)
  {
    forall t :: 0 <= t < d && t < |duos| && 0 <= duos[t].0 < |a| ==>
      hash(Transform1Adj(a, duos[t].0, duos[t].1)) in hashes
  }

  lemma RedirectsNext(a: Adj, duos: seq<(int, int)>, d: int, hashes: map<Digest, seq<Graph>>,
                      hashes': map<Digest, seq<Graph>>, hash: Adj -> Digest)
    requires RedirectsDone(a, duos, d, hashes, hash) && hashes.Keys <= hashes'.Keys
    requires 0 <= d < |duos| && 0 <= duos[d].0 < |a|
    requires hash(Transform1Adj(a, duos[d].0, duos[d].1)) in hashes'
    ensures RedirectsDone(a, duos, d + 1, hashes', hash)
  {
    forall t | 0 <= t < d + 1 && t < |duos| && 0 <= duos[t].0 < |a|
      ensures hash(Transform1Adj(a, duos[t].0, duos[t].1)) in hashes'
    {
      if t < d {
        assert hash(Transform1Adj(a, duos[t].0, duos[t].1)) in hashes;
      } else {
        assert t == d;
      }
    }
  }

  lemma RedirectsAll(a: Adj, n: nat, hashes: map<Digest, seq<Graph>>, hash: Adj -> Digest)
    requires |a| == n && RedirectsDone(a, Duos(n), |Duos(n)|, hashes, hash)
    ensures forall u, v :: 0 <= u < n && 0 <= v < n && u != v ==> hash(Transform1Adj(a, u, v)) in hashes
  {
    var duos := Duos(n);
    forall u, v | 0 <= u < n && 0 <= v < n && u != v
      ensures hash(Transform1Adj(a, u, v)) in hashes
    {
      assert (u, v) in duos;
      var t :| 0 <= t < |duos| && duos[t] == (u, v);
    }
  }

  /** transform1(gr, u, v), offered to the table. */
  method Redirect1(graphs: seq<Graph>, hashes: map<Digest, seq<Graph>>, queue: seq<Graph>, gr: Graph,
                   u: int, v: int, hash: Adj -> Digest, ghost reps: seq<Adj>, ghost seed: Adj, n: nat)
    returns (graphs': seq<Graph>, hashes': map<Digest, seq<Graph>>, queue': seq<Graph>, ghost reps': seq<Adj>)
    requires Table(graphs, hashes, queue, reps, seed, n, hash)
    requires gr.Valid() && |gr.nodes| == n && Reachable(seed, gr.nodes)
    requires 0 <= u < n && 0 <= v < n && u != v
    ensures Table(graphs', hashes', queue', reps', seed, n, hash)
    ensures Grown(graphs, reps, hashes, graphs', reps', hashes')
    ensures |queue'| - |queue| == |graphs'| - |graphs|
    ensures hash(Transform1Adj(gr.nodes, u, v)) in hashes'
  {
    var next := Transform1(gr, u, v);
    ReachableStep(seed, gr.nodes, Redirect(u, v));
    graphs', hashes', queue', reps' := Offer(graphs, hashes, queue, next, hash, reps, seed, n);
  }

  /** The first loop of the body: transform1(gr, u, v) offered for every
      ordered pair (u, v) of distinct vertices. */
  method RedirectAll(graphs: seq<Graph>, hashes: map<Digest, seq<Graph>>, queue: seq<Graph>, gr: Graph,
                     hash: Adj -> Digest, ghost reps: seq<Adj>, ghost seed: Adj, n: nat)
    returns (graphs': seq<Graph>, hashes': map<Digest, seq<Graph>>, queue': seq<Graph>, ghost reps': seq<Adj>)
    requires Table(graphs, hashes, queue, reps, seed, n, hash)
    requires gr.Valid() && |gr.nodes| == n && Reachable(seed, gr.nodes)
    ensures Table(graphs', hashes', queue', reps', seed, n, hash)
    ensures Grown(graphs, reps, hashes, graphs', reps', hashes')
    ensures |queue'| - |queue| == |graphs'| - |graphs|
    ensures forall u, v :: 0 <= u < n && 0 <= v < n && u != v ==> hash(Transform1Adj(gr.nodes, u, v)) in hashes'
  {
    var duos := Duos(n);
    ghost var a := gr.nodes;
    graphs', hashes', queue', reps' := graphs, hashes, queue, reps;
    assert graphs'[..|graphs|] == graphs && reps'[..|reps|] == reps;
    for d := 0 to |duos|
      invariant Table(graphs', hashes', queue', reps', seed, n, hash)
      invariant Grown(graphs, reps, hashes, graphs', reps', hashes')
      invariant |queue'| - |queue| == |graphs'| - |graphs|
      invariant RedirectsDone(a, duos, d, hashes', hash)
    {
      var (u, v) := duos[d];
      ghost var (g0, h0, r0) := (graphs', hashes', reps');
      graphs', hashes', queue', reps' := Redirect1(graphs', hashes', queue', gr, u, v, hash, reps', seed, n);
      GrownTrans(graphs, reps, hashes, g0, r0, h0, graphs', reps', hashes');
      RedirectsNext(a, duos, d, h0, hashes', hash);
    }
    RedirectsAll(a, n, hashes', hash);
  }

  /** transform2(gr, w), offered to the table. */
  method Reverse1(graphs: seq<Graph>, hashes: map<Digest, seq<Graph>>, queue: seq<Graph>, gr: Graph,
                  w: int, hash: Adj -> Digest, ghost reps: seq<Adj>, ghost seed: Adj, n: nat)
    returns (graphs': seq<Graph>, hashes': map<Digest, seq<Graph>>, queue': seq<Graph>, ghost reps': seq<Adj>)
    requires Table(graphs, hashes, queue, reps, seed, n, hash)
    requires gr.Valid() && |gr.nodes| == n && Reachable(seed, gr.nodes)
    requires 0 <= w < n
    ensures Table(graphs', hashes', queue', reps', seed, n, hash)
    ensures Grown(graphs, reps, hashes, graphs', reps', hashes')
    ensures |queue'| - |queue| == |graphs'| - |graphs|
    ensures hash(Transform2Adj(gr.nodes, w)) in hashes'
  {
    var next := Transform2(gr, w);
    ReachableStep(seed, gr.nodes, Reverse(w));
    graphs', hashes', queue', reps' := Offer(graphs, hashes, queue, next, hash, reps, seed, n);
  }

  /** The second loop of the body: transform2(gr, w) offered for every
      vertex w. */
  method ReverseAll(graphs: seq<Graph>, hashes: map<Digest, seq<Graph>>, queue: seq<Graph>, gr: Graph,
                    hash: Adj -> Digest, ghost reps: seq<Adj>, ghost seed: Adj, n: nat)
    returns (graphs': seq<Graph>, hashes': map<Digest, seq<Graph>>, queue': seq<Graph>, ghost reps': seq<Adj>)
    requires Table(graphs, hashes, queue, reps, seed, n, hash)
    requires gr.Valid() && |gr.nodes| == n && Reachable(seed, gr.nodes)
    ensures Table(graphs', hashes', queue', reps', seed, n, hash)
    ensures Grown(graphs, reps, hashes, graphs', reps', hashes')
    ensures |queue'| - |queue| == |graphs'| - |graphs|
    ensures forall w :: 0 <= w < n ==> hash(Transform2Adj(gr.nodes, w)) in hashes'
  {
    ghost var a := gr.nodes;
    graphs', hashes', queue', reps' := graphs, hashes, queue, reps;
    assert graphs'[..|graphs|] == graphs && reps'[..|reps|] == reps;
    for w := 0 to n
      invariant Table(graphs', hashes', queue', reps', seed, n, hash)
      invariant Grown(graphs, reps, hashes, graphs', reps', hashes')
      invariant |queue'| - |queue| == |graphs'| - |graphs|
      invariant forall x :: 0 <= x < w ==> hash(Transform2Adj(a, x)) in hashes'
    {
      ghost var (g0, h0, r0) := (graphs', hashes', reps');
      graphs', hashes', queue', reps' := Reverse1(graphs', hashes', queue', gr, w, hash, reps', seed, n);
      GrownTrans(graphs, reps, hashes, g0, r0, h0, graphs', reps', hashes');
      forall x | 0 <= x < w + 1
        ensures hash(Transform2Adj(a, x)) in hashes'
      {
        if x < w {
          assert hash(Transform2Adj(a, x)) in h0;
        } else {
          assert x == w;
        }
      }
    }
  }

  /** The body of the worklist loop for one dequeued graph gr, the k-th
      listed: both loops in turn. Afterwards every step from gr leads to a
      known hash. */
  method Expand(graphs: seq<Graph>, hashes: map<Digest, seq<Graph>>, queue: seq<Graph>, gr: Graph,
                hash: Adj -> Digest, ghost reps: seq<Adj>, ghost seed: Adj, n: nat)
    returns (graphs': seq<Graph>, hashes': map<Digest, seq<Graph>>, queue': seq<Graph>, ghost reps': seq<Adj>)
    requires Table(graphs, hashes, queue, reps, seed, n, hash)
    requires gr.Valid() && |gr.nodes| == n && Reachable(seed, gr.nodes)
    ensures Table(graphs', hashes', queue', reps', seed, n, hash)
    ensures Grown(graphs, reps, hashes, graphs', reps', hashes')
    ensures |queue'| - |queue| == |graphs'| - |graphs|
    ensures forall m :: Fits(m, n) ==> hash(Apply(gr.nodes, m)) in hashes'
  {
    ghost var (g0, h0, r0, q0) := (graphs, hashes, reps, queue);
    graphs', hashes', queue', reps' := RedirectAll(graphs, hashes, queue, gr, hash, reps, seed, n);
    ghost var (g1, h1, r1, q1) := (graphs', hashes', reps', queue');
    graphs', hashes', queue', reps' := ReverseAll(graphs', hashes', queue', gr, hash, reps', seed, n);
    GrownTrans(g0, r0, h0, g1, r1, h1, graphs', reps', hashes');
    forall m | Fits(m, n)
      ensures hash(Apply(gr.nodes, m)) in hashes'
    {
    }
  }

  /** Taking the head of the queue: it is the first unprocessed listed graph. */
  lemma TablePop(graphs: seq<Graph>, hashes: map<Digest, seq<Graph>>, queue: seq<Graph>,
                 reps: seq<Adj>, seed: Adj, n: nat, hash: Adj -> Digest)
    requires Table(graphs, hashes, queue, reps, seed, n, hash) && queue != []
    ensures Table(graphs, hashes, queue[1..], reps, seed, n, hash)
    ensures queue[0] == graphs[|graphs| - |queue|] && reps[|graphs| - |queue|] == queue[0].nodes
    ensures queue[0].Valid() && |queue[0].nodes| == n && Reachable(seed, queue[0].nodes)
  {
    var k := |graphs| - |queue|;
    assert queue[0] == graphs[k];
  }

  /** The k-th listed graph processed: the closed prefix grows by one. */
  lemma ClosedNext(reps: seq<Adj>, k: int, hashes: map<Digest, seq<Graph>>, n: nat, hash: Adj -> Digest)
    requires ClosedBelow(reps, k, hashes, n, hash) && 0 <= k < |reps|
    requires forall m :: Fits(m, n) && |reps[k]| == n ==> hash(Apply(reps[k], m)) in hashes
    ensures ClosedBelow(reps, k + 1, hashes, n, hash)
  {
  }

  /** The final table: its keys are exactly the hashes of the listed graphs,
      and every step from a listed graph leads to one of them. */
  ghost predicate ClosedList(graphs: seq<Graph>, hashes: map<Digest, seq<Graph>>, n: nat, hash: Adj -> Digest)
    reads graphs
  {
    && (forall h :: h in hashes ==> exists i :: 0 <= i < |graphs| && hash(graphs[i].nodes) == h)
    && (forall i, m :: 0 <= i < |graphs| && |graphs[i].nodes| == n && Fits(m, n) ==> hash(Apply(graphs[i].nodes, m)) in hashes)
  }

  /** What the final list and table say about each listed graph. */
  lemma FinishListed(graphs: seq<Graph>, hashes: map<Digest, seq<Graph>>, reps: seq<Adj>, seed: Adj, n: nat,
                     hash: Adj -> Digest)
    requires Stored(graphs, reps, n) && Keyed(hashes, graphs, reps, hash) && FromSeed(seed, reps)
    ensures forall i :: 0 <= i < |graphs| ==> graphs[i].Valid() && |graphs[i].nodes| == n
    ensures forall i :: 0 <= i < |graphs| ==> Reachable(seed, graphs[i].nodes)
    ensures forall i, j :: 0 <= i < j < |graphs| ==> hash(graphs[i].nodes) != hash(graphs[j].nodes)
    ensures |hashes| == |graphs|
    ensures forall i :: 0 <= i < |graphs| ==> hash(graphs[i].nodes) in hashes && hashes[hash(graphs[i].nodes)] == [graphs[i]]
  {
    assert forall i :: 0 <= i < |graphs| ==> graphs[i].nodes == reps[i];
  }

  /** Once every listed graph has been expanded, the table is closed. */
  lemma FinishClosed(graphs: seq<Graph>, hashes: map<Digest, seq<Graph>>, reps: seq<Adj>, n: nat,
                     hash: Adj -> Digest)
    requires Stored(graphs, reps, n) && Keyed(hashes, graphs, reps, hash)
    requires ClosedBelow(reps, |graphs|, hashes, n, hash)
    ensures ClosedList(graphs, hashes, n, hash)
  {
    assert forall i :: 0 <= i < |graphs| ==> graphs[i].nodes == reps[i];
  }


  /** One iteration of the worklist loop: the head of the queue is popped
      and expanded. The processed prefix of the list stays closed and either
      the table grows or the queue shrinks. */
  method Step(graphs: seq<Graph>, hashes: map<Digest, seq<Graph>>, queue: seq<Graph>,
              hash: Adj -> Digest, ghost reps: seq<Adj>, ghost seed: Adj, n: nat)
    returns (graphs': seq<Graph>, hashes': map<Digest, seq<Graph>>, queue': seq<Graph>, ghost reps': seq<Adj>)
    requires Table(graphs, hashes, queue, reps, seed, n, hash) && queue != []
    requires ClosedBelow(reps, |graphs| - |queue|, hashes, n, hash)
    ensures Table(graphs', hashes', queue', reps', seed, n, hash)
    ensures ClosedBelow(reps', |graphs'| - |queue'|, hashes', n, hash)
    ensures 0 < |graphs| <= |graphs'| && graphs'[0] == graphs[0]
    ensures |hashes'| > |hashes| || (|hashes'| == |hashes| && |queue'| < |queue|)
  {
    ghost var k := |graphs| - |queue|;
    TablePop(graphs, hashes, queue, reps, seed, n, hash);
    var gr := queue[0];
    graphs', hashes', queue', reps' := Expand(graphs, hashes, queue[1..], gr, hash, reps, seed, n);
    ClosedGrown(graphs, reps, hashes, graphs', reps', hashes', k, n, hash);
    assert reps'[k] == gr.nodes by {
      assert reps'[..|reps|][k] == reps[k];
    }
    ClosedNext(reps', k, hashes', n, hash);
    assert graphs'[0] == graphs[0] by {
      assert graphs'[..|graphs|][0] == graphs[0];
    }
  }

  /** The worklist loop of get_all_inclass_graphs, run until the queue is
      empty: it terminates because every iteration either adds a new key to
      the table, of which there are at most DIGEST_SPACE, or shrinks the
      queue. */
  method Explore(graphs: seq<Graph>, hashes: map<Digest, seq<Graph>>, queue: seq<Graph>,
                 hash: Adj -> Digest, ghost reps: seq<Adj>, ghost seed: Adj, n: nat)
    returns (graphs': seq<Graph>, hashes': map<Digest, seq<Graph>>, ghost reps': seq<Adj>)
    requires Table(graphs, hashes, queue, reps, seed, n, hash) && |graphs| > 0
    requires ClosedBelow(reps, |graphs| - |queue|, hashes, n, hash)
    ensures Table(graphs', hashes', [], reps', seed, n, hash)
    ensures ClosedBelow(reps', |graphs'|, hashes', n, hash)
    ensures |graphs'| > 0 && graphs'[0] == graphs[0]
  {
    var queue' := queue;
    graphs', hashes', reps' := graphs, hashes, reps;
    DigestSetBound(hashes'.Keys);
    while queue' != []
      invariant Table(graphs', hashes', queue', reps', seed, n, hash)
      invariant |graphs'| > 0 && graphs'[0] == graphs[0]
      invariant ClosedBelow(reps', |graphs'| - |queue'|, hashes', n, hash)
      invariant |hashes'| <= DIGEST_SPACE
      decreases DIGEST_SPACE - |hashes'|, |queue'|
    {
      graphs', hashes', queue', reps' := Step(graphs', hashes', queue', hash, reps', seed, n);
      DigestSetBound(hashes'.Keys);
    }
  }

  /** The initial state: the seed alone in the list, the queue and the
      table, and nothing processed yet. */
  lemma Start(seed: Graph, n: nat, hash: Adj -> Digest)
    requires seed.Valid() && |seed.nodes| == n
    ensures Table([seed], map[hash(seed.nodes) := [seed]], [seed], [seed.nodes], seed.nodes, n, hash)
    ensures ClosedBelow([seed.nodes], 0, map[hash(seed.nodes) := [seed]], n, hash)
  {
    ReachableRefl(seed.nodes);
    KeyedAdd(map[], [], [], hash, seed, seed.nodes);
    assert [] + [seed] == [seed] && [] + [seed.nodes] == [seed.nodes];
  }

  /** get_all_inclass_graphs(seed, n): the graphs met by a first-in
      first-out exploration from seed, each kept only when its hash is new,
      together with the hash table. The list starts with seed, every graph in
      it is reachable from seed, no two share a hash, the table holds one
      singleton bucket per listed graph, and every step from a listed graph
      leads to a hash in the table. */
  method GetAllInclassGraphs(seed: Graph, n: nat, hash: Adj -> Digest)
    returns (graphs: seq<Graph>, hashes: map<Digest, seq<Graph>>)
    requires seed.Valid() && |seed.nodes| == n
    ensures |graphs| > 0 && graphs[0] == seed
    ensures forall i :: 0 <= i < |graphs| ==> graphs[i].Valid() && |graphs[i].nodes| == n
    ensures forall i :: 0 <= i < |graphs| ==> Reachable(seed.nodes, graphs[i].nodes)
    ensures forall i, j :: 0 <= i < j < |graphs| ==> hash(graphs[i].nodes) != hash(graphs[j].nodes)
    ensures |hashes| == |graphs|
    ensures forall i :: 0 <= i < |graphs| ==> hash(graphs[i].nodes) in hashes && hashes[hash(graphs[i].nodes)] == [graphs[i]]
    ensures ClosedList(graphs, hashes, n, hash)
  {
    var queue := [seed];
    hashes := map[hash(seed.nodes) := [seed]];
    graphs := [seed];
    ghost var reps := [seed.nodes];
    Start(seed, n, hash);
    graphs, hashes, reps := Explore(graphs, hashes, queue, hash, reps, seed.nodes, n);
    FinishListed(graphs, hashes, reps, seed.nodes, n, hash);
    FinishClosed(graphs, hashes, reps, n, hash);
  }
}
