/**
 * The two rewrites that generate a fusion class: transform1 (redirect the
 * neighbourhood of u onto v) and transform2 (reverse every edge at w). Both
 * work on a deep copy of the graph, toggling pairs with add_edge.
 */
module Rewrite {
  import opened Digraph
  import opened GraphStore

  /** The predecessors of u. */
  ghost function Pred(a: Adj, u: int): set<int>
  {
    set p | 0 <= p < |a| && Edge(a, p, u)
  }

  /** The predecessor sets of a consistent store list the predecessors. */
  lemma MirrorPred(a: Adj, b: Adj, u: int)
    requires Mirror(a, b) && 0 <= u < |a|
    ensures b[u] == Pred(a, u)
  {
    forall p
      ensures p in b[u] <==> p in Pred(a, u)
    {
      if p in b[u] {
        assert 0 <= p < |a|;
      }
    }
  }

  /** The elements of a sequence. */
  ghost function Elems(ps: seq<int>): set<int>
  {
    set p | p in ps
  }

  /** The elements of an empty sequence, and of one split at its head. */
  lemma ElemsSplit(ps: seq<int>)
    ensures ps == [] ==> Elems(ps) == {}
    ensures ps != [] ==> Elems(ps) == {ps[0]} + Elems(ps[1..])
  {
    if ps == [] {
      assert forall z :: z !in Elems(ps);
    } else {
      forall z
        ensures z in Elems(ps) <==> z in {ps[0]} + Elems(ps[1..])
      {
        if z in ps && z != ps[0] { assert z in ps[1..]; }
        if z in ps[1..] { assert z in ps; }
      }
    }
  }

  /** Adding the elements of ps to P one at a time. */
  lemma AddSplit(P: set<int>, ps: seq<int>)
    ensures ps == [] ==> P + Elems(ps) == P
    ensures ps != [] ==> P + {ps[0]} + Elems(ps[1..]) == P + Elems(ps)
  {
    ElemsSplit(ps);
    if ps == [] {
      assert forall z :: z in P + Elems(ps) <==> z in P;
    } else {
      assert forall z :: z in P + {ps[0]} + Elems(ps[1..]) <==> z in P + Elems(ps);
    }
  }

  // ---------------------------------------------------------------- transform1

  /** Whether x→y is present once transform1 has toggled (p, v) for every p in
      P and (v, s) for every s in S. */
  ghost predicate FanEdge(a: Adj, v: int, P: set<int>, S: set<int>, x: int, y: int)
  {
    if x == v && y in P then AfterToggle(a, y, v, x, y)
    else if y == v && x in P then AfterToggle(a, x, v, x, y)
    else if x == v && y in S then AfterToggle(a, v, y, x, y)
    else if y == v && x in S then AfterToggle(a, v, x, x, y)
    else Edge(a, x, y)
  }

  /** The successor sets once (p, v) is toggled for each p in P and (v, s)
      for each s in S, each pair once. */
  ghost function Fan(a: Adj, v: int, P: set<int>, S: set<int>): (r: Adj)
    ensures |r| == |a| && InRange(r)
    ensures forall x, y :: 0 <= x < |a| && 0 <= y < |a| ==> (Edge(r, x, y) <==> FanEdge(a, v, P, S, x, y))
  {
    seq(|a|, x requires 0 <= x < |a| => set y | 0 <= y < |a| && FanEdge(a, v, P, S, x, y))
  }

  /** The successor sets of transform1(a, u, v): (p, v) toggled for every
      predecessor p of u and (v, s) for every successor s of u. */
  ghost function Transform1Adj(a: Adj, u: int, v: int): Adj
    requires 0 <= u < |a|
  {
    Fan(a, v, Pred(a, u), a[u])
  }

  /** Nothing toggled yet: the graph itself. */
  lemma FanNone(a: Adj, v: int)
    requires InRange(a)
    ensures Fan(a, v, {}, {}) == a
  {
    AdjExt(Fan(a, v, {}, {}), a);
  }

  /** add_edge(p, v) for one more predecessor p. */
  lemma FanStepPred(a: Adj, v: int, P: set<int>, S: set<int>, p: int)
    requires 0 <= v < |a| && 0 <= p < |a| && p !in P && p !in S
    ensures Toggle(Fan(a, v, P, S), p, v) == Fan(a, v, P + {p}, S)
  {
    var r := Fan(a, v, P, S);
    var t := Toggle(r, p, v);
    var f := Fan(a, v, P + {p}, S);
    forall x, y | 0 <= x < |a| && 0 <= y < |a|
      ensures Edge(t, x, y) <==> Edge(f, x, y)
    {
      assert Edge(t, x, y) == AfterToggle(r, p, v, x, y);
      if p != v {
        assert Edge(r, p, v) == Edge(a, p, v);
        assert Edge(r, v, p) == Edge(a, v, p);
      }
    }
    AdjExt(t, f);
  }

  /** add_edge(v, s) for one more successor s. */
  lemma FanStepSucc(a: Adj, v: int, P: set<int>, S: set<int>, s: int)
    requires 0 <= v < |a| && 0 <= s < |a| && s !in P && s !in S
    ensures Toggle(Fan(a, v, P, S), v, s) == Fan(a, v, P, S + {s})
  {
    var r := Fan(a, v, P, S);
    var t := Toggle(r, v, s);
    var f := Fan(a, v, P, S + {s});
    forall x, y | 0 <= x < |a| && 0 <= y < |a|
      ensures Edge(t, x, y) <==> Edge(f, x, y)
    {
      assert Edge(t, x, y) == AfterToggle(r, v, s, x, y);
      if s != v {
        assert Edge(r, v, s) == Edge(a, v, s);
        assert Edge(r, s, v) == Edge(a, s, v);
      }
    }
    AdjExt(t, f);
  }

  /** The toggles of transform1 keep the graph simple. */
  lemma FanSimple(a: Adj, v: int, P: set<int>, S: set<int>)
    requires Simple(a) && 0 <= v < |a|
    ensures Simple(Fan(a, v, P, S))
  {
    var r := Fan(a, v, P, S);
    forall x | 0 <= x < |r|
      ensures x !in r[x]
    {
      assert !FanEdge(a, v, P, S, x, x);
    }
    forall x, y | 0 <= x < |r| && 0 <= y < |r| && y in r[x]
      ensures x !in r[y]
    {
      assert Edge(r, x, y);
      assert !FanEdge(a, v, P, S, y, x);
    }
  }

  /** What transform1(a, u, v) does to each vertex pair: a pair without v and
      the pair {u, v} keep their state, the pair {p, v} of a predecessor p of
      u is in the state one add_edge(p, v) gives it, the pair {v, s} of a
      successor s of u is in the state one add_edge(v, s) gives it, and the
      other pairs at v keep their state. */
  lemma Transform1Pairs(a: Adj, u: int, v: int)
    requires Simple(a) && 0 <= u < |a| && 0 <= v < |a| && u != v
    ensures Simple(Transform1Adj(a, u, v)) && |Transform1Adj(a, u, v)| == |a|
    ensures forall x, y :: 0 <= x < |a| && 0 <= y < |a| && x != v && y != v ==>
              (Edge(Transform1Adj(a, u, v), x, y) <==> Edge(a, x, y))
    ensures Edge(Transform1Adj(a, u, v), u, v) == Edge(a, u, v)
    ensures Edge(Transform1Adj(a, u, v), v, u) == Edge(a, v, u)
    ensures forall p :: 0 <= p < |a| && Edge(a, p, u) ==>
              Edge(Transform1Adj(a, u, v), p, v) == Edge(Toggle(a, p, v), p, v) &&
              Edge(Transform1Adj(a, u, v), v, p) == Edge(Toggle(a, p, v), v, p)
    ensures forall s :: 0 <= s < |a| && Edge(a, u, s) ==>
              Edge(Transform1Adj(a, u, v), v, s) == Edge(Toggle(a, v, s), v, s) &&
              Edge(Transform1Adj(a, u, v), s, v) == Edge(Toggle(a, v, s), s, v)
    ensures forall z :: 0 <= z < |a| && !Edge(a, z, u) && !Edge(a, u, z) ==>
              Edge(Transform1Adj(a, u, v), z, v) == Edge(a, z, v) &&
              Edge(Transform1Adj(a, u, v), v, z) == Edge(a, v, z)
  {
    var P, S := Pred(a, u), a[u];
    var r := Transform1Adj(a, u, v);
    FanSimple(a, v, P, S);
    forall p | 0 <= p < |a| && Edge(a, p, u)
      ensures Edge(r, p, v) == Edge(Toggle(a, p, v), p, v)
      ensures Edge(r, v, p) == Edge(Toggle(a, p, v), v, p)
    {
      assert p in P;
      assert Edge(Toggle(a, p, v), p, v) == AfterToggle(a, p, v, p, v);
      assert Edge(Toggle(a, p, v), v, p) == AfterToggle(a, p, v, v, p);
    }
    forall s | 0 <= s < |a| && Edge(a, u, s)
      ensures Edge(r, v, s) == Edge(Toggle(a, v, s), v, s)
      ensures Edge(r, s, v) == Edge(Toggle(a, v, s), s, v)
    {
      assert s !in P;
      assert Edge(Toggle(a, v, s), v, s) == AfterToggle(a, v, s, v, s);
      assert Edge(Toggle(a, v, s), s, v) == AfterToggle(a, v, s, s, v);
    }
    assert u !in P && u !in S;
  }

  /** The pairs (p, v) of ps in order. */
  function Into(ps: seq<int>, v: int): (ts: seq<(int, int)>)
    ensures |ts| == |ps| && forall k :: 0 <= k < |ps| ==> ts[k] == (ps[k], v)
  {
    if ps == [] then [] else [(ps[0], v)] + Into(ps[1..], v)
  }

  /** The pairs (v, s) of ss in order. */
  function From(v: int, ss: seq<int>): (ts: seq<(int, int)>)
    ensures |ts| == |ss| && forall k :: 0 <= k < |ss| ==> ts[k] == (v, ss[k])
  {
    if ss == [] then [] else [(v, ss[0])] + From(v, ss[1..])
  }

  lemma {:induction false} FanFoldPred(a: Adj, v: int, P: set<int>, S: set<int>, ps: seq<int>)
    requires 0 <= v < |a|
    requires forall k :: 0 <= k < |ps| ==> 0 <= ps[k] < |a| && ps[k] !in P && ps[k] !in S
    requires forall i, j :: 0 <= i < j < |ps| ==> ps[i] != ps[j]
    ensures Toggles(Fan(a, v, P, S), Into(ps, v)) == Fan(a, v, P + Elems(ps), S)
    decreases |ps|
  {
    AddSplit(P, ps);
    if ps != [] {
      var p, rest := ps[0], ps[1..];
      FanStepPred(a, v, P, S, p);
      assert Into(ps, v)[1..] == Into(rest, v);
      forall k | 0 <= k < |rest|
        ensures rest[k] !in P + {p}
      {
        assert rest[k] == ps[k + 1];
      }
      FanFoldPred(a, v, P + {p}, S, rest);
    }
  }

  lemma {:induction false} FanFoldSucc(a: Adj, v: int, P: set<int>, S: set<int>, ss: seq<int>)
    requires 0 <= v < |a|
    requires forall k :: 0 <= k < |ss| ==> 0 <= ss[k] < |a| && ss[k] !in P && ss[k] !in S
    requires forall i, j :: 0 <= i < j < |ss| ==> ss[i] != ss[j]
    ensures Toggles(Fan(a, v, P, S), From(v, ss)) == Fan(a, v, P, S + Elems(ss))
    decreases |ss|
  {
    AddSplit(S, ss);
    if ss != [] {
      var s, rest := ss[0], ss[1..];
      FanStepSucc(a, v, P, S, s);
      assert From(v, ss)[1..] == From(v, rest);
      forall k | 0 <= k < |rest|
        ensures rest[k] !in S + {s}
      {
        assert rest[k] == ss[k + 1];
      }
      FanFoldSucc(a, v, P, S + {s}, rest);
    }
  }

  /** transform1 does not depend on the order in which it walks the two sets:
      add_edge(p, v) over the predecessors of u in any order, then
      add_edge(v, s) over the successors of u in any order, gives
      Transform1Adj(a, u, v). */
  lemma Transform1Order(a: Adj, u: int, v: int, ps: seq<int>, ss: seq<int>)
    requires Simple(a) && 0 <= u < |a| && 0 <= v < |a| && u != v
    requires forall k :: 0 <= k < |ps| ==> 0 <= ps[k] < |a| && Edge(a, ps[k], u)
    requires forall p :: p in Pred(a, u) ==> p in ps
    requires forall k :: 0 <= k < |ss| ==> 0 <= ss[k] < |a| && Edge(a, u, ss[k])
    requires forall s :: s in a[u] ==> s in ss
    requires forall i, j :: 0 <= i < j < |ps| ==> ps[i] != ps[j]
    requires forall i, j :: 0 <= i < j < |ss| ==> ss[i] != ss[j]
    ensures Toggles(Toggles(a, Into(ps, v)), From(v, ss)) == Transform1Adj(a, u, v)
  {
    var P, S := Pred(a, u), a[u];
    FanNone(a, v);
    forall k | 0 <= k < |ps|
      ensures 0 <= ps[k] < |a| && ps[k] !in {}
    {
      assert ps[k] in ps;
    }
    FanFoldPred(a, v, {}, {}, ps);
    assert {} + Elems(ps) == P by {
      forall z ensures z in {} + Elems(ps) <==> z in P { }
    }
    forall k | 0 <= k < |ss|
      ensures 0 <= ss[k] < |a| && ss[k] !in P && ss[k] !in {}
    {
      assert ss[k] in ss;
    }
    FanFoldSucc(a, v, P, {}, ss);
    assert {} + Elems(ss) == S by {
      forall z ensures z in {} + Elems(ss) <==> z in S { }
    }
  }

  /** transform1(g, u, v): a fresh deep copy of g in which add_edge(p, v) has
      been applied for every predecessor p of u and then add_edge(v, s) for
      every successor s of u; g itself is not modified. */
  method Transform1(g: Graph, u: int, v: int) returns (c: Graph)
    requires g.Valid() && 0 <= u < |g.nodes| && 0 <= v < |g.nodes| && u != v
    ensures fresh(c) && c.Valid()
    ensures c.nodes == Transform1Adj(g.nodes, u, v)
  {
    ghost var a := g.nodes;
    c := new Graph.Copy(g);
    MirrorPred(a, g.backNodes, u);
    FanNone(a, v);
    var backs := c.backNodes[u];
    ghost var done: set<int> := {};
    while backs != {}
      invariant fresh(c) && c.Valid() && |c.nodes| == |a|
      invariant c.nodes[u] == a[u] && c.backNodes[u] == g.backNodes[u]
      invariant forall z :: z in backs ==> z in Pred(a, u) && z !in done
      invariant forall z :: z in Pred(a, u) ==> z in backs || z in done
      invariant done <= Pred(a, u)
      invariant c.nodes == Fan(a, v, done, {})
      decreases backs
    {
      ghost var some := Member(backs);
      var p :| p in backs;
      assert p != u;
      FanStepPred(a, v, done, {}, p);
      c.AddEdge(p, v);
      backs := backs - {p};
      done := done + {p};
    }
    assert done == Pred(a, u) by {
      forall z ensures z in done <==> z in Pred(a, u) { }
    }
    var nexts := c.nodes[u];
    ghost var done2: set<int> := {};
    while nexts != {}
      invariant fresh(c) && c.Valid() && |c.nodes| == |a|
      invariant c.nodes[u] == a[u]
      invariant forall z :: z in nexts ==> z in a[u] && z !in done2
      invariant forall z :: z in a[u] ==> z in nexts || z in done2
      invariant done2 <= a[u]
      invariant c.nodes == Fan(a, v, Pred(a, u), done2)
      decreases nexts
    {
      ghost var some := Member(nexts);
      var s :| s in nexts;
      assert s !in Pred(a, u) && s != u;
      FanStepSucc(a, v, Pred(a, u), done2, s);
      c.AddEdge(v, s);
      nexts := nexts - {s};
      done2 := done2 + {s};
    }
    assert done2 == a[u] by {
      forall z ensures z in done2 <==> z in a[u] { }
    }
  }

  // ---------------------------------------------------------------- transform2

  /** Whether x→y is present once the pairs {w, d}, d in D, are reversed. */
  ghost predicate FlipEdge(a: Adj, w: int, D: set<int>, x: int, y: int)
  {
    if (x == w && y in D) || (y == w && x in D) then Edge(a, y, x) else Edge(a, x, y)
  }

  /** The successor sets with every pair {w, d}, d in D, reversed. */
  ghost function Flip(a: Adj, w: int, D: set<int>): (r: Adj)
    ensures |r| == |a| && InRange(r)
    ensures forall x, y :: 0 <= x < |a| && 0 <= y < |a| ==> (Edge(r, x, y) <==> FlipEdge(a, w, D, x, y))
  {
    seq(|a|, x requires 0 <= x < |a| => set y | 0 <= y < |a| && FlipEdge(a, w, D, x, y))
  }

  /** The successor sets of transform2(a, w): every edge at w reversed. */
  ghost function Transform2Adj(a: Adj, w: int): Adj
  {
    Flip(a, w, Below(|a|))
  }

  lemma FlipNone(a: Adj, w: int)
    requires InRange(a)
    ensures Flip(a, w, {}) == a
  {
    AdjExt(Flip(a, w, {}), a);
  }

  /** The two add_edge(w, p) calls for a predecessor p of w reverse p→w. */
  lemma FlipStepPred(a: Adj, w: int, D: set<int>, p: int)
    requires Simple(a) && 0 <= w < |a| && 0 <= p < |a| && Edge(a, p, w) && p !in D
    ensures p != w
    ensures Toggle(Toggle(Flip(a, w, D), w, p), w, p) == Flip(a, w, D + {p})
  {
    var r := Flip(a, w, D);
    var t1 := Toggle(r, w, p);
    var t2 := Toggle(t1, w, p);
    var f := Flip(a, w, D + {p});
    assert Edge(r, p, w) && !Edge(r, w, p);
    forall x, y | 0 <= x < |a| && 0 <= y < |a|
      ensures Edge(t2, x, y) <==> Edge(f, x, y)
    {
      assert Edge(t2, x, y) == AfterToggle(t1, w, p, x, y);
      assert Edge(t1, x, y) == AfterToggle(r, w, p, x, y);
      assert Edge(t1, w, p) == AfterToggle(r, w, p, w, p);
      assert Edge(t1, p, w) == AfterToggle(r, w, p, p, w);
    }
    AdjExt(t2, f);
  }

  /** The two add_edge(s, w) calls for a successor s of w reverse w→s. */
  lemma FlipStepSucc(a: Adj, w: int, D: set<int>, s: int)
    requires Simple(a) && 0 <= w < |a| && 0 <= s < |a| && Edge(a, w, s) && s !in D
    ensures s != w
    ensures Toggle(Toggle(Flip(a, w, D), s, w), s, w) == Flip(a, w, D + {s})
  {
    var r := Flip(a, w, D);
    var t1 := Toggle(r, s, w);
    var t2 := Toggle(t1, s, w);
    var f := Flip(a, w, D + {s});
    assert Edge(r, w, s) && !Edge(r, s, w);
    forall x, y | 0 <= x < |a| && 0 <= y < |a|
      ensures Edge(t2, x, y) <==> Edge(f, x, y)
    {
      assert Edge(t2, x, y) == AfterToggle(t1, s, w, x, y);
      assert Edge(t1, x, y) == AfterToggle(r, s, w, x, y);
      assert Edge(t1, s, w) == AfterToggle(r, s, w, s, w);
      assert Edge(t1, w, s) == AfterToggle(r, s, w, w, s);
    }
    AdjExt(t2, f);
  }

  /** Reversing the pairs of w with all its neighbours reverses every edge at w. */
  lemma FlipNeighbours(a: Adj, w: int)
    requires Simple(a) && 0 <= w < |a|
    ensures Flip(a, w, Pred(a, w) + a[w]) == Transform2Adj(a, w)
  {
    var D := Pred(a, w) + a[w];
    forall x, y | 0 <= x < |a| && 0 <= y < |a|
      ensures Edge(Flip(a, w, D), x, y) <==> Edge(Transform2Adj(a, w), x, y)
    {
      assert FlipEdge(a, w, D, x, y) == FlipEdge(a, w, Below(|a|), x, y);
    }
    AdjExt(Flip(a, w, D), Transform2Adj(a, w));
  }

  /** What transform2(a, w) does: every edge p→w becomes w→p, every edge w→s
      becomes s→w, every pair without w keeps its state, and the graph stays
      simple. */
  lemma Transform2Reverses(a: Adj, w: int)
    requires Simple(a) && 0 <= w < |a|
    ensures Simple(Transform2Adj(a, w)) && |Transform2Adj(a, w)| == |a|
    ensures forall x, y :: 0 <= x < |a| && 0 <= y < |a| && (x == w || y == w) ==>
              (Edge(Transform2Adj(a, w), x, y) <==> Edge(a, y, x))
    ensures forall x, y :: 0 <= x < |a| && 0 <= y < |a| && x != w && y != w ==>
              (Edge(Transform2Adj(a, w), x, y) <==> Edge(a, x, y))
  {
    var r := Transform2Adj(a, w);
    forall x | 0 <= x < |r|
      ensures x !in r[x]
    {
      assert !FlipEdge(a, w, Below(|a|), x, x);
    }
    forall x, y | 0 <= x < |r| && 0 <= y < |r| && y in r[x]
      ensures x !in r[y]
    {
      assert Edge(r, x, y);
      assert !FlipEdge(a, w, Below(|a|), y, x);
    }
  }

  /** transform2 is an involution: applied twice it gives back the graph. */
  lemma Transform2Twice(a: Adj, w: int)
    requires Simple(a) && 0 <= w < |a|
    ensures Transform2Adj(Transform2Adj(a, w), w) == a
  {
    var r := Transform2Adj(a, w);
    Transform2Reverses(a, w);
    Transform2Reverses(r, w);
    AdjExt(Transform2Adj(r, w), a);
  }

  /** The first loop of transform2: two add_edge(w, p) calls for every
      snapshotted predecessor p of w, which reverse each p→w. */
  method ReversePreds(c: Graph, ghost a: Adj, w: int, backs: set<int>)
    requires Simple(a) && 0 <= w < |a| && backs == Pred(a, w)
    requires c.Valid() && c.nodes == a
    modifies c
    ensures c.Valid() && c.edgeCount == old(c.edgeCount)
    ensures c.nodes == Flip(a, w, Pred(a, w))
  {
    FlipNone(a, w);
    var rest := backs;
    ghost var done: set<int> := {};
    while rest != {}
      invariant c.Valid() && |c.nodes| == |a| && c.edgeCount == old(c.edgeCount)
      invariant forall z :: z in rest ==> z in backs && z !in done
      invariant forall z :: z in backs ==> z in rest || z in done
      invariant done <= backs
      invariant c.nodes == Flip(a, w, done)
      decreases rest
    {
      ghost var some := Member(rest);
      var p :| p in rest;
      FlipStepPred(a, w, done, p);
      assert Edge(c.nodes, p, w) && !Edge(c.nodes, w, p);
      c.AddEdge(w, p);
      c.AddEdge(w, p);
      rest := rest - {p};
      done := done + {p};
    }
    assert done == backs by {
      forall z ensures z in done <==> z in backs { }
    }
  }

  /** The second loop of transform2: two add_edge(s, w) calls for every
      snapshotted successor s of w, which reverse each w→s. */
  method ReverseSuccs(c: Graph, ghost a: Adj, w: int, nexts: set<int>)
    requires Simple(a) && 0 <= w < |a| && nexts == a[w]
    requires c.Valid() && c.nodes == Flip(a, w, Pred(a, w))
    modifies c
    ensures c.Valid() && c.edgeCount == old(c.edgeCount)
    ensures c.nodes == Flip(a, w, Pred(a, w) + a[w])
  {
    var rest := nexts;
    ghost var done := Pred(a, w);
    while rest != {}
      invariant c.Valid() && |c.nodes| == |a| && c.edgeCount == old(c.edgeCount)
      invariant forall z :: z in rest ==> z in a[w] && z !in done
      invariant forall z :: z in done <==> z in Pred(a, w) || (z in a[w] && z !in rest)
      invariant c.nodes == Flip(a, w, done)
      decreases rest
    {
      ghost var some := Member(rest);
      var s :| s in rest;
      FlipStepSucc(a, w, done, s);
      assert Edge(c.nodes, w, s) && !Edge(c.nodes, s, w);
      c.AddEdge(s, w);
      c.AddEdge(s, w);
      rest := rest - {s};
      done := done + {s};
    }
    assert done == Pred(a, w) + a[w] by {
      forall z ensures z in done <==> z in Pred(a, w) + a[w] { }
    }
  }

  /** transform2(g, w): a fresh deep copy of g with every edge at w reversed,
      by two add_edge(w, p) calls per predecessor p and two add_edge(s, w)
      calls per successor s, both sets snapshotted first; g itself is not
      modified and the edge count is kept. */
  method Transform2(g: Graph, w: int) returns (c: Graph)
    requires g.Valid() && 0 <= w < |g.nodes|
    ensures fresh(c) && c.Valid()
    ensures c.nodes == Transform2Adj(g.nodes, w)
    ensures c.edgeCount == g.edgeCount
  {
    ghost var a := g.nodes;
    c := new Graph.Copy(g);
    MirrorPred(a, g.backNodes, w);
    var backs := c.backNodes[w];
    var nexts := c.nodes[w];
    ReversePreds(c, a, w, backs);
    ReverseSuccs(c, a, w, nexts);
    FlipNeighbours(a, w);
  }
}
