/**
 * Vertex bijections, the image of a graph under one, the list of all of them
 * that the exhaustive isomorphism search walks, and the isomorphism relation.
 */
module Permutations {
  import opened Digraph

  /** p is a bijection on 0..n-1, written as the tuple (p[0], ..., p[n-1]). */
  predicate IsPerm(p: seq<int>, n: int)
  {
    && |p| == n
    && (forall i :: 0 <= i < |p| ==> 0 <= p[i] < n)
    && (forall i, j :: 0 <= i < j < |p| ==> p[i] != p[j])
    && (forall v :: 0 <= v < n ==> v in p)
  }

  /** A bijection never sends two vertices to one. */
  lemma PermInjective(p: seq<int>, n: int, i: int, j: int)
    requires IsPerm(p, n) && 0 <= i < n && 0 <= j < n && p[i] == p[j]
    ensures i == j
  {
  }

  /** Vertex x of the input is vertex v of the image and y is w. */
  ghost predicate Maps(p: seq<int>, x: int, y: int, v: int, w: int)
    requires 0 <= x < |p| && 0 <= y < |p|
  {
    p[x] == v && p[y] == w
  }

  /** v→w is the image under p of an edge of a. */
  ghost predicate ImageEdge(a: Adj, p: seq<int>, v: int, w: int)
    requires |p| == |a|
  {
    exists x, y :: 0 <= x < |a| && 0 <= y < |a| && Maps(p, x, y, v, w) && y in a[x]
  }

  /** The successor sets of apply_permutation(a, p): p[x]→p[y] for every edge x→y of a. */
  ghost function Permute(a: Adj, p: seq<int>): (r: Adj)
    requires IsPerm(p, |a|) && InRange(a)
    ensures |r| == |a| && InRange(r)
    ensures forall x, y :: 0 <= x < |a| && 0 <= y < |a| ==> (Edge(r, p[x], p[y]) <==> Edge(a, x, y))
  {
    var n := |a|;
    var r := seq(n, v requires 0 <= v < n =>
                   set w | 0 <= w < n && ImageEdge(a, p, v, w));
    assert forall x, y :: 0 <= x < n && 0 <= y < n ==> (Edge(r, p[x], p[y]) <==> Edge(a, x, y)) by {
      forall x, y | 0 <= x < n && 0 <= y < n
        ensures Edge(r, p[x], p[y]) <==> Edge(a, x, y)
      {
        if Edge(r, p[x], p[y]) {
          var x', y' :| 0 <= x' < n && 0 <= y' < n && Maps(p, x', y', p[x], p[y]) && y' in a[x'];
          PermInjective(p, n, x', x);
          PermInjective(p, n, y', y);
        }
        if Edge(a, x, y) {
          assert Maps(p, x, y, p[x], p[y]);
        }
      }
    }
    r
  }

  /** The identity bijection. */
  function Identity(n: nat): (p: seq<int>)
    ensures IsPerm(p, n)
  {
    var p := seq(n, i => i);
    assert forall v :: 0 <= v < n ==> v in p by {
      forall v | 0 <= v < n ensures v in p { assert p[v] == v; }
    }
    p
  }

  /** Position of v in p. */
  function IndexOf(p: seq<int>, v: int): (k: nat)
    requires v in p
    ensures k < |p| && p[k] == v
  {
    if p[0] == v then 0 else 1 + IndexOf(p[1..], v)
  }

  /** The inverse bijection. */
  function Inverse(p: seq<int>): (q: seq<int>)
    requires IsPerm(p, |p|)
    ensures IsPerm(q, |p|)
    ensures forall x :: 0 <= x < |p| ==> q[p[x]] == x && p[q[x]] == x
  {
    var n := |p|;
    var q := seq(n, v requires 0 <= v < n => IndexOf(p, v));
    forall x | 0 <= x < n
      ensures q[p[x]] == x
    {
      PermInjective(p, n, q[p[x]], x);
    }
    forall v | 0 <= v < n
      ensures v in q
    {
      assert q[p[v]] == v;
    }
    q
  }

  /** Image under the identity. */
  lemma PermuteIdentity(a: Adj)
    requires InRange(a)
    ensures Permute(a, Identity(|a|)) == a
  {
    var id := Identity(|a|);
    var r := Permute(a, id);
    forall x, y | 0 <= x < |a| && 0 <= y < |a|
      ensures Edge(r, x, y) <==> Edge(a, x, y)
    {
      assert id[x] == x && id[y] == y;
    }
    AdjExt(r, a);
  }

  /** The image is the only graph on the same vertices with the edge
      p[x]→p[y] exactly for the edges x→y. */
  lemma PermuteUnique(a: Adj, p: seq<int>, r: Adj)
    requires InRange(a) && IsPerm(p, |a|) && InRange(r) && |r| == |a|
    requires forall x, y :: 0 <= x < |a| && 0 <= y < |a| ==> (Edge(r, p[x], p[y]) <==> Edge(a, x, y))
    ensures r == Permute(a, p)
  {
    var image := Permute(a, p);
    var q := Inverse(p);
    forall v, w | 0 <= v < |a| && 0 <= w < |a|
      ensures Edge(r, v, w) <==> Edge(image, v, w)
    {
      assert p[q[v]] == v && p[q[w]] == w;
    }
    AdjExt(r, image);
  }

  /** Mapping back with the inverse undoes a permutation. */
  lemma PermuteInverse(a: Adj, p: seq<int>)
    requires InRange(a) && IsPerm(p, |a|)
    ensures Permute(Permute(a, p), Inverse(p)) == a
  {
    var q := Inverse(p);
    var b := Permute(a, p);
    var r := Permute(b, q);
    forall x, y | 0 <= x < |a| && 0 <= y < |a|
      ensures Edge(r, x, y) <==> Edge(a, x, y)
    {
      assert q[p[x]] == x && q[p[y]] == y;
      assert Edge(r, q[p[x]], q[p[y]]) <==> Edge(b, p[x], p[y]);
    }
    AdjExt(r, a);
  }

  /** A permutation keeps the graph simple. */
  lemma PermuteSimple(a: Adj, p: seq<int>)
    requires Simple(a) && IsPerm(p, |a|)
    ensures Simple(Permute(a, p))
  {
    var r := Permute(a, p);
    var q := Inverse(p);
    forall v | 0 <= v < |r|
      ensures v !in r[v]
    {
      assert p[q[v]] == v;
      assert !Edge(a, q[v], q[v]);
    }
    forall v, w | 0 <= v < |r| && 0 <= w < |r| && w in r[v]
      ensures v !in r[w]
    {
      assert p[q[v]] == v && p[q[w]] == w;
      assert Edge(r, p[q[v]], p[q[w]]);
      assert !Edge(a, q[w], q[v]);
    }
  }

  /** Every edge of the image is the image of an edge. */
  lemma PermuteEdgesInto(a: Adj, p: seq<int>)
    requires InRange(a) && IsPerm(p, |a|)
    ensures forall e :: e in Edges(Permute(a, p)) ==> e in set e | e in Edges(a) :: PairImage(p, e)
  {
    var r := Permute(a, p);
    var q := Inverse(p);
    EdgesAt(a);
    EdgesAt(r);
    forall e | e in Edges(r)
      ensures e in set e | e in Edges(a) :: PairImage(p, e)
    {
      var (v, w) := e;
      assert p[q[v]] == v && p[q[w]] == w;
      assert Edge(a, q[v], q[w]);
      assert PairImage(p, (q[v], q[w])) == e;
    }
  }

  /** The image of every edge is an edge of the image. */
  lemma PermuteEdgesOnto(a: Adj, p: seq<int>)
    requires InRange(a) && IsPerm(p, |a|)
    ensures forall e :: e in Edges(a) ==> PairImage(p, e) in Edges(Permute(a, p))
  {
    var r := Permute(a, p);
    EdgesAt(a);
    EdgesAt(r);
    forall e | e in Edges(a)
      ensures PairImage(p, e) in Edges(r)
    {
      assert Edge(r, p[e.0], p[e.1]);
    }
  }

  /** The edge set of the image is the image of the edge set. */
  lemma PermuteEdges(a: Adj, p: seq<int>)
    requires InRange(a) && IsPerm(p, |a|)
    ensures Edges(Permute(a, p)) == set e | e in Edges(a) :: PairImage(p, e)
  {
    PermuteEdgesInto(a, p);
    PermuteEdgesOnto(a, p);
  }

  /** The image of a vertex pair; pairs outside the vertex range are left alone. */
  function PairImage(p: seq<int>, e: (int, int)): (int, int)
  {
    if 0 <= e.0 < |p| && 0 <= e.1 < |p| then (p[e.0], p[e.1]) else e
  }

  lemma PairImageInjective(a: Adj, p: seq<int>)
    requires InRange(a) && IsPerm(p, |a|)
    ensures forall e1, e2 :: e1 in Edges(a) && e2 in Edges(a) && PairImage(p, e1) == PairImage(p, e2) ==> e1 == e2
  {
    EdgesAt(a);
    forall e1, e2 | e1 in Edges(a) && e2 in Edges(a) && PairImage(p, e1) == PairImage(p, e2)
      ensures e1 == e2
    {
      PermInjective(p, |a|, e1.0, e2.0);
      PermInjective(p, |a|, e1.1, e2.1);
    }
  }

  /** A map of pairs that is injective on s keeps the size of s. */
  lemma {:induction false} PairImageCard(s: set<(int, int)>, p: seq<int>)
    requires forall e1, e2 :: e1 in s && e2 in s && PairImage(p, e1) == PairImage(p, e2) ==> e1 == e2
    ensures |set e | e in s :: PairImage(p, e)| == |s|
    decreases |s|
  {
    if s != {} {
      var z :| z in s;
      var s' := s - {z};
      PairImageCard(s', p);
      var img := set e | e in s :: PairImage(p, e);
      var img' := set e | e in s' :: PairImage(p, e);
      assert img == img' + {PairImage(p, z)};
      assert PairImage(p, z) !in img';
    }
  }

  /** A permutation keeps the number of edges: the source relies on this when
      it rejects graphs whose edge counts differ. */
  lemma PermuteEdgeCount(a: Adj, p: seq<int>)
    requires InRange(a) && IsPerm(p, |a|)
    ensures EdgeCount(Permute(a, p)) == EdgeCount(a)
  {
    PairImageInjective(a, p);
    PairImageCard(Edges(a), p);
    PermuteEdges(a, p);
  }

  /** a and b are isomorphic: some bijection on their vertices maps a's
      successor sets exactly onto b's. */
  ghost predicate Isomorphic(a: Adj, b: Adj)
  {
    InRange(a) && |a| == |b| && exists p :: IsPerm(p, |a|) && Permute(a, p) == b
  }

  lemma IsomorphicReflexive(a: Adj)
    requires InRange(a)
    ensures Isomorphic(a, a)
  {
    PermuteIdentity(a);
  }

  lemma IsomorphicSymmetric(a: Adj, b: Adj)
    requires Isomorphic(a, b)
    ensures Isomorphic(b, a)
  {
    var p :| IsPerm(p, |a|) && Permute(a, p) == b;
    PermuteInverse(a, p);
    assert IsPerm(Inverse(p), |b|);
  }

  /** A graph is isomorphic to its image under any bijection: are_isomorphic
      accepts a graph and the apply_permutation of it. */
  lemma IsomorphicToImage(a: Adj, p: seq<int>)
    requires InRange(a) && IsPerm(p, |a|)
    ensures Isomorphic(a, Permute(a, p))
  {
    assert IsPerm(p, |a|) && Permute(a, p) == Permute(a, p);
  }

  /** Isomorphic graphs have the same number of edges. */
  lemma IsomorphicEdgeCount(a: Adj, b: Adj)
    requires Isomorphic(a, b)
    ensures EdgeCount(a) == EdgeCount(b)
  {
    var p :| IsPerm(p, |a|) && Permute(a, p) == b;
    PermuteEdgeCount(a, p);
  }

  /** p with v placed at position k. */
  function Insert(p: seq<int>, k: nat, v: int): (q: seq<int>)
    requires k <= |p|
    ensures |q| == |p| + 1 && q[k] == v
  {
    p[..k] + [v] + p[k..]
  }

  /** Placing the new vertex n anywhere in a bijection on 0..n-1 gives a bijection on 0..n. */
  lemma InsertPerm(p: seq<int>, k: nat, n: nat)
    requires IsPerm(p, n) && k <= n
    ensures IsPerm(Insert(p, k, n), n + 1)
  {
    var q := Insert(p, k, n);
    assert forall i :: 0 <= i < k ==> q[i] == p[i];
    assert forall i :: k < i <= n ==> q[i] == p[i - 1];
    forall v | 0 <= v < n + 1
      ensures v in q
    {
      if v < n {
        var i := IndexOf(p, v);
        if i < k { assert q[i] == v; } else { assert q[i + 1] == v; }
      }
    }
  }

  /** Every placement of v in p, in order of position. */
  function InsertEverywhere(p: seq<int>, v: int): (r: seq<seq<int>>)
    ensures |r| == |p| + 1 && forall k :: 0 <= k <= |p| ==> r[k] == Insert(p, k, v)
  {
    seq(|p| + 1, k requires 0 <= k <= |p| => Insert(p, k, v))
  }

  /** Every placement of the new vertex n in every bijection of ps, in order. */
  function ExtendAll(ps: seq<seq<int>>, n: nat): (r: seq<seq<int>>)
    requires forall p :: p in ps ==> IsPerm(p, n)
    ensures forall q :: q in r ==> IsPerm(q, n + 1)
  {
    if ps == [] then []
    else
      var here := InsertEverywhere(ps[0], n);
      assert forall q :: q in here ==> IsPerm(q, n + 1) by {
        forall q | q in here
          ensures IsPerm(q, n + 1)
        {
          var k :| 0 <= k < |here| && here[k] == q;
          InsertPerm(ps[0], k, n);
        }
      }
      here + ExtendAll(ps[1..], n)
  }

  lemma {:induction false} ExtendAllHas(ps: seq<seq<int>>, n: nat, p: seq<int>, k: nat)
    requires forall p :: p in ps ==> IsPerm(p, n)
    requires p in ps && k <= |p|
    ensures Insert(p, k, n) in ExtendAll(ps, n)
  {
    if ps[0] != p {
      ExtendAllHas(ps[1..], n, p, k);
    } else {
      assert InsertEverywhere(p, n)[k] == Insert(p, k, n);
    }
  }

  /** generate_all_permutations(n): a list of bijections on 0..n-1. */
  function AllPermutations(n: nat): (r: seq<seq<int>>)
    ensures forall p :: p in r ==> IsPerm(p, n)
  {
    if n == 0 then [[]] else ExtendAll(AllPermutations(n - 1), n - 1)
  }

  /** Cutting the largest vertex out of a bijection leaves a bijection on
      the others. */
  lemma CutPerm(p: seq<int>, n: nat, k: nat, p': seq<int>)
    requires IsPerm(p, n) && n > 0 && k < n && p[k] == n - 1 && p' == p[..k] + p[k + 1..]
    ensures IsPerm(p', n - 1)
  {
    assert forall i :: 0 <= i < k ==> p'[i] == p[i];
    assert forall i :: k <= i < n - 1 ==> p'[i] == p[i + 1];
    forall i | 0 <= i < n - 1
      ensures 0 <= p'[i] < n - 1
    {
      if i < k {
        if p[i] == n - 1 { PermInjective(p, n, i, k); }
      } else {
        if p[i + 1] == n - 1 { PermInjective(p, n, i + 1, k); }
      }
    }
    forall v | 0 <= v < n - 1
      ensures v in p'
    {
      var j := IndexOf(p, v);
      if j < k { assert p'[j] == v; } else { assert j != k; assert p'[j - 1] == v; }
    }
  }

  /** Putting a cut-out element back where it was restores the sequence. */
  lemma CutInsert(p: seq<int>, k: nat)
    requires k < |p|
    ensures Insert(p[..k] + p[k + 1..], k, p[k]) == p
  {
    var p' := p[..k] + p[k + 1..];
    assert p[..k] == p'[..k];
    assert p[k + 1..] == p'[k..];
    assert p == p[..k] + [p[k]] + p[k + 1..];
  }

  /** Removing the largest vertex n-1 from a bijection on 0..n-1 leaves a
      bijection on 0..n-2 into which it inserts back. */
  lemma RemoveLargest(p: seq<int>, n: nat) returns (p': seq<int>, k: nat)
    requires IsPerm(p, n) && n > 0
    ensures IsPerm(p', n - 1) && k <= n - 1 && Insert(p', k, n - 1) == p
  {
    k := IndexOf(p, n - 1);
    p' := p[..k] + p[k + 1..];
    CutPerm(p, n, k, p');
    CutInsert(p, k);
  }

  /** Every bijection on 0..n-1 is tried by the exhaustive search. */
  lemma {:induction false} AllPermutationsComplete(p: seq<int>, n: nat)
    requires IsPerm(p, n)
    ensures p in AllPermutations(n)
    decreases n
  {
    if n == 0 {
      assert p == [];
    } else {
      var p', k := RemoveLargest(p, n);
      AllPermutationsComplete(p', n - 1);
      ExtendAllHas(AllPermutations(n - 1), n - 1, p', k);
    }
  }
}
