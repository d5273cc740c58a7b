/**
 * Values of the graph store: the forward successor sets of a directed graph on
 * the vertices 0..n-1, the edge toggle that is the store's only mutation, and
 * the edge-set abstraction the other modules reason with.
 */
module Digraph {

  /** a[x] is the set of successors of vertex x; the vertex count is |a|. */
  type Adj = seq<set<int>>

  /** The invariant hash is a 128-bit digest (networkx's Weisfeiler-Lehman
      hash is a blake2b digest of 16 bytes, written as 32 hex digits). */
  const DIGEST_SPACE: nat := 0x1_0000_0000_0000_0000_0000_0000_0000_0000

  type Digest = d: int | 0 <= d < DIGEST_SPACE

  /** Directed edge x→y is present. */
  predicate Edge(a: Adj, x: int, y: int)
  {
    0 <= x < |a| && y in a[x]
  }

  /** Every successor is a vertex of the graph. */
  ghost predicate InRange(a: Adj)
  {
    forall x, y :: 0 <= x < |a| && y in a[x] ==> 0 <= y < |a|
  }

  /** No self-loops and at most one direction per unordered pair of vertices. */
  ghost predicate Simple(a: Adj)
  {
    && InRange(a)
    && (forall x :: 0 <= x < |a| ==> x !in a[x])
    && (forall x, y :: 0 <= x < |a| && 0 <= y < |a| && y in a[x] ==> x !in a[y])
  }

  /** The set of present directed edges. */
  ghost function Edges(a: Adj): set<(int, int)>
  {
    set x, y | 0 <= x < |a| && y in a[x] :: (x, y)
  }

  /** Membership in the edge set is presence of the edge. */
  lemma EdgesAt(a: Adj)
    ensures forall e :: e in Edges(a) <==> Edge(a, e.0, e.1)
  {
    forall e | e in Edges(a)
      ensures Edge(a, e.0, e.1)
    {
      var x, y :| 0 <= x < |a| && y in a[x] && e == (x, y);
    }
  }

  /** The number of present directed edges: what `edge_count` must equal. */
  ghost function EdgeCount(a: Adj): nat
  {
    |Edges(a)|
  }

  /** The graph on n vertices without edges. */
  function Empty(n: nat): (a: Adj)
    ensures |a| == n && Simple(a)
    ensures forall x, y :: !Edge(a, x, y)
    ensures EdgeCount(a) == 0
  {
    var r := seq(n, _ => {});
    EdgesAt(r);
    assert Edges(r) == {};
    r
  }

  /** Whether x→y is present after one toggle(i, j) of the three-state cycle
      "absent → i→j → j→i → absent" on the pair {i, j}. */
  ghost predicate AfterToggle(a: Adj, i: int, j: int, x: int, y: int)
  {
    if i != j && x == i && y == j then !Edge(a, i, j) && !Edge(a, j, i)
    else if i != j && x == j && y == i then Edge(a, i, j)
    else Edge(a, x, y)
  }

  /** The forward sets after add_edge(i, j). */
  function Toggle(a: Adj, i: int, j: int): (r: Adj)
    requires 0 <= i < |a| && 0 <= j < |a|
    ensures |r| == |a|
    ensures forall x, y :: Edge(r, x, y) <==> AfterToggle(a, i, j, x, y)
  {
    if i == j then a
    else if j in a[i] then a[i := a[i] - {j}][j := a[j] + {i}]
    else if i in a[j] then a[j := a[j] - {i}]
    else a[i := a[i] + {j}]
  }

  /** The forward sets after add_edge(i, j) for each pair (i, j) of ts in turn. */
  function Toggles(a: Adj, ts: seq<(int, int)>): (r: Adj)
    requires forall k :: 0 <= k < |ts| ==> 0 <= ts[k].0 < |a| && 0 <= ts[k].1 < |a|
    ensures |r| == |a|
    decreases |ts|
  {
    if ts == [] then a else Toggles(Toggle(a, ts[0].0, ts[0].1), ts[1..])
  }

  /** Two in-range adjacencies with the same edges are equal. */
  lemma AdjExt(a: Adj, b: Adj)
    requires |a| == |b| && InRange(a) && InRange(b)
    requires forall x, y :: 0 <= x < |a| && 0 <= y < |a| ==> (Edge(a, x, y) <==> Edge(b, x, y))
    ensures a == b
  {
    forall x | 0 <= x < |a|
      ensures a[x] == b[x]
    {
      forall y
        ensures y in a[x] <==> y in b[x]
      {
        if y in a[x] { assert Edge(a, x, y); }
        if y in b[x] { assert Edge(b, x, y); }
      }
    }
  }

  lemma {:induction false} ToggleKeepsSimple(a: Adj, i: int, j: int)
    requires Simple(a) && 0 <= i < |a| && 0 <= j < |a|
    ensures Simple(Toggle(a, i, j))
  {
    var r := Toggle(a, i, j);
    forall x, y | 0 <= x < |r| && y in r[x]
      ensures 0 <= y < |r|
    {
      assert Edge(r, x, y);
    }
    forall x | 0 <= x < |r|
      ensures x !in r[x]
    {
      assert !AfterToggle(a, i, j, x, x);
    }
    forall x, y | 0 <= x < |r| && 0 <= y < |r| && y in r[x]
      ensures x !in r[y]
    {
      assert Edge(r, x, y);
      assert !AfterToggle(a, i, j, y, x);
    }
  }

  /** The three cases of add_edge on the edge set, for a simple graph and a
      pair of distinct vertices. */
  lemma ToggleEdges(a: Adj, i: int, j: int)
    requires Simple(a) && 0 <= i < |a| && 0 <= j < |a| && i != j
    ensures Edges(Toggle(a, i, j)) ==
              if Edge(a, i, j) then Edges(a) - {(i, j)} + {(j, i)}
              else if Edge(a, j, i) then Edges(a) - {(j, i)}
              else Edges(a) + {(i, j)}
  {
    var r := Toggle(a, i, j);
    EdgesAt(a);
    EdgesAt(r);
    var expected :=
      if Edge(a, i, j) then Edges(a) - {(i, j)} + {(j, i)}
      else if Edge(a, j, i) then Edges(a) - {(j, i)}
      else Edges(a) + {(i, j)};
    forall e
      ensures e in Edges(r) <==> e in expected
    {
      assert Edge(r, e.0, e.1) == AfterToggle(a, i, j, e.0, e.1);
    }
    assert Edges(r) == expected;
  }

  /** The three cases of add_edge on the edge set and on the edge count,
      for a simple graph and a pair of distinct vertices. */
  lemma ToggleCases(a: Adj, i: int, j: int)
    requires Simple(a) && 0 <= i < |a| && 0 <= j < |a| && i != j
    ensures Edge(a, i, j) ==>
              Edges(Toggle(a, i, j)) == Edges(a) - {(i, j)} + {(j, i)} &&
              EdgeCount(Toggle(a, i, j)) == EdgeCount(a)
    ensures Edge(a, j, i) ==>
              Edges(Toggle(a, i, j)) == Edges(a) - {(j, i)} &&
              EdgeCount(Toggle(a, i, j)) == EdgeCount(a) - 1
    ensures !Edge(a, i, j) && !Edge(a, j, i) ==>
              Edges(Toggle(a, i, j)) == Edges(a) + {(i, j)} &&
              EdgeCount(Toggle(a, i, j)) == EdgeCount(a) + 1
  {
    ToggleEdges(a, i, j);
    EdgesAt(a);
    if Edge(a, i, j) {
      assert (i, j) in Edges(a) && (j, i) !in Edges(a) - {(i, j)};
    } else if Edge(a, j, i) {
      assert (j, i) in Edges(a);
    } else {
      assert (i, j) !in Edges(a);
    }
  }

  /** Three identical toggles return every pair to its state: the toggle is a
      three-state cycle, not a flip. */
  lemma {:induction false} ToggleThrice(a: Adj, i: int, j: int)
    requires Simple(a) && 0 <= i < |a| && 0 <= j < |a|
    ensures Toggle(Toggle(Toggle(a, i, j), i, j), i, j) == a
  {
    var r1 := Toggle(a, i, j);
    ToggleKeepsSimple(a, i, j);
    var r2 := Toggle(r1, i, j);
    ToggleKeepsSimple(r1, i, j);
    var r3 := Toggle(r2, i, j);
    ToggleKeepsSimple(r2, i, j);
    forall x, y | 0 <= x < |a| && 0 <= y < |a|
      ensures Edge(r3, x, y) <==> Edge(a, x, y)
    {
      assert AfterToggle(r2, i, j, x, y) == Edge(r3, x, y);
    }
    AdjExt(r3, a);
  }

  /** A set of integers without members is the empty set. */
  lemma NoMemberEmpty(s: set<int>)
    requires forall v :: v !in s
    ensures s == {}
  {
    assert forall v :: v in s <==> v in {};
  }

  /** A non-empty set of integers has a member: the witness a loop that
      takes an arbitrary element of a set needs. */
  lemma Member(s: set<int>) returns (x: int)
    requires s != {}
    ensures x in s
  {
    if forall v :: v !in s {
      NoMemberEmpty(s);
      assert false;
    }
    x :| x in s;
  }

  /** The integers 0..n-1, of which there are n. */
  function Below(n: nat): (r: set<int>)
    ensures forall x :: x in r <==> 0 <= x < n
    ensures |r| == n
  {
    if n == 0 then {} else Below(n - 1) + {n - 1}
  }

  /** A set of digests has at most DIGEST_SPACE elements. */
  lemma DigestSetBound(s: set<Digest>)
    ensures |s| <= DIGEST_SPACE
  {
    var all := Below(DIGEST_SPACE);
    var s': set<int> := s;
    assert s' <= all;
    assert |all| == |s'| + |all - s'|;
  }
}
