/**
 * The mutable graph store: per-vertex successor sets, per-vertex predecessor
 * sets and an edge counter, kept consistent by the one mutation, add_edge.
 */
module GraphStore {
  import opened Digraph

  /** b lists the predecessor sets of the graph whose successor sets are a. */
  ghost predicate Mirror(a: Adj, b: Adj)
  {
    && |b| == |a|
    && InRange(b)
    && (forall x, y :: 0 <= x < |a| && 0 <= y < |a| ==> (y in a[x] <==> x in b[y]))
  }

  /** The predecessor-set updates of add_edge keep the mirror of the successor-set updates. */
  lemma MirrorToggle(a: Adj, b: Adj, i: int, j: int, a': Adj, b': Adj)
    requires Simple(a) && Mirror(a, b) && 0 <= i < |a| && 0 <= j < |a| && i != j
    requires j in a[i] ==>
               a' == a[i := a[i] - {j}][j := a[j] + {i}] && b' == b[j := b[j] - {i}][i := b[i] + {j}]
    requires j !in a[i] && i in a[j] ==>
               a' == a[j := a[j] - {i}] && b' == b[i := b[i] - {j}]
    requires j !in a[i] && i !in a[j] ==>
               a' == a[i := a[i] + {j}] && b' == b[j := b[j] + {i}]
    ensures a' == Toggle(a, i, j) && Mirror(a', b')
  {
    assert a' == Toggle(a, i, j);
    forall x, y | 0 <= x < |b'| && y in b'[x]
      ensures 0 <= y < |b'|
    {
      if y !in b[x] {
        assert y == i || y == j;
      }
    }
    forall x, y | 0 <= x < |a'| && 0 <= y < |a'|
      ensures y in a'[x] <==> x in b'[y]
    {
      assert Edge(a', x, y) == AfterToggle(a, i, j, x, y);
    }
  }

  /** One add_edge on a consistent store yields a consistent store. */
  lemma StoreToggle(a: Adj, b: Adj, i: int, j: int, a': Adj, b': Adj)
    requires Simple(a) && Mirror(a, b) && 0 <= i < |a| && 0 <= j < |a| && i != j
    requires j in a[i] ==>
               a' == a[i := a[i] - {j}][j := a[j] + {i}] && b' == b[j := b[j] - {i}][i := b[i] + {j}]
    requires j !in a[i] && i in a[j] ==>
               a' == a[j := a[j] - {i}] && b' == b[i := b[i] - {j}]
    requires j !in a[i] && i !in a[j] ==>
               a' == a[i := a[i] + {j}] && b' == b[j := b[j] + {i}]
    ensures a' == Toggle(a, i, j) && Simple(a') && Mirror(a', b')
    ensures Edge(a, i, j) ==> EdgeCount(a') == EdgeCount(a)
    ensures Edge(a, j, i) ==> EdgeCount(a') == EdgeCount(a) - 1
    ensures !Edge(a, i, j) && !Edge(a, j, i) ==> EdgeCount(a') == EdgeCount(a) + 1
  {
    MirrorToggle(a, b, i, j, a', b');
    ToggleKeepsSimple(a, i, j);
    ToggleCases(a, i, j);
  }

  class Graph {
    /** nodes[x]: the successors of x. */
    var nodes: seq<set<int>>
    /** backNodes[y]: the predecessors of y. */
    var backNodes: seq<set<int>>
    var edgeCount: int

    /** The store's invariant: the two set lists mirror each other, the graph
        is simple and edgeCount is the number of present edges. */
    ghost predicate Valid()
      reads this
    {
      && Simple(nodes)
      && Mirror(nodes, backNodes)
      && edgeCount == EdgeCount(nodes)
    }

    /** A graph on nodeCount vertices without edges. */
    constructor (nodeCount: nat)
      ensures Valid() && nodes == Empty(nodeCount) && edgeCount == 0
    {
      nodes := seq(nodeCount, _ => {});
      backNodes := seq(nodeCount, _ => {});
      edgeCount := 0;
    }

    /** An independent deep copy of g. */
    constructor Copy(g: Graph)
      requires g.Valid()
      ensures Valid()
      ensures nodes == g.nodes && backNodes == g.backNodes && edgeCount == g.edgeCount
    {
      nodes := g.nodes;
      backNodes := g.backNodes;
      edgeCount := g.edgeCount;
    }

    /** add_edge(i, j): one step of the cycle absent → i→j → j→i → absent on
        the pair {i, j}; a no-op when i == j. */
    method AddEdge(i: int, j: int)
      requires Valid() && 0 <= i < |nodes| && 0 <= j < |nodes|
      modifies this
      ensures Valid()
      ensures nodes == Toggle(old(nodes), i, j)
      ensures forall x :: 0 <= x < |nodes| && x != i && x != j ==>
                nodes[x] == old(nodes[x]) && backNodes[x] == old(backNodes[x])
      ensures i == j ==> nodes == old(nodes) && backNodes == old(backNodes) && edgeCount == old(edgeCount)
      ensures i != j && old(Edge(nodes, i, j)) ==> edgeCount == old(edgeCount)
      ensures i != j && old(Edge(nodes, j, i)) ==> edgeCount == old(edgeCount) - 1
      ensures i != j && !old(Edge(nodes, i, j)) && !old(Edge(nodes, j, i)) ==> edgeCount == old(edgeCount) + 1
    {
      ghost var a, b := nodes, backNodes;
      if i != j {
        if j in nodes[i] {
          nodes := nodes[i := nodes[i] - {j}];
          backNodes := backNodes[j := backNodes[j] - {i}];
          nodes := nodes[j := nodes[j] + {i}];
          backNodes := backNodes[i := backNodes[i] + {j}];
        } else if i in nodes[j] {
          nodes := nodes[j := nodes[j] - {i}];
          backNodes := backNodes[i := backNodes[i] - {j}];
          edgeCount := edgeCount - 1;
        } else {
          nodes := nodes[i := nodes[i] + {j}];
          backNodes := backNodes[j := backNodes[j] + {i}];
          edgeCount := edgeCount + 1;
        }
        StoreToggle(a, b, i, j, nodes, backNodes);
      }
    }
  }

  /** The listed graphs are well-formed stores on n vertices whose successor
      sets are reps. */
  ghost predicate Stored(graphs: seq<Graph>, reps: seq<Adj>, n: nat)
    reads graphs
  {
    && |reps| == |graphs|
    && forall i :: 0 <= i < |graphs| ==> graphs[i].Valid() && graphs[i].nodes == reps[i] && |reps[i]| == n
  }
}
