/**
 * The two vertex-pair lists of the program: the pairs i < j that the
 * enumerator assigns a state to, and the ordered pairs i != j on which the
 * closure applies transform1.
 */
module Pairs {

  /** [(i, j) for j in range(lo, n)] */
  function Row(i: int, lo: int, n: int): (r: seq<(int, int)>)
    ensures |r| == if lo <= n then n - lo else 0
    ensures forall k :: 0 <= k < |r| ==> r[k] == (i, lo + k)
    decreases n - lo
  {
    if lo >= n then [] else [(i, lo)] + Row(i, lo + 1, n)
  }

  /** [(i, j) for i in range(from, n) for j in range(i+1, n)], with no pair
      twice and every pair in increasing order. */
  function UpperFrom(from: int, n: int): (r: seq<(int, int)>)
    requires 0 <= from <= n
    ensures 2 * |r| == (n - from) * (n - from - 1)
    ensures forall k :: 0 <= k < |r| ==> from <= r[k].0 < r[k].1 < n
    ensures forall k, l :: 0 <= k < l < |r| ==> r[k] != r[l]
    decreases n - from
  {
    if from == n then []
    else
      var row, rest := Row(from, from + 1, n), UpperFrom(from + 1, n);
      var m := n - from - 1;
      assert 2 * |row + rest| == (m + 1) * m by {
        assert 2 * |rest| == m * (m - 1);
        assert (m + 1) * m == 2 * m + m * (m - 1);
      }
      assert forall k, l :: 0 <= k < |row| <= l < |row| + |rest| ==> (row + rest)[k] != (row + rest)[l] by {
        forall k, l | 0 <= k < |row| <= l < |row| + |rest|
          ensures (row + rest)[k] != (row + rest)[l]
        {
          assert (row + rest)[l] == rest[l - |row|];
        }
      }
      row + rest
  }

  /** edges = [(i, j) for i in range(n) for j in range(i+1, n)]: the
      n(n-1)/2 unordered pairs, each once, written smaller vertex first. */
  function PairList(n: nat): (r: seq<(int, int)>)
    ensures |r| == n * (n - 1) / 2
    ensures forall k :: 0 <= k < |r| ==> 0 <= r[k].0 < r[k].1 < n
    ensures forall k, l :: 0 <= k < l < |r| ==> r[k] != r[l]
  {
    UpperFrom(0, n)
  }

  lemma {:induction false} UpperFromComplete(from: int, n: int, x: int, y: int)
    requires 0 <= from <= x < y < n
    ensures (x, y) in UpperFrom(from, n)
    decreases n - from
  {
    var row := Row(from, from + 1, n);
    if x == from {
      assert row[y - from - 1] == (x, y);
    } else {
      UpperFromComplete(from + 1, n, x, y);
    }
  }

  /** Every pair x < y of vertices is listed. */
  lemma PairListComplete(n: nat, x: int, y: int)
    requires 0 <= x < y < n
    ensures (x, y) in PairList(n)
  {
    UpperFromComplete(0, n, x, y);
  }

  /** [(i, j) for j in range(lo, n) if i != j] */
  function DuoRow(i: int, lo: int, n: int): (r: seq<(int, int)>)
    ensures forall e :: e in r ==> e.0 == i && lo <= e.1 < n && e.1 != i
    ensures forall j :: lo <= j < n && j != i ==> (i, j) in r
    decreases n - lo
  {
    if lo >= n then []
    else if lo == i then DuoRow(i, lo + 1, n)
    else [(i, lo)] + DuoRow(i, lo + 1, n)
  }

  /** [(i, j) for i in range(from, n) for j in range(n) if i != j] */
  function DuosFrom(from: int, n: int): (r: seq<(int, int)>)
    ensures forall e :: e in r ==> from <= e.0 < n && 0 <= e.1 < n && e.0 != e.1
    ensures forall i, j :: from <= i < n && 0 <= j < n && i != j ==> (i, j) in r
    decreases n - from
  {
    if from >= n then [] else DuoRow(from, 0, n) + DuosFrom(from + 1, n)
  }

  /** duos: every ordered pair of distinct vertices, and nothing else. */
  function Duos(n: nat): (r: seq<(int, int)>)
    ensures forall e :: e in r <==> 0 <= e.0 < n && 0 <= e.1 < n && e.0 != e.1
    ensures forall k :: 0 <= k < |r| ==> 0 <= r[k].0 < n && 0 <= r[k].1 < n && r[k].0 != r[k].1
  {
    var r := DuosFrom(0, n);
    assert forall k :: 0 <= k < |r| ==> r[k] in r;
    r
  }
}
