/**
 * Weighted edges, the walks they allow, and the sort by weight that the
 * agglomerative clustering starts with.
 */
module Edges {

  /** An edge from `u` to `v`.  The source weights are non-negative reals;
      here they are naturals. */
  datatype Edge = Edge(u: nat, v: nat, weight: nat)

  /** Both ends of every edge are vertices of a graph on `n` vertices. */
  ghost predicate EdgesWithin(n: nat, edges: seq<Edge>) {
    forall e :: e in edges ==> e.u < n && e.v < n
  }

  /** Some edge joins `x` and `y`, in either direction. */
  ghost predicate Linked(edges: seq<Edge>, x: nat, y: nat) {
    exists e :: e in edges && ((e.u == x && e.v == y) || (e.u == y && e.v == x))
  }

  /** A non-empty sequence of vertices, each linked to the next. */
  ghost predicate IsWalk(edges: seq<Edge>, p: seq<nat>) {
    |p| >= 1 && forall i :: 0 <= i < |p| - 1 ==> Linked(edges, p[i], p[i + 1])
  }

  /** Some walk leads from `x` to `y`. */
  ghost predicate Connected(edges: seq<Edge>, x: nat, y: nat) {
    exists p :: IsWalk(edges, p) && p[0] == x && p[|p| - 1] == y
  }

  /** Every vertex can be reached from vertex 0. */
  ghost predicate AllConnected(n: nat, edges: seq<Edge>) {
    forall x :: 0 <= x < n ==> Connected(edges, 0, x)
  }

  lemma ConnectedRefl(edges: seq<Edge>, x: nat)
    ensures Connected(edges, x, x)
  {
    assert IsWalk(edges, [x]);
  }

  lemma ConnectedLink(edges: seq<Edge>, x: nat, y: nat)
    requires Linked(edges, x, y)
    ensures Connected(edges, x, y)
  {
    assert IsWalk(edges, [x, y]);
  }

  lemma ConnectedSym(edges: seq<Edge>, x: nat, y: nat)
    requires Connected(edges, x, y)
    ensures Connected(edges, y, x)
  {
    var p :| IsWalk(edges, p) && p[0] == x && p[|p| - 1] == y;
    var q := seq(|p|, i requires 0 <= i < |p| => p[|p| - 1 - i]);
    forall i | 0 <= i < |q| - 1
      ensures Linked(edges, q[i], q[i + 1])
    {
      var j := |p| - 2 - i;
      assert Linked(edges, p[j], p[j + 1]);
    }
    assert IsWalk(edges, q);
  }

  lemma ConnectedTrans(edges: seq<Edge>, x: nat, y: nat, z: nat)
    requires Connected(edges, x, y) && Connected(edges, y, z)
    ensures Connected(edges, x, z)
  {
    var p :| IsWalk(edges, p) && p[0] == x && p[|p| - 1] == y;
    var q :| IsWalk(edges, q) && q[0] == y && q[|q| - 1] == z;
    var r := p + q[1..];
    forall i | 0 <= i < |r| - 1
      ensures Linked(edges, r[i], r[i + 1])
    {
      if i < |p| - 1 {
        assert r[i] == p[i] && r[i + 1] == p[i + 1];
      } else {
        var j := i - (|p| - 1);
        assert r[i] == q[j] && r[i + 1] == q[j + 1];
      }
    }
    assert IsWalk(edges, r);
  }

  /** Walks survive a change of edge list that keeps every edge. */
  lemma ConnectedMono(edges: seq<Edge>, more: seq<Edge>, x: nat, y: nat)
    requires forall e :: e in edges ==> e in more
    requires Connected(edges, x, y)
    ensures Connected(more, x, y)
  {
    var p :| IsWalk(edges, p) && p[0] == x && p[|p| - 1] == y;
    forall i | 0 <= i < |p| - 1
      ensures Linked(more, p[i], p[i + 1])
    {
      assert Linked(edges, p[i], p[i + 1]);
    }
    assert IsWalk(more, p);
  }

  ghost predicate SortedByWeight(edges: seq<Edge>) {
    forall i, j :: 0 <= i < j < |edges| ==> edges[i].weight <= edges[j].weight
  }

  /** Inserts `e` before the first edge that is at least as heavy. */
  function InsertByWeight(e: Edge, sorted: seq<Edge>): (r: seq<Edge>)
    requires SortedByWeight(sorted)
    ensures SortedByWeight(r)
    ensures multiset(r) == multiset(sorted) + multiset{e}
    ensures r[0] == e || (|sorted| > 0 && r[0] == sorted[0])
  {
    if |sorted| == 0 || e.weight <= sorted[0].weight then
      PrependSorted(e, sorted);
      [e] + sorted
    else
      var rest := InsertByWeight(e, sorted[1..]);
      assert sorted == [sorted[0]] + sorted[1..];
      PrependSorted(sorted[0], rest);
      [sorted[0]] + rest
  }

  /** An edge no heavier than the first of a sorted sequence can go in
      front of it. */
  lemma PrependSorted(x: Edge, s: seq<Edge>)
    requires SortedByWeight(s) && (|s| == 0 || x.weight <= s[0].weight)
    ensures SortedByWeight([x] + s)
  {
    var r := [x] + s;
    forall i, j | 0 <= i < j < |r|
      ensures r[i].weight <= r[j].weight
    {
      if i == 0 {
        assert r[j] == s[j - 1];
        assert s[0].weight <= s[j - 1].weight;
      } else {
        assert r[i] == s[i - 1] && r[j] == s[j - 1];
      }
    }
  }

  /** Insertion sort by weight: the edges in nondecreasing weight order.
      An edge is never moved past an equally heavy one, so equal weights
      keep their input order as in Python's stable sort. */
  function SortByWeight(edges: seq<Edge>): (r: seq<Edge>)
    ensures SortedByWeight(r)
    ensures multiset(r) == multiset(edges)
  {
    if |edges| == 0 then []
    else
      assert edges == [edges[0]] + edges[1..];
      InsertByWeight(edges[0], SortByWeight(edges[1..]))
  }
}
