/**
 * The greedy covering of a forest: vertices with no uncovered neighbour are
 * covered on their own, and a vertex with exactly one uncovered neighbour is
 * covered together with that neighbour, which joins the vertex cover.
 */
module MinimumVertexCover {

  /** Adjacency lists of a graph on the vertices `0 .. |adj|-1`. */
  type Adjacency = seq<seq<nat>>

  /** Every adjacency entry names a vertex. */
  ghost predicate Within(adj: Adjacency) {
    forall v, i :: 0 <= v < |adj| && 0 <= i < |adj[v]| ==> adj[v][i] < |adj|
  }

  /** Every edge is listed at both of its ends. */
  ghost predicate Symmetric(adj: Adjacency) {
    && Within(adj)
    && forall v, w :: 0 <= v < |adj| && w in adj[v] ==> v in adj[w]
  }

  /** `adj` is a forest, witnessed by a parent `up` for every vertex (a root
      is its own parent) and a depth that grows from parent to child: every
      neighbour of `v` is its parent or one of its children, no vertex is
      its own neighbour and no neighbour is listed twice. */
  ghost predicate RootedForest(adj: Adjacency, up: seq<nat>, depth: seq<nat>) {
    && Within(adj)
    && |up| == |adj| && |depth| == |adj|
    && (forall v :: 0 <= v < |adj| ==> up[v] < |adj| && (up[v] != v ==> depth[up[v]] < depth[v]))
    && (forall v, w :: 0 <= v < |adj| && w in adj[v] && w < |adj| ==> w != v && (w == up[v] || up[w] == v))
    && (forall v :: 0 <= v < |adj| ==> Distinct(adj[v]))
  }

  /** No entry is listed twice. */
  predicate Distinct(s: seq<nat>) {
    forall i, j :: 0 <= i < j < |s| ==> s[i] != s[j]
  }

  /** `c` is a set of vertices touching every edge. */
  ghost predicate IsVertexCover(adj: Adjacency, c: set<nat>) {
    && (forall x :: x in c ==> x < |adj|)
    && (forall u, w :: 0 <= u < |adj| && w in adj[u] ==> u in c || w in c)
  }

  /** The uncovered entries of a neighbour list, in list order. */
  function Uncovered(ns: seq<nat>, covered: seq<bool>): (r: seq<nat>)
    requires forall i :: 0 <= i < |ns| ==> ns[i] < |covered|
    ensures |r| <= |ns|
    ensures forall x :: x in r <==> x in ns && !covered[x]
    ensures forall i :: 0 <= i < |r| ==> r[i] < |covered| && !covered[r[i]]
    decreases |ns|
  {
    if |ns| == 0 then []
    else
      var last := ns[|ns| - 1];
      assert ns == ns[..|ns| - 1] + [last];
      var rest := Uncovered(ns[..|ns| - 1], covered);
      if covered[last] then rest else rest + [last]
  }

  /** Counts the uncovered neighbours of `v` and remembers the last one; the
      end is 0 when there is none. */
  method MeasureColourlessTail(adj: Adjacency, v: nat, covered: seq<bool>) returns (end: nat, length: nat)
    requires v < |adj| && forall i :: 0 <= i < |adj[v]| ==> adj[v][i] < |covered|
    ensures length == |Uncovered(adj[v], covered)| && length <= |adj[v]|
    ensures length == 0 ==> end == 0
    ensures length > 0 ==> end == Uncovered(adj[v], covered)[length - 1] && end in adj[v] && !covered[end]
    ensures length == 0 <==> forall x :: x in adj[v] ==> covered[x]
    ensures length == 1 ==> forall x :: x in adj[v] && !covered[x] ==> x == end
  {
    var ns := adj[v];
    end, length := 0, 0;
    for i := 0 to |ns|
      invariant length == |Uncovered(ns[..i], covered)|
      invariant length == 0 ==> end == 0
      invariant length > 0 ==> end == Uncovered(ns[..i], covered)[length - 1]
    {
      UncoveredStep(ns, covered, i);
      if !covered[ns[i]] {
        length := length + 1;
        end := ns[i];
      }
    }
    assert ns[..|ns|] == ns;
    UncoveredFew(ns, covered);
  }

  /** `Uncovered` on one more neighbour keeps what it had and adds that
      neighbour when it is uncovered. */
  lemma UncoveredStep(ns: seq<nat>, covered: seq<bool>, i: nat)
    requires forall i :: 0 <= i < |ns| ==> ns[i] < |covered|
    requires i < |ns|
    ensures Uncovered(ns[..i + 1], covered)
      == if covered[ns[i]] then Uncovered(ns[..i], covered) else Uncovered(ns[..i], covered) + [ns[i]]
  {
    assert ns[..i + 1][..i] == ns[..i];
  }

  /** No uncovered neighbour means every neighbour is covered, and a single
      one is the only uncovered neighbour. */
  lemma UncoveredFew(ns: seq<nat>, covered: seq<bool>)
    requires forall i :: 0 <= i < |ns| ==> ns[i] < |covered|
    ensures |Uncovered(ns, covered)| == 0 <==> forall x :: x in ns ==> covered[x]
    ensures |Uncovered(ns, covered)| == 1 ==> forall x :: x in ns && !covered[x] ==> x == Uncovered(ns, covered)[0]
  {
    var u := Uncovered(ns, covered);
    if |u| > 0 {
      assert u[0] in u;
    }
  }

  /** Every flag set in `a` is still set in `b`. */
  ghost predicate Monotone(a: seq<bool>, b: seq<bool>) {
    |a| == |b| && forall i :: 0 <= i < |a| && a[i] ==> b[i]
  }

  /** The loop state: which vertices are covered, and how many vertices
      have joined the cover. */
  datatype State = State(covered: seq<bool>, size: nat)

  /** One turn of the inner loop, for vertex `idx`. */
  function Visit(adj: Adjacency, s: State, idx: nat): (r: State)
    requires Within(adj) && |s.covered| == |adj| && idx < |adj|
    ensures Monotone(s.covered, r.covered)
    ensures r.covered == s.covered <==> s.covered[idx] || |Uncovered(adj[idx], s.covered)| >= 2
    ensures r.size == if !s.covered[idx] && |Uncovered(adj[idx], s.covered)| == 1 then s.size + 1 else s.size
    ensures !s.covered[idx] && |Uncovered(adj[idx], s.covered)| == 1 ==>
      r.covered == s.covered[idx := true][Uncovered(adj[idx], s.covered)[0] := true]
    ensures !s.covered[idx] && |Uncovered(adj[idx], s.covered)| == 0 ==> r.covered == s.covered[idx := true]
  {
    if s.covered[idx] then s
    else
      var u := Uncovered(adj[idx], s.covered);
      if |u| == 1 then
        assert u[0] in u;
        State(s.covered[idx := true][u[0] := true], s.size + 1)
      else if |u| == 0 then State(s.covered[idx := true], s.size)
      else s
  }

  /** A pairing the loop made: `leaf` had `end` as its only uncovered
      neighbour, and `end` joined the cover. */
  datatype Pick = Pick(leaf: nat, end: nat)

  /** Two picks share no vertex. */
  predicate Apart(p: Pick, q: Pick) {
    p.leaf != q.leaf && p.leaf != q.end && p.end != q.leaf && p.end != q.end
  }

  /** What the loop keeps between turns: the cover holds one vertex per
      pick and only covered vertices; the picks are edges between covered
      vertices, no two sharing a vertex; and every edge at a covered vertex
      is already touched by the cover, at that vertex or at a covered other
      end. */
  ghost predicate Greedy(adj: Adjacency, covered: seq<bool>, size: nat, cover: set<nat>, picks: seq<Pick>) {
    && |covered| == |adj|
    && |picks| == size && |cover| == size
    && (forall x :: x in cover ==> x < |adj| && covered[x])
    && (forall i :: 0 <= i < |picks| ==>
          && picks[i].leaf < |adj| && covered[picks[i].leaf]
          && picks[i].end in adj[picks[i].leaf] && picks[i].end in cover)
    && (forall i, j :: 0 <= i < j < |picks| ==> Apart(picks[i], picks[j]))
    && (forall u, w :: 0 <= u < |adj| && w in adj[u] && covered[u] ==>
          u in cover || (w < |covered| && covered[w] && w in cover))
  }

  lemma GreedyStart(adj: Adjacency)
    ensures Greedy(adj, seq(|adj|, _ => false), 0, {}, [])
  {
  }

  /** Covering a vertex whose neighbours are all covered keeps the loop
      invariant. */
  lemma IsolatedKeepsGreedy(adj: Adjacency, covered: seq<bool>, size: nat, cover: set<nat>, picks: seq<Pick>, idx: nat)
    requires Symmetric(adj) && Greedy(adj, covered, size, cover, picks)
    requires idx < |adj| && !covered[idx]
    requires forall w :: w in adj[idx] ==> covered[w]
    ensures Greedy(adj, covered[idx := true], size, cover, picks)
  {
    var c := covered[idx := true];
    forall u, w | 0 <= u < |adj| && w in adj[u] && c[u]
      ensures u in cover || (w < |c| && c[w] && w in cover)
    {
      if u == idx {
        assert idx in adj[w];
      }
    }
  }

  /** Covering a vertex together with its only uncovered neighbour, which
      joins the cover, keeps the loop invariant. */
  lemma PickKeepsGreedy(adj: Adjacency, covered: seq<bool>, size: nat, cover: set<nat>, picks: seq<Pick>, idx: nat, end: nat)
    requires Symmetric(adj) && Greedy(adj, covered, size, cover, picks)
    requires idx < |adj| && !covered[idx]
    requires end in adj[idx] && !covered[end]
    requires forall w :: w in adj[idx] && !covered[w] ==> w == end
    ensures Greedy(adj, covered[idx := true][end := true], size + 1, cover + {end}, picks + [Pick(idx, end)])
  {
    var c := covered[idx := true][end := true];
    var cover' := cover + {end};
    var picks' := picks + [Pick(idx, end)];
    assert end !in cover;
    assert |cover'| == |cover| + 1;
    forall i, j | 0 <= i < j < |picks'|
      ensures Apart(picks'[i], picks'[j])
    {
      if j == |picks| {
        assert picks[i].end in cover;
      }
    }
    forall u, w | 0 <= u < |adj| && w in adj[u] && c[u]
      ensures u in cover' || (w < |c| && c[w] && w in cover')
    {
      if u == idx && w != end {
        assert idx in adj[w];
      }
    }
  }

  /** The greedy step applies nowhere: every uncovered vertex has at least
      two uncovered neighbours. */
  ghost predicate Stuck(adj: Adjacency, covered: seq<bool>)
    requires Within(adj) && |covered| == |adj|
  {
    forall idx :: 0 <= idx < |adj| && !covered[idx] ==> |Uncovered(adj[idx], covered)| >= 2
  }

  /** One turn of the inner loop, as the source writes it: an uncovered
      vertex with one uncovered neighbour is covered with it and the count
      grows; one with none is covered alone; anything else is left alone.
      The turn runs on any adjacency lists whose entries are vertices; on
      symmetric lists it also keeps the invariant `Greedy`, with the ghost
      cover and picks extended by the turn's pick. */
  method Turn(adj: Adjacency, covered: seq<bool>, size: nat, ghost cover: set<nat>, ghost picks: seq<Pick>, idx: nat)
    returns (covered': seq<bool>, size': nat, ghost cover': set<nat>, ghost picks': seq<Pick>)
    requires Within(adj) && |covered| == |adj| && idx < |adj|
    ensures State(covered', size') == Visit(adj, State(covered, size), idx)
    ensures Symmetric(adj) && Greedy(adj, covered, size, cover, picks) ==> Greedy(adj, covered', size', cover', picks')
  {
    covered', size', cover', picks' := covered, size, cover, picks;
    if !covered[idx] {
      var tailEnd, tailLength := MeasureColourlessTail(adj, idx, covered);
      if tailLength == 1 {
        if Symmetric(adj) && Greedy(adj, covered, size, cover, picks) {
          PickKeepsGreedy(adj, covered, size, cover, picks, idx, tailEnd);
        }
        cover', picks' := cover + {tailEnd}, picks + [Pick(idx, tailEnd)];
        covered' := covered[idx := true][tailEnd := true];
        size' := size + 1;
      } else if tailLength == 0 {
        if Symmetric(adj) && Greedy(adj, covered, size, cover, picks) {
          IsolatedKeepsGreedy(adj, covered, size, cover, picks, idx);
        }
        covered' := covered[idx := true];
      }
    }
  }

  /** One pass of the inner loop over all vertices, in index order, each
      turn seeing the flags the earlier turns set.  The pass changes nothing
      exactly when the greedy step applies nowhere.  On symmetric lists it
      keeps the invariant `Greedy`. */
  method Sweep(adj: Adjacency, covered: seq<bool>, size: nat, ghost cover: set<nat>, ghost picks: seq<Pick>)
    returns (covered': seq<bool>, size': nat, ghost cover': set<nat>, ghost picks': seq<Pick>)
    requires Within(adj) && |covered| == |adj|
    ensures Monotone(covered, covered') && size' >= size
    ensures covered' == covered <==> Stuck(adj, covered)
    ensures Symmetric(adj) && Greedy(adj, covered, size, cover, picks) ==> Greedy(adj, covered', size', cover', picks')
  {
    covered', size', cover', picks' := covered, size, cover, picks;
    for idx := 0 to |adj|
      invariant Monotone(covered, covered') && size' >= size
      invariant Symmetric(adj) && Greedy(adj, covered, size, cover, picks) ==> Greedy(adj, covered', size', cover', picks')
      invariant covered' == covered ==> StuckBelow(adj, covered, idx)
      invariant Stuck(adj, covered) ==> covered' == covered
    {
      ghost var before := State(covered', size');
      covered', size', cover', picks' := Turn(adj, covered', size', cover', picks', idx);
      SweepStep(adj, covered, before, idx);
      if covered' == covered {
        StuckBelowStep(adj, covered, idx);
      }
      if Stuck(adj, covered) {
        assert covered[idx] || |Uncovered(adj[idx], covered)| >= 2;
      }
    }
  }

  /** The greedy step applies to none of the vertices below `k`. */
  ghost predicate StuckBelow(adj: Adjacency, covered: seq<bool>, k: nat)
    requires Within(adj) && |covered| == |adj| && k <= |adj|
  {
    forall j :: 0 <= j < k && !covered[j] ==> |Uncovered(adj[j], covered)| >= 2
  }

  lemma StuckBelowStep(adj: Adjacency, covered: seq<bool>, k: nat)
    requires Within(adj) && |covered| == |adj| && k < |adj|
    requires StuckBelow(adj, covered, k) && (covered[k] || |Uncovered(adj[k], covered)| >= 2)
    ensures StuckBelow(adj, covered, k + 1)
  {
  }

  /** One turn of a pass, seen from the flags the pass started with: the
      flags only grow, they are back where they started only if nothing
      changed so far and the turn's vertex was covered or had two or more
      uncovered neighbours, and in that case the turn changes nothing. */
  lemma SweepStep(adj: Adjacency, covered: seq<bool>, b: State, idx: nat)
    requires Within(adj) && |covered| == |adj| && |b.covered| == |adj| && idx < |adj|
    requires Monotone(covered, b.covered)
    ensures var a := Visit(adj, b, idx).covered;
      && Monotone(covered, a)
      && (a == covered ==> b.covered == covered && (covered[idx] || |Uncovered(adj[idx], covered)| >= 2))
      && (b.covered == covered && (covered[idx] || |Uncovered(adj[idx], covered)| >= 2) ==> a == covered)
  {
  }

  /** The uncovered entries of a list without repeats have no repeats. */
  lemma {:induction false} UncoveredDistinct(ns: seq<nat>, covered: seq<bool>)
    requires forall i :: 0 <= i < |ns| ==> ns[i] < |covered|
    requires Distinct(ns)
    ensures Distinct(Uncovered(ns, covered))
    decreases |ns|
  {
    if |ns| > 0 {
      var prefix := ns[..|ns| - 1];
      var last := ns[|ns| - 1];
      assert ns == prefix + [last];
      UncoveredDistinct(prefix, covered);
      var rest := Uncovered(prefix, covered);
      if !covered[last] {
        assert last !in prefix;
        assert last !in rest;
        forall i, j | 0 <= i < j < |rest + [last]|
          ensures (rest + [last])[i] != (rest + [last])[j]
        {
          if j == |rest| {
            assert rest[i] in rest;
          }
        }
      }
    }
  }

  /** An uncovered vertex of greatest depth. */
  lemma DeepestUncovered(covered: seq<bool>, depth: seq<nat>) returns (v: nat)
    requires |depth| == |covered| && exists i :: 0 <= i < |covered| && !covered[i]
    ensures v < |covered| && !covered[v]
    ensures forall w :: 0 <= w < |covered| && !covered[w] ==> depth[w] <= depth[v]
  {
    var i :| 0 <= i < |covered| && !covered[i];
    v := i;
    for k := 0 to |covered|
      invariant v < |covered| && !covered[v]
      invariant forall w :: 0 <= w < k && !covered[w] ==> depth[w] <= depth[v]
    {
      if !covered[k] && depth[k] > depth[v] {
        v := k;
      }
    }
  }

  /** On a forest the greedy step always applies somewhere while a vertex is
      uncovered: the deepest uncovered vertex has its children covered, so
      at most its parent is an uncovered neighbour. */
  lemma ForestNotStuck(adj: Adjacency, up: seq<nat>, depth: seq<nat>, covered: seq<bool>)
    requires RootedForest(adj, up, depth) && |covered| == |adj|
    requires exists i :: 0 <= i < |covered| && !covered[i]
    ensures Within(adj) && !Stuck(adj, covered)
  {
    var v := DeepestUncovered(covered, depth);
    UncoveredDistinct(adj[v], covered);
    var u := Uncovered(adj[v], covered);
    forall x | x in u
      ensures x == up[v]
    {
      assert x in adj[v] && x < |adj| && !covered[x];
      assert depth[x] <= depth[v];
      assert up[x] != x ==> depth[up[x]] < depth[x];
    }
    AtMostOne(u, up[v]);
  }

  /** A list without repeats whose entries all equal `x` has at most one
      entry. */
  lemma AtMostOne(s: seq<nat>, x: nat)
    ensures Distinct(s) && (forall y :: y in s ==> y == x) ==> |s| <= 1
  {
    if |s| >= 2 {
      assert s[0] in s && s[1] in s;
    }
  }

  /** The number of set flags. */
  function CountTrue(s: seq<bool>): (k: nat)
    ensures k <= |s|
    ensures k == |s| <==> forall i :: 0 <= i < |s| ==> s[i]
    decreases |s|
  {
    if |s| == 0 then 0
    else
      var rest := CountTrue(s[..|s| - 1]);
      assert forall i :: 0 <= i < |s| - 1 ==> s[..|s| - 1][i] == s[i];
      if s[|s| - 1] then rest + 1 else rest
  }

  /** Setting more flags raises the count. */
  lemma {:induction false} CountTrueGrows(a: seq<bool>, b: seq<bool>)
    requires Monotone(a, b) && a != b
    ensures CountTrue(a) < CountTrue(b)
    decreases |a|
  {
    var n := |a|;
    var a', b' := a[..n - 1], b[..n - 1];
    assert Monotone(a', b');
    if a' == b' {
      assert a == a' + [a[n - 1]] && b == b' + [b[n - 1]];
    } else {
      CountTrueGrows(a', b');
      CountTrueMono(a', b');
    }
  }

  lemma {:induction false} CountTrueMono(a: seq<bool>, b: seq<bool>)
    requires Monotone(a, b)
    ensures CountTrue(a) <= CountTrue(b)
    decreases |a|
  {
    if |a| > 0 {
      var n := |a|;
      assert Monotone(a[..n - 1], b[..n - 1]);
      CountTrueMono(a[..n - 1], b[..n - 1]);
    }
  }

  /** Picks that share no vertex each need a vertex of their own in any set
      touching all of them. */
  lemma {:induction false} PicksBound(picks: seq<Pick>, c: set<nat>)
    requires forall i :: 0 <= i < |picks| ==> picks[i].leaf in c || picks[i].end in c
    requires forall i, j :: 0 <= i < j < |picks| ==> Apart(picks[i], picks[j])
    ensures |picks| <= |c|
    decreases |picks|
  {
    if |picks| > 0 {
      var k := |picks| - 1;
      var p := picks[k];
      var x := if p.leaf in c then p.leaf else p.end;
      var rest := picks[..k];
      forall i | 0 <= i < |rest|
        ensures rest[i].leaf in c - {x} || rest[i].end in c - {x}
      {
        assert Apart(picks[i], picks[k]);
      }
      PicksBound(rest, c - {x});
    }
  }

  /** The covering loop on a forest: it ends with every vertex covered, and
      the count it reports is the size of a smallest vertex cover. */
  method CoverForest(adj: Adjacency, ghost up: seq<nat>, ghost depth: seq<nat>) returns (coveringSize: nat, covered: seq<bool>)
    requires Symmetric(adj) && RootedForest(adj, up, depth)
    ensures |covered| == |adj| && forall v :: 0 <= v < |adj| ==> covered[v]
    ensures exists c :: IsVertexCover(adj, c) && |c| == coveringSize
    ensures forall c :: IsVertexCover(adj, c) ==> coveringSize <= |c|
  {
    coveringSize := 0;
    covered := seq(|adj|, _ => false);
    ghost var cover: set<nat> := {};
    ghost var picks: seq<Pick> := [];
    GreedyStart(adj);
    while CountTrue(covered) != |adj|
      invariant Greedy(adj, covered, coveringSize, cover, picks)
      decreases |adj| - CountTrue(covered)
    {
      ghost var before := covered;
      ForestNotStuck(adj, up, depth, before);
      covered, coveringSize, cover, picks := Sweep(adj, covered, coveringSize, cover, picks);
      CountTrueGrows(before, covered);
    }
    assert IsVertexCover(adj, cover);
    forall c | IsVertexCover(adj, c)
      ensures coveringSize <= |c|
    {
      PicksBound(picks, c);
    }
  }

  /** Three vertices, each joined to the other two. */
  const Triangle: Adjacency := [[1, 2], [0, 2], [0, 1]]

  lemma TriangleSymmetric()
    ensures Symmetric(Triangle)
  {
    forall v, w | 0 <= v < 3 && w in Triangle[v]
      ensures v in Triangle[w]
    {
      assert w != v && w < 3;
    }
  }

  /** On a triangle nothing is ever covered: the triangle is a valid,
      symmetric input on which the invariant holds at the start, and every
      vertex has two uncovered neighbours, so a pass changes nothing and the
      loop does not end. */
  lemma TriangleStuck()
    ensures Symmetric(Triangle) && Greedy(Triangle, [false, false, false], 0, {}, [])
    ensures Stuck(Triangle, [false, false, false])
  {
    TriangleSymmetric();
    GreedyStart(Triangle);
    assert seq(|Triangle|, _ => false) == [false, false, false];
    TriangleTwoEach();
  }

  /** Every vertex of the uncovered triangle has two uncovered neighbours. */
  lemma TriangleTwoEach()
    ensures forall v :: 0 <= v < 3 ==> |Uncovered(Triangle[v], [false, false, false])| >= 2
  {
    var c := [false, false, false];
    forall v | 0 <= v < 3
      ensures |Uncovered(Triangle[v], c)| >= 2
    {
      var ns := Triangle[v];
      assert ns[..1][..0] == [];
      assert ns[..1] == [ns[0]];
      assert Uncovered(ns[..1], c) == [ns[0]];
      assert Uncovered(ns, c) == [ns[0], ns[1]];
    }
  }
}
