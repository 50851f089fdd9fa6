/**
 * Agglomerative clustering: Kruskal's algorithm over the edges in weight
 * order, stopped as soon as the number of merges reaches a target.
 */
module Agglomerative {
  import opened DisjointUnionSet
  import opened Edges

  /** The merge count at which the loop stops, `min(nNodes - nClusters,
      nNodes - 1)`.  It is compared only after a merge, so a target of 0 or
      below is never reached. */
  function StopTarget(nNodes: nat, nClusters: int): (t: int)
    ensures t <= nNodes - nClusters && t <= nNodes - 1
    ensures t == nNodes - nClusters || t == nNodes - 1
  {
    if nNodes - nClusters < nNodes - 1 then nNodes - nClusters else nNodes - 1
  }

  /** Every edge joins two elements of one set. */
  ghost predicate Closed(f: Forest, edges: seq<Edge>)
    requires Valid(f) && EdgesWithin(|f.parent|, edges)
  {
    forall e :: e in edges ==> Root(f, e.u) == Root(f, e.v)
  }

  /** Every element is connected by the edges `all` to the root of its set. */
  ghost predicate Reaches(f: Forest, all: seq<Edge>)
    requires Valid(f)
  {
    forall x :: 0 <= x < |f.parent| ==> Connected(all, x, Root(f, x))
  }

  /** The loop over the sorted edges: for each edge whose ends lie in two
      different sets, merge the sets and count the merge; stop right after
      the merge that brings the count to `target`.  The finds that do not
      lead to a merge still compress paths. */
  function Kruskal(f: Forest, edges: seq<Edge>, merges: nat, target: int): (res: (Forest, nat))
    requires Valid(f) && EdgesWithin(|f.parent|, edges)
    ensures Valid(res.0) && |res.0.parent| == |f.parent|
    ensures res.1 >= merges && (merges < target ==> res.1 <= target)
    decreases |edges|
  {
    if |edges| == 0 then (f, merges)
    else
      var e := edges[0];
      assert e in edges;
      var p := FindPair(f, e.u, e.v);
      if p.ra != p.rb then
        var f3 := MergeSet(p.forest, p.ra, p.rb);
        if merges + 1 == target then (f3, merges + 1)
        else Kruskal(f3, edges[1..], merges + 1, target)
      else Kruskal(p.forest, edges[1..], merges, target)
  }

  lemma SortedWithin(nNodes: nat, edges: seq<Edge>)
    requires EdgesWithin(nNodes, edges)
    ensures EdgesWithin(nNodes, SortByWeight(edges))
    ensures forall e :: e in SortByWeight(edges) <==> e in edges
  {
    var sorted := SortByWeight(edges);
    forall e
      ensures e in sorted <==> e in edges
    {
      assert e in sorted <==> e in multiset(sorted);
      assert e in edges <==> e in multiset(edges);
    }
  }

  /** Sort the edges by weight, run the loop from singletons with target
      `StopTarget(nNodes, nClusters)`, and read out the labelling.  What the
      labels are is `AgglomerativeSingleLinkage`. */
  function AgglomerativeClustering(nNodes: nat, edges: seq<Edge>, nClusters: int): (labels: seq<nat>)
    requires EdgesWithin(nNodes, edges)
    ensures |labels| == nNodes
  {
    SortedWithin(nNodes, edges);
    Labelling(Kruskal(Init(nNodes), SortByWeight(edges), 0, StopTarget(nNodes, nClusters)).0)
  }

  /** Each merge removes one root. */
  lemma {:induction false} KruskalMerges(f: Forest, edges: seq<Edge>, merges: nat, target: int)
    requires Valid(f) && EdgesWithin(|f.parent|, edges)
    ensures var res := Kruskal(f, edges, merges, target);
            |Roots(res.0)| + res.1 == |Roots(f)| + merges
    decreases |edges|
  {
    if |edges| > 0 {
      var e := edges[0];
      assert e in edges;
      var p := FindPair(f, e.u, e.v);
      StepCounts(f, e.u, e.v);
      KruskalStep(f, edges, merges, target);
      if p.ra != p.rb {
        if merges + 1 != target {
          KruskalMerges(MergeSet(p.forest, p.ra, p.rb), edges[1..], merges + 1, target);
        }
      } else {
        KruskalMerges(p.forest, edges[1..], merges, target);
      }
    }
  }

  /** The merges of the loop are all guarded by a root test, so sizes that
      count the sets keep counting them. */
  lemma {:induction false} KruskalKeepsSizes(f: Forest, edges: seq<Edge>, merges: nat, target: int)
    requires Valid(f) && EdgesWithin(|f.parent|, edges) && SizesCount(f)
    ensures SizesCount(Kruskal(f, edges, merges, target).0)
    decreases |edges|
  {
    if |edges| > 0 {
      var e := edges[0];
      assert e in edges;
      var p := FindPair(f, e.u, e.v);
      StepSizes(f, e.u, e.v);
      KruskalStep(f, edges, merges, target);
      if p.ra != p.rb {
        if merges + 1 != target {
          KruskalKeepsSizes(MergeSet(p.forest, p.ra, p.rb), edges[1..], merges + 1, target);
        }
      } else {
        KruskalKeepsSizes(p.forest, edges[1..], merges, target);
      }
    }
  }

  /** One turn of the loop: the result is that of the rest of the edges
      after the finds and, when the roots differ, the merge; or the merged
      forest itself when that merge reaches the target. */
  lemma KruskalStep(f: Forest, edges: seq<Edge>, merges: nat, target: int)
    requires Valid(f) && EdgesWithin(|f.parent|, edges) && |edges| > 0
    ensures var p := FindPair(f, edges[0].u, edges[0].v);
            && (p.ra == p.rb ==> Kruskal(f, edges, merges, target) == Kruskal(p.forest, edges[1..], merges, target))
            && (p.ra != p.rb && merges + 1 == target ==>
                  Kruskal(f, edges, merges, target) == (MergeSet(p.forest, p.ra, p.rb), merges + 1))
            && (p.ra != p.rb && merges + 1 != target ==>
                  Kruskal(f, edges, merges, target) == Kruskal(MergeSet(p.forest, p.ra, p.rb), edges[1..], merges + 1, target))
  {
    assert edges[0] in edges;
  }

  /** The finds of one step keep the number of sets; a merge removes one
      root. */
  lemma StepCounts(f: Forest, u: nat, v: nat)
    requires Valid(f) && u < |f.parent| && v < |f.parent|
    ensures var p := FindPair(f, u, v);
            && |Roots(p.forest)| == |Roots(f)|
            && (p.ra != p.rb ==> |Roots(MergeSet(p.forest, p.ra, p.rb))| + 1 == |Roots(f)|)
  {
    var p := FindPair(f, u, v);
    FindPairKeepsPartition(f, u, v);
    if p.ra != p.rb {
      MergeSetRoots(p.forest, p.ra, p.rb);
    }
  }

  /** The finds and the guarded merge of one step keep sizes counting the
      sets. */
  lemma StepSizes(f: Forest, u: nat, v: nat)
    requires Valid(f) && u < |f.parent| && v < |f.parent| && SizesCount(f)
    ensures var p := FindPair(f, u, v);
            && SizesCount(p.forest)
            && (p.ra != p.rb ==> SizesCount(MergeSet(p.forest, p.ra, p.rb)))
  {
    var p := FindPair(f, u, v);
    FindPairKeepsPartition(f, u, v);
    if p.ra != p.rb {
      MergeSetCounts(p.forest, p.ra, p.rb);
    }
  }

  /** Elements that share a set keep sharing it. */
  lemma {:induction false} KruskalKeepsJoined(f: Forest, edges: seq<Edge>, merges: nat, target: int, x: nat, y: nat)
    requires Valid(f) && EdgesWithin(|f.parent|, edges)
    requires x < |f.parent| && y < |f.parent| && Root(f, x) == Root(f, y)
    ensures Root(Kruskal(f, edges, merges, target).0, x) == Root(Kruskal(f, edges, merges, target).0, y)
    decreases |edges|
  {
    if |edges| > 0 {
      var e := edges[0];
      assert e in edges;
      var p := FindPair(f, e.u, e.v);
      assert Root(p.forest, x) == Root(p.forest, y);
      if p.ra != p.rb {
        MergeSetKeepsJoined(p.forest, p.ra, p.rb, x, y);
        if merges + 1 != target {
          KruskalKeepsJoined(MergeSet(p.forest, p.ra, p.rb), edges[1..], merges + 1, target, x, y);
        }
      } else {
        KruskalKeepsJoined(p.forest, edges[1..], merges, target, x, y);
      }
    }
  }

  /** Unless the loop stopped on reaching its target, it ends with the two
      ends of every edge in one set. */
  lemma {:induction false} KruskalCloses(f: Forest, edges: seq<Edge>, merges: nat, target: int)
    requires Valid(f) && EdgesWithin(|f.parent|, edges)
    ensures var res := Kruskal(f, edges, merges, target);
            (merges < target && res.1 == target) || Closed(res.0, edges)
    decreases |edges|
  {
    if |edges| > 0 {
      var e := edges[0];
      assert e in edges;
      var p := FindPair(f, e.u, e.v);
      KruskalStep(f, edges, merges, target);
      StepJoins(f, e.u, e.v);
      var res := Kruskal(f, edges, merges, target);
      var next, m := if p.ra != p.rb then MergeSet(p.forest, p.ra, p.rb) else p.forest,
                     if p.ra != p.rb then merges + 1 else merges;
      if !(p.ra != p.rb && merges + 1 == target) {
        KruskalCloses(next, edges[1..], m, target);
        if !(merges < target && res.1 == target) {
          KruskalKeepsJoined(next, edges[1..], m, target, e.u, e.v);
          forall d | d in edges
            ensures Root(res.0, d.u) == Root(res.0, d.v)
          {
            if d != e {
              assert d in edges[1..];
            }
          }
        }
      }
    }
  }

  /** After the finds and the merge of one step, the two ends share a set. */
  lemma StepJoins(f: Forest, u: nat, v: nat)
    requires Valid(f) && u < |f.parent| && v < |f.parent|
    ensures var p := FindPair(f, u, v);
            && (p.ra == p.rb ==> Root(p.forest, u) == Root(p.forest, v))
            && (p.ra != p.rb ==> Root(MergeSet(p.forest, p.ra, p.rb), u) == Root(MergeSet(p.forest, p.ra, p.rb), v))
  {
    var p := FindPair(f, u, v);
    assert Root(p.forest, u) == p.ra && Root(p.forest, v) == p.rb;
  }

  /** Merging the sets of the two ends of an edge of `all` keeps every
      element connected to its root. */
  lemma ReachesAfterMerge(f: Forest, all: seq<Edge>, e: Edge, su: nat, sv: nat)
    requires Valid(f) && e.u < |f.parent| && e.v < |f.parent| && e in all && Reaches(f, all)
    requires su == Root(f, e.u) && sv == Root(f, e.v)
    ensures Reaches(MergeSet(f, su, sv), all)
  {
    assert Root(f, su) == su && Root(f, sv) == sv;
    var g := MergeSet(f, su, sv);
    var w := Winner(f, su, sv);
    assert Connected(all, su, sv) by {
      assert Connected(all, e.u, su) && Connected(all, e.v, sv);
      ConnectedSym(all, e.u, su);
      ConnectedLink(all, e.u, e.v);
      ConnectedTrans(all, su, e.u, e.v);
      ConnectedTrans(all, su, e.v, sv);
    }
    ConnectedSym(all, su, sv);
    forall x | 0 <= x < |g.parent|
      ensures Connected(all, x, Root(g, x))
    {
      var r := Root(f, x);
      assert Connected(all, x, r);
      if r == su || r == sv {
        if r != w {
          ConnectedTrans(all, x, r, w);
        }
      }
    }
  }

  /** Every element stays connected, by edges of `all`, to its root. */
  lemma {:induction false} KruskalReaches(f: Forest, edges: seq<Edge>, merges: nat, target: int, all: seq<Edge>)
    requires Valid(f) && EdgesWithin(|f.parent|, edges)
    requires forall e :: e in edges ==> e in all
    requires Reaches(f, all)
    ensures Reaches(Kruskal(f, edges, merges, target).0, all)
    decreases |edges|
  {
    if |edges| > 0 {
      var e := edges[0];
      assert e in edges;
      var p := FindPair(f, e.u, e.v);
      ReachesSameRoots(f, p.forest, all);
      if p.ra != p.rb {
        ReachesAfterMerge(p.forest, all, e, p.ra, p.rb);
        if merges + 1 != target {
          KruskalReaches(MergeSet(p.forest, p.ra, p.rb), edges[1..], merges + 1, target, all);
        }
      } else {
        KruskalReaches(p.forest, edges[1..], merges, target, all);
      }
    }
  }

  /** A forest with the same root for every element reaches as well. */
  lemma ReachesSameRoots(f: Forest, g: Forest, all: seq<Edge>)
    requires Valid(f) && Valid(g) && |g.parent| == |f.parent| && Reaches(f, all)
    requires forall x :: 0 <= x < |f.parent| ==> Root(g, x) == Root(f, x)
    ensures Reaches(g, all)
  {
  }

  /** How many of the edges the loop examines: all of them, unless it stops
      on reaching its target, in which case the edge of that last merge is
      the last one examined. */
  ghost function Examined(f: Forest, edges: seq<Edge>, merges: nat, target: int): (k: nat)
    requires Valid(f) && EdgesWithin(|f.parent|, edges)
    ensures k <= |edges|
    decreases |edges|
  {
    if |edges| == 0 then 0
    else
      var e := edges[0];
      assert e in edges;
      var p := FindPair(f, e.u, e.v);
      if p.ra != p.rb then
        if merges + 1 == target then 1
        else 1 + Examined(MergeSet(p.forest, p.ra, p.rb), edges[1..], merges + 1, target)
      else 1 + Examined(p.forest, edges[1..], merges, target)
  }

  /** One turn of the loop examines one edge, then the rest of the loop
      examines what it examines. */
  lemma ExaminedStep(f: Forest, edges: seq<Edge>, merges: nat, target: int)
    requires Valid(f) && EdgesWithin(|f.parent|, edges) && |edges| > 0
    ensures var p := FindPair(f, edges[0].u, edges[0].v);
            && (p.ra == p.rb ==> Examined(f, edges, merges, target) == 1 + Examined(p.forest, edges[1..], merges, target))
            && (p.ra != p.rb && merges + 1 == target ==> Examined(f, edges, merges, target) == 1)
            && (p.ra != p.rb && merges + 1 != target ==>
                  Examined(f, edges, merges, target) == 1 + Examined(MergeSet(p.forest, p.ra, p.rb), edges[1..], merges + 1, target))
  {
    assert edges[0] in edges;
  }

  /** The loop leaves edges unexamined only when it stopped on its target. */
  lemma {:induction false} KruskalStopsExamined(f: Forest, edges: seq<Edge>, merges: nat, target: int)
    requires Valid(f) && EdgesWithin(|f.parent|, edges)
    ensures Examined(f, edges, merges, target) < |edges| ==>
              merges < target && Kruskal(f, edges, merges, target).1 == target
    decreases |edges|
  {
    if |edges| > 0 {
      var e := edges[0];
      assert e in edges;
      var p := FindPair(f, e.u, e.v);
      KruskalStep(f, edges, merges, target);
      ExaminedStep(f, edges, merges, target);
      if p.ra == p.rb {
        KruskalStopsExamined(p.forest, edges[1..], merges, target);
      } else if merges + 1 != target {
        KruskalStopsExamined(MergeSet(p.forest, p.ra, p.rb), edges[1..], merges + 1, target);
      }
    }
  }

  /** A prefix of edges within range is within range. */
  lemma PrefixWithin(n: nat, edges: seq<Edge>, k: nat)
    requires EdgesWithin(n, edges) && k <= |edges|
    ensures EdgesWithin(n, edges[..k])
  {
    forall e | e in edges[..k]
      ensures e.u < n && e.v < n
    {
      var j :| 0 <= j < k && edges[..k][j] == e;
      assert edges[j] in edges;
    }
  }

  /** A non-empty prefix is its first element followed by a prefix of the
      rest. */
  lemma PrefixCons(edges: seq<Edge>, k: nat)
    requires 0 < k <= |edges|
    ensures edges[..k] == [edges[0]] + edges[1..][..k - 1]
  {
  }

  /** An edge inside one set can join a list of such edges. */
  lemma ClosedCons(f: Forest, e: Edge, rest: seq<Edge>)
    requires Valid(f) && e.u < |f.parent| && e.v < |f.parent| && EdgesWithin(|f.parent|, rest)
    requires Root(f, e.u) == Root(f, e.v) && Closed(f, rest)
    ensures EdgesWithin(|f.parent|, [e] + rest) && Closed(f, [e] + rest)
  {
    forall d | d in [e] + rest
      ensures d.u < |f.parent| && d.v < |f.parent| && Root(f, d.u) == Root(f, d.v)
    {
      if d != e {
        assert d in rest;
      }
    }
  }

  /** The loop leaves the two ends of every edge it examined in one set. */
  lemma {:induction false} KruskalClosesExamined(f: Forest, edges: seq<Edge>, merges: nat, target: int)
    requires Valid(f) && EdgesWithin(|f.parent|, edges)
    ensures EdgesWithin(|f.parent|, edges[..Examined(f, edges, merges, target)])
    ensures var res := Kruskal(f, edges, merges, target);
            Closed(res.0, edges[..Examined(f, edges, merges, target)])
    decreases |edges|
  {
    var k := Examined(f, edges, merges, target);
    PrefixWithin(|f.parent|, edges, k);
    if |edges| > 0 {
      var e := edges[0];
      assert e in edges;
      var p := FindPair(f, e.u, e.v);
      KruskalStep(f, edges, merges, target);
      ExaminedStep(f, edges, merges, target);
      StepJoins(f, e.u, e.v);
      var res := Kruskal(f, edges, merges, target);
      var next, m := if p.ra != p.rb then MergeSet(p.forest, p.ra, p.rb) else p.forest,
                     if p.ra != p.rb then merges + 1 else merges;
      if p.ra != p.rb && merges + 1 == target {
        PrefixCons(edges, k);
      } else {
        KruskalClosesExamined(next, edges[1..], m, target);
        KruskalKeepsJoined(next, edges[1..], m, target, e.u, e.v);
        PrefixCons(edges, k);
        ClosedCons(res.0, e, edges[1..][..k - 1]);
      }
    }
  }

  /** Every element stays connected to its root by edges of `all`, as long
      as `all` holds every edge the loop examines. */
  lemma {:induction false} KruskalReachesExamined(f: Forest, edges: seq<Edge>, merges: nat, target: int, all: seq<Edge>)
    requires Valid(f) && EdgesWithin(|f.parent|, edges)
    requires forall i :: 0 <= i < Examined(f, edges, merges, target) ==> edges[i] in all
    requires Reaches(f, all)
    ensures Reaches(Kruskal(f, edges, merges, target).0, all)
    decreases |edges|
  {
    if |edges| > 0 {
      var e := edges[0];
      assert e in edges;
      var p := FindPair(f, e.u, e.v);
      KruskalStep(f, edges, merges, target);
      ExaminedStep(f, edges, merges, target);
      ReachesSameRoots(f, p.forest, all);
      if p.ra == p.rb {
        RestExamined(edges, Examined(p.forest, edges[1..], merges, target), all);
        KruskalReachesExamined(p.forest, edges[1..], merges, target, all);
      } else {
        assert e in all;
        ReachesAfterMerge(p.forest, all, e, p.ra, p.rb);
        if merges + 1 != target {
          var g := MergeSet(p.forest, p.ra, p.rb);
          RestExamined(edges, Examined(g, edges[1..], merges + 1, target), all);
          KruskalReachesExamined(g, edges[1..], merges + 1, target, all);
        }
      }
    }
  }

  /** Dropping the first edge shifts the examined edges down by one. */
  lemma RestExamined(edges: seq<Edge>, k: nat, all: seq<Edge>)
    requires k < |edges|
    requires forall i :: 0 <= i < k + 1 ==> edges[i] in all
    ensures forall i :: 0 <= i < k ==> edges[1..][i] in all
  {
    forall i | 0 <= i < k
      ensures edges[1..][i] in all
    {
      assert edges[1..][i] == edges[i + 1];
    }
  }

  /** In a forest where every edge joins one set, a walk never leaves a set. */
  lemma ClosedWalk(f: Forest, edges: seq<Edge>, x: nat, y: nat)
    requires Valid(f) && EdgesWithin(|f.parent|, edges) && Closed(f, edges)
    requires x < |f.parent| && Connected(edges, x, y)
    ensures y < |f.parent| && Root(f, x) == Root(f, y)
  {
    var p :| IsWalk(edges, p) && p[0] == x && p[|p| - 1] == y;
    var i := 0;
    while i < |p| - 1
      invariant 0 <= i < |p|
      invariant p[i] < |f.parent| && Root(f, p[i]) == Root(f, x)
    {
      assert Linked(edges, p[i], p[i + 1]);
      var d :| d in edges && ((d.u == p[i] && d.v == p[i + 1]) || (d.u == p[i + 1] && d.v == p[i]));
      i := i + 1;
    }
  }

  /** The loop run on the sorted edges from singletons, with its facts. */
  lemma RunFacts(nNodes: nat, edges: seq<Edge>, nClusters: int)
    requires EdgesWithin(nNodes, edges)
    ensures EdgesWithin(nNodes, SortByWeight(edges))
    ensures var res := Kruskal(Init(nNodes), SortByWeight(edges), 0, StopTarget(nNodes, nClusters));
            && AgglomerativeClustering(nNodes, edges, nClusters) == Labelling(res.0)
            && |Clusters(Labelling(res.0))| == nNodes - res.1
            && (0 < StopTarget(nNodes, nClusters) ==> res.1 <= StopTarget(nNodes, nClusters))
            && ((0 < StopTarget(nNodes, nClusters) && res.1 == StopTarget(nNodes, nClusters))
                || Closed(res.0, SortByWeight(edges)))
            && SizesCount(res.0)
            && Reaches(res.0, edges)
  {
    SortedWithin(nNodes, edges);
    var sorted := SortByWeight(edges);
    var target := StopTarget(nNodes, nClusters);
    var f := Init(nNodes);
    InitSingletons(nNodes);
    forall x | 0 <= x < nNodes
      ensures Connected(edges, x, Root(f, x))
    {
      ConnectedRefl(edges, x);
    }
    var res := Kruskal(f, sorted, 0, target);
    KruskalMerges(f, sorted, 0, target);
    KruskalKeepsSizes(f, sorted, 0, target);
    KruskalCloses(f, sorted, 0, target);
    KruskalReaches(f, sorted, 0, target, edges);
    LabellingClusters(res.0);
  }

  /** Two vertices share a label only if the edges connect them. */
  lemma AgglomerativeSharedLabelConnected(nNodes: nat, edges: seq<Edge>, nClusters: int)
    requires EdgesWithin(nNodes, edges)
    ensures var labels := AgglomerativeClustering(nNodes, edges, nClusters);
      forall x, y :: 0 <= x < nNodes && 0 <= y < nNodes && labels[x] == labels[y] ==> Connected(edges, x, y)
  {
    RunFacts(nNodes, edges, nClusters);
    var labels := AgglomerativeClustering(nNodes, edges, nClusters);
    forall x, y | 0 <= x < nNodes && 0 <= y < nNodes && labels[x] == labels[y]
      ensures Connected(edges, x, y)
    {
      ConnectedSym(edges, y, labels[y]);
      ConnectedTrans(edges, x, labels[x], y);
    }
  }

  /** When every edge of `edges` lies inside a set and every element is
      connected by `edges` to its root, the sets are exactly the connected
      components of `edges`. */
  lemma ComponentsAreSets(f: Forest, edges: seq<Edge>)
    requires Valid(f) && EdgesWithin(|f.parent|, edges) && Closed(f, edges) && Reaches(f, edges)
    ensures forall x, y :: 0 <= x < |f.parent| && 0 <= y < |f.parent| ==>
              (Root(f, x) == Root(f, y) <==> Connected(edges, x, y))
  {
    forall x, y | 0 <= x < |f.parent| && 0 <= y < |f.parent|
      ensures Root(f, x) == Root(f, y) <==> Connected(edges, x, y)
    {
      if Connected(edges, x, y) {
        ClosedWalk(f, edges, x, y);
      }
      if Root(f, x) == Root(f, y) {
        ConnectedSym(edges, y, Root(f, y));
        ConnectedTrans(edges, x, Root(f, x), y);
      }
    }
  }

  /** Single linkage: the loop examines a prefix of the edges in weight
      order, and two vertices share a label exactly when that prefix
      connects them.  Every edge left out weighs at least as much as every
      edge examined, and edges are left out only when the target number of
      merges was met. */
  lemma AgglomerativeSingleLinkage(nNodes: nat, edges: seq<Edge>, nClusters: int)
    requires EdgesWithin(nNodes, edges)
    ensures EdgesWithin(nNodes, SortByWeight(edges))
    ensures var sorted := SortByWeight(edges);
            var k := Examined(Init(nNodes), sorted, 0, StopTarget(nNodes, nClusters));
            var labels := AgglomerativeClustering(nNodes, edges, nClusters);
            && (forall i, j :: 0 <= i < k <= j < |sorted| ==> sorted[i].weight <= sorted[j].weight)
            && (forall x, y :: 0 <= x < nNodes && 0 <= y < nNodes ==>
                  (labels[x] == labels[y] <==> Connected(sorted[..k], x, y)))
            && (k < |sorted| ==> |Clusters(labels)| == nNodes - StopTarget(nNodes, nClusters))
  {
    SortedWithin(nNodes, edges);
    LinkagePartition(nNodes, SortByWeight(edges), StopTarget(nNodes, nClusters));
    LinkageStop(nNodes, edges, nClusters);
  }

  /** Run from singletons, the loop's sets are the connected components of
      the edges it examined. */
  lemma LinkagePartition(nNodes: nat, sorted: seq<Edge>, target: int)
    requires EdgesWithin(nNodes, sorted)
    ensures var k := Examined(Init(nNodes), sorted, 0, target);
            var labels := Labelling(Kruskal(Init(nNodes), sorted, 0, target).0);
            forall x, y :: 0 <= x < nNodes && 0 <= y < nNodes ==>
              (labels[x] == labels[y] <==> Connected(sorted[..k], x, y))
  {
    var f := Init(nNodes);
    var k := Examined(f, sorted, 0, target);
    var res := Kruskal(f, sorted, 0, target);
    var prefix := sorted[..k];
    KruskalClosesExamined(f, sorted, 0, target);
    forall x | 0 <= x < nNodes
      ensures Connected(prefix, x, Root(f, x))
    {
      ConnectedRefl(prefix, x);
    }
    forall i | 0 <= i < k
      ensures sorted[i] in prefix
    {
      assert prefix[i] == sorted[i];
    }
    KruskalReachesExamined(f, sorted, 0, target, prefix);
    ComponentsAreSets(res.0, prefix);
  }

  /** The loop leaves sorted edges unexamined only after meeting its target,
      and then `nNodes - target` clusters remain. */
  lemma LinkageStop(nNodes: nat, edges: seq<Edge>, nClusters: int)
    requires EdgesWithin(nNodes, edges)
    ensures EdgesWithin(nNodes, SortByWeight(edges))
    ensures Examined(Init(nNodes), SortByWeight(edges), 0, StopTarget(nNodes, nClusters)) < |SortByWeight(edges)| ==>
              |Clusters(AgglomerativeClustering(nNodes, edges, nClusters))| == nNodes - StopTarget(nNodes, nClusters)
  {
    RunFacts(nNodes, edges, nClusters);
    KruskalStopsExamined(Init(nNodes), SortByWeight(edges), 0, StopTarget(nNodes, nClusters));
  }

  /** For a target of `1 <= nClusters < nNodes` clusters, at most
      `nNodes - nClusters` merges happen, so at least `nClusters` labels
      remain. */
  lemma AgglomerativeAtLeast(nNodes: nat, edges: seq<Edge>, nClusters: int)
    requires EdgesWithin(nNodes, edges) && 1 <= nClusters < nNodes
    ensures |Clusters(AgglomerativeClustering(nNodes, edges, nClusters))| >= nClusters
  {
    RunFacts(nNodes, edges, nClusters);
  }

  /** When the edges connect every vertex, a forest closed under them is a
      single set. */
  lemma OneSet(f: Forest, edges: seq<Edge>)
    requires Valid(f) && |f.parent| > 0 && EdgesWithin(|f.parent|, edges)
    requires Closed(f, edges) && AllConnected(|f.parent|, edges)
    ensures |Roots(f)| == 1
  {
    var r0 := Root(f, 0);
    forall r | r in Roots(f)
      ensures r == r0
    {
      ClosedWalk(f, edges, 0, r);
      assert Root(f, r) == r;
    }
    assert Roots(f) == {r0};
  }

  /** For a target of `1 <= nClusters < nNodes` clusters and edges that
      connect every vertex, exactly `nClusters` labels remain. */
  lemma AgglomerativeExact(nNodes: nat, edges: seq<Edge>, nClusters: int)
    requires EdgesWithin(nNodes, edges) && 1 <= nClusters < nNodes
    requires AllConnected(nNodes, edges)
    ensures |Clusters(AgglomerativeClustering(nNodes, edges, nClusters))| == nClusters
  {
    RunFacts(nNodes, edges, nClusters);
    var res := Kruskal(Init(nNodes), SortByWeight(edges), 0, StopTarget(nNodes, nClusters));
    if res.1 != StopTarget(nNodes, nClusters) {
      SortedWithin(nNodes, edges);
      forall x | 0 <= x < nNodes
        ensures Connected(SortByWeight(edges), 0, x)
      {
        ConnectedMono(edges, SortByWeight(edges), 0, x);
      }
      OneSet(res.0, SortByWeight(edges));
      LabellingClusters(res.0);
      assert false;
    }
  }

  /** Without edges every vertex keeps its own label. */
  lemma AgglomerativeNoEdges(nNodes: nat, nClusters: int)
    ensures var labels := AgglomerativeClustering(nNodes, [], nClusters);
      && (forall i :: 0 <= i < nNodes ==> labels[i] == i)
      && |Clusters(labels)| == nNodes
  {
    RunFacts(nNodes, [], nClusters);
  }

  /** As written, a target of `nClusters >= nNodes` clusters is never
      reached: the loop runs to the end, so connected edges leave a single
      cluster. */
  lemma AgglomerativeTargetNeverReached(nNodes: nat, edges: seq<Edge>, nClusters: int)
    requires EdgesWithin(nNodes, edges) && 1 <= nNodes <= nClusters
    requires AllConnected(nNodes, edges)
    ensures |Clusters(AgglomerativeClustering(nNodes, edges, nClusters))| == 1
  {
    RunFacts(nNodes, edges, nClusters);
    var res := Kruskal(Init(nNodes), SortByWeight(edges), 0, StopTarget(nNodes, nClusters));
    SortedWithin(nNodes, edges);
    forall x | 0 <= x < nNodes
      ensures Connected(SortByWeight(edges), 0, x)
    {
      ConnectedMono(edges, SortByWeight(edges), 0, x);
    }
    OneSet(res.0, SortByWeight(edges));
    LabellingClusters(res.0);
  }

  /** Two vertices joined by one edge, asked to stay two clusters, end up as
      one. */
  lemma AgglomerativeTwoOfTwoExample()
    ensures |Clusters(AgglomerativeClustering(2, [Edge(0, 1, 1)], 2))| == 1
  {
    var edges := [Edge(0, 1, 1)];
    assert Linked(edges, 0, 1) by {
      assert edges[0] in edges;
    }
    ConnectedRefl(edges, 0);
    ConnectedLink(edges, 0, 1);
    AgglomerativeTargetNeverReached(2, edges, 2);
  }

  /** The loop with the stop test made before a merge instead of after it:
      a target that is not positive means no merge at all. */
  function AgglomerativeClusteringGuarded(nNodes: nat, edges: seq<Edge>, nClusters: int): (labels: seq<nat>)
    requires EdgesWithin(nNodes, edges)
    ensures |labels| == nNodes
  {
    if StopTarget(nNodes, nClusters) <= 0 then Labelling(Init(nNodes))
    else AgglomerativeClustering(nNodes, edges, nClusters)
  }

  /** With the guard, every target `1 <= nClusters <= nNodes` is respected:
      at least `nClusters` clusters, and exactly `nClusters` when the edges
      connect every vertex. */
  lemma AgglomerativeGuardedCount(nNodes: nat, edges: seq<Edge>, nClusters: int)
    requires EdgesWithin(nNodes, edges) && 1 <= nClusters <= nNodes
    ensures |Clusters(AgglomerativeClusteringGuarded(nNodes, edges, nClusters))| >= nClusters
    ensures AllConnected(nNodes, edges) ==>
      |Clusters(AgglomerativeClusteringGuarded(nNodes, edges, nClusters))| == nClusters
  {
    if nClusters == nNodes {
      InitSingletons(nNodes);
      LabellingClusters(Init(nNodes));
    } else {
      AgglomerativeAtLeast(nNodes, edges, nClusters);
      if AllConnected(nNodes, edges) {
        AgglomerativeExact(nNodes, edges, nClusters);
      }
    }
  }
}
