/**
 * Centroid clustering: a single pass that joins every vertex that is not a
 * centroid to the set of the centroid nearest to it.
 *
 * The centroids come from a random permutation of the vertices; the
 * permutation is a parameter here.
 */
module KMeans {
  import opened DisjointUnionSet
  import opened Edges

  /** A distance-table entry: a finite distance, or the infinity every entry
      starts with. */
  datatype Dist = Finite(w: nat) | Infinite

  /** Strict order on entries: infinity is above every finite distance and
      equal to itself. */
  predicate Below(a: Dist, b: Dist) {
    a.Finite? && (b.Infinite? || a.w < b.w)
  }

  /** `perm` lists the vertices `0 .. n-1`, each once. */
  ghost predicate IsPermutation(perm: seq<nat>, n: nat) {
    |perm| == n && forall x :: x in perm <==> 0 <= x < n
  }

  /** Python's `s[:k]`: a negative `k` drops `-k` elements from the end. */
  function SlicePrefix(s: seq<nat>, k: int): (r: seq<nat>)
    ensures r <= s
    ensures 0 <= k <= |s| ==> |r| == k
    ensures k >= |s| ==> r == s
    ensures k < 0 ==> |r| == if |s| + k > 0 then |s| + k else 0
  {
    if k >= 0 then s[..if k < |s| then k else |s|]
    else s[..if |s| + k > 0 then |s| + k else 0]
  }

  /** The first `nClusters` entries of the permutation, as a set. */
  function Centroids(perm: seq<nat>, nClusters: int): (c: set<nat>)
    ensures forall x :: x in c ==> x in perm
    ensures forall i :: 0 <= i < |perm| && i < nClusters ==> perm[i] in c
    ensures forall x :: x in c <==>
              exists i :: 0 <= i < |perm| && i < (if nClusters >= 0 then nClusters else |perm| + nClusters) && perm[i] == x
  {
    set x | x in SlicePrefix(perm, nClusters)
  }

  /** Edge `e` runs from `u` to `v`. */
  predicate Hits(e: Edge, u: nat, v: nat) {
    e.u == u && e.v == v
  }

  /** Edge number `k` is the last one from `u` to `v`. */
  ghost predicate LastHit(edges: seq<Edge>, u: nat, v: nat, k: int) {
    0 <= k < |edges| && Hits(edges[k], u, v) && forall j :: k < j < |edges| ==> !Hits(edges[j], u, v)
  }

  /** The dense table of distances from every vertex to the centroids: the
      entry `[u][v]` holds the weight of the last edge from `u` to the
      centroid `v`, and infinity where there is none or `v` is not a
      centroid. */
  function DistanceTable(n: nat, edges: seq<Edge>, centroids: set<nat>): (t: seq<seq<Dist>>)
    requires forall c :: c in centroids ==> c < n
    requires forall e :: e in edges && e.v in centroids ==> e.u < n
    ensures |t| == n && forall u :: 0 <= u < n ==> |t[u]| == n
    ensures forall u, v {:trigger t[u][v]} :: 0 <= u < n && 0 <= v < n ==>
      (t[u][v].Finite? <==> v in centroids && exists k :: 0 <= k < |edges| && Hits(edges[k], u, v))
    decreases |edges|
  {
    if |edges| == 0 then seq(n, _ => seq(n, _ => Infinite))
    else
      var prefix, e := edges[..|edges| - 1], edges[|edges| - 1];
      assert edges == prefix + [e];
      var t := DistanceTable(n, prefix, centroids);
      TableStep(n, prefix, e, centroids, t);
      if e.v in centroids then t[e.u := t[e.u][e.v := Finite(e.weight)]] else t
  }

  /** Recording one more edge on top of the table of the earlier ones. */
  lemma TableStep(n: nat, prefix: seq<Edge>, e: Edge, centroids: set<nat>, t: seq<seq<Dist>>)
    requires forall c :: c in centroids ==> c < n
    requires e.v in centroids ==> e.u < n
    requires |t| == n && forall u :: 0 <= u < n ==> |t[u]| == n
    requires forall u, v {:trigger t[u][v]} :: 0 <= u < n && 0 <= v < n ==>
      (t[u][v].Finite? <==> v in centroids && exists k :: 0 <= k < |prefix| && Hits(prefix[k], u, v))
    ensures var t': seq<seq<Dist>> := if e.v in centroids then t[e.u := t[e.u][e.v := Finite(e.weight)]] else t;
      var edges := prefix + [e];
      && |t'| == n && (forall u :: 0 <= u < n ==> |t'[u]| == n)
      && (forall u, v {:trigger t'[u][v]} :: 0 <= u < n && 0 <= v < n ==>
            (t'[u][v].Finite? <==> v in centroids && exists k :: 0 <= k < |edges| && Hits(edges[k], u, v)))
  {
    var edges := prefix + [e];
    var m := |prefix|;
    assert edges[m] == e;
    var t': seq<seq<Dist>> := if e.v in centroids then t[e.u := t[e.u][e.v := Finite(e.weight)]] else t;
    forall u, v | 0 <= u < n && 0 <= v < n
      ensures t'[u][v].Finite? <==> v in centroids && exists k :: 0 <= k < |edges| && Hits(edges[k], u, v)
    {
      if Hits(e, u, v) && v in centroids {
        assert t'[u][v] == Finite(e.weight);
        assert Hits(edges[m], u, v);
      } else {
        assert t'[u][v] == t[u][v];
        if exists k :: 0 <= k < |edges| && Hits(edges[k], u, v) {
          var k :| 0 <= k < |edges| && Hits(edges[k], u, v);
          if k < m {
            assert prefix[k] == edges[k];
          }
        }
        if exists k :: 0 <= k < |prefix| && Hits(prefix[k], u, v) {
          var k :| 0 <= k < |prefix| && Hits(prefix[k], u, v);
          assert edges[k] == prefix[k];
        }
      }
    }
  }

  /** A finite entry holds the weight of the last edge from its row to its
      column: a later edge overwrites an earlier one. */
  lemma {:induction false} DistanceTableLast(n: nat, edges: seq<Edge>, centroids: set<nat>, u: nat, v: nat, k: int)
    requires forall c :: c in centroids ==> c < n
    requires forall e :: e in edges && e.v in centroids ==> e.u < n
    requires u < n && v < n && v in centroids && LastHit(edges, u, v, k)
    ensures DistanceTable(n, edges, centroids)[u][v] == Finite(edges[k].weight)
    decreases |edges|
  {
    var prefix, e := edges[..|edges| - 1], edges[|edges| - 1];
    assert edges == prefix + [e];
    var t := DistanceTable(n, prefix, centroids);
    if k < |prefix| {
      assert !Hits(e, u, v);
      assert DistanceTable(n, edges, centroids)[u][v] == t[u][v];
      forall j | k < j < |prefix|
        ensures !Hits(prefix[j], u, v)
      {
        assert prefix[j] == edges[j];
      }
      assert prefix[k] == edges[k];
      DistanceTableLast(n, prefix, centroids, u, v, k);
    }
  }

  /** numpy's `argmin`: the first index of a least entry. */
  function ArgMin(row: seq<Dist>): (r: nat)
    requires |row| > 0
    ensures r < |row|
    ensures forall j :: 0 <= j < |row| ==> !Below(row[j], row[r])
    ensures forall j :: 0 <= j < r ==> Below(row[r], row[j])
    decreases |row|
  {
    if |row| == 1 then 0
    else
      var k := ArgMin(row[..|row| - 1]);
      if Below(row[|row| - 1], row[k]) then |row| - 1 else k
  }

  /** A table of the shape `DistanceTable` builds: `n` rows of `n` entries,
      finite only in the columns of centroids. */
  ghost predicate TableFits(table: seq<seq<Dist>>, n: nat, centroids: set<nat>) {
    && |table| == n
    && (forall u :: 0 <= u < n ==> |table[u]| == n)
    && (forall u, v :: 0 <= u < n && 0 <= v < n && table[u][v].Finite? ==> v in centroids)
  }

  /** The periphery loop, over the vertices in ascending order: each vertex
      that is not a centroid has its set merged with the set of the first
      vertex nearest to it.  The merge is not guarded. */
  function AssignPeriphery(f: Forest, table: seq<seq<Dist>>, centroids: set<nat>, x: nat): (g: Forest)
    requires Valid(f) && TableFits(table, |f.parent|, centroids) && x <= |f.parent|
    ensures Valid(g) && |g.parent| == |f.parent|
    decreases |f.parent| - x
  {
    if x == |f.parent| then f
    else if x in centroids then AssignPeriphery(f, table, centroids, x + 1)
    else AssignPeriphery(Assign(f, table, x), table, centroids, x + 1)
  }

  /** One step of the periphery loop: the set of `x` is merged with the set
      of the vertex its row's argmin picks. */
  function Assign(f: Forest, table: seq<seq<Dist>>, x: nat): (g: Forest)
    requires Valid(f) && x < |f.parent| && |table| == |f.parent| && |table[x]| == |f.parent|
    ensures Valid(g) && |g.parent| == |f.parent|
  {
    var (f1, rx) := FindSet(f, x);
    var (f2, rt) := FindSet(f1, ArgMin(table[x]));
    MergeSet(f2, rx, rt)
  }

  /** After one periphery step two vertices share a set exactly when they
      did before, or each was with `x` or with its target. */
  lemma AssignKernel(f: Forest, table: seq<seq<Dist>>, x: nat, a: nat, b: nat)
    requires Valid(f) && x < |f.parent| && |table| == |f.parent| && |table[x]| == |f.parent|
    requires a < |f.parent| && b < |f.parent|
    ensures var g := Assign(f, table, x);
      var t := ArgMin(table[x]);
      SameSet(g, a, b) <==>
        SameSet(f, a, b)
        || ((SameSet(f, a, x) || SameSet(f, a, t)) && (SameSet(f, b, x) || SameSet(f, b, t)))
  {
    var (f1, rx) := FindSet(f, x);
    var (f2, rt) := FindSet(f1, ArgMin(table[x]));
    MergeSetKernel(f2, rx, rt);
    assert Root(f2, rx) == rx && Root(f2, rt) == rt;
  }

  /** Centroid clustering with the given permutation standing for the
      seeded random one. */
  function KMeansClustering(nNodes: nat, edges: seq<Edge>, nClusters: int, permutation: seq<nat>): (labels: seq<nat>)
    requires IsPermutation(permutation, nNodes)
    requires forall e :: e in edges && e.v in Centroids(permutation, nClusters) ==> e.u < nNodes
    ensures |labels| == nNodes
  {
    var centroids := Centroids(permutation, nClusters);
    var table := DistanceTable(nNodes, edges, centroids);
    Labelling(AssignPeriphery(Init(nNodes), table, centroids, 0))
  }

  /** The vertex a row's argmin picks is a centroid, unless the whole row is
      infinite, in which case it is vertex 0. */
  lemma TargetShape(table: seq<seq<Dist>>, n: nat, centroids: set<nat>, x: nat)
    requires TableFits(table, n, centroids) && x < n
    ensures ArgMin(table[x]) in centroids
      || (ArgMin(table[x]) == 0 && forall v :: 0 <= v < n ==> table[x][v].Infinite?)
  {
    var row := table[x];
    var r := ArgMin(row);
    if row[r].Infinite? {
      forall v | 0 <= v < n
        ensures row[v].Infinite?
      {
        assert !Below(row[v], row[r]);
      }
      assert !Below(row[r], row[0]);
    }
  }

  /** Where a vertex ends up: a centroid stays in its own set; any other
      vertex goes to its target if that is a centroid, and otherwise (its
      row is all infinite, its target is vertex 0 and 0 is not a centroid)
      to wherever vertex 0 went. */
  ghost function Home(table: seq<seq<Dist>>, centroids: set<nat>, x: nat): nat
    requires TableFits(table, |table|, centroids) && x < |table|
  {
    if x in centroids then x
    else
      var t := ArgMin(table[x]);
      if t in centroids then t else ArgMin(table[t])
  }

  /** Where a vertex stands once the vertices below `k` have been handled. */
  ghost function Anchor(table: seq<seq<Dist>>, centroids: set<nat>, k: nat, x: nat): nat
    requires TableFits(table, |table|, centroids) && x < |table|
  {
    if x in centroids || x >= k then x else Home(table, centroids, x)
  }

  lemma HomeShape(table: seq<seq<Dist>>, centroids: set<nat>, x: nat)
    requires TableFits(table, |table|, centroids) && x < |table|
    ensures Home(table, centroids, x) in centroids || Home(table, centroids, x) == 0
  {
    if x !in centroids {
      var t := ArgMin(table[x]);
      TargetShape(table, |table|, centroids, x);
      if t !in centroids {
        TargetShape(table, |table|, centroids, t);
      }
    }
  }

  /** Handling the non-centroid `x` moves exactly `x`, to where its target
      stood. */
  lemma AnchorStep(table: seq<seq<Dist>>, centroids: set<nat>, x: nat)
    requires TableFits(table, |table|, centroids) && x < |table| && x !in centroids
    ensures Home(table, centroids, x) == Anchor(table, centroids, x, ArgMin(table[x]))
    ensures forall a :: 0 <= a < |table| ==> (Anchor(table, centroids, x, a) == x <==> a == x)
    ensures forall a :: 0 <= a < |table| ==>
      Anchor(table, centroids, x + 1, a) == if a == x then Home(table, centroids, x) else Anchor(table, centroids, x, a)
  {
    var n := |table|;
    var t := ArgMin(table[x]);
    TargetShape(table, n, centroids, x);
    if t !in centroids && x > 0 {
      TargetShape(table, n, centroids, 0);
    }
    forall a | 0 <= a < n
      ensures Anchor(table, centroids, x, a) == x <==> a == x
    {
      HomeShape(table, centroids, a);
    }
    forall a | 0 <= a < n
      ensures Anchor(table, centroids, x + 1, a)
        == if a == x then Home(table, centroids, x) else Anchor(table, centroids, x, a)
    {
    }
  }

  /** Once every vertex has been handled, each stands at its home. */
  lemma AnchorsAtEnd(table: seq<seq<Dist>>, centroids: set<nat>)
    requires TableFits(table, |table|, centroids)
    ensures forall a :: 0 <= a < |table| ==> Anchor(table, centroids, |table|, a) == Home(table, centroids, a)
  {
  }

  /** Two vertices of `f` share a set exactly when they stand at the same
      place once the vertices below `k` have been handled. */
  ghost predicate AnchoredAt(f: Forest, table: seq<seq<Dist>>, centroids: set<nat>, k: nat)
    requires Valid(f) && TableFits(table, |f.parent|, centroids)
  {
    forall a, b :: 0 <= a < |f.parent| && 0 <= b < |f.parent| ==>
      (Root(f, a) == Root(f, b) <==> Anchor(table, centroids, k, a) == Anchor(table, centroids, k, b))
  }

  /** Passing over a centroid moves nothing. */
  lemma AnchorSkip(f: Forest, table: seq<seq<Dist>>, centroids: set<nat>, x: nat)
    requires Valid(f) && TableFits(table, |f.parent|, centroids) && x in centroids
    requires AnchoredAt(f, table, centroids, x)
    ensures AnchoredAt(f, table, centroids, x + 1)
  {
    assert forall a :: 0 <= a < |table| ==> Anchor(table, centroids, x + 1, a) == Anchor(table, centroids, x, a);
  }

  /** Handling the non-centroid `x` merges the set of `x` with the set of
      its target, which turns a forest partitioned by the anchors before
      `x` into one partitioned by the anchors after it. */
  lemma AssignStep(f: Forest, table: seq<seq<Dist>>, centroids: set<nat>, x: nat)
    requires Valid(f) && TableFits(table, |f.parent|, centroids) && x < |f.parent| && x !in centroids
    requires AnchoredAt(f, table, centroids, x)
    ensures AnchoredAt(Assign(f, table, x), table, centroids, x + 1)
  {
    var n := |f.parent|;
    var g := Assign(f, table, x);
    var t := ArgMin(table[x]);
    var rx, rt := Root(f, x), Root(f, t);
    AnchorStep(table, centroids, x);
    var s := Anchor(table, centroids, x, t);
    assert Anchor(table, centroids, x, x) == x;
    forall a, b | 0 <= a < n && 0 <= b < n
      ensures Root(g, a) == Root(g, b) <==> Anchor(table, centroids, x + 1, a) == Anchor(table, centroids, x + 1, b)
    {
      AssignKernel(f, table, x, a, b);
      Relabel(Root(f, a), Root(f, b), rx, rt,
              Anchor(table, centroids, x, a), Anchor(table, centroids, x, b), x, s);
    }
  }

  /** The bookkeeping of one periphery step, on plain numbers: `ra`, `rb`
      are the roots of two vertices, `p`, `q` their anchors, `rx`, `rt`
      the roots of `x` and of its target, whose anchors are `x` and `s`. */
  lemma Relabel(ra: nat, rb: nat, rx: nat, rt: nat, p: nat, q: nat, x: nat, s: nat)
    requires ra == rb <==> p == q
    requires ra == rx <==> p == x
    requires rb == rx <==> q == x
    requires ra == rt <==> p == s
    requires rb == rt <==> q == s
    ensures (ra == rb || ((ra == rx || ra == rt) && (rb == rx || rb == rt)))
      <==> (if p == x then s else p) == (if q == x then s else q)
  {
  }

  /** The periphery loop ends with two vertices in one set exactly when
      they have the same home, provided that before it two vertices shared
      a set exactly when they had the same anchor. */
  lemma {:induction false} AssignPartition(f: Forest, table: seq<seq<Dist>>, centroids: set<nat>, x: nat)
    requires Valid(f) && TableFits(table, |f.parent|, centroids) && x <= |f.parent|
    requires AnchoredAt(f, table, centroids, x)
    ensures AnchoredAt(AssignPeriphery(f, table, centroids, x), table, centroids, |f.parent|)
    decreases |f.parent| - x
  {
    var n := |f.parent|;
    if x == n {
      assert AssignPeriphery(f, table, centroids, x) == f;
    } else if x in centroids {
      AnchorSkip(f, table, centroids, x);
      AssignPartition(f, table, centroids, x + 1);
      assert AssignPeriphery(f, table, centroids, x) == AssignPeriphery(f, table, centroids, x + 1);
    } else {
      var g := Assign(f, table, x);
      AssignStep(f, table, centroids, x);
      AssignPartition(g, table, centroids, x + 1);
      PeripheryStep(f, table, centroids, x);
    }
  }

  /** One turn of the periphery loop on a vertex that is not a centroid. */
  lemma PeripheryStep(f: Forest, table: seq<seq<Dist>>, centroids: set<nat>, x: nat)
    requires Valid(f) && TableFits(table, |f.parent|, centroids) && x < |f.parent| && x !in centroids
    ensures AssignPeriphery(f, table, centroids, x) == AssignPeriphery(Assign(f, table, x), table, centroids, x + 1)
  {
  }

  lemma CentroidsWithin(permutation: seq<nat>, nNodes: nat, nClusters: int)
    requires IsPermutation(permutation, nNodes)
    ensures forall c :: c in Centroids(permutation, nClusters) ==> c < nNodes
    ensures nClusters >= nNodes ==> forall x :: 0 <= x < nNodes ==> x in Centroids(permutation, nClusters)
  {
  }

  /** Two vertices share a label exactly when they have the same home. */
  lemma KMeansPartition(nNodes: nat, edges: seq<Edge>, nClusters: int, permutation: seq<nat>, x: nat, y: nat)
    requires IsPermutation(permutation, nNodes)
    requires forall e :: e in edges && e.v in Centroids(permutation, nClusters) ==> e.u < nNodes
    requires x < nNodes && y < nNodes
    ensures var centroids := Centroids(permutation, nClusters);
      var table := DistanceTable(nNodes, edges, centroids);
      var labels := KMeansClustering(nNodes, edges, nClusters, permutation);
      labels[x] == labels[y] <==> Home(table, centroids, x) == Home(table, centroids, y)
  {
    CentroidsWithin(permutation, nNodes, nClusters);
    var centroids := Centroids(permutation, nClusters);
    var table := DistanceTable(nNodes, edges, centroids);
    var f := Init(nNodes);
    assert forall a :: 0 <= a < nNodes ==> Anchor(table, centroids, 0, a) == a;
    AssignPartition(f, table, centroids, 0);
    AnchorsAtEnd(table, centroids);
  }

  /** A non-centroid vertex shares the label of the vertex its row's
      argmin picks. */
  lemma KMeansNearest(nNodes: nat, edges: seq<Edge>, nClusters: int, permutation: seq<nat>, p: nat)
    requires IsPermutation(permutation, nNodes)
    requires forall e :: e in edges && e.v in Centroids(permutation, nClusters) ==> e.u < nNodes
    requires p < nNodes && p !in Centroids(permutation, nClusters)
    ensures var centroids := Centroids(permutation, nClusters);
      var c := ArgMin(DistanceTable(nNodes, edges, centroids)[p]);
      var labels := KMeansClustering(nNodes, edges, nClusters, permutation);
      c < nNodes && labels[p] == labels[c]
  {
    CentroidsWithin(permutation, nNodes, nClusters);
    var centroids := Centroids(permutation, nClusters);
    var table := DistanceTable(nNodes, edges, centroids);
    var c := ArgMin(table[p]);
    TargetShape(table, nNodes, centroids, p);
    if c !in centroids {
      TargetShape(table, nNodes, centroids, 0);
    }
    assert Home(table, centroids, p) == Home(table, centroids, c);
    KMeansPartition(nNodes, edges, nClusters, permutation, p, c);
  }

  /** The vertex a row's argmin picks is the first nearest centroid when
      the row has a finite entry, and vertex 0 when the row is all
      infinite. */
  lemma NearestCentroid(nNodes: nat, edges: seq<Edge>, centroids: set<nat>, p: nat)
    requires forall c :: c in centroids ==> c < nNodes
    requires forall e :: e in edges && e.v in centroids ==> e.u < nNodes
    requires p < nNodes
    ensures var row := DistanceTable(nNodes, edges, centroids)[p];
      var c := ArgMin(row);
      && ((exists v :: 0 <= v < nNodes && row[v].Finite?) ==>
            && c in centroids && row[c].Finite?
            && (forall v :: 0 <= v < nNodes ==> !Below(row[v], row[c]))
            && (forall v :: 0 <= v < c ==> Below(row[c], row[v])))
      && ((forall v :: 0 <= v < nNodes ==> row[v].Infinite?) ==> c == 0)
  {
    var row := DistanceTable(nNodes, edges, centroids)[p];
    var c := ArgMin(row);
    if c != 0 {
      assert Below(row[c], row[0]);
    }
  }

  /** Centroids keep labels of their own: no two share one. */
  lemma KMeansCentroidsApart(nNodes: nat, edges: seq<Edge>, nClusters: int, permutation: seq<nat>, x: nat, y: nat)
    requires IsPermutation(permutation, nNodes)
    requires forall e :: e in edges && e.v in Centroids(permutation, nClusters) ==> e.u < nNodes
    requires x in Centroids(permutation, nClusters) && y in Centroids(permutation, nClusters) && x != y
    ensures var labels := KMeansClustering(nNodes, edges, nClusters, permutation);
      x < nNodes && y < nNodes && labels[x] != labels[y]
  {
    CentroidsWithin(permutation, nNodes, nClusters);
    var centroids := Centroids(permutation, nClusters);
    var table := DistanceTable(nNodes, edges, centroids);
    KMeansPartition(nNodes, edges, nClusters, permutation, x, y);
    assert Home(table, centroids, x) == x && Home(table, centroids, y) == y;
  }

  /** When every vertex is a centroid, every vertex is labelled by itself,
      so all labels are distinct. */
  lemma KMeansAllCentroids(nNodes: nat, edges: seq<Edge>, nClusters: int, permutation: seq<nat>)
    requires IsPermutation(permutation, nNodes) && nClusters >= nNodes
    requires forall e :: e in edges && e.v in Centroids(permutation, nClusters) ==> e.u < nNodes
    ensures var labels := KMeansClustering(nNodes, edges, nClusters, permutation);
      && (forall i :: 0 <= i < nNodes ==> labels[i] == i)
      && |Clusters(labels)| == nNodes
  {
    CentroidsWithin(permutation, nNodes, nClusters);
    var centroids := Centroids(permutation, nClusters);
    var table := DistanceTable(nNodes, edges, centroids);
    var labels := KMeansClustering(nNodes, edges, nClusters, permutation);
    forall i | 0 <= i < nNodes
      ensures labels[i] == i
    {
      KMeansPartition(nNodes, edges, nClusters, permutation, i, labels[i]);
      assert labels[labels[i]] == labels[i];
    }
    forall i | i in Range(nNodes)
      ensures i in Clusters(labels)
    {
      assert labels[i] == i;
    }
    assert Clusters(labels) == Range(nNodes);
  }
}
