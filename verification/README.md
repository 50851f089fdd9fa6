# Clustering on a disjoint-set forest, and greedy vertex cover of a forest

This project models two pieces of the `algae` algorithms collection in Dafny
and proves properties of the models.

1. The clustering engine of `graph/clustering/clustering.py`:
   - the union-find class `DisjointUnionSet`, with union by size and recursive
     find with path compression;
   - agglomerative clustering, which is Kruskal's algorithm over the edges in
     weight order, stopped after a target number of merges;
   - centroid ("k-means") clustering, which joins every non-centroid vertex to
     the set of the vertex its distance row's argmin picks.
2. The covering loop of `graph/forest/exact-minimum-vertex-cover/mvc.cpp`:
   - `measureColourlessTail`;
   - the loop in `main` that covers isolated vertices and pairs each vertex
     that has one uncovered neighbour with that neighbour.

The union-find forest is an immutable value (`DisjointUnionSet.Forest`). Each
operation that mutates the Python arrays in place returns the new forest. The
Python loops are recursive functions, so lemmas can talk about their results.

The C++ loops are methods with loop invariants. A ghost invariant,
`MinimumVertexCover.Greedy`, carries two things along the loop:
- the set of vertices the count stands for;
- the pairs the loop matched.

From these the method proves that the reported count is the size of a
smallest vertex cover.

Files:
- `disjoint_union_set.dfy`: the forest, `FindSet`, `MergeSet`, `Labelling`, and the partition lemmas.
- `edges.dfy`: edges, walks and connectivity, and the stable sort by weight.
- `agglomerative.dfy`: the Kruskal loop and its cluster counts.
- `kmeans.dfy`: the distance table, argmin, the periphery loop, and the partition it produces.
- `vertex_cover.dfy`: `MeasureColourlessTail`, one loop turn, one pass, the whole loop, and the forest argument for termination.

Three behaviours of the code are easy to misread, and the model keeps them
as written:
- **Merging a set with itself.** `mergeSet` (clustering.py lines 37-51) does
  not check whether the two roots are the same. On one root it attaches the
  root under itself and doubles its recorded size
  (`DisjointUnionSet.MergeSetSameRoot`). The periphery loop of k-means calls it
  unguarded; the agglomerative loop guards it with a root comparison.
- **Stop target of 0 or below.** The stop test of the agglomerative loop
  (clustering.py line 94) runs only after a merge, with the count already
  at least 1. A target of 0 or below is never met, so the loop merges every
  connected component (`Agglomerative.AgglomerativeTargetNeverReached`; see
  Findings).
- **A periphery row that is all infinite.** `np.argmin` of a row whose
  entries are all infinite (clustering.py line 133) is index 0. Vertex 0 need
  not be a centroid, so such a vertex joins vertex 0's set
  (`KMeans.NearestCentroid`).

## Model

| member | source | states |
|---|---|---|
| DisjointUnionSet.Init | graph/clustering/clustering.py:19-27 | a fresh forest of `n` elements is valid, and every element is its own root with size 1 |
| DisjointUnionSet.InitSingletons | graph/clustering/clustering.py:24-27 | in a fresh forest every set is the singleton of its root, its sizes count its sets, and there are exactly `n` roots `0 .. n-1` |
| DisjointUnionSet.FindSet | graph/clustering/clustering.py:53-60 | find returns the root of `a` and leaves the forest valid; sizes are unchanged; every parent pointer is unchanged or redirected to its root; the root of every element is unchanged; `a` now points straight at its root (which pointers change is `FindSetPath`) |
| DisjointUnionSet.FindSetPath | graph/clustering/clustering.py:53-60 | exactly the elements on the path from `a` up to its root, both ends included, end up pointing at that root; every other parent pointer is unchanged |
| DisjointUnionSet.FindSetKeepsPartition | graph/clustering/clustering.py:53-60 | path compression keeps the set of roots and every set's members, so sizes that counted the sets still do |
| DisjointUnionSet.FindSetIdempotent | graph/clustering/clustering.py:53-60 | a second find of the same element changes nothing and returns the same root |
| DisjointUnionSet.IsRootIff | graph/clustering/clustering.py:16-18 | an element is its own parent exactly when it is the root of its set |
| DisjointUnionSet.MergeSet | graph/clustering/clustering.py:29-51 | union by size: the root of the smaller set, or of `b` on a tie, is attached under the other; the receiving size becomes the sum; all other sizes are unchanged; elements of the two sets get the winning root and every other element keeps its root |
| DisjointUnionSet.FindPair | graph/clustering/clustering.py:37-38 | two finds in a row, the second in the forest the first left, return the roots of both elements in the original forest; both stay roots and every element keeps its root |
| DisjointUnionSet.Link | graph/clustering/clustering.py:42-51 | attaching a root under a root of at least equal recorded size keeps the forest valid, adds the sizes, and moves exactly the set of the attached root into the other set |
| DisjointUnionSet.MergeSetKernel | graph/clustering/clustering.py:29-51 | after a merge two elements share a set exactly when they did before, or each was in one of the two merged sets |
| DisjointUnionSet.MergeSetCommutes | graph/clustering/clustering.py:42-51 | swapping the arguments of a merge changes which root survives but not which elements end up together |
| DisjointUnionSet.MergeSetRoots | graph/clustering/clustering.py:42-51 | merging two different sets removes exactly the losing root, so the number of sets drops by one |
| DisjointUnionSet.MergeSetMembers | graph/clustering/clustering.py:42-51 | the winner's set becomes the union of the two sets, and every other set is unchanged |
| DisjointUnionSet.MergeSetCounts | graph/clustering/clustering.py:42-51 | a merge of two different sets keeps every root's size equal to the number of its members |
| DisjointUnionSet.MergeSetSameRoot | graph/clustering/clustering.py:37-51 | merging a set with itself keeps every root but doubles the recorded size, so the sizes no longer count the sets |
| DisjointUnionSet.Labelling | graph/clustering/clustering.py:62-63 | mapping find over the parent array (each entry read from the forest that earlier finds have compressed) labels every element with the root of its set |
| DisjointUnionSet.LabelsFrom | graph/clustering/clustering.py:63 | the list comprehension over `parent`, from index `i` on, has one label per remaining element; what each label is, is `LabelsFromRoot` |
| DisjointUnionSet.LabelsFromRoot | graph/clustering/clustering.py:62-63 | although each find may compress the forest the later entries are read from, every entry is the root of its element in the forest the labelling started from |
| DisjointUnionSet.LabellingClusters | graph/clustering/clustering.py:62-63 | the distinct labels are exactly the roots, so there are as many labels as sets |
| Edges.SortByWeight | graph/clustering/clustering.py:85 | the sorted edges are in nondecreasing weight order and are a permutation of the input |
| Agglomerative.StopTarget | graph/clustering/clustering.py:94 | the target is `min(nNodes - nClusters, nNodes - 1)`: at most both and equal to one of them |
| Agglomerative.AgglomerativeClustering | graph/clustering/clustering.py:66-97 | its own contract is only that there is one label per vertex; what the labels are is stated by `AgglomerativeSingleLinkage`, `AgglomerativeSharedLabelConnected`, `AgglomerativeAtLeast`, `AgglomerativeExact`, `AgglomerativeNoEdges` and `AgglomerativeTargetNeverReached` |
| Agglomerative.Kruskal | graph/clustering/clustering.py:87-95 | the merge count never drops below its start, and a target the count starts below is never overshot |
| Agglomerative.KruskalMerges | graph/clustering/clustering.py:87-95 | each counted merge removes one set, so the number of sets plus the count is constant |
| Agglomerative.KruskalKeepsSizes | graph/clustering/clustering.py:88-93 | every merge of the loop is guarded by a root comparison, so sizes that counted the sets still do at the end |
| Agglomerative.KruskalKeepsJoined | graph/clustering/clustering.py:88-95 | elements that share a set keep sharing it for the rest of the loop |
| Agglomerative.KruskalCloses | graph/clustering/clustering.py:88-95 | the loop either stops by hitting its target, or leaves the two ends of every edge in one set |
| Agglomerative.KruskalReaches | graph/clustering/clustering.py:88-95 | every element stays connected by the input edges to the root of its set |
| Agglomerative.KruskalClosesExamined | graph/clustering/clustering.py:88-95 | every edge the loop examined, the one whose merge met the target included, ends with both its ends in one set |
| Agglomerative.KruskalReachesExamined | graph/clustering/clustering.py:88-95 | every element stays connected to the root of its set by the edges the loop examined alone |
| Agglomerative.KruskalStopsExamined | graph/clustering/clustering.py:88-95 | the loop leaves edges unexamined only when the `break` at its target fired |
| Agglomerative.LinkagePartition | graph/clustering/clustering.py:83-97 | run from singletons, two vertices share a label exactly when the edges the loop examined connect them |
| Agglomerative.AgglomerativeSingleLinkage | graph/clustering/clustering.py:75-97 | single linkage: the loop examines a prefix of the edges sorted by weight; every edge outside the prefix weighs at least as much as every edge in it; two vertices share a label exactly when the prefix connects them; edges are left out only when the target number of merges was met, and then `nNodes` minus the target clusters remain |
| Agglomerative.AgglomerativeSharedLabelConnected | graph/clustering/clustering.py:66-97 | two vertices with the same label are connected by a walk over the input edges |
| Agglomerative.AgglomerativeAtLeast | graph/clustering/clustering.py:83-97 | for `1 <= nClusters < nNodes`, at least `nClusters` distinct labels remain |
| Agglomerative.AgglomerativeExact | graph/clustering/clustering.py:83-97 | for `1 <= nClusters < nNodes` and edges that connect every vertex, exactly `nClusters` distinct labels remain |
| Agglomerative.AgglomerativeNoEdges | graph/clustering/clustering.py:83-97 | with no edges every vertex is labelled by itself, giving `nNodes` clusters |
| Agglomerative.AgglomerativeTargetNeverReached | graph/clustering/clustering.py:94 | as written, when `nClusters >= nNodes` and the edges connect every vertex, the result is a single cluster |
| Agglomerative.AgglomerativeTwoOfTwoExample | graph/clustering/clustering.py:94 | two vertices joined by an edge and asked for two clusters end up in one |
| Agglomerative.AgglomerativeClusteringGuarded | graph/clustering/clustering.py:94 | the corrected entry point of the Findings row, which skips the loop when the target is 0 or below; its own contract is one label per vertex, and `AgglomerativeGuardedCount` states its cluster counts |
| Agglomerative.AgglomerativeGuardedCount | graph/clustering/clustering.py:94 | with the stop test guarded, every `1 <= nClusters <= nNodes` gives at least `nClusters` clusters, and exactly `nClusters` when the edges connect every vertex |
| KMeans.SlicePrefix | graph/clustering/clustering.py:117 | the Python slice `perm[:k]` is a prefix of the permutation, of length `k` when `0 <= k <= n`, the whole permutation when `k >= n`, and `n + k` long (0 if that is negative) when `k < 0` |
| KMeans.Centroids | graph/clustering/clustering.py:117-118 | the centroids are exactly the entries of the Python slice `perm[:nClusters]`: each of the first `nClusters` entries (all but the last `-nClusters` when it is negative) is a centroid, and nothing else is |
| KMeans.KMeansClustering | graph/clustering/clustering.py:100-136 | its own contract is only that there is one label per vertex; what the labels are is stated by `KMeansPartition`, `KMeansNearest`, `KMeansCentroidsApart` and `KMeansAllCentroids` |
| KMeans.DistanceTable | graph/clustering/clustering.py:121-126 | the table is `n` by `n`; an entry is finite exactly when its column is a centroid and some edge runs from its row to that column |
| KMeans.DistanceTableLast | graph/clustering/clustering.py:124-126 | a finite entry holds the weight of the last edge from its row to its column, so a later edge overwrites an earlier one |
| KMeans.ArgMin | graph/clustering/clustering.py:133 | `argmin` returns an index of a least entry, and the first one: every earlier entry is strictly greater |
| KMeans.TargetShape | graph/clustering/clustering.py:121-133 | the vertex a row's argmin picks is a centroid, unless the whole row is infinite, in which case it is vertex 0 |
| KMeans.AnchorStep | graph/clustering/clustering.py:131-134 | handling a non-centroid vertex moves only that vertex, to where its target stands |
| KMeans.Assign | graph/clustering/clustering.py:132-134 | one turn of the periphery loop keeps the forest valid and its length; `AssignKernel` and `AssignStep` state how it changes the sets |
| KMeans.AssignPeriphery | graph/clustering/clustering.py:128-134 | the periphery loop keeps the forest valid and its length; `AssignPartition` states the partition it produces |
| KMeans.AssignKernel | graph/clustering/clustering.py:132-134 | one turn of the periphery loop: afterwards two vertices share a set exactly when they did before, or each was in the set of the vertex or in the set of its target |
| KMeans.AssignStep | graph/clustering/clustering.py:132-134 | one unguarded merge of a vertex's set with its target's set turns the partition before that vertex into the partition after it |
| KMeans.AssignPartition | graph/clustering/clustering.py:128-134 | after the periphery loop, two vertices share a set exactly when they have the same home: a centroid is its own home; any other vertex goes to its target when that is a centroid, and otherwise to vertex 0's target |
| KMeans.KMeansPartition | graph/clustering/clustering.py:113-136 | two vertices get the same label exactly when they have the same home |
| KMeans.KMeansNearest | graph/clustering/clustering.py:128-134 | a non-centroid vertex shares the label of the vertex its row's argmin picks |
| KMeans.NearestCentroid | graph/clustering/clustering.py:121-133 | the vertex a row's argmin picks is the first nearest centroid when the row has a finite entry, and vertex 0 when the row is all infinite |
| KMeans.KMeansCentroidsApart | graph/clustering/clustering.py:117-136 | two different centroids never share a label |
| KMeans.KMeansAllCentroids | graph/clustering/clustering.py:117-136 | when `nClusters >= nNodes` every vertex is a centroid and is labelled by itself, giving `nNodes` distinct labels (under the same edge requirement as `KMeansClustering`) |
| MinimumVertexCover.MeasureColourlessTail | graph/forest/exact-minimum-vertex-cover/mvc.cpp:12-28 | `length` is the number of uncovered neighbours (at most the list's length); `end` is the last uncovered neighbour, or 0 when there is none; `length` is 0 exactly when all neighbours are covered; when `length` is 1, `end` is the only uncovered neighbour |
| MinimumVertexCover.Visit | graph/forest/exact-minimum-vertex-cover/mvc.cpp:56-71 | a turn only sets flags; it changes nothing exactly when the vertex is covered or has two or more uncovered neighbours; the count grows by one exactly on a one-neighbour turn, which covers the vertex and that neighbour; a no-neighbour turn covers the vertex alone |
| MinimumVertexCover.Turn | graph/forest/exact-minimum-vertex-cover/mvc.cpp:56-71 | on any in-range lists the source's turn computes what `Visit` describes; on symmetric lists it keeps the loop invariant `Greedy` |
| MinimumVertexCover.IsolatedKeepsGreedy | graph/forest/exact-minimum-vertex-cover/mvc.cpp:67-70 | covering a vertex whose neighbours are all covered keeps every edge at a covered vertex touched by the cover |
| MinimumVertexCover.PickKeepsGreedy | graph/forest/exact-minimum-vertex-cover/mvc.cpp:61-66 | covering a vertex with its only uncovered neighbour, which joins the cover, keeps the invariant: the pairs stay vertex-disjoint edges and the cover grows by one new vertex |
| MinimumVertexCover.Sweep | graph/forest/exact-minimum-vertex-cover/mvc.cpp:54-72 | on any in-range lists a pass only sets flags and never lowers the count, and it changes nothing exactly when every uncovered vertex has at least two uncovered neighbours; on symmetric lists it keeps the loop invariant `Greedy` |
| MinimumVertexCover.ForestNotStuck | graph/forest/exact-minimum-vertex-cover/mvc.cpp:52-73 | on a forest with an uncovered vertex some uncovered vertex has at most one uncovered neighbour, so a pass makes progress |
| MinimumVertexCover.TriangleStuck | graph/forest/exact-minimum-vertex-cover/mvc.cpp:52-73 | the triangle is symmetric and the loop invariant holds at its start, yet with nothing covered every vertex has two uncovered neighbours, so a pass changes nothing and the loop never ends |
| MinimumVertexCover.CountTrue | graph/forest/exact-minimum-vertex-cover/mvc.cpp:52 | the count of set flags is at most the number of flags, and equals it exactly when every flag is set |
| MinimumVertexCover.CountTrueGrows | graph/forest/exact-minimum-vertex-cover/mvc.cpp:52 | setting more flags strictly raises the count, which bounds the number of passes |
| MinimumVertexCover.PicksBound | graph/forest/exact-minimum-vertex-cover/mvc.cpp:61-66 | any set of vertices touching each of a list of vertex-disjoint edges has at least as many vertices as there are edges |
| MinimumVertexCover.CoverForest | graph/forest/exact-minimum-vertex-cover/mvc.cpp:49-73 | on a forest the loop ends with every vertex covered; the count is the size of some vertex cover and no vertex cover is smaller |

## Left out

- Reading the graph from stdin and printing the count (mvc.cpp lines 32-47 and 75) are left out. They are I/O.
- The seeded `np.random.permutation` is left out because it is a foreign random source. `KMeans.KMeansClustering` takes the permutation as a parameter, required to list `0 .. nNodes-1` once each.
- Edge weights are naturals, so they are finite and never NaN; the Python sizes are naturals rather than a float array. For finite non-negative weights the comparisons and the argmin have the same shape. A weight of `float("inf")` is not modelled: in Python such an edge to a centroid leaves its table entry equal to "no edge" (clustering.py lines 121-126), so `argmin` can still pick vertex 0, while the model's finite weights are always below "no edge". NaN weights, which sort and argmin differently, are not modelled either; scipy's correlation distance of an all-zero vector is one (`graph/clustering/test.py` lines 10 and 76-80).
- `edges.sort(...)` (clustering.py line 85) sorts the caller's list in place. The model sorts a copy, so the reordering the caller sees afterwards is not modelled.
- KMeans.KMeansClustering: the periphery loop iterates the Python set `set(range(nNodes)) - centroids` (clustering.py line 128). CPython visits a set in hash-slot order, which need not be ascending: with `nNodes = 10` and centroids `{0, 1, 2, 4, 5, 6, 7, 8}`, 9 can come before 3. The model visits the periphery in ascending order. The order decides which root survives each merge, so the exact label values are not claimed to match the program. What is claimed holds for either order: which vertices share a label (`KMeans.KMeansPartition`, `KMeans.KMeansNearest`, `KMeans.KMeansCentroidsApart`), and `KMeans.KMeansAllCentroids`, which has no periphery.
- Negative vertex ids, which Python would index from the end, are not modelled; vertices are `nat`s. Ids at or past `nNodes` are excluded by preconditions. In the agglomerative loop such an id raises an index error once the loop reaches its edge, and `Edges.EdgesWithin` is required. In k-means an edge whose `v` is not a centroid is skipped (clustering.py line 125) whatever its ids, so `KMeans.KMeansClustering` requires `u < nNodes` only of edges whose `v` is a centroid.
- A Python slice with a negative `nClusters` is modelled. A negative count anywhere else has no meaning and is not discussed.
- `size_t` wrap-around of `coveringSize` is not modelled, because the count never exceeds the number of vertices.
- MinimumVertexCover.CoverForest: the source loop runs on any adjacency lists, but the model requires symmetric lists of a forest, with a rooted-forest witness. Without that, the loop need not terminate, as `MinimumVertexCover.TriangleStuck` shows. A single pass, `MinimumVertexCover.Sweep`, is modelled on any in-range lists.
- Edges.SortByWeight: stability of Python's sort (equal weights keep their order) holds for this insertion sort but is not stated as a contract.
- The `Edge` class constructor and the test driver (`graph/clustering/test.py`) are not part of this model.

## Findings

| source | as written | input that shows it | evidently intended | confidence | as-written member | corrected member |
|---|---|---|---|---|---|---|
| graph/clustering/clustering.py:94 | the stop test `connectedCentres == min(nNodes - nClusters, nNodes - 1)` runs only after a merge, so a target of 0 (`nClusters == nNodes`) is never met and the loop merges every connected component | `nNodes = 2`, `edges = [Edge(0, 1, 1)]`, `nClusters = 2` gives one cluster instead of two | with `nClusters == nNodes` no merge happens and every vertex keeps its own label | not executed | Agglomerative.AgglomerativeTwoOfTwoExample | Agglomerative.AgglomerativeGuardedCount |
