/**
 * The disjoint-set forest behind both clustering algorithms: a parent array
 * and a size array, union by size and recursive find with path compression.
 *
 * The forest is an immutable value here; every operation that mutates the
 * arrays in place returns the new forest instead.
 */
module DisjointUnionSet {

  /** `parent[i]` is the parent of element `i`, which is a root exactly when
      `parent[i] == i`; `size[i]` is the size recorded for the set rooted at `i`. */
  datatype Forest = Forest(parent: seq<nat>, size: seq<nat>)

  /** Every recorded size is at most the result. */
  function MaxSize(s: seq<nat>): (m: nat)
    ensures forall i :: 0 <= i < |s| ==> s[i] <= m
  {
    if |s| == 0 then 0
    else
      var rest := MaxSize(s[1..]);
      if s[0] > rest then s[0] else rest
  }

  /** The shape every reachable forest keeps: parent pointers stay in range,
      sizes are positive, and the size strictly grows from a child to its
      parent.  The last clause is what makes every walk to a root finite. */
  ghost predicate Valid(f: Forest) {
    && |f.size| == |f.parent|
    && (forall i {:trigger f.parent[i]} :: 0 <= i < |f.parent| ==> f.parent[i] < |f.parent| && f.size[i] >= 1)
    && (forall i {:trigger f.parent[i]} :: 0 <= i < |f.parent| && f.parent[i] != i ==> f.size[i] < f.size[f.parent[i]])
  }

  /** The root reached by following parent pointers from `a`. */
  ghost function Root(f: Forest, a: nat): (r: nat)
    requires Valid(f) && a < |f.parent|
    ensures r < |f.parent| && f.parent[r] == r
    decreases MaxSize(f.size) - f.size[a]
  {
    if f.parent[a] == a then a else Root(f, f.parent[a])
  }

  /** The elements whose root is `r`. */
  ghost function Members(f: Forest, r: nat): set<nat>
    requires Valid(f)
  {
    set x: nat | x < |f.parent| && Root(f, x) == r
  }

  /** The roots of the forest, one per set of the partition. */
  ghost function Roots(f: Forest): set<nat> {
    set r: nat | r < |f.parent| && f.parent[r] == r
  }

  /** The size recorded at each root is the number of elements of its set. */
  ghost predicate SizesCount(f: Forest)
    requires Valid(f)
  {
    forall r :: 0 <= r < |f.parent| && f.parent[r] == r ==> f.size[r] == |Members(f, r)|
  }

  /** `x` and `y` belong to the same set. */
  ghost predicate SameSet(f: Forest, x: nat, y: nat)
    requires Valid(f) && x < |f.parent| && y < |f.parent|
  {
    Root(f, x) == Root(f, y)
  }

  lemma {:induction false} RootSizeAbove(f: Forest, a: nat)
    requires Valid(f) && a < |f.parent| && f.parent[a] != a
    ensures f.size[a] < f.size[Root(f, a)] && Root(f, a) != a
    decreases MaxSize(f.size) - f.size[a]
  {
    var p := f.parent[a];
    if f.parent[p] != p {
      RootSizeAbove(f, p);
    }
  }

  /** A fresh forest of `n` singletons. */
  function Init(n: nat): (f: Forest)
    ensures Valid(f) && |f.parent| == n
    ensures forall i :: 0 <= i < n ==> Root(f, i) == i && f.size[i] == 1
  {
    Forest(seq(n, i => i), seq(n, i => 1))
  }

  /** The elements `0 .. n-1`. */
  function Range(n: nat): (s: set<nat>)
    ensures |s| == n
    ensures forall x :: x in s <==> 0 <= x < n
  {
    if n == 0 then {} else Range(n - 1) + {n - 1}
  }

  /** A fresh forest holds `n` singleton sets whose sizes count them. */
  lemma InitSingletons(n: nat)
    ensures forall r :: 0 <= r < n ==> Members(Init(n), r) == {r}
    ensures SizesCount(Init(n))
    ensures Roots(Init(n)) == Range(n)
    ensures |Roots(Init(n))| == n
  {
    var f := Init(n);
    forall r | 0 <= r < n
      ensures Members(f, r) == {r}
    {
      InitMembers(n, r);
    }
    assert SizesCount(f) by {
      forall r | 0 <= r < n && f.parent[r] == r
        ensures f.size[r] == |Members(f, r)|
      {
        InitMembers(n, r);
      }
    }
    assert Roots(f) == Range(n) by {
      forall r | r in Range(n)
        ensures r in Roots(f)
      {
        assert f.parent[r] == r;
      }
    }
  }

  lemma InitMembers(n: nat, r: nat)
    requires r < n
    ensures Members(Init(n), r) == {r}
  {
    var f := Init(n);
    forall x | x in Members(f, r)
      ensures x == r
    {
      assert Root(f, x) == x;
    }
    assert r in Members(f, r);
  }

  /** Redirecting parent pointers of some elements straight to their roots
      leaves every element's root where it was. */
  lemma {:induction false} RedirectRoot(f: Forest, g: Forest, x: nat)
    requires Valid(f) && Valid(g) && |g.parent| == |f.parent|
    requires forall i :: 0 <= i < |f.parent| ==> g.parent[i] == f.parent[i] || g.parent[i] == Root(f, i)
    requires x < |f.parent|
    ensures Root(g, x) == Root(f, x)
    decreases MaxSize(g.size) - g.size[x]
  {
    if g.parent[x] == x {
      if f.parent[x] != x {
        RootSizeAbove(f, x);
      }
    } else {
      var p := g.parent[x];
      RedirectRoot(f, g, p);
      if p != f.parent[x] {
        assert p == Root(f, x);
      }
    }
  }

  lemma RedirectPreservesRoots(f: Forest, g: Forest)
    requires Valid(f) && Valid(g) && |g.parent| == |f.parent|
    requires forall i :: 0 <= i < |f.parent| ==> g.parent[i] == f.parent[i] || g.parent[i] == Root(f, i)
    ensures forall x :: 0 <= x < |f.parent| ==> Root(g, x) == Root(f, x)
  {
    forall x | 0 <= x < |f.parent|
      ensures Root(g, x) == Root(f, x)
    {
      RedirectRoot(f, g, x);
    }
  }

  /** The step of find that points `a` straight at its root keeps the
      forest valid and every element in its set. */
  lemma Compress(f: Forest, g: Forest, a: nat, r: nat)
    requires Valid(f) && a < |f.parent| && f.parent[a] != a
    requires Valid(g) && |g.parent| == |f.parent| && g.size == f.size
    requires r == Root(f, f.parent[a]) && g.parent[r] == r
    requires forall i :: 0 <= i < |f.parent| ==> g.parent[i] == f.parent[i] || g.parent[i] == Root(f, i)
    ensures Valid(g.(parent := g.parent[a := r]))
    ensures forall i :: 0 <= i < |f.parent| ==>
      g.parent[a := r][i] == f.parent[i] || g.parent[a := r][i] == Root(f, i)
    ensures forall x :: 0 <= x < |f.parent| ==> Root(g.(parent := g.parent[a := r]), x) == Root(f, x)
  {
    RootSizeAbove(f, a);
    assert Root(f, a) == r;
    var h := g.(parent := g.parent[a := r]);
    assert Valid(h) by {
      forall i | 0 <= i < |h.parent|
        ensures h.parent[i] < |h.parent| && h.size[i] >= 1
      {
        if i != a {
          assert h.parent[i] == g.parent[i];
        }
      }
      forall i | 0 <= i < |h.parent| && h.parent[i] != i
        ensures h.size[i] < h.size[h.parent[i]]
      {
        if i == a {
          assert h.parent[i] == r && h.size[r] == f.size[Root(f, a)];
        } else {
          assert h.parent[i] == g.parent[i];
        }
      }
    }
    RedirectPreservesRoots(f, h);
  }

  /** Find with path compression: returns the root of `a` and a forest in
      which `a` and every element on its path point straight at that root.
      No element changes set, and no size changes. `FindSetPath` says which
      pointers change: exactly those on the path. */
  function FindSet(f: Forest, a: nat): (res: (Forest, nat))
    requires Valid(f) && a < |f.parent|
    ensures Valid(res.0) && |res.0.parent| == |f.parent| && res.0.size == f.size
    ensures res.1 == Root(f, a) && res.0.parent[res.1] == res.1 && res.0.parent[a] == res.1
    ensures forall i :: 0 <= i < |f.parent| ==> res.0.parent[i] == f.parent[i] || res.0.parent[i] == Root(f, i)
    ensures forall x :: 0 <= x < |f.parent| ==> Root(res.0, x) == Root(f, x)
    decreases MaxSize(f.size) - f.size[a]
  {
    if f.parent[a] == a then (f, a)
    else
      var (g, r) := FindSet(f, f.parent[a]);
      var h := g.(parent := g.parent[a := r]);
      Compress(f, g, a, r);
      (h, r)
  }

  /** Attaching root `loser` under root `w` moves exactly the set of `loser`
      into the set of `w`. */
  lemma {:induction false} RelinkRoot(f: Forest, g: Forest, loser: nat, w: nat, x: nat)
    requires Valid(f) && Valid(g) && |g.parent| == |f.parent|
    requires loser < |f.parent| && w < |f.parent| && f.parent[loser] == loser && f.parent[w] == w
    requires g.parent == f.parent[loser := w] && x < |f.parent|
    ensures Root(g, x) == if Root(f, x) == loser then w else Root(f, x)
    decreases MaxSize(g.size) - g.size[x]
  {
    if g.parent[x] != x && x != loser {
      RelinkRoot(f, g, loser, w, g.parent[x]);
    }
  }

  lemma RelinkRoots(f: Forest, g: Forest, loser: nat, w: nat)
    requires Valid(f) && Valid(g) && |g.parent| == |f.parent|
    requires loser < |f.parent| && w < |f.parent| && f.parent[loser] == loser && f.parent[w] == w
    requires g.parent == f.parent[loser := w]
    ensures forall x :: 0 <= x < |f.parent| ==> Root(g, x) == if Root(f, x) == loser then w else Root(f, x)
  {
    forall x | 0 <= x < |f.parent|
      ensures Root(g, x) == if Root(f, x) == loser then w else Root(f, x)
    {
      RelinkRoot(f, g, loser, w, x);
    }
  }

  /** Attaches root `loser` under root `w`, which records a size at least
      as large, and adds the size of `loser` to that of `w`.  The forest
      stays valid and the set of `loser` moves into the set of `w`. */
  function Link(f: Forest, loser: nat, w: nat): (g: Forest)
    requires Valid(f) && loser < |f.parent| && w < |f.parent|
    requires f.parent[loser] == loser && f.parent[w] == w && f.size[loser] <= f.size[w]
    ensures Valid(g) && |g.parent| == |f.parent|
    ensures g.parent[loser] == w && g.parent[w] == w && g.size[w] == f.size[w] + f.size[loser]
    ensures forall i :: 0 <= i < |f.parent| && i != w ==> g.size[i] == f.size[i]
    ensures forall x :: 0 <= x < |f.parent| ==> Root(g, x) == if Root(f, x) == loser then w else Root(f, x)
  {
    var g := Forest(f.parent[loser := w], f.size[w := f.size[w] + f.size[loser]]);
    assert Valid(g) by {
      forall i | 0 <= i < |g.parent|
        ensures g.parent[i] < |g.parent| && g.size[i] >= 1
      {
      }
      forall i | 0 <= i < |g.parent| && g.parent[i] != i
        ensures g.size[i] < g.size[g.parent[i]]
      {
        if i != loser {
          assert g.parent[i] == f.parent[i];
          assert i != w;
        }
      }
    }
    RelinkRoots(f, g, loser, w);
    g
  }

  /** The root that receives the other set in `MergeSet(f, a, b)`: the root
      of the larger set, or the root of `a` when the sizes are equal. */
  ghost function Winner(f: Forest, a: nat, b: nat): nat
    requires Valid(f) && a < |f.parent| && b < |f.parent|
  {
    var ra, rb := Root(f, a), Root(f, b);
    if f.size[ra] < f.size[rb] then rb else ra
  }

  /** The root that is attached under the winner. */
  ghost function Loser(f: Forest, a: nat, b: nat): nat
    requires Valid(f) && a < |f.parent| && b < |f.parent|
  {
    var ra, rb := Root(f, a), Root(f, b);
    if f.size[ra] < f.size[rb] then ra else rb
  }

  /** Union by size.  The two sets become one, rooted at the winner, whose
      size becomes the sum of the two recorded sizes; every other set and
      every other size is unchanged.  Nothing guards against `a` and `b`
      already sharing a root: the size of that root is then doubled. */
  function MergeSet(f: Forest, a: nat, b: nat): (g: Forest)
    requires Valid(f) && a < |f.parent| && b < |f.parent|
    ensures Valid(g) && |g.parent| == |f.parent|
    ensures g.parent[Loser(f, a, b)] == Winner(f, a, b) && g.parent[Winner(f, a, b)] == Winner(f, a, b)
    ensures g.size[Winner(f, a, b)] == f.size[Root(f, a)] + f.size[Root(f, b)]
    ensures forall i :: 0 <= i < |f.parent| && i != Winner(f, a, b) ==> g.size[i] == f.size[i]
    ensures forall x :: 0 <= x < |f.parent| ==>
      Root(g, x) == if Root(f, x) == Root(f, a) || Root(f, x) == Root(f, b) then Winner(f, a, b) else Root(f, x)
  {
    var p := FindPair(f, a, b);
    if p.forest.size[p.ra] < p.forest.size[p.rb] then
      assert Winner(f, a, b) == p.rb && Loser(f, a, b) == p.ra;
      Link(p.forest, p.ra, p.rb)
    else
      assert Winner(f, a, b) == p.ra && Loser(f, a, b) == p.rb;
      Link(p.forest, p.rb, p.ra)
  }

  /** A forest after two finds, with the two roots they returned. */
  datatype Found = Found(forest: Forest, ra: nat, rb: nat)

  /** Find `a`, then find `b` in the forest the first find left, as union
      and the clustering loops do.  The roots returned are the roots of `a`
      and `b` in the original forest, both still roots, and no element
      changes set and no size changes. */
  function FindPair(f: Forest, a: nat, b: nat): (r: Found)
    requires Valid(f) && a < |f.parent| && b < |f.parent|
    ensures Valid(r.forest) && |r.forest.parent| == |f.parent| && r.forest.size == f.size
    ensures r.ra == Root(f, a) && r.rb == Root(f, b)
    ensures r.forest.parent[r.ra] == r.ra && r.forest.parent[r.rb] == r.rb
    ensures forall x :: 0 <= x < |f.parent| ==> Root(r.forest, x) == Root(f, x)
  {
    var (f1, ra) := FindSet(f, a);
    var (f2, rb) := FindSet(f1, b);
    assert Root(f1, ra) == ra;
    Found(f2, ra, rb)
  }

  /** An element is its own root exactly when it is a root. */
  lemma IsRootIff(f: Forest, i: nat)
    requires Valid(f) && i < |f.parent|
    ensures f.parent[i] == i <==> Root(f, i) == i
  {
    if f.parent[i] != i {
      RootSizeAbove(f, i);
    }
  }

  /** Find keeps the roots, the sets and the recorded sizes, so a forest
      whose sizes count its sets still does after a find. */
  lemma FindSetKeepsPartition(f: Forest, a: nat)
    requires Valid(f) && a < |f.parent|
    ensures Roots(FindSet(f, a).0) == Roots(f)
    ensures forall r :: Members(FindSet(f, a).0, r) == Members(f, r)
    ensures SizesCount(f) ==> SizesCount(FindSet(f, a).0)
  {
    var g := FindSet(f, a).0;
    forall r | 0 <= r < |f.parent|
      ensures g.parent[r] == r <==> f.parent[r] == r
    {
      IsRootIff(f, r);
    }
  }

  /** Two finds keep the roots and the sets, so sizes that counted the
      sets still do. */
  lemma FindPairKeepsPartition(f: Forest, a: nat, b: nat)
    requires Valid(f) && a < |f.parent| && b < |f.parent|
    ensures Roots(FindPair(f, a, b).forest) == Roots(f)
    ensures SizesCount(f) ==> SizesCount(FindPair(f, a, b).forest)
  {
    FindSetKeepsPartition(f, a);
    FindSetKeepsPartition(FindSet(f, a).0, b);
  }

  /** `i` lies on the path from `a` up to its root, both ends included. */
  ghost predicate OnPath(f: Forest, a: nat, i: nat)
    requires Valid(f) && a < |f.parent|
    decreases MaxSize(f.size) - f.size[a]
  {
    i == a || (f.parent[a] != a && OnPath(f, f.parent[a], i))
  }

  /** Exactly the elements on the path from `a` end up pointing at the root
      of `a`; every other parent pointer is left as it was. */
  lemma {:induction false} FindSetPath(f: Forest, a: nat, i: nat)
    requires Valid(f) && a < |f.parent| && i < |f.parent|
    ensures FindSet(f, a).0.parent[i] == if OnPath(f, a, i) then Root(f, a) else f.parent[i]
    decreases MaxSize(f.size) - f.size[a]
  {
    if f.parent[a] != a && i != a {
      FindSetPath(f, f.parent[a], i);
    }
  }

  /** Calling find a second time on the same element returns the same root
      and changes nothing more. */
  lemma FindSetIdempotent(f: Forest, a: nat)
    requires Valid(f) && a < |f.parent|
    ensures FindSet(FindSet(f, a).0, a) == FindSet(f, a)
  {
    var (g, r) := FindSet(f, a);
    if g.parent[a] != a {
      assert FindSet(g, r) == (g, r);
      assert g.parent[a := r] == g.parent;
    }
  }

  /** Two elements share a set after a merge exactly when they shared one
      before, or each of them was in one of the two merged sets. */
  lemma MergeSetKernel(f: Forest, a: nat, b: nat)
    requires Valid(f) && a < |f.parent| && b < |f.parent|
    ensures forall x, y :: 0 <= x < |f.parent| && 0 <= y < |f.parent| ==>
      (SameSet(MergeSet(f, a, b), x, y) <==>
         SameSet(f, x, y)
         || ((Root(f, x) == Root(f, a) || Root(f, x) == Root(f, b))
             && (Root(f, y) == Root(f, a) || Root(f, y) == Root(f, b))))
  {
  }

  /** Elements that share a set still share one after a union. */
  lemma MergeSetKeepsJoined(f: Forest, a: nat, b: nat, x: nat, y: nat)
    requires Valid(f) && a < |f.parent| && b < |f.parent|
    requires x < |f.parent| && y < |f.parent| && Root(f, x) == Root(f, y)
    ensures Root(MergeSet(f, a, b), x) == Root(MergeSet(f, a, b), y)
  {
  }

  /** The order of the arguments of a merge decides which root survives but
      not which elements end up together. */
  lemma MergeSetCommutes(f: Forest, a: nat, b: nat)
    requires Valid(f) && a < |f.parent| && b < |f.parent|
    ensures forall x, y :: 0 <= x < |f.parent| && 0 <= y < |f.parent| ==>
      (SameSet(MergeSet(f, a, b), x, y) <==> SameSet(MergeSet(f, b, a), x, y))
  {
    MergeSetKernel(f, a, b);
    MergeSetKernel(f, b, a);
  }

  /** A merge of two different sets removes exactly the losing root, so the
      number of sets drops by one. */
  lemma MergeSetRoots(f: Forest, a: nat, b: nat)
    requires Valid(f) && a < |f.parent| && b < |f.parent| && Root(f, a) != Root(f, b)
    ensures Loser(f, a, b) in Roots(f)
    ensures Roots(MergeSet(f, a, b)) == Roots(f) - {Loser(f, a, b)}
    ensures |Roots(MergeSet(f, a, b))| == |Roots(f)| - 1
  {
    var g := MergeSet(f, a, b);
    var loser := Loser(f, a, b);
    forall i | 0 <= i < |f.parent|
      ensures g.parent[i] == i <==> f.parent[i] == i && i != loser
    {
      MergeSetRootAt(f, a, b, i);
    }
    RootsMinus(f, g, loser);
  }

  /** A forest whose roots are those of `f` but one has one root fewer. */
  lemma RootsMinus(f: Forest, g: Forest, loser: nat)
    requires |g.parent| == |f.parent| && loser < |f.parent| && f.parent[loser] == loser
    requires forall i :: 0 <= i < |f.parent| ==> (g.parent[i] == i <==> f.parent[i] == i && i != loser)
    ensures loser in Roots(f)
    ensures Roots(g) == Roots(f) - {loser}
    ensures |Roots(g)| == |Roots(f)| - 1
  {
    assert Roots(g) == Roots(f) - {loser};
  }

  /** After a merge of two different sets an element is a root exactly
      when it was one and is not the loser. */
  lemma MergeSetRootAt(f: Forest, a: nat, b: nat, i: nat)
    requires Valid(f) && a < |f.parent| && b < |f.parent| && Root(f, a) != Root(f, b)
    requires i < |f.parent|
    ensures MergeSet(f, a, b).parent[i] == i <==> f.parent[i] == i && i != Loser(f, a, b)
  {
    var g := MergeSet(f, a, b);
    var ra, rb, w, loser := Root(f, a), Root(f, b), Winner(f, a, b), Loser(f, a, b);
    assert w == ra || w == rb;
    assert loser == ra || loser == rb;
    assert loser != w;
    IsRootIff(f, i);
    IsRootIff(g, i);
    var ri := Root(f, i);
    assert Root(g, i) == if ri == ra || ri == rb then w else ri;
    if f.parent[i] == i {
      assert ri == i;
    } else {
      assert ri != i;
    }
  }

  /** The receiving root's set is the union of the two merged sets. */
  lemma MergeSetMembers(f: Forest, a: nat, b: nat)
    requires Valid(f) && a < |f.parent| && b < |f.parent|
    ensures Members(MergeSet(f, a, b), Winner(f, a, b)) == Members(f, Root(f, a)) + Members(f, Root(f, b))
    ensures forall r :: r != Root(f, a) && r != Root(f, b) ==> Members(MergeSet(f, a, b), r) == Members(f, r)
  {
    MembersUnion(f, MergeSet(f, a, b), Root(f, a), Root(f, b), Winner(f, a, b));
  }

  /** When `g` sends the sets of `ra` and `rb` to `w`, one of the two, and
      keeps every other root, the set of `w` is the union of the two and
      every other set is unchanged. */
  lemma MembersUnion(f: Forest, g: Forest, ra: nat, rb: nat, w: nat)
    requires Valid(f) && Valid(g) && |g.parent| == |f.parent| && (w == ra || w == rb)
    requires forall x :: 0 <= x < |f.parent| ==>
      Root(g, x) == if Root(f, x) == ra || Root(f, x) == rb then w else Root(f, x)
    ensures Members(g, w) == Members(f, ra) + Members(f, rb)
    ensures forall r :: r != ra && r != rb ==> Members(g, r) == Members(f, r)
  {
    assert Members(g, w) == Members(f, ra) + Members(f, rb);
    forall r | r != ra && r != rb
      ensures Members(g, r) == Members(f, r)
    {
      forall x | 0 <= x < |f.parent|
        ensures Root(g, x) == r <==> Root(f, x) == r
      {
      }
    }
  }

  /** When the sizes counted the sets before a merge of two different sets,
      they still do. */
  lemma MergeSetCounts(f: Forest, a: nat, b: nat)
    requires Valid(f) && a < |f.parent| && b < |f.parent| && Root(f, a) != Root(f, b)
    requires SizesCount(f)
    ensures SizesCount(MergeSet(f, a, b))
  {
    var g := MergeSet(f, a, b);
    MergeSetMembers(f, a, b);
    MergeSetRoots(f, a, b);
    forall r | 0 <= r < |g.parent| && g.parent[r] == r
      ensures g.size[r] == |Members(g, r)|
    {
      MergeSetCountsAt(f, a, b, r);
    }
  }

  /** The counting argument for one root of the merged forest. */
  lemma MergeSetCountsAt(f: Forest, a: nat, b: nat, r: nat)
    requires Valid(f) && a < |f.parent| && b < |f.parent| && Root(f, a) != Root(f, b)
    requires SizesCount(f)
    requires Members(MergeSet(f, a, b), Winner(f, a, b)) == Members(f, Root(f, a)) + Members(f, Root(f, b))
    requires forall r :: r != Root(f, a) && r != Root(f, b) ==> Members(MergeSet(f, a, b), r) == Members(f, r)
    requires Roots(MergeSet(f, a, b)) == Roots(f) - {Loser(f, a, b)}
    requires r < |f.parent| && MergeSet(f, a, b).parent[r] == r
    ensures MergeSet(f, a, b).size[r] == |Members(MergeSet(f, a, b), r)|
  {
    var g := MergeSet(f, a, b);
    var ra, rb, w := Root(f, a), Root(f, b), Winner(f, a, b);
    assert r in Roots(g);
    if r != w {
      assert r in Roots(f) && r != ra && r != rb;
      assert g.size[r] == f.size[r];
      assert f.size[r] == |Members(f, r)|;
    } else {
      assert ra in Roots(f) && rb in Roots(f);
      CountUnion(f, g, ra, rb, w);
    }
  }

  /** The size recorded for a union of two different sets, each counted by
      its own size, counts the union. */
  lemma CountUnion(f: Forest, g: Forest, ra: nat, rb: nat, w: nat)
    requires Valid(f) && Valid(g) && SizesCount(f) && ra != rb
    requires ra < |f.parent| && f.parent[ra] == ra && rb < |f.parent| && f.parent[rb] == rb
    requires w < |g.parent| && g.size[w] == f.size[ra] + f.size[rb]
    requires Members(g, w) == Members(f, ra) + Members(f, rb)
    ensures g.size[w] == |Members(g, w)|
  {
    assert Members(f, ra) !! Members(f, rb);
  }

  /** A merge of an element with one of its own set changes no set but
      doubles the recorded size of its root, so the sizes stop counting the
      sets: callers must check that the roots differ. */
  lemma MergeSetSameRoot(f: Forest, a: nat, b: nat)
    requires Valid(f) && a < |f.parent| && b < |f.parent| && Root(f, a) == Root(f, b)
    ensures forall x :: 0 <= x < |f.parent| ==> Root(MergeSet(f, a, b), x) == Root(f, x)
    ensures MergeSet(f, a, b).size[Root(f, a)] == 2 * f.size[Root(f, a)]
    ensures SizesCount(f) ==> !SizesCount(MergeSet(f, a, b))
  {
    var g := MergeSet(f, a, b);
    var r := Root(f, a);
    assert Winner(f, a, b) == r;
    forall x | 0 <= x < |f.parent|
      ensures Root(g, x) == Root(f, x)
    {
    }
    if SizesCount(f) {
      assert r in Members(f, r);
      assert Members(g, r) == Members(f, r);
      assert g.parent[r] == r && g.size[r] != |Members(g, r)|;
    }
  }

  /** The distinct labels are exactly the roots. */
  lemma LabellingClusters(f: Forest)
    requires Valid(f)
    ensures Clusters(Labelling(f)) == Roots(f)
    ensures |Clusters(Labelling(f))| == |Roots(f)|
  {
    var labels := Labelling(f);
    forall r | r in Roots(f)
      ensures r in Clusters(labels)
    {
      assert labels[r] == r;
    }
    forall l | l in Clusters(labels)
      ensures l in Roots(f)
    {
      var i :| 0 <= i < |labels| && labels[i] == l;
      assert l == Root(f, i);
    }
    assert Clusters(labels) == Roots(f);
  }

  /** The labelling of the Python class maps find over the parent array:
      entry `i` is computed from the current parent of `i`, in a forest that
      the earlier finds have compressed. */
  function LabelsFrom(f: Forest, i: nat): (labels: seq<nat>)
    requires Valid(f) && i <= |f.parent|
    ensures |labels| == |f.parent| - i
    decreases |f.parent| - i
  {
    if i == |f.parent| then []
    else
      var found := FindSet(f, f.parent[i]);
      [found.1] + LabelsFrom(found.0, i + 1)
  }

  /** Although every find may compress the forest the later entries are
      read from, entry `j` of the labelling from `i` on is the root of `j`
      in the forest the labelling started from. */
  lemma {:induction false} LabelsFromRoot(f: Forest, i: nat, j: nat)
    requires Valid(f) && i <= j < |f.parent|
    ensures LabelsFrom(f, i)[j - i] == Root(f, j)
    decreases j - i
  {
    var found := FindSet(f, f.parent[i]);
    assert LabelsFrom(f, i) == [found.1] + LabelsFrom(found.0, i + 1);
    if j == i {
      assert found.1 == Root(f, i);
    } else {
      LabelsFromRoot(found.0, i + 1, j);
    }
  }

  /** One label per element: the root of its set. */
  function Labelling(f: Forest): (labels: seq<nat>)
    requires Valid(f)
    ensures |labels| == |f.parent|
    ensures forall i :: 0 <= i < |f.parent| ==> labels[i] == Root(f, i)
  {
    var labels := LabelsFrom(f, 0);
    forall i | 0 <= i < |f.parent|
      ensures labels[i] == Root(f, i)
    {
      LabelsFromRoot(f, 0, i);
    }
    labels
  }

  /** The distinct labels of a labelling, i.e. its clusters. */
  function Clusters(labels: seq<nat>): set<nat> {
    set i | 0 <= i < |labels| :: labels[i]
  }
}
