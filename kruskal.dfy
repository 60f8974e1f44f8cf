/** The visualizer's "Kruskal": sort the caller's edge array in place by
    weight, then scan it once, keeping each edge whose ends the union-find
    still places in different sets. */
module Kruskal {
  import opened Graph
  import opened UnionFind

  // ---------------------------------------------------------------------
  // `edges.sort((a, b) => a.weight - b.weight)`: a stable sort by weight
  // ---------------------------------------------------------------------

  predicate SortedByWeight(s: seq<Edge>)
  {
    forall i, j :: 0 <= i < j < |s| ==> s[i].weight <= s[j].weight
  }

  /** `e` placed after every edge of `t` that is no heavier, scanning from
      the back: the step of a stable insertion sort. */
  function Insert(t: seq<Edge>, e: Edge): seq<Edge>
  {
    if t == [] || t[|t| - 1].weight <= e.weight then t + [e]
    else Insert(t[..|t| - 1], e) + [t[|t| - 1]]
  }

  /** The order a stable sort by weight leaves the edges in. */
  function SortByWeight(s: seq<Edge>): seq<Edge>
  {
    if s == [] then [] else Insert(SortByWeight(s[..|s| - 1]), s[|s| - 1])
  }

  /** The edges of `s` of weight `w`, in their order in `s`. */
  function OfWeight(s: seq<Edge>, w: int): seq<Edge>
  {
    if s == [] then []
    else OfWeight(s[..|s| - 1], w) + (if s[|s| - 1].weight == w then [s[|s| - 1]] else [])
  }

  lemma {:induction false} OfWeightAppend(s: seq<Edge>, f: seq<Edge>, w: int)
    ensures OfWeight(s + f, w) == OfWeight(s, w) + OfWeight(f, w)
    decreases |f|
  {
    if f == [] {
      assert s + f == s;
    } else {
      assert (s + f)[..|s + f| - 1] == s + f[..|f| - 1];
      OfWeightAppend(s, f[..|f| - 1], w);
    }
  }

  lemma {:induction false} InsertPermutes(t: seq<Edge>, e: Edge)
    ensures multiset(Insert(t, e)) == multiset(t) + multiset{e}
    decreases |t|
  {
    if !(t == [] || t[|t| - 1].weight <= e.weight) {
      var init, last := t[..|t| - 1], t[|t| - 1];
      assert t == init + [last];
      InsertPermutes(init, e);
    }
  }

  lemma {:induction false} InsertSorted(t: seq<Edge>, e: Edge)
    requires SortedByWeight(t)
    ensures SortedByWeight(Insert(t, e))
    decreases |t|
  {
    if !(t == [] || t[|t| - 1].weight <= e.weight) {
      var init, last := t[..|t| - 1], t[|t| - 1];
      InsertSorted(init, e);
      InsertPermutes(init, e);
      var r := Insert(init, e);
      forall k | 0 <= k < |r|
        ensures r[k].weight <= last.weight
      {
        assert r[k] in multiset(r);
        if r[k] != e {
          assert r[k] in multiset(init);
          var m :| 0 <= m < |init| && init[m] == r[k];
          assert t[m] == init[m];
        }
      }
    }
  }

  lemma {:induction false} InsertOfWeight(t: seq<Edge>, e: Edge, w: int)
    ensures OfWeight(Insert(t, e), w) == OfWeight(t, w) + OfWeight([e], w)
    decreases |t|
  {
    assert [e][..0] == [];
    if t == [] || t[|t| - 1].weight <= e.weight {
      OfWeightAppend(t, [e], w);
    } else {
      var init, last := t[..|t| - 1], t[|t| - 1];
      assert t == init + [last];
      assert [last][..0] == [];
      InsertOfWeight(init, e, w);
      OfWeightAppend(Insert(init, e), [last], w);
      OfWeightAppend(init, [last], w);
    }
  }

  /** The sort yields the same edges, ordered by weight. */
  lemma {:induction false} SortByWeightSorted(s: seq<Edge>)
    ensures SortedByWeight(SortByWeight(s)) && multiset(SortByWeight(s)) == multiset(s)
  {
    if s != [] {
      var init := s[..|s| - 1];
      assert s == init + [s[|s| - 1]];
      SortByWeightSorted(init);
      InsertSorted(SortByWeight(init), s[|s| - 1]);
      InsertPermutes(SortByWeight(init), s[|s| - 1]);
    }
  }

  /** The sort is stable: the edges of any one weight keep their order. */
  lemma {:induction false} SortByWeightStable(s: seq<Edge>, w: int)
    ensures OfWeight(SortByWeight(s), w) == OfWeight(s, w)
  {
    if s != [] {
      var init := s[..|s| - 1];
      assert s == init + [s[|s| - 1]];
      SortByWeightStable(init, w);
      InsertOfWeight(SortByWeight(init), s[|s| - 1], w);
      OfWeightAppend(init, [s[|s| - 1]], w);
    }
  }

  /** Inserting past a run of heavier edges: they simply follow `e`. */
  lemma {:induction false} InsertPastHeavier(t: seq<Edge>, e: Edge, j: nat)
    requires j <= |t| && forall k :: j <= k < |t| ==> t[k].weight > e.weight
    ensures Insert(t, e) == Insert(t[..j], e) + t[j..]
    decreases |t| - j
  {
    if j < |t| {
      var init := t[..|t| - 1];
      InsertPastHeavier(init, e, j);
      assert init[..j] == t[..j];
      assert t[j..] == init[j..] + [t[|t| - 1]];
    } else {
      assert t[..j] == t;
    }
  }

  /** `t` with `key` put at `j` and the rest moved one place right is
      `Insert(t, key)` when `j` is just past the last edge no heavier. */
  lemma ShiftedIsInsert(t: seq<Edge>, key: Edge, j: nat, r: seq<Edge>)
    requires j <= |t| && |r| == |t| + 1 && r[j] == key
    requires forall k :: 0 <= k < j ==> r[k] == t[k]
    requires forall k :: j < k < |r| ==> r[k] == t[k - 1]
    requires forall k :: j <= k < |t| ==> t[k].weight > key.weight
    requires j == 0 || t[j - 1].weight <= key.weight
    ensures r == Insert(t, key)
  {
    InsertPastHeavier(t, key, j);
    assert Insert(t[..j], key) == t[..j] + [key];
    assert r == t[..j] + [key] + t[j..];
  }

  /** One round of the insertion sort: `a[i]` moves left past the heavier
      edges of the sorted prefix `a[..i]`, which shift one place right. */
  method InsertInPlace(a: array<Edge>, i: nat)
    requires i < a.Length
    modifies a
    ensures a[..i + 1] == Insert(old(a[..i]), old(a[i])) && a[i + 1..] == old(a[i + 1..])
  {
    ghost var t := a[..i];
    var key := a[i];
    var j := i;
    while j > 0 && a[j - 1].weight > key.weight
      invariant 0 <= j <= i
      invariant forall k :: 0 <= k < j ==> a[k] == t[k]
      invariant forall k :: j < k <= i ==> a[k] == t[k - 1]
      invariant forall k :: i < k < a.Length ==> a[k] == old(a[k])
      invariant forall k :: j <= k < i ==> t[k].weight > key.weight
    {
      a[j] := a[j - 1];
      j := j - 1;
    }
    a[j] := key;
    ShiftedIsInsert(t, key, j, a[..i + 1]);
    assert a[i + 1..] == old(a[i + 1..]);
  }

  /** The sort on the array itself, as an insertion sort; any stable sort
      leaves the same array. */
  method SortEdges(a: array<Edge>)
    modifies a
    ensures a[..] == SortByWeight(old(a[..]))
  {
    ghost var s := a[..];
    for i := 0 to a.Length
      invariant a[..i] == SortByWeight(s[..i])
      invariant a[i..] == s[i..]
    {
      assert a[i] == s[i] && a[i + 1..] == s[i + 1..] by {
        assert a[i..][0] == a[i] && a[i..][1..] == a[i + 1..];
        assert s[i..][0] == s[i] && s[i..][1..] == s[i + 1..];
      }
      InsertInPlace(a, i);
      assert s[..i + 1][..i] == s[..i];
    }
    assert a[..] == a[..a.Length] && s == s[..a.Length];
  }

  // ---------------------------------------------------------------------
  // The scan: a reference definition by connectivity
  // ---------------------------------------------------------------------

  /** The edges Kruskal's scan keeps from `es`, defined without a union-find:
      an edge is kept exactly when the edges kept before it do not already
      connect its ends. */
  ghost function Greedy(es: seq<Edge>): seq<Edge>
  {
    if es == [] then []
    else
      var t, e := Greedy(es[..|es| - 1]), es[|es| - 1];
      if Connected(t, e.from, e.to) then t else t + [e]
  }

  /** Every kept edge is an edge of `es`, and the weights of kept edges are
      non-decreasing when those of `es` are. */
  lemma {:induction false} GreedyFromEdges(es: seq<Edge>)
    ensures |Greedy(es)| <= |es|
    ensures forall k :: 0 <= k < |Greedy(es)| ==> Greedy(es)[k] in es
    ensures SortedByWeight(es) ==> SortedByWeight(Greedy(es))
  {
    if es != [] {
      var init, e := es[..|es| - 1], es[|es| - 1];
      GreedyFromEdges(init);
      var t := Greedy(init);
      forall k | 0 <= k < |t|
        ensures t[k] in es && (SortedByWeight(es) ==> t[k].weight <= e.weight)
      {
        var m :| 0 <= m < |init| && init[m] == t[k];
        assert es[m] == t[k];
      }
    }
  }

  /** No kept edge closes a cycle: its ends were not connected by the edges
      kept before it. */
  lemma {:induction false} GreedyAcyclic(es: seq<Edge>)
    ensures forall k :: 0 <= k < |Greedy(es)| ==>
      !Connected(Greedy(es)[..k], Greedy(es)[k].from, Greedy(es)[k].to)
  {
    if es != [] {
      var init, e := es[..|es| - 1], es[|es| - 1];
      GreedyAcyclic(init);
      var t := Greedy(init);
      if !Connected(t, e.from, e.to) {
        var g := t + [e];
        forall k | 0 <= k < |g|
          ensures !Connected(g[..k], g[k].from, g[k].to)
        {
          if k < |t| {
            assert g[..k] == t[..k];
          } else {
            assert g[..k] == t;
          }
        }
      }
    }
  }

  /** One step of the scan only adds an edge; the ends of the scanned
      edges stay connected. */
  lemma CoversStep(init: seq<Edge>, e: Edge, t: seq<Edge>, g: seq<Edge>)
    requires g == if Connected(t, e.from, e.to) then t else t + [e]
    requires forall k :: 0 <= k < |init| ==> Connected(t, init[k].from, init[k].to)
    ensures forall k :: 0 <= k < |init + [e]| ==> Connected(g, (init + [e])[k].from, (init + [e])[k].to)
  {
    assert forall k :: 0 <= k < |t| ==> t[k] in g by {
      forall k | 0 <= k < |t|
        ensures t[k] in g
      {
        assert g == t || g[k] == t[k];
      }
    }
    forall k | 0 <= k < |init + [e]|
      ensures Connected(g, (init + [e])[k].from, (init + [e])[k].to)
    {
      if k < |init| {
        assert (init + [e])[k] == init[k];
        ConnectedMono(t, g, init[k].from, init[k].to);
      } else {
        CoversLast(t, g, e);
      }
    }
  }

  /** The ends of every edge of `es` are connected by the kept edges. */
  lemma {:induction false} GreedyCovers(es: seq<Edge>)
    ensures forall k :: 0 <= k < |es| ==> Connected(Greedy(es), es[k].from, es[k].to)
  {
    if es != [] {
      var init, e := es[..|es| - 1], es[|es| - 1];
      GreedyCovers(init);
      assert es == init + [e];
      CoversStep(init, e, Greedy(init), Greedy(es));
    }
  }

  lemma CoversLast(t: seq<Edge>, g: seq<Edge>, e: Edge)
    requires g == if Connected(t, e.from, e.to) then t else t + [e]
    ensures Connected(g, e.from, e.to)
  {
    if !Connected(t, e.from, e.to) {
      assert g[|t|] == e;
      ConnectedByEdge(g, |t|);
    }
  }

  /** The kept edges connect exactly what `es` connects. */
  lemma GreedySpans(es: seq<Edge>, x: string, y: string)
    ensures Connected(Greedy(es), x, y) <==> Connected(es, x, y)
  {
    GreedyFromEdges(es);
    GreedyCovers(es);
    if Connected(Greedy(es), x, y) {
      ConnectedMono(Greedy(es), es, x, y);
    }
    if Connected(es, x, y) {
      ConnectedByCover(es, Greedy(es), x, y);
    }
  }

  // ---------------------------------------------------------------------
  // The union-find's roots label the components of the kept edges
  // ---------------------------------------------------------------------

  /** Every kept edge joins two ids, and two ids share a root exactly when
      the kept edges connect them. */
  ghost predicate Labels(root: map<string, string>, ids: set<string>, tree: seq<Edge>)
  {
    && root.Keys == ids
    && (forall k :: 0 <= k < |tree| ==> tree[k].from in ids && tree[k].to in ids)
    && forall x, y {:trigger Connected(tree, x, y)} :: x in ids && y in ids ==> (root[x] == root[y] <==> Connected(tree, x, y))
  }

  /** All ids their own root: the labels of the empty tree. */
  lemma LabelsInit(root: map<string, string>, ids: set<string>)
    requires root.Keys == ids && forall x :: x in ids ==> root[x] == x
    ensures Labels(root, ids, [])
  {
    forall x, y | x in ids && y in ids
      ensures root[x] == root[y] <==> Connected([], x, y)
    {
      if Connected([], x, y) {
        var p :| IsWalk([], p) && p[0] == x && p[|p| - 1] == y;
        assert |p| == 1 || Adjacent([], p[0], p[1]);
      } else {
        ConnectedRefl([], x);
      }
    }
  }

  /** Under the relabelled roots every edge of `tree + [e]` joins two ids
      with the same label. */
  lemma LabelsJoinEdges(root: map<string, string>, ids: set<string>, tree: seq<Edge>, e: Edge, l: string, w: string)
    requires Labels(root, ids, tree) && e.from in ids && e.to in ids
    requires (l == root[e.from] && w == root[e.to]) || (l == root[e.to] && w == root[e.from])
    ensures var r, t := Relabel(root, l, w), tree + [e];
      forall k :: 0 <= k < |t| ==> t[k].from in r && t[k].to in r && r[t[k].from] == r[t[k].to]
  {
    var r, t := Relabel(root, l, w), tree + [e];
    forall k | 0 <= k < |t|
      ensures t[k].from in r && t[k].to in r && r[t[k].from] == r[t[k].to]
    {
      if k < |tree| {
        assert t[k] == tree[k];
        ConnectedByEdge(tree, k);
      }
    }
  }

  /** Hanging one of the two roots of `e`'s ends under the other makes the
      labels follow the components of `tree + [e]`. */
  lemma LabelsJoin(root: map<string, string>, ids: set<string>, tree: seq<Edge>, e: Edge, l: string, w: string)
    requires Labels(root, ids, tree) && e.from in ids && e.to in ids && root[e.from] != root[e.to]
    requires (l == root[e.from] && w == root[e.to]) || (l == root[e.to] && w == root[e.from])
    ensures Labels(Relabel(root, l, w), ids, tree + [e])
  {
    var r, t := Relabel(root, l, w), tree + [e];
    var a, b := e.from, e.to;
    LabelsJoinEdges(root, ids, tree, e, l, w);
    assert forall k :: 0 <= k < |tree| ==> tree[k] in t by {
      forall k | 0 <= k < |tree|
        ensures tree[k] in t
      {
        assert t[k] == tree[k];
      }
    }
    assert t[|tree|] == e;
    ConnectedByEdge(t, |tree|);
    forall x, y | x in ids && y in ids
      ensures r[x] == r[y] <==> Connected(t, x, y)
    {
      if Connected(t, x, y) {
        ConnectedSameLabel(t, r, x, y);
      }
      if r[x] == r[y] {
        if root[x] == root[y] {
          ConnectedMono(tree, t, x, y);
        } else if root[x] == root[a] {
          assert root[y] == root[b];
          ConnectedMono(tree, t, x, a);
          ConnectedMono(tree, t, b, y);
          ConnectedTrans(t, x, a, b);
          ConnectedTrans(t, x, b, y);
        } else {
          assert root[x] == root[b] && root[y] == root[a];
          ConnectedMono(tree, t, x, b);
          ConnectedMono(tree, t, a, y);
          ConnectedTrans(t, x, b, a);
          ConnectedTrans(t, x, a, y);
        }
      }
    }
  }

  /** When the kept edges connect every id to `x0`, one root is left. */
  lemma OneRoot(parent: map<string, string>, root: map<string, string>, ids: set<string>, tree: seq<Edge>, x0: string)
    requires RootsOf(parent, root) && parent.Keys == ids && Labels(root, ids, tree)
    requires x0 in ids && forall y :: y in ids ==> Connected(tree, x0, y)
    ensures Roots(parent) == {root[x0]}
  {
    forall r | r in Roots(parent)
      ensures r == root[x0]
    {
      assert root[r] == r;
      assert Connected(tree, x0, r);
    }
  }

  // ---------------------------------------------------------------------
  // `kruskals`
  // ---------------------------------------------------------------------

  function IdList(nodes: seq<Node>): (ids: seq<string>)
    ensures |ids| == |nodes| && forall i :: 0 <= i < |nodes| ==> ids[i] == nodes[i].id
  {
    seq(|nodes|, i requires 0 <= i < |nodes| => nodes[i].id)
  }

  /** The loop body's bookkeeping for a kept edge: the labels follow the
      components of the longer tree and one root fewer is left. */
  lemma KeepEdge(root: map<string, string>, ids: set<string>, tree: seq<Edge>, e: Edge,
                 roots: set<string>, l: string, w: string, root': map<string, string>, roots': set<string>)
    requires Labels(root, ids, tree) && e.from in ids && e.to in ids && root[e.from] != root[e.to]
    requires (l == root[e.from] && w == root[e.to]) || (l == root[e.to] && w == root[e.from])
    requires l in roots && root' == Relabel(root, l, w) && roots' == roots - {l}
    ensures Labels(root', ids, tree + [e]) && |roots'| == |roots| - 1
    ensures !Connected(tree, e.from, e.to)
  {
    LabelsJoin(root, ids, tree, e, l, w);
  }

  /** Sorting moves edges around but keeps their ends among the ids. */
  lemma SortedKeepsEnds(unsorted: seq<Edge>, sorted: seq<Edge>, ids: set<string>)
    requires sorted == SortByWeight(unsorted)
    requires forall k :: 0 <= k < |unsorted| ==> unsorted[k].from in ids && unsorted[k].to in ids
    ensures forall k :: 0 <= k < |sorted| ==> sorted[k].from in ids && sorted[k].to in ids
  {
    SortByWeightSorted(unsorted);
    forall k | 0 <= k < |sorted|
      ensures sorted[k].from in ids && sorted[k].to in ids
    {
      assert sorted[k] in multiset(sorted);
      var m :| 0 <= m < |unsorted| && unsorted[m] == sorted[k];
    }
  }

  /** The counts at the end of the scan: at least one root is left, so
      fewer edges than ids are kept; exactly one when the edges connect all
      ids, so a spanning tree has one edge fewer than there are ids. */
  lemma KruskalCounts(parent: map<string, string>, root: map<string, string>, ids: set<string>,
                      tree: seq<Edge>, sorted: seq<Edge>, nodes: seq<Node>)
    requires RootsOf(parent, root) && parent.Keys == ids && ids == NodeIds(nodes)
    requires Labels(root, ids, tree) && |Roots(parent)| + |tree| == |ids| && tree == Greedy(sorted)
    ensures ids != {} ==> |tree| < |ids|
    ensures (forall x, y :: x in ids && y in ids ==> Connected(sorted, x, y)) ==> |tree| + 1 == |ids| || nodes == []
  {
    if nodes != [] {
      var x0 := nodes[0].id;
      assert x0 in ids && root[x0] in Roots(parent);
      if forall x, y :: x in ids && y in ids ==> Connected(sorted, x, y) {
        forall y | y in ids
          ensures Connected(tree, x0, y)
        {
          GreedySpans(sorted, x0, y);
        }
        OneRoot(parent, root, ids, tree, x0);
      }
    }
  }

  /** The scan of a prefix one edge longer. */
  lemma GreedySnoc(es: seq<Edge>, i: nat, t: seq<Edge>, t': seq<Edge>)
    requires i < |es| && t == Greedy(es[..i])
    requires t' == if Connected(t, es[i].from, es[i].to) then t else t + [es[i]]
    ensures t' == Greedy(es[..i + 1])
  {
    assert es[..i + 1][..i] == es[..i];
  }

  /** What holds between two edges of the scan: the union-find is
      well formed over the ids, its roots label the components of the kept
      edges, and every kept edge has used up one root. */
  ghost predicate ScanState(ds: DisjointSets<string>, ids: set<string>, tree: seq<Edge>)
    reads ds
  {
    ds.Valid() && ds.parent.Keys == ids && Labels(ds.root, ids, tree) && |Roots(ds.parent)| + |tree| == |ids|
  }

  /** The kept-edge branch: `union` hangs one of the two roots under the
      other, so the labels follow the components of `tree + [e]`. */
  method Keep(ds: DisjointSets<string>, e: Edge, tree: seq<Edge>, ghost ids: set<string>)
    requires ScanState(ds, ids, tree) && e.from in ids && e.to in ids && ds.root[e.from] != ds.root[e.to]
    modifies ds
    ensures ScanState(ds, ids, tree + [e]) && !Connected(tree, e.from, e.to)
  {
    ghost var root0, rank0, roots0 := ds.root, ds.rank, Roots(ds.parent);
    ghost var r1, r2 := ds.root[e.from], ds.root[e.to];
    ds.Union(e.from, e.to);
    KeepEdge(root0, ids, tree, e, roots0, Loser(rank0, r1, r2), Winner(rank0, r1, r2), ds.root, Roots(ds.parent));
  }

  /** The body of `sortedEdges.forEach(...)` for `sorted[i]`: keeps the edge
      when `find` gives its ends different roots, and then calls `union` on
      them; so it keeps exactly the edges that join two components of the
      kept ones. */
  method ScanEdge(ds: DisjointSets<string>, sorted: seq<Edge>, i: nat, tree: seq<Edge>, ghost ids: set<string>)
    returns (tree': seq<Edge>)
    requires ScanState(ds, ids, tree)
    requires i < |sorted| && sorted[i].from in ids && sorted[i].to in ids
    modifies ds
    ensures ScanState(ds, ids, tree') && tree' == if Connected(tree, sorted[i].from, sorted[i].to) then tree else tree + [sorted[i]]
  {
    var e := sorted[i];
    var r1 := ds.Find(e.from);
    var r2 := ds.Find(e.to);
    if r1 != r2 {
      Keep(ds, e, tree, ids);
      tree' := tree + [e];
    } else {
      tree' := tree;
    }
  }

  /** `sortedEdges.forEach(...)` over the whole sorted list. */
  method Scan(ds: DisjointSets<string>, sorted: seq<Edge>, ghost ids: set<string>) returns (tree: seq<Edge>)
    requires ScanState(ds, ids, [])
    requires forall k :: 0 <= k < |sorted| ==> sorted[k].from in ids && sorted[k].to in ids
    modifies ds
    ensures ScanState(ds, ids, tree) && tree == Greedy(sorted)
  {
    tree := [];
    for i := 0 to |sorted|
      invariant ScanState(ds, ids, tree) && tree == Greedy(sorted[..i])
    {
      var tree' := ScanEdge(ds, sorted, i, tree, ids);
      GreedySnoc(sorted, i, tree, tree');
      tree := tree';
    }
    assert sorted[..|sorted|] == sorted;
  }

  /** `kruskals(nodes, edges)`: `edges` ends up sorted (the array is the
      caller's), `tree` is the `result` list before formatting. */
  method Kruskals(nodes: seq<Node>, edges: array<Edge>) returns (lines: seq<string>, tree: seq<Edge>)
    requires forall k :: 0 <= k < edges.Length ==> edges[k].from in NodeIds(nodes) && edges[k].to in NodeIds(nodes)
    modifies edges
    ensures edges[..] == SortByWeight(old(edges[..]))
    ensures tree == Greedy(edges[..]) && lines == FormatEdges(tree)
    ensures forall k :: 0 <= k < |tree| ==> tree[k].from in NodeIds(nodes) && tree[k].to in NodeIds(nodes)
    ensures NodeIds(nodes) != {} ==> |tree| < |NodeIds(nodes)|
    ensures (forall x, y :: x in NodeIds(nodes) && y in NodeIds(nodes) ==> Connected(edges[..], x, y)) ==>
      |tree| + 1 == |NodeIds(nodes)| || nodes == []
  {
    ghost var ids := NodeIds(nodes);
    var ds := new DisjointSets(IdList(nodes));
    assert ds.parent.Keys == ids;
    LabelsInit(ds.root, ids);
    ghost var unsorted := edges[..];
    SortEdges(edges);
    SortedKeepsEnds(unsorted, edges[..], ids);
    tree := Scan(ds, edges[..], ids);
    lines := FormatEdges(tree);
    KruskalCounts(ds.parent, ds.root, ids, tree, edges[..], nodes);
  }
}
