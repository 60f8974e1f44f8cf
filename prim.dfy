/** The visualizer's "Prim": grow a visited set from "Node 1" by repeatedly
    scanning the whole (copied) edge list for the lightest edge that leaves
    the visited set in its stored direction, the earliest one on ties. */
module Prim {
  import opened Graph

  /** The edge leaves `visited`: its source is in, its target is out. */
  predicate Crosses(e: Edge, visited: set<string>)
  {
    e.from in visited && e.to !in visited
  }

  /** Among the first `n` edges, edge `j` crosses, is no heavier than any
      crossing edge, and every crossing edge before it is strictly heavier. */
  predicate FirstMinUpTo(edges: seq<Edge>, visited: set<string>, j: nat, n: nat)
  {
    && j < n <= |edges| && Crosses(edges[j], visited)
    && (forall k :: 0 <= k < n && Crosses(edges[k], visited) ==> edges[j].weight <= edges[k].weight)
    && (forall k :: 0 <= k < j && Crosses(edges[k], visited) ==> edges[j].weight < edges[k].weight)
  }

  /** Edge `j` is the one a full scan keeps: the first lightest crossing edge. */
  predicate FirstMin(edges: seq<Edge>, visited: set<string>, j: nat)
  {
    FirstMinUpTo(edges, visited, j, |edges|)
  }

  /** The scan's choice is determined by the edge list and the visited set. */
  lemma FirstMinUnique(edges: seq<Edge>, visited: set<string>, i: nat, j: nat)
    requires FirstMin(edges, visited, i) && FirstMin(edges, visited, j)
    ensures i == j
  {
  }

  /** One pass of the `forEach` over the edges (replacing `minEdge` only on a
      strictly smaller weight). `None` is the `null` left when no edge crosses. */
  method MinCrossing(edges: seq<Edge>, visited: set<string>) returns (m: Option<nat>)
    ensures m.Some? ==> FirstMin(edges, visited, m.value)
    ensures m.None? <==> forall k :: 0 <= k < |edges| ==> !Crosses(edges[k], visited)
  {
    m := None;
    for i := 0 to |edges|
      invariant m.Some? ==> FirstMinUpTo(edges, visited, m.value, i)
      invariant m.None? <==> forall k :: 0 <= k < i ==> !Crosses(edges[k], visited)
    {
      var e := edges[i];
      if e.from in visited && e.to !in visited {
        if m.None? || e.weight < edges[m.value].weight {
          m := Some(i);
        }
      }
    }
  }

  /** The ids visited once the edges of `tree` have been chosen in order. */
  function Spanned(tree: seq<Edge>): set<string>
  {
    if tree == [] then {Start} else Spanned(tree[..|tree| - 1]) + {tree[|tree| - 1].to}
  }

  /** `e` is the edge a full scan keeps when `visited` is the visited set. */
  ghost predicate IsChoice(edges: seq<Edge>, visited: set<string>, e: Edge)
  {
    exists j: nat :: j < |edges| && FirstMin(edges, visited, j) && e == edges[j]
  }

  /** Every chosen edge is the scan's choice for the ids visited before it. */
  ghost predicate IsPrimTrace(edges: seq<Edge>, tree: seq<Edge>)
  {
    forall k :: 0 <= k < |tree| ==> IsChoice(edges, Spanned(tree[..k]), tree[k])
  }

  lemma {:induction false} SpannedHas(tree: seq<Edge>, i: nat, n: nat)
    requires i < n <= |tree|
    ensures Start in Spanned(tree[..n]) && tree[i].to in Spanned(tree[..n])
  {
    var p := tree[..n];
    assert p[..n - 1] == tree[..n - 1];
    if i < n - 1 {
      SpannedHas(tree, i, n - 1);
    } else if n - 1 > 0 {
      SpannedHas(tree, 0, n - 1);
    }
  }

  /** Once `edges[j]` is chosen the trace goes on, one new id at a time. */
  lemma PrimTraceExtend(edges: seq<Edge>, tree: seq<Edge>, j: nat)
    requires IsPrimTrace(edges, tree) && FirstMin(edges, Spanned(tree), j)
    ensures IsPrimTrace(edges, tree + [edges[j]])
    ensures Spanned(tree + [edges[j]]) == Spanned(tree) + {edges[j].to}
    ensures |Spanned(tree + [edges[j]])| == |Spanned(tree)| + 1
  {
    var t := tree + [edges[j]];
    assert t[..|tree|] == tree;
    forall k | 0 <= k < |t|
      ensures IsChoice(edges, Spanned(t[..k]), t[k])
    {
      if k < |tree| {
        assert t[..k] == tree[..k];
        assert t[k] == tree[k];
      } else {
        assert IsChoice(edges, Spanned(t[..k]), t[k]);
      }
    }
  }

  /** Each chosen target was unvisited when chosen, so the chosen targets are
      pairwise different and "Node 1" is never among them. */
  lemma {:induction false} PrimTargetsDistinct(edges: seq<Edge>, tree: seq<Edge>)
    requires IsPrimTrace(edges, tree)
    ensures forall k :: 0 <= k < |tree| ==> tree[k].to != Start
    ensures forall i, k :: 0 <= i < k < |tree| ==> tree[i].to != tree[k].to
  {
    forall k | 0 <= k < |tree|
      ensures tree[k].to != Start && forall i :: 0 <= i < k ==> tree[i].to != tree[k].to
    {
      assert IsChoice(edges, Spanned(tree[..k]), tree[k]);
      if k == 0 {
        assert tree[..k] == [];
      } else {
        SpannedHas(tree, 0, k);
        forall i | 0 <= i < k
          ensures tree[i].to != tree[k].to
        {
          SpannedHas(tree, i, k);
        }
      }
    }
  }

  /** The chosen edges form a tree hanging from "Node 1": each one leads from a
      visited id to a new one, so every visited id is reachable along them. */
  lemma {:induction false} PrimTreeReaches(edges: seq<Edge>, tree: seq<Edge>)
    requires IsPrimTrace(edges, tree)
    ensures forall x :: x in Spanned(tree) ==> DirReachable(tree, x)
    ensures forall k :: 0 <= k < |tree| ==> tree[k] in edges
  {
    if tree == [] {
      DirReachableStart(tree);
    } else {
      var init, e := tree[..|tree| - 1], tree[|tree| - 1];
      assert IsPrimTrace(edges, init) by {
        forall k | 0 <= k < |init|
          ensures IsChoice(edges, Spanned(init[..k]), init[k])
        {
          assert init[..k] == tree[..k];
          assert init[k] == tree[k];
        }
      }
      PrimTreeReaches(edges, init);
      forall x | x in Spanned(init)
        ensures DirReachable(tree, x)
      {
        DirReachableMono(init, tree, x);
      }
      assert IsChoice(edges, Spanned(tree[..|tree| - 1]), e);
      assert e.from in Spanned(init);
      DirReachableStep(tree, |tree| - 1);
      forall k | 0 <= k < |tree|
        ensures tree[k] in edges
      {
        assert IsChoice(edges, Spanned(tree[..k]), tree[k]);
      }
    }
  }

  /** How the `while` loop ends: it returns the formatted chosen edges, or it
      spins forever because no edge crosses and fewer ids than nodes are
      visited (the loop has no `else`). */
  datatype PrimOutcome = Returned(lines: seq<string>) | Spins

  /** Prim's loop as written: `tree` is the `result` list before formatting. */
  method Prims(nodes: seq<Node>, edges: seq<Edge>) returns (outcome: PrimOutcome, tree: seq<Edge>)
    ensures IsPrimTrace(edges, tree)
    ensures |nodes| <= 1 ==> outcome == Returned([]) && tree == []
    ensures |Spanned(tree)| == |tree| + 1
    ensures outcome.Returned? ==> outcome.lines == FormatEdges(tree) && |Spanned(tree)| == if |nodes| == 0 then 1 else |nodes|
    ensures outcome.Spins? ==> |Spanned(tree)| < |nodes| && forall k :: 0 <= k < |edges| ==> !Crosses(edges[k], Spanned(tree))
    ensures (DistinctIds(nodes) && forall v :: v in NodeIds(nodes) ==> DirReachable(edges, v)) ==>
      outcome.Returned?
  {
    var visited := {Start};
    tree := [];
    StartInUniverse(edges);
    while |visited| < |nodes|
      invariant visited == Spanned(tree) && |visited| == |tree| + 1 && Start in visited
      invariant |visited| <= |nodes| || tree == []
      invariant IsPrimTrace(edges, tree)
      invariant visited <= Universe(edges)
      decreases |Universe(edges) - visited|
    {
      var m := MinCrossing(edges, visited);
      if m.None? {
        outcome := Spins;
        SpinsOnlyWhenStuck(nodes, edges, visited);
        return;
      }
      var e := edges[m.value];
      PrimTraceExtend(edges, tree, m.value);
      InUniverse(edges, m.value);
      ProperSubsetSmaller(Universe(edges) - (visited + {e.to}), Universe(edges) - visited);
      visited := visited + {e.to};
      tree := tree + [e];
    }
    outcome := Returned(FormatEdges(tree));
  }

  /** A visited set no edge leaves holds every reachable id; if all node ids
      are reachable and distinct it is at least as large as the node list. */
  lemma SpinsOnlyWhenStuck(nodes: seq<Node>, edges: seq<Edge>, visited: set<string>)
    requires Start in visited && forall k :: 0 <= k < |edges| ==> !Crosses(edges[k], visited)
    ensures DistinctIds(nodes) && (forall v :: v in NodeIds(nodes) ==> DirReachable(edges, v)) ==>
      |visited| >= |nodes|
  {
    if DistinctIds(nodes) && forall v :: v in NodeIds(nodes) ==> DirReachable(edges, v) {
      SpinsBound(nodes, edges, visited);
    }
  }

  lemma SpinsBound(nodes: seq<Node>, edges: seq<Edge>, visited: set<string>)
    requires Start in visited && forall k :: 0 <= k < |edges| ==> !Crosses(edges[k], visited)
    requires DistinctIds(nodes) && forall v :: v in NodeIds(nodes) ==> DirReachable(edges, v)
    ensures |visited| >= |nodes|
  {
    assert OutClosed(edges, visited) by {
      forall k | 0 <= k < |edges| && edges[k].from in visited
        ensures edges[k].to in visited
      {
        assert !Crosses(edges[k], visited);
      }
    }
    forall v | v in NodeIds(nodes)
      ensures v in visited
    {
      OutClosedContainsReachable(edges, visited, v);
    }
    DistinctIdsCount(nodes);
    SubsetNoLarger(NodeIds(nodes), visited);
  }
}
