/** `generateRandomGraph`: 5 to 10 nodes named "Node 1", "Node 2", ... and,
    for every node in turn, a random number of random targets, each one
    (when it is not the node itself) giving a directed edge with a random
    weight from 1 to 10. The random draws are parameters: for node `i`,
    `targets[i]` holds the drawn target indices (its length is the drawn
    edge count) and `weights[i][j]` the weight drawn for `targets[i][j]`. */
module Generator {
  import opened Graph

  /** The id of the `k`-th node, the template literal `Node ${i + 1}`. */
  function NodeName(k: nat): string
  {
    "Node " + NatToString(k)
  }

  lemma NodeNameInjective(a: nat, b: nat)
    requires NodeName(a) == NodeName(b)
    ensures a == b
  {
    assert NodeName(a)[5..] == NatToString(a);
    assert NodeName(b)[5..] == NatToString(b);
    NatToStringInjective(a, b);
  }

  lemma NodeNamesDiffer(a: nat, b: nat)
    requires a != b
    ensures NodeName(a) != NodeName(b)
  {
    if NodeName(a) == NodeName(b) {
      NodeNameInjective(a, b);
    }
  }

  /** `Array.from({ length: numNodes }, ...)`. */
  function NodeList(n: nat): (nodes: seq<Node>)
    ensures |nodes| == n && forall i :: 0 <= i < n ==> nodes[i].id == NodeName(i + 1)
  {
    seq(n, i requires 0 <= i < n => Node(NodeName(i + 1)))
  }

  /** The ranges of the draws: `numNodes` from 5 to 10, for each node from 1
      to `numNodes - 1` targets, each an index below `numNodes`, and each
      weight from 1 to 10. */
  predicate Draws(n: nat, targets: seq<seq<nat>>, weights: seq<seq<int>>)
  {
    && 5 <= n <= 10 && |targets| == n && |weights| == n
    && (forall i :: 0 <= i < n ==> 1 <= |targets[i]| <= n - 1 && |weights[i]| == |targets[i]|)
    && (forall i, j :: 0 <= i < n && 0 <= j < |targets[i]| ==> targets[i][j] < n)
    && (forall i, j :: 0 <= i < n && 0 <= j < |weights[i]| ==> 1 <= weights[i][j] <= 10)
  }

  /** The edges the inner loop pushes for node `i`: one per drawn target
      other than `i` itself, in draw order. */
  function RowEdges(i: nat, targets: seq<nat>, weights: seq<int>): seq<Edge>
    requires |weights| == |targets|
  {
    if targets == [] then []
    else
      var j := |targets| - 1;
      RowEdges(i, targets[..j], weights[..j])
      + if targets[j] != i then [Edge(NodeName(i + 1), NodeName(targets[j] + 1), weights[j])] else []
  }

  predicate SameShape(targets: seq<seq<nat>>, weights: seq<seq<int>>)
  {
    |weights| == |targets| && forall i :: 0 <= i < |targets| ==> |weights[i]| == |targets[i]|
  }

  /** The edges the outer loop has pushed after the rows of `targets`. */
  function EdgeRows(targets: seq<seq<nat>>, weights: seq<seq<int>>): seq<Edge>
    requires SameShape(targets, weights)
  {
    if targets == [] then []
    else
      var i := |targets| - 1;
      EdgeRows(targets[..i], weights[..i]) + RowEdges(i, targets[i], weights[i])
  }

  /** The nested loops of `generateRandomGraph` (positions and the final
      `setGraph`/`runAlgorithm` calls aside). */
  method GenerateRandomGraph(n: nat, targets: seq<seq<nat>>, weights: seq<seq<int>>)
    returns (nodes: seq<Node>, edges: seq<Edge>)
    requires Draws(n, targets, weights)
    ensures nodes == NodeList(n) && edges == EdgeRows(targets, weights)
  {
    nodes := NodeList(n);
    edges := [];
    for i := 0 to n
      invariant edges == EdgeRows(targets[..i], weights[..i])
    {
      var numEdges := |targets[i]|;
      for j := 0 to numEdges
        invariant edges == EdgeRows(targets[..i], weights[..i]) + RowEdges(i, targets[i][..j], weights[i][..j])
      {
        var targetNodeIndex := targets[i][j];
        assert targets[i][..j + 1][..j] == targets[i][..j];
        assert weights[i][..j + 1][..j] == weights[i][..j];
        if targetNodeIndex != i {
          var weight := weights[i][j];
          edges := edges + [Edge(nodes[i].id, nodes[targetNodeIndex].id, weight)];
        }
      }
      assert targets[i][..numEdges] == targets[i] && weights[i][..numEdges] == weights[i];
      assert targets[..i + 1][..i] == targets[..i] && weights[..i + 1][..i] == weights[..i];
    }
    assert targets[..n] == targets && weights[..n] == weights;
  }

  // ---------------------------------------------------------------------
  // What the generated graph looks like
  // ---------------------------------------------------------------------

  /** The ids are "Node 1" to "Node n", pairwise different, and the first one
      is the start every traversal uses. */
  lemma GeneratedNodes(n: nat)
    requires n >= 1
    ensures NodeList(n)[0].id == Start
    ensures DistinctIds(NodeList(n))
    ensures |NodeIds(NodeList(n))| == n
  {
    var nodes := NodeList(n);
    assert NatToString(1) == "1";
    forall i, j | 0 <= i < j < n
      ensures nodes[i].id != nodes[j].id
    {
      if nodes[i].id == nodes[j].id {
        NodeNameInjective(i + 1, j + 1);
      }
    }
    DistinctIdsCount(nodes);
  }

  /** Edge `e` is what draw `j` of row `i` pushes. */
  predicate IsDrawn(targets: seq<seq<nat>>, weights: seq<seq<int>>, e: Edge, i: nat, j: nat)
    requires SameShape(targets, weights)
  {
    i < |targets| && j < |targets[i]| && targets[i][j] != i
    && e == Edge(NodeName(i + 1), NodeName(targets[i][j] + 1), weights[i][j])
  }

  ghost predicate FromDraw(targets: seq<seq<nat>>, weights: seq<seq<int>>, e: Edge)
    requires SameShape(targets, weights)
  {
    exists i: nat, j: nat :: IsDrawn(targets, weights, e, i, j)
  }

  /** A row's edges all leave node `i`; there are no more of them than
      draws. */
  lemma {:induction false} RowEdgesFrom(i: nat, targets: seq<nat>, weights: seq<int>)
    requires |weights| == |targets|
    ensures |RowEdges(i, targets, weights)| <= |targets|
    ensures forall k :: 0 <= k < |RowEdges(i, targets, weights)| ==> RowEdges(i, targets, weights)[k].from == NodeName(i + 1)
  {
    if targets != [] {
      var j := |targets| - 1;
      RowEdgesFrom(i, targets[..j], weights[..j]);
    }
  }

  /** Each edge of row `m` is pushed by one of that row's draws. */
  lemma {:induction false} RowEdgesDrawn(targets: seq<seq<nat>>, weights: seq<seq<int>>, m: nat, j: nat)
    requires SameShape(targets, weights) && m < |targets| && j <= |targets[m]|
    ensures forall k :: 0 <= k < |RowEdges(m, targets[m][..j], weights[m][..j])| ==>
      FromDraw(targets, weights, RowEdges(m, targets[m][..j], weights[m][..j])[k])
  {
    if j > 0 {
      var ts, ws := targets[m][..j], weights[m][..j];
      assert ts[..j - 1] == targets[m][..j - 1] && ws[..j - 1] == weights[m][..j - 1];
      RowEdgesDrawn(targets, weights, m, j - 1);
      if ts[j - 1] != m {
        assert IsDrawn(targets, weights, Edge(NodeName(m + 1), NodeName(ts[j - 1] + 1), ws[j - 1]), m, j - 1);
      }
    }
  }

  /** Every edge of the first rows is pushed by one of their draws. */
  lemma {:induction false} EdgeRowsDrawn(targets: seq<seq<nat>>, weights: seq<seq<int>>, m: nat)
    requires SameShape(targets, weights) && m <= |targets|
    ensures forall k :: 0 <= k < |EdgeRows(targets[..m], weights[..m])| ==>
      FromDraw(targets, weights, EdgeRows(targets[..m], weights[..m])[k])
  {
    if m > 0 {
      var ts, ws := targets[..m], weights[..m];
      assert ts[..m - 1] == targets[..m - 1] && ws[..m - 1] == weights[..m - 1];
      assert ts[m - 1] == targets[m - 1] && ws[m - 1] == weights[m - 1];
      assert targets[m - 1][..|targets[m - 1]|] == targets[m - 1];
      assert weights[m - 1][..|weights[m - 1]|] == weights[m - 1];
      EdgeRowsDrawn(targets, weights, m - 1);
      RowEdgesDrawn(targets, weights, m - 1, |targets[m - 1]|);
    }
  }

  /** No self loops, both ends are node ids (so `kruskals` can run on the
      graph), and every weight is from 1 to 10. */
  lemma GeneratedEdges(n: nat, targets: seq<seq<nat>>, weights: seq<seq<int>>)
    requires Draws(n, targets, weights)
    ensures var es, ids := EdgeRows(targets, weights), NodeIds(NodeList(n));
      forall k :: 0 <= k < |es| ==>
        es[k].from in ids && es[k].to in ids && es[k].from != es[k].to && 1 <= es[k].weight <= 10
  {
    var es, nodes := EdgeRows(targets, weights), NodeList(n);
    EdgeRowsDrawn(targets, weights, n);
    assert targets[..n] == targets && weights[..n] == weights;
    forall k | 0 <= k < |es|
      ensures es[k].from in NodeIds(nodes) && es[k].to in NodeIds(nodes)
      ensures es[k].from != es[k].to && 1 <= es[k].weight <= 10
    {
      var i: nat, j: nat :| IsDrawn(targets, weights, es[k], i, j);
      var t := targets[i][j];
      assert nodes[i].id == es[k].from && nodes[t].id == es[k].to;
      if es[k].from == es[k].to {
        NodeNameInjective(i + 1, t + 1);
      }
    }
  }

  // ---------------------------------------------------------------------
  // Edges grouped by source, in ascending source order
  // ---------------------------------------------------------------------

  /** The edges leaving `s`, in list order. */
  function FromSource(es: seq<Edge>, s: string): (r: seq<Edge>)
    ensures |r| <= |es|
  {
    if es == [] then []
    else FromSource(es[..|es| - 1], s) + if es[|es| - 1].from == s then [es[|es| - 1]] else []
  }

  lemma {:induction false} FromSourceAppend(es: seq<Edge>, fs: seq<Edge>, s: string)
    ensures FromSource(es + fs, s) == FromSource(es, s) + FromSource(fs, s)
  {
    if fs != [] {
      var g := es + fs;
      assert g[..|g| - 1] == es + fs[..|fs| - 1];
      FromSourceAppend(es, fs[..|fs| - 1], s);
    } else {
      assert es + fs == es;
    }
  }

  /** Filtering a list whose edges all leave `s` keeps it whole; filtering
      for another source leaves nothing. */
  lemma {:induction false} FromSourceUniform(es: seq<Edge>, s: string, s': string)
    requires forall k :: 0 <= k < |es| ==> es[k].from == s
    ensures FromSource(es, s') == if s' == s || es == [] then es else []
  {
    if es != [] {
      FromSourceUniform(es[..|es| - 1], s, s');
      assert es[..|es| - 1] + [es[|es| - 1]] == es;
    }
  }

  /** Appending edges that all leave `s`: filtering for `s'` picks them up
      exactly when `s'` is `s`. */
  lemma FromSourceSnoc(p: seq<Edge>, r: seq<Edge>, s: string, s': string)
    requires forall m :: 0 <= m < |r| ==> r[m].from == s
    ensures FromSource(p + r, s') == FromSource(p, s') + if s' == s then r else []
  {
    FromSourceAppend(p, r, s');
    FromSourceUniform(r, s, s');
  }

  /** Row `k`'s edges are exactly the edges leaving "Node k+1". */
  lemma {:induction false} FromSourceRows(targets: seq<seq<nat>>, weights: seq<seq<int>>, k: nat)
    requires SameShape(targets, weights)
    ensures FromSource(EdgeRows(targets, weights), NodeName(k + 1))
      == if k < |targets| then RowEdges(k, targets[k], weights[k]) else []
  {
    if targets != [] {
      var i := |targets| - 1;
      var ts, ws := targets[..i], weights[..i];
      var p, r := EdgeRows(ts, ws), RowEdges(i, targets[i], weights[i]);
      assert EdgeRows(targets, weights) == p + r;
      FromSourceRows(ts, ws, k);
      RowEdgesFrom(i, targets[i], weights[i]);
      FromSourceSnoc(p, r, NodeName(i + 1), NodeName(k + 1));
      if k != i {
        NodeNamesDiffer(k + 1, i + 1);
      }
      if k < i {
        assert ts[k] == targets[k] && ws[k] == weights[k];
      }
    }
  }

  /** The edges leaving "Node 1", then those leaving "Node 2", ... up to
      "Node k". */
  function BySource(es: seq<Edge>, k: nat): seq<Edge>
  {
    if k == 0 then [] else BySource(es, k - 1) + FromSource(es, NodeName(k))
  }

  /** The generated list is its edges grouped by source index, ascending, and
      each source has at most `n - 1` edges (one per drawn target at most). */
  lemma GeneratedGrouped(n: nat, targets: seq<seq<nat>>, weights: seq<seq<int>>)
    requires Draws(n, targets, weights)
    ensures var es := EdgeRows(targets, weights);
      es == BySource(es, n) && forall i :: 1 <= i <= n ==> |FromSource(es, NodeName(i))| <= n - 1
  {
    var es := EdgeRows(targets, weights);
    BySourcePrefix(targets, weights, n);
    assert targets[..n] == targets && weights[..n] == weights;
    forall i | 1 <= i <= n
      ensures |FromSource(es, NodeName(i))| <= n - 1
    {
      FromSourceRows(targets, weights, i - 1);
      RowEdgesFrom(i - 1, targets[i - 1], weights[i - 1]);
    }
  }

  lemma {:induction false} BySourcePrefix(targets: seq<seq<nat>>, weights: seq<seq<int>>, i: nat)
    requires SameShape(targets, weights) && i <= |targets|
    ensures BySource(EdgeRows(targets, weights), i) == EdgeRows(targets[..i], weights[..i])
  {
    if i > 0 {
      var es := EdgeRows(targets, weights);
      var ts, ws := targets[..i], weights[..i];
      assert ts[..i - 1] == targets[..i - 1] && ws[..i - 1] == weights[..i - 1];
      assert ts[i - 1] == targets[i - 1] && ws[i - 1] == weights[i - 1];
      assert EdgeRows(ts, ws) == EdgeRows(targets[..i - 1], weights[..i - 1]) + RowEdges(i - 1, targets[i - 1], weights[i - 1]);
      BySourcePrefix(targets, weights, i - 1);
      FromSourceRows(targets, weights, i - 1);
      assert BySource(es, i) == BySource(es, i - 1) + FromSource(es, NodeName(i));
    }
  }
}
