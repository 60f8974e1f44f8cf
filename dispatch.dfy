/** `runAlgorithm`: the `switch` on the selected algorithm's display name
    that runs one of the six algorithms on the current graph. The graph's
    edge array is shared with the component's state, so running Kruskal's
    algorithm leaves it sorted for every later run. */
module Dispatch {
  import opened Graph
  import Traversal
  import ShortestPath
  import Prim
  import Kruskal

  datatype Algorithm =
    | BreadthFirstSearch
    | DepthFirstSearch
    | Dijkstras
    | AStar
    | Prims
    | Kruskals

  /** The `case` label (and menu entry) of each algorithm. */
  function Label(a: Algorithm): string
  {
    match a
    case BreadthFirstSearch => "Breadth First Search"
    case DepthFirstSearch => "Depth First Search"
    case Dijkstras => "Dijkstra's Algorithm"
    case AStar => "A* Algorithm"
    case Prims => "Prim's Algorithm"
    case Kruskals => "Kruskal's Algorithm"
  }

  /** The `switch`: the algorithm whose label is `selected`, `None` for the
      `default:` branch. */
  function Select(selected: string): (r: Option<Algorithm>)
    ensures r.Some? ==> Label(r.value) == selected
  {
    if selected == "Breadth First Search" then Some(BreadthFirstSearch)
    else if selected == "Depth First Search" then Some(DepthFirstSearch)
    else if selected == "Dijkstra's Algorithm" then Some(Dijkstras)
    else if selected == "A* Algorithm" then Some(AStar)
    else if selected == "Prim's Algorithm" then Some(Prims)
    else if selected == "Kruskal's Algorithm" then Some(Kruskals)
    else None
  }

  /** Every algorithm is reached by its own label, and only by it: the
      labels are pairwise different, so no `case` shadows another. */
  lemma SelectLabel(a: Algorithm, selected: string)
    ensures Select(Label(a)) == Some(a)
    ensures Select(selected) == Some(a) <==> selected == Label(a)
  {
  }

  /** What `setOutput` receives: the algorithm's list of lines, `undefined`
      from the `default:` branch, or nothing at all because `prims` never
      returns. */
  datatype Run = Shown(lines: seq<string>) | Undefined | Hangs

  /** What running `a` on the edge list `es` promises, with `es'` the edge
      list once the run is over. */
  ghost predicate Ran(a: Algorithm, nodes: seq<Node>, es: seq<Edge>, es': seq<Edge>, run: Run)
  {
    match a
    case BreadthFirstSearch =>
      && es' == es
      && run == Shown(Traversal.BfsOrder(es, {Start}, [Start], Traversal.BfsFuel(es)))
      && Searched(es, run)
    case DepthFirstSearch =>
      && es' == es
      && run == Shown(Traversal.DfsOrder(es))
      && Searched(es, run)
    case Dijkstras => es' == es && ShortestPaths(nodes, es, run)
    case AStar => es' == es && ShortestPaths(nodes, es, run)
    case Prims =>
      && es' == es
      && (exists tree ::
            && Prim.IsPrimTrace(es, tree)
            && |Prim.Spanned(tree)| == |tree| + 1
            && (run.Shown? ==> run.lines == FormatEdges(tree) && |Prim.Spanned(tree)| == if |nodes| == 0 then 1 else |nodes|)
            && (run.Hangs? ==> |Prim.Spanned(tree)| < |nodes| && forall k :: 0 <= k < |es| ==> !Prim.Crosses(es[k], Prim.Spanned(tree))))
      && (|nodes| <= 1 ==> run == Shown([]))
      && ((DistinctIds(nodes) && forall v :: v in NodeIds(nodes) ==> DirReachable(es, v)) ==> run.Shown?)
    case Kruskals =>
      && es' == Kruskal.SortByWeight(es)
      && run == Shown(FormatEdges(Kruskal.Greedy(es')))
  }

  /** A search's lines: "Node 1" first, no repeats, and exactly the ids
      connected to it. */
  ghost predicate Searched(es: seq<Edge>, run: Run)
  {
    run.Shown? && |run.lines| >= 1 && run.lines[0] == Start && Distinct(run.lines)
    && forall v :: v in run.lines <==> Reachable(es, v)
  }

  /** Dijkstra's lines: the order `DijkstraOrder` records, "Node 1" first,
      only ids reachable along edge directions, and all of them when every
      edge ends at a listed node or at "Node 1". */
  ghost predicate ShortestPaths(nodes: seq<Node>, es: seq<Edge>, run: Run)
  {
    && run == Shown(ShortestPath.DijkstraOrder(es, ShortestPath.InitialDistances(nodes), {}, [Start],
                                               ShortestPath.DijkstraFuel(nodes, es)))
    && |run.lines| >= 1 && run.lines[0] == Start
    && (forall v :: v in run.lines ==> DirReachable(es, v))
    && ((forall k :: 0 <= k < |es| ==> es[k].to == Start || es[k].to in NodeIds(nodes)) ==>
          forall v :: DirReachable(es, v) ==> v in run.lines)
  }

  /** `runAlgorithm(nodes, edges)` with the selection passed in. */
  method RunAlgorithm(selected: string, nodes: seq<Node>, edges: array<Edge>) returns (run: Run)
    requires Select(selected) == Some(Kruskals) ==>
      forall k :: 0 <= k < edges.Length ==> edges[k].from in NodeIds(nodes) && edges[k].to in NodeIds(nodes)
    modifies edges
    ensures Select(selected) == None <==> run == Undefined
    ensures Select(selected) == None ==> edges[..] == old(edges[..])
    ensures run.Hangs? ==> Select(selected) == Some(Prims)
    ensures Select(selected).Some? ==> Ran(Select(selected).value, nodes, old(edges[..]), edges[..], run)
  {
    var alg := Select(selected);
    if alg.None? {
      return Undefined;
    }
    match alg.value
    case BreadthFirstSearch =>
      var result := Traversal.Bfs(nodes, edges[..]);
      run := Shown(result);
    case DepthFirstSearch =>
      var result := Traversal.Dfs(nodes, edges[..]);
      run := Shown(result);
    case Dijkstras =>
      var result := ShortestPath.Dijkstra(nodes, edges[..]);
      run := Shown(result);
    case AStar =>
      var result := ShortestPath.AStar(nodes, edges[..]);
      run := Shown(result);
    case Prims =>
      var outcome, tree := Prim.Prims(nodes, edges[..]);
      run := if outcome.Spins? then Hangs else Shown(outcome.lines);
    case Kruskals =>
      var lines, tree := Kruskal.Kruskals(nodes, edges);
      run := Shown(lines);
  }
}
