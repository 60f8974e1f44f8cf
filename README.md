# Graph visualizer algorithms in Dafny

This project models the algorithm core of a small React graph visualizer:
the six algorithms that run on a generated graph, the random graph generator, and the dispatch from the selected menu entry to an algorithm.

A graph is a list of nodes with string ids ("Node 1", "Node 2", ...) and a list of weighted edges `from -> to`.

- **Breadth-first and depth-first search** start at "Node 1" and treat every edge as undirected. They return the visit order.
- **"Dijkstra"** settles nodes in queue order (not by distance). It follows edges only forwards and returns the order in which nodes leave the queue. **"A\*"** is the same function.
- **"Prim"** grows a visited set from "Node 1" along the lightest edge that leaves it, in the edge's stored direction. It returns the chosen edges formatted as `from -- to (Weight: w)`.
- **"Kruskal"** sorts the caller's edge list in place by weight. It keeps every edge whose endpoints a union-find with path compression and union by rank shows to be in different components.
- **The generator** builds 5 to 10 nodes. For each node it draws a number of targets and one weight from 1 to 10 per target.
- **The dispatch** selects the algorithm whose menu label matches.

Modules:

- `Graph` (graph.dfy): the data model, output formatting, and the reference notions used by the contracts:
  - undirected connectivity `Connected`/`Reachable`;
  - directed reachability `DirReachable`;
  - closure of a set under edges.
- `Traversal` (traversal.dfy): `bfs` and `dfs` as methods with the source's loop and recursion.
- `ShortestPath` (shortest_path.dfy): `dijkstra` and `aStar`, with distances in a map of type `Dist = Inf | Fin(d)`.
- `Prim` (prim.dfy): `prims`, including the way its loop can run forever.
- `UnionFind` (union_find.dfy): `find` and `union` as a class `DisjointSets<T>` over `parent` and `rank` maps, with ghost component labels.
- `Kruskal` (kruskal.dfy): `kruskals`, specified by a stable insertion sort (`SortByWeight`) and a greedy reference (`Greedy`).
- `Generator` (generator.dfy): `generateRandomGraph`, with the random draws passed in.
- `Dispatch` (dispatch.dfy): `runAlgorithm`.

Two behaviours of the code that differ from the textbook algorithms are kept:

- **Start without a node.** `bfs` and `dfs` never read the node list; they start from the literal id "Node 1" whatever the nodes are, and on a graph with no edges they return `["Node 1"]`. `dijkstra` also starts from "Node 1", so even on an empty node list it returns `["Node 1"]`. The contracts state `result[0] == Start` unconditionally.
- **Prim's loop.** It has no exit when no edge leaves the visited set, so `Prims` reports `Spins` in that case.

The exact visit orders of `bfs` and `dijkstra` are given by the functions `BfsOrder` and `DijkstraOrder`, which replay the loops round by round. Each takes a bound on the number of rounds. `BfsFuel` and `DijkstraFuel` are bounds the loops are proved never to exceed, so the bound never cuts an order short.

The exact pre-order of `dfs` is `DfsOrder`. It replays the recursion with four functions on the shared state `Walk(visited, result)`: `VisitWalk` (one `visit`), `ScanWalk` (its `forEach`), `CallbackWalk` (one edge's callback) and `FollowWalk` (the guarded recursive call). They take a bound on the nesting depth. `DfsFuel` is one more than the number of ids the edges mention, and `Visit` is proved to need no more, so the bound never cuts the order short.

## Model

| member | source | states |
|---|---|---|
| Graph.FormatEdges | src/visualization.js:164 | one line per edge, in order, each the edge's `from -- to (Weight: w)` text |
| Graph.NatToStringInjective | src/visualization.js:177 | different numbers give different decimal strings, so generated node ids are pairwise different |
| Traversal.Discover | src/visualization.js:17-26 | the `forEach` over the edges marks and enqueues exactly the unvisited neighbours of the dequeued node, each once, keeping the old queue as a prefix, and afterwards every neighbour is visited; the marks and the pushes are exactly those of `Discovered`, which handles edge after edge, the `to` end before the `from` end |
| Traversal.DiscoveredBound | src/visualization.js:17-26 | one scan enqueues at most two ids per edge |
| Traversal.DiscoverInEdgeOrder | src/visualization.js:17-26 | the pushes follow edge order: edges `Node 1 -> A`, `B -> Node 1`, `Node 1 -> A` enqueue A, then B, and A only once |
| Traversal.BfsRound | src/visualization.js:13-27 | one iteration of the `while` loop keeps the BFS invariant (visited = emitted + queued, all reachable, emitted nodes' neighbourhoods closed), and it either shortens the queue or visits a new id |
| Traversal.BfsFinish | src/visualization.js:13-29 | once the queue is empty, the result lists each id at most once, and lists an id exactly when it is reachable from "Node 1" |
| Traversal.BfsWorkDrops | src/visualization.js:13-27 | a round that marks a new id, or only shortens the queue, leaves strictly less work (marks still to make, weighted by the pushes per round, plus the queue length) |
| Traversal.BfsOrderStep | src/visualization.js:13-27 | with enough rounds for the work left, one round dequeues the head and continues `BfsOrder` from the marks and queue `Discovered` leaves, with enough rounds for the smaller work left |
| Traversal.BfsOrderRound | src/visualization.js:13-27 | the ids dequeued so far followed by the rest of `BfsOrder` stay equal to the whole order after one more round, one round fewer left |
| Traversal.BfsStep | src/visualization.js:13-27 | one iteration of the `while` loop keeps both the BFS invariant and the place on the dequeue order, and it either marks a new id or shortens the queue |
| Traversal.BfsEnds | src/visualization.js:13-29 | once the queue is empty the result is the whole dequeue order, starts with "Node 1", has no repeats and lists exactly the reachable ids |
| Traversal.Bfs | src/visualization.js:4-30 | the result is exactly the dequeue order `BfsOrder` from "Node 1" (each round scans the edges as `Discovered` says); it starts with "Node 1", has no repeats, and contains exactly the ids reachable from "Node 1" through edges taken in either direction |
| Traversal.VisitEdge | src/visualization.js:41-48 | one pass of the `forEach` keeps the visit's invariant, including that the callbacks still to run lead to the state `ScanWalk` gives from the marked and recorded node |
| Traversal.VisitEnds | src/visualization.js:37-49 | once every edge's callback has run, the state is exactly `VisitWalk`'s, and every neighbour of the visited node is visited |
| Traversal.VisitRound | src/visualization.js:41-48 | after the callback for edge `i`, both endpoints of every edge `0..i` that touches the node are visited, and the result extends the old one |
| Traversal.Visit | src/visualization.js:37-49 | `visit(nodeId)` leaves exactly the state `VisitWalk` gives (mark, record, then every edge's callback in edge order); it appends `nodeId`, keeps the earlier result as a prefix, and leaves every newly visited id with all its neighbours visited |
| Traversal.EdgeCallback | src/visualization.js:41-48 | one edge's callback leaves exactly the state `CallbackWalk` gives (the `to` end first, then the `from` end on the updated state); an edge that does not touch the node changes nothing; afterwards the edge's other endpoint is visited whenever the edge touches the node |
| Traversal.Follow | src/visualization.js:42-47 | a guarded recursive call leaves exactly the state `FollowWalk` gives; when the neighbour is already visited it changes nothing; either way the neighbour ends up visited |
| Traversal.Dfs | src/visualization.js:33-53 | the result is exactly the pre-order `DfsOrder` of `visit("Node 1")` from an empty state; it starts with "Node 1", has no repeats, and contains exactly the ids reachable from "Node 1" through edges taken in either direction |
| ShortestPath.RelaxEdge | src/visualization.js:74-79 | taking an improving edge lowers the target's distance to the new finite value and enqueues the target, keeping the relaxation bookkeeping, and means the node was not yet settled |
| ShortestPath.RelaxStep | src/visualization.js:73-81 | one edge's callback: when the edge leaves the current node for an unvisited target whose distance the current distance plus the weight improves, the target gets exactly that distance and is pushed; otherwise distances and queue are unchanged; nothing changes when the node is already settled |
| ShortestPath.RelaxationsBound | src/visualization.js:73-81 | one scan pushes at most one id per edge |
| ShortestPath.ScanStep | src/visualization.js:73-81 | handling edge `i` as the callback does extends the scan of the first `i` edges to the first `i + 1`, as `Relaxations` describes it |
| ShortestPath.RelaxFrom | src/visualization.js:73-81 | after the whole `forEach`, the distances and the pushes are exactly those of `Relaxations` (edge by edge, each improvement a push, so a target improved twice is pushed twice); distances only shrink, visited entries are unchanged, every changed distance was enqueued along an edge from the current node, and no outgoing edge to an unvisited node can still improve its target |
| ShortestPath.RoundSettled | src/visualization.js:69-81 | nodes settled before the round stay settled after it |
| ShortestPath.RoundReachable | src/visualization.js:74-78 | everything enqueued is on a directed path from "Node 1" |
| ShortestPath.RoundQueue | src/visualization.js:68-81 | queued ids keep finite distances, and every finite-distance id is visited or queued |
| ShortestPath.DijkstraRound | src/visualization.js:68-82 | one `while` iteration keeps the invariant and either shortens the queue or visits a new id |
| ShortestPath.DijkstraFinish | src/visualization.js:68-84 | at the end the result starts with "Node 1" and holds only directed-reachable ids; when every edge target is a known id, it holds all of them |
| ShortestPath.DijkstraWorkDrops | src/visualization.js:68-82 | a round that marks a new id, or only shortens the queue, leaves strictly less work |
| ShortestPath.DijkstraOrderRound | src/visualization.js:68-82 | one round, scanning as `Relaxations` says, keeps the recorded ids followed by the rest of `DijkstraOrder` equal to the whole order, with enough rounds left |
| ShortestPath.DijkstraLoopRound | src/visualization.js:68-82 | one round keeps the loop invariant and the place on the order, and it either marks a new id or shortens the queue |
| ShortestPath.DijkstraStep | src/visualization.js:69-81 | the loop body (`shift`, mark, record, scan) keeps the invariant and the place on the order, and it either marks a new id or shortens the queue |
| ShortestPath.DijkstraBegins | src/visualization.js:57-67 | the initial distances, the empty visited set and the queue `["Node 1"]` satisfy the loop invariant at the start of `DijkstraOrder` |
| ShortestPath.Initialize | src/visualization.js:57-65 | every node id maps to `Infinity`, then "Node 1" to 0, and no other key exists |
| ShortestPath.Worklist | src/visualization.js:68-82 | the `while` loop records exactly the rest of the order from any state where its invariant holds, and ends with an empty queue and the invariant |
| ShortestPath.Dijkstra | src/visualization.js:56-85 | the result is exactly `DijkstraOrder` from the initial distances and the queue `["Node 1"]`; it starts with "Node 1"; every id in it is reachable along directed edges and is "Node 1" or a node id; when every edge target is a node id, every directed-reachable id appears |
| ShortestPath.ParallelScan | src/visualization.js:73-81 | scanning two parallel edges `Node 1 -> X` of weights 5 then 3 lowers X's distance twice and pushes "X" twice |
| ShortestPath.ParallelEdgesRecordTwice | src/visualization.js:56-85 | on nodes "Node 1", "X" with those two edges, the recorded order is `["Node 1", "X", "X"]`: an id can be recorded twice |
| ShortestPath.AStar | src/visualization.js:88-90 | the same guarantees as `Dijkstra`, which it calls, including the exact order |
| Prim.FirstMinUnique | src/visualization.js:104-110 | the edge a full scan keeps is uniquely determined |
| Prim.MinCrossing | src/visualization.js:102-110 | the scan returns the first lightest edge leaving the visited set, and `null` exactly when no edge leaves it |
| Prim.PrimTraceExtend | src/visualization.js:112-115 | pushing the scan's edge extends a valid trace and visits exactly one new id |
| Prim.PrimTargetsDistinct | src/visualization.js:101-115 | no chosen edge points at "Node 1", and no two chosen edges share a target |
| Prim.PrimTreeReaches | src/visualization.js:101-115 | the chosen edges are edges of the graph, and every visited id is reachable from "Node 1" along them |
| Prim.Prims | src/visualization.js:93-119 | the chosen edges are the scan's choices in order, and each visits one new id; when the loop ends, the output is their formatting and as many ids as nodes are visited; it spins only when no edge leaves the visited set; with distinct, directed-reachable node ids, it always returns |
| Prim.SpinsOnlyWhenStuck | src/visualization.js:101-116 | if no edge leaves the visited set and all node ids are distinct and directed-reachable, the visited set is already as large as the node list |
| UnionFind.RankBelowRoot | src/visualization.js:126-131 | a non-root's rank is below its root's rank |
| UnionFind.Compress | src/visualization.js:127-128 | pointing a node straight at its root keeps a rank-ordered forest with the same roots and components |
| UnionFind.AttachBelow | src/visualization.js:138-141 | hanging the lower-ranked root under the other merges the two components and keeps the ranks ordered |
| UnionFind.AttachEqual | src/visualization.js:142-145 | hanging one of two equal-rank roots under the other and incrementing the winner's rank merges their components and keeps the ranks ordered |
| UnionFind.DisjointSets.constructor | src/visualization.js:149-152 | every node id is its own parent and root, with rank 0 |
| UnionFind.DisjointSets.Find | src/visualization.js:126-131 | returns the root of `x`'s component, points `x` straight at it, and keeps components, roots and ranks |
| UnionFind.DisjointSets.Hang | src/visualization.js:138-141 | the single `parent` update of the unequal-rank branches, with the components relabelled |
| UnionFind.DisjointSets.HangEqual | src/visualization.js:142-145 | the equal-rank branch: one parent update and one rank increment |
| UnionFind.DisjointSets.Union | src/visualization.js:133-147 | same root: components and ranks unchanged; otherwise the lower-ranked root (on a tie the second) goes under the other, the winner's rank grows only on a tie, and the two components merge |
| Kruskal.InsertInPlace | src/visualization.js:154 | one insertion step on the array puts element `i` into the sorted prefix and leaves the rest alone |
| Kruskal.SortEdges | src/visualization.js:154 | the in-place sort leaves the array equal to the stable sort by weight of its old contents |
| Kruskal.SortByWeightSorted | src/visualization.js:154 | the stable sort is ordered by weight and is a permutation of its input |
| Kruskal.SortByWeightStable | src/visualization.js:154 | edges of equal weight keep their relative order |
| Kruskal.GreedyFromEdges | src/visualization.js:157-162 | the kept edges are edges of the input, at most as many, and sorted when the input is |
| Kruskal.GreedyAcyclic | src/visualization.js:157-162 | no kept edge joins two ids already connected by the earlier kept edges (the result is a forest) |
| Kruskal.GreedySpans | src/visualization.js:157-162 | two ids are connected by the kept edges exactly when they are connected by the input edges |
| Kruskal.LabelsJoin | src/visualization.js:158-160 | relabelling one of two different components to the other keeps the labels equal to the components of the kept edges plus the new one |
| Kruskal.KeepEdge | src/visualization.js:158-161 | an edge with different root labels joins two different components and removes one root |
| Kruskal.Keep | src/visualization.js:159-160 | `union` followed by `result.push` keeps the union-find in step with the kept edges |
| Kruskal.ScanEdge | src/visualization.js:158-161 | one `forEach` callback keeps the edge exactly when its endpoints are not yet connected by the kept edges |
| Kruskal.Scan | src/visualization.js:157-162 | the whole `forEach` keeps exactly the greedy forest of the sorted edges, with the union-find in step with it |
| Kruskal.KruskalCounts | src/visualization.js:157-164 | the forest has fewer edges than ids; when all ids are connected, it has exactly one edge fewer than ids |
| Kruskal.Kruskals | src/visualization.js:122-165 | the caller's array ends sorted by weight (stably); the output formats the greedy forest of it, whose endpoints are node ids; it has fewer edges than node ids, and exactly one fewer when the edges connect all of them |
| Generator.NodeNameInjective | src/visualization.js:177 | `Node ${i + 1}` gives different ids to different indices |
| Generator.GenerateRandomGraph | src/visualization.js:174-192 | the nested loops produce the node list "Node 1".."Node n" and, row by row, one edge per drawn target other than the node itself, with its drawn weight |
| Generator.GeneratedNodes | src/visualization.js:176-180 | the node ids are pairwise different, there are `n` of them, and the first is "Node 1" |
| Generator.GeneratedEdges | src/visualization.js:182-191 | every generated edge joins two node ids, is not a self-loop, and weighs from 1 to 10 |
| Generator.GeneratedGrouped | src/visualization.js:182-191 | the edge list is grouped by source node in node order, and each node is the source of at most `n - 1` edges |
| Dispatch.Select | src/visualization.js:203-224 | a selected algorithm is the one whose label matches the selection |
| Dispatch.SelectLabel | src/visualization.js:203-221 | each label selects its algorithm and nothing else selects it |
| Dispatch.RunAlgorithm | src/visualization.js:201-227 | an unknown label outputs `undefined`; only Prim's algorithm can hang; each selected algorithm gives what `Ran` states: BFS, DFS and Dijkstra/A* show exactly `BfsOrder`, `DfsOrder` and `DijkstraOrder` with their reachability guarantees; Prim's run shows the formatting of a valid trace spanning as many ids as nodes, hangs only when no edge leaves the spanned set, and returns whenever the node ids are distinct and directed-reachable; Kruskal's run leaves the shared edge array stably sorted by weight and shows its greedy forest, and only Kruskal's run reorders the array |

## Left out

- Canvas drawing, React state (`useState`, `useEffect`, `setGraph`, `setOutput`), the menu, and the node positions are not modelled. `Math.random` is replaced by the draws passed to `GenerateRandomGraph`.
- The generator's final `runAlgorithm(nodes, edges)` call is not modelled. `Dispatch.RunAlgorithm` models that call on its own.
- Generator.GenerateRandomGraph: the draws are given as one target list and one weight list per node. The source draws a weight only after a target other than the node itself, so the weight drawn for a self-target is simply unused here. The order of the underlying `Math.random` calls is not modelled.
- Kruskal.Kruskals: requires every edge endpoint to be a node id. For any other endpoint, the source's `find` reads `parent[undefined]` and recurses on JavaScript's `undefined`. That behaviour is not modelled.
- Kruskal.SortEdges: the engine's `Array.prototype.sort` is modelled as a stable insertion sort. Any stable sort by weight gives the same array. The order an unstable engine might produce is not modelled.
- Prim.Prims: minimality of the chosen tree is not proved. The loop follows edges in their stored direction only, so the tree need not be a minimum spanning tree.
- Kruskal.Kruskals: minimality of the forest's weight is not proved. Its connectivity, acyclicity and edge count are proved.
- ShortestPath.Dijkstra: the final distances are not part of the output and are not related to shortest paths. The algorithm settles nodes in queue order, not by least distance.
- ShortestPath.Dijkstra: an edge to an id that is not a node reads an `undefined` distance in the source, and `x < undefined` is false. The model treats that as no relaxation, so such ids never enter the queue.
- The source keeps `visited`, `distances`, `parent` and `rank` in plain JavaScript objects, which inherit `Object.prototype`. In the source, an id such as "constructor" or "toString" reads as already present in them. The model uses sets and maps, where only ids actually stored are present. Graphs with such ids are not modelled as the source treats them.
- JavaScript's `Infinity` is modelled as the `Inf` case of `Dist`, and numbers as unbounded integers. Generated weights are 1 to 10, so no floating-point behaviour arises.
- The other files of the repository (`src/initial.js`, `src/App.js`, styling, and the build setup) are not part of this model.
