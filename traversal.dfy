/** Breadth-first and depth-first search of the visualizer. Both start at the
    literal id "Node 1", never look at the node list, and follow every stored
    edge in both directions. */
module Traversal {
  import opened Graph

  /** What a scan on behalf of `nodeId` has achieved so far, starting from
      `visited` and `queue`: the ids it marked are neighbours of `nodeId` and
      were appended to the queue once each, in marking order. */
  ghost predicate DiscoverProgress(edges: seq<Edge>, nodeId: string, visited: set<string>, queue: seq<string>,
                                   visited': set<string>, queue': seq<string>)
  {
    && visited <= visited' && visited' - visited <= Universe(edges)
    && |queue| <= |queue'| && queue'[..|queue|] == queue
    && Distinct(queue'[|queue|..])
    && (forall x :: x in queue'[|queue|..] <==> x in visited' - visited)
    && (forall x :: x in visited' - visited ==> Adjacent(edges, nodeId, x))
    && (visited' == visited ==> queue' == queue)
  }

  /** The marks and pushes of one scan on behalf of `nodeId`. */
  datatype Marks = Marks(visited: set<string>, pushed: seq<string>)

  /** The callback for one edge: the `to` end when the edge leaves `nodeId`
      and that end is unmarked, then the `from` end when the edge enters
      `nodeId` and that end is (still) unmarked. */
  function DiscoverEdge(e: Edge, nodeId: string, m: Marks): (m': Marks)
    ensures m.visited <= m'.visited && |m.pushed| <= |m'.pushed| <= |m.pushed| + 2
  {
    var m1 := if e.from == nodeId && e.to !in m.visited then Marks(m.visited + {e.to}, m.pushed + [e.to]) else m;
    if e.to == nodeId && e.from !in m1.visited then Marks(m1.visited + {e.from}, m1.pushed + [e.from]) else m1
  }

  /** What the scan of `edges` on behalf of `nodeId` marks and enqueues,
      starting from the marked set `visited`, in the order it does so. */
  function Discovered(edges: seq<Edge>, nodeId: string, visited: set<string>): Marks
  {
    if edges == [] then Marks(visited, [])
    else DiscoverEdge(edges[|edges| - 1], nodeId, Discovered(edges[..|edges| - 1], nodeId, visited))
  }

  /** A scan pushes at most two ids per edge. */
  lemma {:induction false} DiscoveredBound(edges: seq<Edge>, nodeId: string, visited: set<string>)
    ensures |Discovered(edges, nodeId, visited).pushed| <= 2 * |edges|
  {
    if edges != [] {
      DiscoveredBound(edges[..|edges| - 1], nodeId, visited);
    }
  }

  /** The pushes follow edge order, forward end first: scanning a `Start -> A`
      edge, then an edge `B -> Start`, then a second `Start -> A` enqueues A
      and then B. */
  lemma DiscoverInEdgeOrder()
    ensures Discovered([Edge(Start, "A", 1), Edge("B", Start, 1), Edge(Start, "A", 2)], Start, {Start}).pushed == ["A", "B"]
  {
    var e1, e2, e3 := Edge(Start, "A", 1), Edge("B", Start, 1), Edge(Start, "A", 2);
    var es := [e1, e2, e3];
    assert [e1][..0] == [];
    assert "A" != Start && "B" != Start && "A" != "B" by {
      assert "A"[0] != Start[0] && "B"[0] != Start[0] && "A"[0] != "B"[0];
    }
    assert Discovered([], Start, {Start}) == Marks({Start}, []);
    var m1 := Discovered([e1], Start, {Start});
    assert m1 == Marks({Start, "A"}, ["A"]);
    assert [e1, e2][..1] == [e1];
    var m2 := Discovered([e1, e2], Start, {Start});
    assert m2 == Marks({Start, "A", "B"}, ["A", "B"]);
    assert es[..2] == [e1, e2];
    assert Discovered(es, Start, {Start}) == DiscoverEdge(e3, Start, m2);
  }

  lemma DiscoverPush(edges: seq<Edge>, nodeId: string, visited: set<string>, queue: seq<string>,
                     v: set<string>, q: seq<string>, x: string)
    requires DiscoverProgress(edges, nodeId, visited, queue, v, q)
    requires x !in v && x in Universe(edges) && Adjacent(edges, nodeId, x)
    ensures DiscoverProgress(edges, nodeId, visited, queue, v + {x}, q + [x])
  {
    DistinctAppend(q[|queue|..], [x]);
    assert (q + [x])[|queue|..] == q[|queue|..] + [x];
    assert (q + [x])[..|queue|] == q[..|queue|];
  }

  /** One scan of the edge list on behalf of the dequeued node `nodeId`: every
      unvisited neighbour is marked visited and enqueued, in edge order, the
      forward endpoint of an edge considered before its backward one. */
  method Discover(edges: seq<Edge>, nodeId: string, visited: set<string>, queue: seq<string>)
    returns (visited': set<string>, queue': seq<string>)
    ensures visited <= visited' && visited' - visited <= Universe(edges)
    ensures |queue| <= |queue'| && queue'[..|queue|] == queue
    ensures Distinct(queue'[|queue|..])
    ensures forall x :: x in queue'[|queue|..] <==> x in visited' - visited
    ensures forall x :: x in visited' - visited ==> Adjacent(edges, nodeId, x)
    ensures NeighboursIn(edges, nodeId, visited')
    ensures visited' == visited ==> queue' == queue
    ensures visited' == Discovered(edges, nodeId, visited).visited
    ensures queue' == queue + Discovered(edges, nodeId, visited).pushed
  {
    visited', queue' := visited, queue;
    assert queue'[|queue|..] == [];
    for i := 0 to |edges|
      invariant DiscoverProgress(edges, nodeId, visited, queue, visited', queue')
      invariant visited' == Discovered(edges[..i], nodeId, visited).visited
      invariant queue' == queue + Discovered(edges[..i], nodeId, visited).pushed
      invariant forall k :: 0 <= k < i ==>
        (edges[k].from == nodeId ==> edges[k].to in visited') && (edges[k].to == nodeId ==> edges[k].from in visited')
    {
      var e := edges[i];
      InUniverse(edges, i);
      assert edges[..i + 1][..i] == edges[..i];
      if e.from == nodeId && e.to !in visited' {
        assert Links(edges[i], nodeId, e.to);
        DiscoverPush(edges, nodeId, visited, queue, visited', queue', e.to);
        queue' := queue' + [e.to];
        visited' := visited' + {e.to};
      }
      if e.to == nodeId && e.from !in visited' {
        assert Links(edges[i], nodeId, e.from);
        DiscoverPush(edges, nodeId, visited, queue, visited', queue', e.from);
        queue' := queue' + [e.from];
        visited' := visited' + {e.from};
      }
    }
    assert edges[..|edges|] == edges;
  }

  /** What holds between two rounds of the breadth-first loop: every id was
      marked exactly once (dequeued or still queued), every marked id is in the
      start's component, and every dequeued id has all its neighbours marked. */
  ghost predicate BfsInvariant(edges: seq<Edge>, visited: set<string>, result: seq<string>, queue: seq<string>)
  {
    && Distinct(result + queue)
    && (forall x :: x in visited <==> x in result + queue)
    && visited <= Universe(edges)
    && (forall x :: x in visited ==> Reachable(edges, x))
    && (forall u :: u in result ==> NeighboursIn(edges, u, visited))
  }

  lemma BfsRound(edges: seq<Edge>, visited: set<string>, result: seq<string>, queue: seq<string>,
                 visited': set<string>, queue': seq<string>)
    requires BfsInvariant(edges, visited, result, queue) && |queue| > 0
    requires visited <= visited' && visited' - visited <= Universe(edges)
    requires |queue| - 1 <= |queue'| && queue'[..|queue| - 1] == queue[1..]
    requires Distinct(queue'[|queue| - 1..])
    requires forall x :: x in queue'[|queue| - 1..] <==> x in visited' - visited
    requires forall x :: x in visited' - visited ==> Adjacent(edges, queue[0], x)
    requires NeighboursIn(edges, queue[0], visited')
    requires visited' == visited ==> queue' == queue[1..]
    ensures BfsInvariant(edges, visited', result + [queue[0]], queue')
    ensures visited' == visited ==> |queue'| < |queue|
    ensures visited' != visited ==> |Universe(edges) - visited'| < |Universe(edges) - visited|
  {
    var nodeId, rest := queue[0], queue[1..];
    var added := queue'[|rest|..];
    assert queue' == rest + added;
    assert result + queue == (result + [nodeId]) + rest;
    DistinctAppend(result + queue, added);
    assert (result + [nodeId]) + queue' == (result + queue) + added;
    ReachableExtend(edges, nodeId, visited, visited');
    forall u | u in result + [nodeId]
      ensures NeighboursIn(edges, u, visited')
    {
      if u != nodeId {
        NeighboursInMono(edges, u, visited, visited');
      }
    }
    var r', all' := result + [nodeId], (result + [nodeId]) + queue';
    assert Distinct(all');
    forall x
      ensures x in visited' <==> x in all'
    {
      assert x in all' <==> x in result + queue || x in added;
      assert x in visited' <==> x in visited || x in visited' - visited;
    }
    assert visited' <= Universe(edges);
    assert forall x :: x in visited' ==> Reachable(edges, x);
    assert forall u :: u in r' ==> NeighboursIn(edges, u, visited');
    if visited' != visited {
      ProperSubsetSmaller(Universe(edges) - visited', Universe(edges) - visited);
    }
  }

  lemma BfsStart(edges: seq<Edge>)
    ensures BfsInvariant(edges, {Start}, [], [Start])
  {
    StartInUniverse(edges);
    ConnectedRefl(edges, Start);
    assert [] + [Start] == [Start];
  }

  /** Once the queue is empty, the dequeued ids are exactly the start's component. */
  lemma BfsFinish(edges: seq<Edge>, visited: set<string>, result: seq<string>)
    requires BfsInvariant(edges, visited, result, []) && |result| >= 1 && result[0] == Start
    ensures Distinct(result)
    ensures forall v :: v in result <==> Reachable(edges, v)
    ensures forall v :: v in result ==> v in Universe(edges)
  {
    assert result + [] == result;
    NeighboursClosed(edges, visited);
    forall v | Reachable(edges, v)
      ensures v in result
    {
      ClosedContainsConnected(edges, visited, Start, v);
    }
  }

  /** The ids the breadth-first loop dequeues from the marked set `visited`
      and the queue `queue`, in dequeue order, within `fuel` rounds. */
  function BfsOrder(edges: seq<Edge>, visited: set<string>, queue: seq<string>, fuel: nat): seq<string>
    decreases fuel
  {
    if queue == [] || fuel == 0 then []
    else
      var m := Discovered(edges, queue[0], visited);
      [queue[0]] + BfsOrder(edges, m.visited, queue[1..] + m.pushed, fuel - 1)
  }

  /** Enough rounds for the whole search: each round either marks a new id of
      `Universe(edges)` while pushing at most two ids per edge, or only
      shortens the queue. */
  function BfsFuel(edges: seq<Edge>): nat
  {
    Times(|Universe(edges) - {Start}|, 2 * |edges| + 1) + 1
  }

  /** What is left of the search from a state within `fuel` rounds: enough
      rounds for the marks still to make and the queue still to drain. */
  function BfsWork(edges: seq<Edge>, visited: set<string>, queue: seq<string>): nat
  {
    Times(|Universe(edges) - visited|, 2 * |edges| + 1) + |queue|
  }

  /** One round of the loop leaves less work than the fuel it uses up. */
  lemma BfsWorkDrops(edges: seq<Edge>, visited: set<string>, queue: seq<string>,
                     visited': set<string>, queue': seq<string>)
    requires |queue| > 0 && |queue'| <= |queue| - 1 + 2 * |edges|
    requires visited' == visited ==> |queue'| < |queue|
    requires visited' != visited ==> |Universe(edges) - visited'| < |Universe(edges) - visited|
    ensures BfsWork(edges, visited', queue') < BfsWork(edges, visited, queue)
  {
    var u := Universe(edges);
    assert BfsWork(edges, visited, queue) == Times(|u - visited|, 2 * |edges| + 1) + |queue|;
    assert BfsWork(edges, visited', queue') == Times(|u - visited'|, 2 * |edges| + 1) + |queue'|;
    SetMeasureDrops(u, visited, visited', |queue|, |queue'|, 2 * |edges|);
  }

  /** The loop is on its way to `order`: what is dequeued so far followed by
      what the remaining `fuel` rounds dequeue, with enough rounds left for
      the work left. */
  ghost predicate OnBfsOrder(edges: seq<Edge>, visited: set<string>, queue: seq<string>, result: seq<string>,
                             fuel: nat, order: seq<string>)
  {
    && result + BfsOrder(edges, visited, queue, fuel) == order
    && fuel >= BfsWork(edges, visited, queue)
  }

  /** One round of the loop is one step of `BfsOrder`, and it leaves less
      work than the rounds it had. */
  lemma BfsOrderStep(edges: seq<Edge>, visited: set<string>, queue: seq<string>, fuel: nat,
                     visited': set<string>, queue': seq<string>)
    requires |queue| > 0 && fuel >= BfsWork(edges, visited, queue)
    requires visited' == Discovered(edges, queue[0], visited).visited
    requires queue' == queue[1..] + Discovered(edges, queue[0], visited).pushed
    requires visited' == visited ==> |queue'| < |queue|
    requires visited' != visited ==> |Universe(edges) - visited'| < |Universe(edges) - visited|
    ensures fuel >= 1 && fuel - 1 >= BfsWork(edges, visited', queue')
    ensures BfsOrder(edges, visited, queue, fuel) == [queue[0]] + BfsOrder(edges, visited', queue', fuel - 1)
  {
    DiscoveredBound(edges, queue[0], visited);
    BfsWorkDrops(edges, visited, queue, visited', queue');
    BfsOrderUnfold(edges, visited, queue, fuel);
  }

  /** `BfsOrderStep` as the loop sees it: one more id dequeued, one round
      fewer left. */
  lemma BfsOrderRound(edges: seq<Edge>, visited: set<string>, queue: seq<string>, result: seq<string>, fuel: nat,
                      order: seq<string>, visited': set<string>, queue': seq<string>)
    requires |queue| > 0 && OnBfsOrder(edges, visited, queue, result, fuel, order)
    requires visited' == Discovered(edges, queue[0], visited).visited
    requires queue' == queue[1..] + Discovered(edges, queue[0], visited).pushed
    requires visited' == visited ==> |queue'| < |queue|
    requires visited' != visited ==> |Universe(edges) - visited'| < |Universe(edges) - visited|
    ensures fuel >= 1 && OnBfsOrder(edges, visited', queue', result + [queue[0]], fuel - 1, order)
  {
    BfsOrderStep(edges, visited, queue, fuel, visited', queue');
    var rest := BfsOrder(edges, visited', queue', fuel - 1);
    assert (result + [queue[0]]) + rest == result + ([queue[0]] + rest);
  }

  /** A round with fuel left dequeues the head and continues from the state
      `Discovered` leaves. */
  lemma BfsOrderUnfold(edges: seq<Edge>, visited: set<string>, queue: seq<string>, fuel: nat)
    requires |queue| > 0 && fuel > 0
    ensures var m := Discovered(edges, queue[0], visited);
      BfsOrder(edges, visited, queue, fuel) == [queue[0]] + BfsOrder(edges, m.visited, queue[1..] + m.pushed, fuel - 1)
  {
  }

  /** Everything that holds between two rounds of the breadth-first loop on
      its way to the dequeue order `order`. */
  ghost predicate BfsLoop(edges: seq<Edge>, visited: set<string>, queue: seq<string>, result: seq<string>,
                          fuel: nat, order: seq<string>)
  {
    && BfsInvariant(edges, visited, result, queue)
    && (result == [] ==> queue == [Start])
    && (result != [] ==> result[0] == Start)
    && OnBfsOrder(edges, visited, queue, result, fuel, order)
  }

  /** One iteration of the `while` loop: dequeue, record, and scan the edges
      on behalf of the dequeued id. It keeps the loop's invariant, and it
      either marks a new id or shortens the queue. */
  method BfsStep(edges: seq<Edge>, visited: set<string>, queue: seq<string>, result: seq<string>,
                 ghost fuel: nat, ghost order: seq<string>)
    returns (visited': set<string>, queue': seq<string>, result': seq<string>, ghost fuel': nat)
    requires |queue| > 0 && BfsLoop(edges, visited, queue, result, fuel, order)
    ensures BfsLoop(edges, visited', queue', result', fuel', order)
    ensures visited <= visited'
    ensures visited' == visited ==> |queue'| < |queue|
    ensures visited' != visited ==> |Universe(edges) - visited'| < |Universe(edges) - visited|
  {
    var nodeId := queue[0];
    result' := result + [nodeId];
    visited', queue' := Discover(edges, nodeId, visited, queue[1..]);
    BfsRound(edges, visited, result, queue, visited', queue');
    BfsOrderRound(edges, visited, queue, result, fuel, order, visited', queue');
    fuel' := fuel - 1;
  }

  /** The state before the loop: "Node 1" marked and queued. */
  lemma BfsBegins(edges: seq<Edge>)
    ensures BfsLoop(edges, {Start}, [Start], [], BfsFuel(edges), BfsOrder(edges, {Start}, [Start], BfsFuel(edges)))
  {
    BfsStart(edges);
    assert [] + BfsOrder(edges, {Start}, [Start], BfsFuel(edges)) == BfsOrder(edges, {Start}, [Start], BfsFuel(edges));
  }

  /** The state after the loop: the result is the whole order, and it is the
      start's component without repeats. */
  lemma BfsEnds(edges: seq<Edge>, visited: set<string>, result: seq<string>, fuel: nat, order: seq<string>)
    requires BfsLoop(edges, visited, [], result, fuel, order)
    ensures result == order
    ensures |result| >= 1 && result[0] == Start
    ensures Distinct(result)
    ensures forall v :: v in result <==> Reachable(edges, v)
    ensures forall v :: v in result ==> v in Universe(edges)
  {
    assert result + [] == result;
    BfsFinish(edges, visited, result);
  }

  /** Breadth-first search: the result is the dequeue order `BfsOrder` fixes,
      and it lists, without repeats, exactly the ids connected to "Node 1". */
  method Bfs(nodes: seq<Node>, edges: seq<Edge>) returns (result: seq<string>)
    ensures result == BfsOrder(edges, {Start}, [Start], BfsFuel(edges))
    ensures |result| >= 1 && result[0] == Start
    ensures Distinct(result)
    ensures forall v :: v in result <==> Reachable(edges, v)
    ensures forall v :: v in result ==> v in Universe(edges)
  {
    var visited: set<string> := {Start};
    var queue := [Start];
    result := [];
    ghost var fuel := BfsFuel(edges);
    ghost var order := BfsOrder(edges, visited, queue, fuel);
    BfsBegins(edges);
    while |queue| > 0
      invariant BfsLoop(edges, visited, queue, result, fuel, order)
      decreases |Universe(edges) - visited|, |queue|
    {
      visited, queue, result, fuel := BfsStep(edges, visited, queue, result, fuel, order);
    }
    BfsEnds(edges, visited, result, fuel, order);
  }

  /** What the `visited` dictionary and `result` list shared by the recursive
      visits of one depth-first search always satisfy: each marked id is
      recorded exactly once (the list is as long as the set it lists) and
      belongs to the start's component. */
  ghost predicate DfsState(edges: seq<Edge>, visited: set<string>, result: seq<string>)
  {
    && |visited| == |result|
    && (forall x :: x in visited <==> x in result)
    && visited <= Universe(edges)
    && (forall x :: x in visited ==> Reachable(edges, x))
  }

  /** A list holds at least as many entries as the set of ids it covers. */
  lemma {:induction false} CoverCount(s: seq<string>, e: set<string>)
    requires forall x :: x in e ==> x in s
    ensures |e| <= |s|
    decreases |s|
  {
    if s == [] {
      assert e == {};
    } else {
      var last := s[|s| - 1];
      assert forall x :: x in e - {last} ==> x in s[..|s| - 1] by {
        assert s == s[..|s| - 1] + [last];
      }
      CoverCount(s[..|s| - 1], e - {last});
    }
  }

  /** A list exactly as long as the set of ids it lists has no repeats. */
  lemma {:induction false} DistinctByCount(s: seq<string>, e: set<string>)
    requires forall x :: x in e <==> x in s
    requires |e| == |s|
    ensures Distinct(s)
    decreases |s|
  {
    if s != [] {
      var p, last := s[..|s| - 1], s[|s| - 1];
      assert s == p + [last];
      if last in p {
        CoverCount(p, e);
        assert false;
      } else {
        assert forall x :: x in e - {last} <==> x in p;
        DistinctByCount(p, e - {last});
        DistinctAppend(p, [last]);
      }
    }
  }

  /** The shared `visited` set and `result` list of one depth-first search. */
  datatype Walk = Walk(visited: set<string>, result: seq<string>)

  /** `visit(nodeId)` from the shared state `w`, with at most `fuel` nested
      visits: mark and record `nodeId`, then run the callback on every edge
      in order, the nested visits with one level of fuel fewer. */
  function VisitWalk(edges: seq<Edge>, nodeId: string, w: Walk, fuel: nat): Walk
    decreases fuel, 0, 0
  {
    if fuel == 0 then w
    else ScanWalk(edges, nodeId, 0, Walk(w.visited + {nodeId}, w.result + [nodeId]), fuel - 1)
  }

  /** The `forEach` of a visit of `nodeId` from edge `k` on. */
  function ScanWalk(edges: seq<Edge>, nodeId: string, k: nat, w: Walk, fuel: nat): Walk
    decreases fuel, 3, |edges| - k
  {
    if k >= |edges| then w
    else ScanWalk(edges, nodeId, k + 1, CallbackWalk(edges, edges[k], nodeId, w, fuel), fuel)
  }

  /** The callback for edge `e`: follow its `to` end when it leaves `nodeId`,
      then its `from` end when it enters `nodeId`, on the updated state. */
  function CallbackWalk(edges: seq<Edge>, e: Edge, nodeId: string, w: Walk, fuel: nat): Walk
    decreases fuel, 2, 0
  {
    var w1 := if e.from == nodeId then FollowWalk(edges, e.to, w, fuel) else w;
    if e.to == nodeId then FollowWalk(edges, e.from, w1, fuel) else w1
  }

  /** The guarded call: visit `next` unless it is marked already. */
  function FollowWalk(edges: seq<Edge>, next: string, w: Walk, fuel: nat): Walk
    decreases fuel, 1, 0
  {
    if next in w.visited then w else VisitWalk(edges, next, w, fuel)
  }

  /** A scan that reaches `rest` from edge `k` on reaches it from edge
      `k + 1` on once the callback for edge `k` has run. */
  lemma ScanStep(edges: seq<Edge>, nodeId: string, k: nat, w: Walk, w': Walk, rest: Walk, fuel: nat)
    requires k < |edges|
    ensures ScanWalk(edges, nodeId, k, w, fuel) == rest && w' == CallbackWalk(edges, edges[k], nodeId, w, fuel)
            ==> ScanWalk(edges, nodeId, k + 1, w', fuel) == rest
  {
  }

  /** Nested visits a search can make at most: each marks a new id of
      `Universe(edges)`, and the outermost one marks "Node 1". */
  function DfsFuel(edges: seq<Edge>): nat
  {
    |Universe(edges)| + 1
  }

  /** The pre-order `dfs` returns: `visit("Node 1")` on an empty state. */
  function DfsOrder(edges: seq<Edge>): seq<string>
  {
    VisitWalk(edges, Start, Walk({}, []), DfsFuel(edges)).result
  }

  /** What holds after a visit of `nodeId` has run the callback on the first
      `i` edges, starting from the shared state (`visited`, `result`). */
  ghost predicate VisitProgress(edges: seq<Edge>, nodeId: string, visited: set<string>, result: seq<string>,
                                i: nat, visited': set<string>, result': seq<string>)
  {
    && DfsState(edges, visited', result')
    && visited + {nodeId} <= visited'
    && |Universe(edges) - visited'| < |Universe(edges) - visited|
    && |result'| > |result| && result'[..|result|] == result && result'[|result|] == nodeId
    && (forall x :: x in visited' - visited && x != nodeId ==> NeighboursIn(edges, x, visited'))
    && (forall k :: 0 <= k < i && k < |edges| ==>
          (edges[k].from == nodeId ==> edges[k].to in visited') && (edges[k].to == nodeId ==> edges[k].from in visited'))
  }

  /** The edges before `i` that touch `nodeId` keep their other end among
      the visited ids as the set grows, and edge `i` joins them. */
  lemma EdgesSeenGrow(edges: seq<Edge>, nodeId: string, i: nat, v: set<string>, v2: set<string>)
    requires i < |edges| && v <= v2
    requires forall k :: 0 <= k < i && k < |edges| ==>
      (edges[k].from == nodeId ==> edges[k].to in v) && (edges[k].to == nodeId ==> edges[k].from in v)
    requires edges[i].from == nodeId ==> edges[i].to in v2
    requires edges[i].to == nodeId ==> edges[i].from in v2
    ensures forall k :: 0 <= k < i + 1 && k < |edges| ==>
      (edges[k].from == nodeId ==> edges[k].to in v2) && (edges[k].to == nodeId ==> edges[k].from in v2)
  {
  }

  lemma VisitRound(edges: seq<Edge>, nodeId: string, visited: set<string>, result: seq<string>,
                   i: nat, v: set<string>, r: seq<string>, v2: set<string>, r2: seq<string>)
    requires VisitProgress(edges, nodeId, visited, result, i, v, r) && i < |edges|
    requires DfsState(edges, v2, r2) && v <= v2 && |r2| >= |r| && r2[..|r|] == r
    requires forall x :: x in v2 - v ==> NeighboursIn(edges, x, v2)
    requires edges[i].from == nodeId ==> edges[i].to in v2
    requires edges[i].to == nodeId ==> edges[i].from in v2
    ensures VisitProgress(edges, nodeId, visited, result, i + 1, v2, r2)
  {
    assert r2[..|result|] == r2[..|r|][..|result|];
    assert r2[|result|] == r2[..|r|][|result|];
    SubsetNoLarger(Universe(edges) - v2, Universe(edges) - v);
    assert |Universe(edges) - v2| < |Universe(edges) - visited|;
    EdgesSeenGrow(edges, nodeId, i, v, v2);
    forall x | x in v2 - visited && x != nodeId
      ensures NeighboursIn(edges, x, v2)
    {
      if x in v {
        NeighboursInMono(edges, x, v, v2);
      }
    }
  }

  /** The invariant of the `forEach` in a visit of `nodeId` that started from
      (`visited`, `result`) with `fuel` and marked and recorded `nodeId`
      (the state `start`): the progress so far, and what the rest of the
      scan leaves is what the whole scan leaves. */
  ghost predicate VisitLoop(edges: seq<Edge>, nodeId: string, visited: set<string>, result: seq<string>,
                            fuel: nat, start: Walk, i: nat, v: set<string>, r: seq<string>)
  {
    && VisitProgress(edges, nodeId, visited, result, i, v, r)
    && fuel > |Universe(edges) - visited|
    && start == Walk(visited + {nodeId}, result + [nodeId])
    && ScanWalk(edges, nodeId, i, Walk(v, r), fuel - 1) == ScanWalk(edges, nodeId, 0, start, fuel - 1)
  }

  /** One pass of the `forEach` in a visit of `nodeId`: the callback for
      edge `i`. */
  method VisitEdge(edges: seq<Edge>, nodeId: string, visited: set<string>, result: seq<string>,
                   ghost fuel: nat, ghost start: Walk, i: nat, v: set<string>, r: seq<string>)
    returns (v2: set<string>, r2: seq<string>)
    requires VisitLoop(edges, nodeId, visited, result, fuel, start, i, v, r) && i < |edges|
    decreases |Universe(edges) - visited|, 2
    ensures VisitLoop(edges, nodeId, visited, result, fuel, start, i + 1, v2, r2)
  {
    v2, r2 := EdgeCallback(edges, nodeId, i, v, r, fuel - 1);
    ScanStep(edges, nodeId, i, Walk(v, r), Walk(v2, r2), ScanWalk(edges, nodeId, 0, start, fuel - 1), fuel - 1);
    VisitRound(edges, nodeId, visited, result, i, v, r, v2, r2);
  }

  /** After the last callback, the state is the one `VisitWalk` gives, and
      the visited node has all its neighbours marked. */
  lemma VisitEnds(edges: seq<Edge>, nodeId: string, visited: set<string>, result: seq<string>,
                  fuel: nat, v: set<string>, r: seq<string>)
    requires VisitLoop(edges, nodeId, visited, result, fuel, Walk(visited + {nodeId}, result + [nodeId]), |edges|, v, r)
    ensures Walk(v, r) == VisitWalk(edges, nodeId, Walk(visited, result), fuel)
    ensures NeighboursIn(edges, nodeId, v)
  {
    assert ScanWalk(edges, nodeId, |edges|, Walk(v, r), fuel - 1) == Walk(v, r);
  }

  /** Ids whose neighbours are all in `s` keep them all in a larger `t`. */
  lemma NeighboursAllMono(edges: seq<Edge>, ids: set<string>, s: set<string>, t: set<string>)
    requires forall x :: x in ids ==> NeighboursIn(edges, x, s)
    requires s <= t
    ensures forall x :: x in ids ==> NeighboursIn(edges, x, t)
  {
    forall x | x in ids
      ensures NeighboursIn(edges, x, t)
    {
      NeighboursInMono(edges, x, s, t);
    }
  }

  /** Pre-order visit: mark, record, then run the edge callback on every
      edge, in edge order. The shared `visited` and `result` are threaded
      through. Every id this call marks has all its neighbours marked when it
      returns. */
  method Visit(edges: seq<Edge>, nodeId: string, visited: set<string>, result: seq<string>, ghost fuel: nat)
    returns (visited': set<string>, result': seq<string>)
    requires DfsState(edges, visited, result)
    requires nodeId !in visited && nodeId in Universe(edges) && Reachable(edges, nodeId)
    requires fuel > |Universe(edges) - visited|
    decreases |Universe(edges) - visited|, 3
    ensures Walk(visited', result') == VisitWalk(edges, nodeId, Walk(visited, result), fuel)
    ensures DfsState(edges, visited', result')
    ensures visited + {nodeId} <= visited'
    ensures |result'| > |result| && result'[..|result|] == result && result'[|result|] == nodeId
    ensures forall x :: x in visited' - visited ==> NeighboursIn(edges, x, visited')
  {
    visited' := visited + {nodeId};
    result' := result + [nodeId];
    ghost var start := Walk(visited', result');
    ProperSubsetSmaller(Universe(edges) - visited', Universe(edges) - visited);
    assert result'[..|result|] == result;
    for i := 0 to |edges|
      invariant VisitLoop(edges, nodeId, visited, result, fuel, start, i, visited', result')
    {
      visited', result' := VisitEdge(edges, nodeId, visited, result, fuel, start, i, visited', result');
    }
    VisitEnds(edges, nodeId, visited, result, fuel, visited', result');
  }

  /** The `forEach` callback of a visit for edge `k`: descend into its other
      endpoint if it touches `nodeId` there and that endpoint is unmarked,
      forward direction first. */
  method EdgeCallback(edges: seq<Edge>, nodeId: string, k: nat, visited: set<string>, result: seq<string>,
                      ghost fuel: nat)
    returns (visited': set<string>, result': seq<string>)
    requires DfsState(edges, visited, result) && nodeId in visited && k < |edges|
    requires fuel > |Universe(edges) - visited|
    decreases |Universe(edges) - visited| + 1, 1
    ensures Walk(visited', result') == CallbackWalk(edges, edges[k], nodeId, Walk(visited, result), fuel)
    ensures edges[k].from != nodeId && edges[k].to != nodeId ==> visited' == visited && result' == result
    ensures DfsState(edges, visited', result')
    ensures visited <= visited'
    ensures |result'| >= |result| && result'[..|result|] == result
    ensures forall x :: x in visited' - visited ==> NeighboursIn(edges, x, visited')
    ensures edges[k].from == nodeId ==> edges[k].to in visited'
    ensures edges[k].to == nodeId ==> edges[k].from in visited'
  {
    var e := edges[k];
    visited', result' := visited, result;
    if e.from == nodeId {
      assert Links(edges[k], nodeId, e.to);
      visited', result' := Follow(edges, nodeId, e.to, visited', result', fuel);
    }
    if e.to == nodeId {
      ghost var before, beforeResult := visited', result';
      assert Links(edges[k], nodeId, e.from);
      SubsetNoLarger(Universe(edges) - visited', Universe(edges) - visited);
      visited', result' := Follow(edges, nodeId, e.from, visited', result', fuel);
      assert result'[..|result|] == result'[..|beforeResult|][..|result|];
      NeighboursAllMono(edges, before - visited, before, visited');
    }
  }

  /** Visit `next` unless it is already marked. */
  method Follow(edges: seq<Edge>, nodeId: string, next: string, visited: set<string>, result: seq<string>,
                ghost fuel: nat)
    returns (visited': set<string>, result': seq<string>)
    requires DfsState(edges, visited, result) && nodeId in visited && Adjacent(edges, nodeId, next)
    requires fuel > |Universe(edges) - visited|
    decreases |Universe(edges) - visited| + 1, 0
    ensures Walk(visited', result') == FollowWalk(edges, next, Walk(visited, result), fuel)
    ensures next in visited ==> visited' == visited && result' == result
    ensures DfsState(edges, visited', result')
    ensures visited + {next} <= visited'
    ensures |result'| >= |result| && result'[..|result|] == result
    ensures forall x :: x in visited' - visited ==> NeighboursIn(edges, x, visited')
  {
    if next in visited {
      visited', result' := visited, result;
    } else {
      var k :| 0 <= k < |edges| && Links(edges[k], nodeId, next);
      InUniverse(edges, k);
      ConnectedStep(edges, Start, nodeId, next);
      visited', result' := Visit(edges, next, visited, result, fuel);
    }
  }

  /** Depth-first search: the result is the pre-order `DfsOrder`, and it
      lists, without repeats, exactly the ids connected to "Node 1". */
  method Dfs(nodes: seq<Node>, edges: seq<Edge>) returns (result: seq<string>)
    ensures result == DfsOrder(edges)
    ensures |result| >= 1 && result[0] == Start
    ensures Distinct(result)
    ensures forall v :: v in result <==> Reachable(edges, v)
    ensures forall v :: v in result ==> v in Universe(edges)
  {
    StartInUniverse(edges);
    ConnectedRefl(edges, Start);
    var visited;
    assert Universe(edges) - {} == Universe(edges);
    visited, result := Visit(edges, Start, {}, [], DfsFuel(edges));
    DistinctByCount(result, visited);
    NeighboursClosed(edges, visited);
    forall v | Reachable(edges, v)
      ensures v in result
    {
      ClosedContainsConnected(edges, visited, Start, v);
    }
  }
}
