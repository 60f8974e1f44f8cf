/** The visualizer's "Dijkstra" (and the A* that delegates to it): a FIFO
    worklist from "Node 1" that relaxes edges only in their stored direction.
    A popped node is marked visited and recorded without checking whether it
    was visited before, so an id can be recorded more than once. */
module ShortestPath {
  import opened Graph

  /** A tentative distance; `Inf` is JavaScript's `Infinity`. */
  datatype Dist = Inf | Fin(d: int)

  /** `x < d` with `Infinity` above every number. */
  predicate Below(x: int, d: Dist)
  {
    d.Inf? || x < d.d
  }

  /** `a <= b` on tentative distances. */
  predicate NoLonger(a: Dist, b: Dist)
  {
    b.Inf? || (a.Fin? && a.d <= b.d)
  }

  /** Relaxing towards `t` with candidate `x` would fire. A target without an
      entry reads as `undefined`, and every comparison with it is false. */
  predicate Relaxes(dist: map<string, Dist>, t: string, x: int)
  {
    t in dist && Below(x, dist[t])
  }

  /** `v` has a finite distance and none of its edges to unvisited targets
      would improve anything any more. */
  ghost predicate Settled(edges: seq<Edge>, v: string, dist: map<string, Dist>, visited: set<string>)
  {
    && v in dist && dist[v].Fin?
    && forall k :: 0 <= k < |edges| && edges[k].from == v && edges[k].to !in visited ==>
         !Relaxes(dist, edges[k].to, dist[v].d + edges[k].weight)
  }

  lemma SettledMono(edges: seq<Edge>, v: string, dist: map<string, Dist>, visited: set<string>,
                    dist': map<string, Dist>, visited': set<string>)
    requires Settled(edges, v, dist, visited)
    requires visited <= visited' && dist'.Keys == dist.Keys && dist'[v] == dist[v]
    requires forall x :: x in dist ==> NoLonger(dist'[x], dist[x])
    ensures Settled(edges, v, dist', visited')
  {
    forall k | 0 <= k < |edges| && edges[k].from == v && edges[k].to !in visited'
      ensures !Relaxes(dist', edges[k].to, dist'[v].d + edges[k].weight)
    {
      var t := edges[k].to;
      if t in dist {
        assert NoLonger(dist'[t], dist[t]);
      }
    }
  }

  /** What the scan for `current` has achieved after its first `i` edges,
      starting from `dist` and `queue`. */
  ghost predicate RelaxProgress(edges: seq<Edge>, current: string, dist: map<string, Dist>, visited: set<string>,
                                queue: seq<string>, i: nat, dist': map<string, Dist>, queue': seq<string>)
    requires current in dist && dist[current].Fin?
  {
    && dist'.Keys == dist.Keys && dist'[current] == dist[current]
    && (forall x :: x in dist ==> NoLonger(dist'[x], dist[x]))
    && (forall x :: x in dist && x in visited ==> dist'[x] == dist[x])
    && |queue| <= |queue'| && queue'[..|queue|] == queue
    && (forall t :: t in queue'[|queue|..] ==>
          t !in visited && t in dist && dist'[t].Fin? && Below(dist'[t].d, dist[t]) && Arc(edges, current, t))
    && (forall x :: x in dist && dist'[x] != dist[x] ==> x in queue'[|queue|..])
    && (forall k :: 0 <= k < i && k < |edges| && edges[k].from == current && edges[k].to !in visited ==>
          !Relaxes(dist', edges[k].to, dist[current].d + edges[k].weight))
  }

  /** Relaxing edge `i` towards its unvisited target keeps the scan's progress. */
  lemma RelaxEdge(edges: seq<Edge>, current: string, dist: map<string, Dist>, visited: set<string>,
                  queue: seq<string>, i: nat, dist': map<string, Dist>, queue': seq<string>)
    requires current in dist && dist[current].Fin? && current in visited && i < |edges|
    requires RelaxProgress(edges, current, dist, visited, queue, i, dist', queue')
    requires edges[i].from == current && edges[i].to !in visited
    requires Relaxes(dist', edges[i].to, dist'[current].d + edges[i].weight)
    ensures var t := edges[i].to;
      RelaxProgress(edges, current, dist, visited, queue, i + 1,
                    dist'[t := Fin(dist'[current].d + edges[i].weight)], queue' + [t])
    ensures !Settled(edges, current, dist, visited)
  {
    var t, x := edges[i].to, dist'[current].d + edges[i].weight;
    var dist2, queue2 := dist'[t := Fin(x)], queue' + [t];
    assert queue2[|queue|..] == queue'[|queue|..] + [t];
    assert queue2[..|queue|] == queue'[..|queue|];
    assert NoLonger(dist'[t], dist[t]);
    assert Arc(edges, current, t) by {
      assert edges[i].from == current && edges[i].to == t;
    }
    forall k | 0 <= k < i + 1 && edges[k].from == current && edges[k].to !in visited
      ensures !Relaxes(dist2, edges[k].to, dist[current].d + edges[k].weight)
    {
      if k < i && edges[k].to in dist {
        assert NoLonger(dist2[edges[k].to], dist'[edges[k].to]);
      }
    }
  }

  /** An edge the scan passes over (it does not leave `current` for an
      unvisited target, or it would not improve the distance) keeps the
      scan's progress. */
  lemma SkipEdge(edges: seq<Edge>, current: string, dist: map<string, Dist>, visited: set<string>,
                 queue: seq<string>, i: nat, dist': map<string, Dist>, queue': seq<string>)
    requires current in dist && dist[current].Fin? && i < |edges|
    requires RelaxProgress(edges, current, dist, visited, queue, i, dist', queue')
    requires edges[i].from == current && edges[i].to !in visited ==>
      !Relaxes(dist', edges[i].to, dist'[current].d + edges[i].weight)
    ensures RelaxProgress(edges, current, dist, visited, queue, i + 1, dist', queue')
  {
  }

  /** What a whole scan for `current` achieves, starting from the visited
      set `visited1` and the worklist `queue1`: distances only decrease, those
      of visited ids do not change, a target is enqueued only when it is
      unvisited, reachable by one of `current`'s edges and its distance
      strictly improved, every changed distance was enqueued, no edge of
      `current` would improve anything any more, and nothing changes when
      `current` was already settled (it is being popped a second time). */
  ghost predicate Relaxed(edges: seq<Edge>, current: string, dist: map<string, Dist>, visited1: set<string>,
                          queue1: seq<string>, dist2: map<string, Dist>, queue2: seq<string>)
  {
    && dist2.Keys == dist.Keys
    && (forall x :: x in dist ==> NoLonger(dist2[x], dist[x]))
    && (forall x :: x in dist && x in visited1 ==> dist2[x] == dist[x])
    && |queue1| <= |queue2| && queue2[..|queue1|] == queue1
    && (forall t :: t in queue2[|queue1|..] ==>
          t !in visited1 && t in dist && dist2[t].Fin? && Below(dist2[t].d, dist[t]) && Arc(edges, current, t))
    && (forall x :: x in dist && dist2[x] != dist[x] ==> x in queue2[|queue1|..])
    && Settled(edges, current, dist2, visited1)
    && (Settled(edges, current, dist, visited1) ==> dist2 == dist && queue2 == queue1)
  }

  lemma ProgressRelaxed(edges: seq<Edge>, current: string, dist: map<string, Dist>, visited: set<string>,
                        queue: seq<string>, dist': map<string, Dist>, queue': seq<string>)
    requires current in dist && dist[current].Fin?
    requires RelaxProgress(edges, current, dist, visited, queue, |edges|, dist', queue')
    requires Settled(edges, current, dist, visited) ==> dist' == dist && queue' == queue
    ensures Relaxed(edges, current, dist, visited, queue, dist', queue')
  {
  }

  /** The distances and the pushes of one scan on behalf of a popped id. */
  datatype Relaxation = Relaxation(dist: map<string, Dist>, pushed: seq<string>)

  /** The callback for one edge: when it leaves `current` for an unvisited
      target whose distance `current`'s distance plus the weight improves,
      that target gets the new distance and is pushed. An id without a finite
      distance relaxes nothing: `undefined + w` and `Infinity + w` are below
      no distance. */
  function RelaxOne(e: Edge, current: string, visited: set<string>, r: Relaxation): Relaxation
  {
    if e.from == current && e.to !in visited && current in r.dist && r.dist[current].Fin?
       && Relaxes(r.dist, e.to, r.dist[current].d + e.weight)
    then Relaxation(r.dist[e.to := Fin(r.dist[current].d + e.weight)], r.pushed + [e.to])
    else r
  }

  /** What the whole scan on behalf of `current` leaves: the distances and
      the ids pushed, in push order. */
  function Relaxations(edges: seq<Edge>, current: string, dist: map<string, Dist>, visited: set<string>): Relaxation
  {
    if edges == [] then Relaxation(dist, [])
    else RelaxOne(edges[|edges| - 1], current, visited, Relaxations(edges[..|edges| - 1], current, dist, visited))
  }

  /** A scan pushes at most one id per edge. */
  lemma {:induction false} RelaxationsBound(edges: seq<Edge>, current: string, dist: map<string, Dist>, visited: set<string>)
    ensures |Relaxations(edges, current, dist, visited).pushed| <= |edges|
  {
    if edges != [] {
      RelaxationsBound(edges[..|edges| - 1], current, dist, visited);
    }
  }

  /** The scan has handled the first `i` edges exactly as `Relaxations` says. */
  ghost predicate Scanned(edges: seq<Edge>, current: string, dist: map<string, Dist>, visited: set<string>,
                          queue: seq<string>, i: nat, dist': map<string, Dist>, queue': seq<string>)
    requires i <= |edges|
  {
    var r := Relaxations(edges[..i], current, dist, visited);
    dist' == r.dist && queue' == queue + r.pushed
  }

  /** One more edge handled as `RelaxOne` says extends the scan by one edge. */
  lemma ScanStep(edges: seq<Edge>, current: string, dist: map<string, Dist>, visited: set<string>,
                 queue: seq<string>, i: nat, dist': map<string, Dist>, queue': seq<string>,
                 dist'': map<string, Dist>, queue'': seq<string>)
    requires i < |edges| && current in dist' && dist'[current].Fin?
    requires Scanned(edges, current, dist, visited, queue, i, dist', queue')
    requires var e, x := edges[i], dist'[current].d + edges[i].weight;
      if e.from == current && e.to !in visited && Relaxes(dist', e.to, x)
      then dist'' == dist'[e.to := Fin(x)] && queue'' == queue' + [e.to]
      else dist'' == dist' && queue'' == queue'
    ensures Scanned(edges, current, dist, visited, queue, i + 1, dist'', queue'')
  {
    assert edges[..i + 1][..i] == edges[..i];
  }

  /** The callback of `edges.forEach(...)` for edge `i`: when it leaves
      `current` for an unvisited target whose distance it improves, lower
      that distance and enqueue the target. */
  method RelaxStep(edges: seq<Edge>, current: string, dist: map<string, Dist>, visited: set<string>,
                   queue: seq<string>, i: nat, dist': map<string, Dist>, queue': seq<string>)
    returns (dist'': map<string, Dist>, queue'': seq<string>)
    requires current in dist && dist[current].Fin? && current in visited && i < |edges|
    requires RelaxProgress(edges, current, dist, visited, queue, i, dist', queue')
    requires Settled(edges, current, dist, visited) ==> dist' == dist && queue' == queue
    ensures RelaxProgress(edges, current, dist, visited, queue, i + 1, dist'', queue'')
    ensures Settled(edges, current, dist, visited) ==> dist'' == dist && queue'' == queue
    ensures var e, x := edges[i], dist'[current].d + edges[i].weight;
      if e.from == current && e.to !in visited && Relaxes(dist', e.to, x)
      then dist'' == dist'[e.to := Fin(x)] && queue'' == queue' + [e.to]
      else dist'' == dist' && queue'' == queue'
  {
    dist'', queue'' := dist', queue';
    var e := edges[i];
    if e.from == current && e.to !in visited {
      var newDistance := dist'[current].d + e.weight;
      if e.to in dist' && Below(newDistance, dist'[e.to]) {
        RelaxEdge(edges, current, dist, visited, queue, i, dist', queue');
        dist'' := dist'[e.to := Fin(newDistance)];
        queue'' := queue' + [e.to];
        return;
      }
    }
    SkipEdge(edges, current, dist, visited, queue, i, dist', queue');
  }

  /** The scan of the edge list for the popped node `current`. */
  method RelaxFrom(edges: seq<Edge>, current: string, dist: map<string, Dist>, visited: set<string>, queue: seq<string>)
    returns (dist': map<string, Dist>, queue': seq<string>)
    requires current in dist && dist[current].Fin? && current in visited
    ensures Relaxed(edges, current, dist, visited, queue, dist', queue')
    ensures dist' == Relaxations(edges, current, dist, visited).dist
    ensures queue' == queue + Relaxations(edges, current, dist, visited).pushed
  {
    dist', queue' := dist, queue;
    for i := 0 to |edges|
      invariant RelaxProgress(edges, current, dist, visited, queue, i, dist', queue')
      invariant Settled(edges, current, dist, visited) ==> dist' == dist && queue' == queue
      invariant Scanned(edges, current, dist, visited, queue, i, dist', queue')
    {
      var dist2, queue2 := RelaxStep(edges, current, dist, visited, queue, i, dist', queue');
      ScanStep(edges, current, dist, visited, queue, i, dist', queue', dist2, queue2);
      dist', queue' := dist2, queue2;
    }
    assert edges[..|edges|] == edges;
    ProgressRelaxed(edges, current, dist, visited, queue, dist', queue');
  }

  /** What holds between two rounds of the worklist loop. `keys` are the ids
      that have a distance entry: the node ids and "Node 1". */
  ghost predicate DijkstraInvariant(edges: seq<Edge>, keys: set<string>, dist: map<string, Dist>,
                                    visited: set<string>, queue: seq<string>, result: seq<string>)
  {
    && dist.Keys == keys && Start in keys && dist[Start] == Fin(0)
    && visited <= keys
    && (forall q :: q in queue ==> q in keys && dist[q].Fin?)
    && (forall v :: v in visited ==> Settled(edges, v, dist, visited))
    && (forall x :: x in keys && dist[x].Fin? ==> x in visited || x in queue)
    && (forall x :: x in visited <==> x in result)
    && (forall x :: x in visited ==> DirReachable(edges, x))
    && (forall q :: q in queue ==> DirReachable(edges, q))
    && (result == [] ==> queue == [Start] && visited == {})
    && (result != [] ==> result[0] == Start && Start in visited)
  }

  /** After a round every visited id, old or new, is still settled. */
  lemma RoundSettled(edges: seq<Edge>, dist: map<string, Dist>, visited: set<string>, current: string,
                     dist2: map<string, Dist>)
    requires forall v :: v in visited ==> Settled(edges, v, dist, visited)
    requires dist2.Keys == dist.Keys && (forall x :: x in dist ==> NoLonger(dist2[x], dist[x]))
    requires forall x :: x in dist && x in visited + {current} ==> dist2[x] == dist[x]
    requires Settled(edges, current, dist2, visited + {current})
    ensures forall v :: v in visited + {current} ==> Settled(edges, v, dist2, visited + {current})
  {
    forall v | v in visited + {current}
      ensures Settled(edges, v, dist2, visited + {current})
    {
      if v != current {
        SettledMono(edges, v, dist, visited, dist2, visited + {current});
      }
    }
  }

  /** Ids pushed while scanning a reachable id's edges are reachable too. */
  lemma RoundReachable(edges: seq<Edge>, current: string, queue1: seq<string>, pushed: seq<string>)
    requires DirReachable(edges, current) && forall q :: q in queue1 ==> DirReachable(edges, q)
    requires forall t :: t in pushed ==> Arc(edges, current, t)
    ensures forall t :: t in queue1 + pushed ==> DirReachable(edges, t)
  {
    forall t | t in queue1 + pushed
      ensures DirReachable(edges, t)
    {
      if t in pushed {
        var k :| 0 <= k < |edges| && edges[k].from == current && edges[k].to == t;
        DirReachableStep(edges, k);
      }
    }
  }

  /** After a round the worklist still holds ids with finite distances, and
      every id with a finite distance is visited or waiting. */
  lemma RoundQueue(edges: seq<Edge>, keys: set<string>, dist: map<string, Dist>,
                   visited: set<string>, queue: seq<string>, dist2: map<string, Dist>, queue2: seq<string>)
    requires |queue| > 0 && dist.Keys == keys
    requires forall q :: q in queue ==> q in keys && dist[q].Fin?
    requires forall x :: x in keys && dist[x].Fin? ==> x in visited || x in queue
    requires Relaxed(edges, queue[0], dist, visited + {queue[0]}, queue[1..], dist2, queue2)
    ensures forall q :: q in queue2 ==> q in keys && dist2[q].Fin?
    ensures forall x :: x in keys && dist2[x].Fin? ==> x in visited + {queue[0]} || x in queue2
  {
    var current, visited1, queue1 := queue[0], visited + {queue[0]}, queue[1..];
    var pushed := queue2[|queue1|..];
    assert queue2 == queue1 + pushed;
    forall x | x in keys && dist2[x].Fin?
      ensures x in visited1 || x in queue2
    {
      if dist2[x] == dist[x] {
        assert x in visited || x in queue;
        if x in queue && x != current {
          assert x in queue1;
        }
      }
    }
    forall q | q in queue2
      ensures q in keys && dist2[q].Fin?
    {
      if q !in pushed {
        assert q in queue1 && q in queue;
        assert NoLonger(dist2[q], dist[q]);
      }
    }
  }

  /** One round: pop `current`, mark and record it, relax its edges. */
  lemma DijkstraRound(edges: seq<Edge>, keys: set<string>, dist: map<string, Dist>,
                      visited: set<string>, queue: seq<string>, result: seq<string>,
                      dist2: map<string, Dist>, queue2: seq<string>)
    requires DijkstraInvariant(edges, keys, dist, visited, queue, result) && |queue| > 0
    requires Relaxed(edges, queue[0], dist, visited + {queue[0]}, queue[1..], dist2, queue2)
    ensures DijkstraInvariant(edges, keys, dist2, visited + {queue[0]}, queue2, result + [queue[0]])
    ensures queue[0] in visited ==> visited + {queue[0]} == visited && |queue2| < |queue|
    ensures queue[0] !in visited ==> |keys - (visited + {queue[0]})| < |keys - visited|
  {
    var current, visited1, queue1 := queue[0], visited + {queue[0]}, queue[1..];
    var pushed := queue2[|queue1|..];
    assert queue2 == queue1 + pushed;
    assert Start in visited1;
    RoundSettled(edges, dist, visited, current, dist2);
    RoundQueue(edges, keys, dist, visited, queue, dist2, queue2);
    RoundReachable(edges, current, queue1, pushed);
    if current in visited {
      assert visited1 == visited;
    } else {
      ProperSubsetSmaller(keys - visited1, keys - visited);
    }
  }

  /** Once the worklist is empty: the recorded ids are reachable along stored
      edge directions, and, when every edge target has a distance entry, every
      such reachable id was recorded. */
  lemma DijkstraFinish(edges: seq<Edge>, keys: set<string>, dist: map<string, Dist>,
                       visited: set<string>, result: seq<string>)
    requires DijkstraInvariant(edges, keys, dist, visited, [], result)
    ensures |result| >= 1 && result[0] == Start
    ensures forall v :: v in result ==> DirReachable(edges, v) && v in keys
    ensures (forall k :: 0 <= k < |edges| ==> edges[k].to in keys) ==>
      forall v :: DirReachable(edges, v) ==> v in result
  {
    if forall k :: 0 <= k < |edges| ==> edges[k].to in keys {
      forall k | 0 <= k < |edges| && edges[k].from in visited
        ensures edges[k].to in visited
      {
        var v, t := edges[k].from, edges[k].to;
        assert Settled(edges, v, dist, visited);
      }
      assert OutClosed(edges, visited);
      forall v | DirReachable(edges, v)
        ensures v in result
      {
        OutClosedContainsReachable(edges, visited, v);
      }
    }
  }

  /** The distance map the loop starts from: `Infinity` for every node id,
      then 0 for "Node 1". */
  function InitialDistances(nodes: seq<Node>): (dist: map<string, Dist>)
    ensures dist.Keys == NodeIds(nodes) + {Start} && dist[Start] == Fin(0)
    ensures forall x :: x in dist && x != Start ==> dist[x] == Inf
  {
    (map x | x in NodeIds(nodes) :: Inf)[Start := Fin(0)]
  }

  /** The ids the worklist loop records from the given state, in order, over
      at most `fuel` rounds: pop the head, mark and record it, scan its edges
      as `Relaxations` says, go on with the rest of the worklist followed by
      the ids pushed. */
  function DijkstraOrder(edges: seq<Edge>, dist: map<string, Dist>, visited: set<string>,
                         queue: seq<string>, fuel: nat): seq<string>
    decreases fuel
  {
    if queue == [] || fuel == 0 then []
    else
      var current := queue[0];
      var r := Relaxations(edges, current, dist, visited + {current});
      [current] + DijkstraOrder(edges, r.dist, visited + {current}, queue[1..] + r.pushed, fuel - 1)
  }

  /** Rounds left at most: every id can be marked once, and between two
      markings the worklist shrinks by one per round after growing by at most
      one per edge. */
  function DijkstraWork(edges: seq<Edge>, keys: set<string>, visited: set<string>, queue: seq<string>): nat
  {
    Times(|keys - visited|, |edges| + 1) + |queue|
  }

  /** Enough rounds for the whole loop from its start. */
  function DijkstraFuel(nodes: seq<Node>, edges: seq<Edge>): nat
  {
    Times(|NodeIds(nodes) + {Start}|, |edges| + 1) + 1
  }

  /** The ids recorded so far followed by the ids still to be recorded make
      up `order`, and what is left of the `budget` of rounds once one round
      per recorded id is spent covers the rounds still to come. */
  ghost predicate OnDijkstraOrder(edges: seq<Edge>, keys: set<string>, dist: map<string, Dist>, visited: set<string>,
                                  queue: seq<string>, result: seq<string>, budget: nat, order: seq<string>)
  {
    && |result| <= budget
    && result + DijkstraOrder(edges, dist, visited, queue, budget - |result|) == order
    && budget - |result| >= DijkstraWork(edges, keys, visited, queue)
  }

  /** A round that marks a new id while pushing at most one id per edge, or
      only shortens the worklist, leaves less work. */
  lemma DijkstraWorkDrops(edges: seq<Edge>, keys: set<string>, visited: set<string>, queue: seq<string>,
                          visited2: set<string>, queue2: seq<string>)
    requires |queue| > 0 && |queue2| <= |queue| - 1 + |edges|
    requires visited2 == visited ==> |queue2| < |queue|
    requires visited2 != visited ==> |keys - visited2| < |keys - visited|
    ensures DijkstraWork(edges, keys, visited2, queue2) < DijkstraWork(edges, keys, visited, queue)
  {
    SetMeasureDrops(keys, visited, visited2, |queue|, |queue2|, |edges|);
  }

  /** A round takes the loop one step along `DijkstraOrder`. */
  lemma DijkstraOrderRound(edges: seq<Edge>, keys: set<string>, dist: map<string, Dist>, visited: set<string>,
                           queue: seq<string>, result: seq<string>, budget: nat, order: seq<string>,
                           dist2: map<string, Dist>, queue2: seq<string>)
    requires |queue| > 0 && OnDijkstraOrder(edges, keys, dist, visited, queue, result, budget, order)
    requires var r := Relaxations(edges, queue[0], dist, visited + {queue[0]});
      dist2 == r.dist && queue2 == queue[1..] + r.pushed
    requires queue[0] in visited ==> visited + {queue[0]} == visited && |queue2| < |queue|
    requires queue[0] !in visited ==> |keys - (visited + {queue[0]})| < |keys - visited|
    ensures OnDijkstraOrder(edges, keys, dist2, visited + {queue[0]}, queue2, result + [queue[0]], budget, order)
  {
    var current, visited2, fuel := queue[0], visited + {queue[0]}, budget - |result|;
    RelaxationsBound(edges, current, dist, visited2);
    DijkstraWorkDrops(edges, keys, visited, queue, visited2, queue2);
    assert budget - |result + [current]| == fuel - 1;
    var rest := DijkstraOrder(edges, dist2, visited2, queue2, fuel - 1);
    assert DijkstraOrder(edges, dist, visited, queue, fuel) == [current] + rest;
    assert (result + [current]) + rest == result + ([current] + rest);
  }

  /** The loop's invariant: `DijkstraInvariant` and the place on `order`. */
  ghost predicate DijkstraLoop(edges: seq<Edge>, keys: set<string>, dist: map<string, Dist>, visited: set<string>,
                               queue: seq<string>, result: seq<string>, budget: nat, order: seq<string>)
  {
    DijkstraInvariant(edges, keys, dist, visited, queue, result)
    && OnDijkstraOrder(edges, keys, dist, visited, queue, result, budget, order)
  }

  /** A round keeps the loop's invariant, and it either marks a new id or
      shortens the worklist. */
  lemma DijkstraLoopRound(edges: seq<Edge>, keys: set<string>, dist: map<string, Dist>, visited: set<string>,
                          queue: seq<string>, result: seq<string>, budget: nat, order: seq<string>,
                          dist2: map<string, Dist>, queue2: seq<string>)
    requires |queue| > 0 && DijkstraLoop(edges, keys, dist, visited, queue, result, budget, order)
    requires Relaxed(edges, queue[0], dist, visited + {queue[0]}, queue[1..], dist2, queue2)
    requires var r := Relaxations(edges, queue[0], dist, visited + {queue[0]});
      dist2 == r.dist && queue2 == queue[1..] + r.pushed
    ensures DijkstraLoop(edges, keys, dist2, visited + {queue[0]}, queue2, result + [queue[0]], budget, order)
    ensures visited + {queue[0]} == visited ==> |queue2| < |queue|
    ensures visited + {queue[0]} != visited ==> |keys - (visited + {queue[0]})| < |keys - visited|
  {
    DijkstraRound(edges, keys, dist, visited, queue, result, dist2, queue2);
    DijkstraOrderRound(edges, keys, dist, visited, queue, result, budget, order, dist2, queue2);
  }

  /** The body of the worklist loop: pop `current`, mark and record it, scan
      its edges. */
  method DijkstraStep(edges: seq<Edge>, ghost keys: set<string>, dist: map<string, Dist>, visited: set<string>,
                      queue: seq<string>, result: seq<string>, ghost budget: nat, ghost order: seq<string>)
    returns (dist': map<string, Dist>, visited': set<string>, queue': seq<string>, result': seq<string>)
    requires |queue| > 0 && DijkstraLoop(edges, keys, dist, visited, queue, result, budget, order)
    ensures DijkstraLoop(edges, keys, dist', visited', queue', result', budget, order)
    ensures visited' == visited ==> |queue'| < |queue|
    ensures visited' != visited ==> |keys - visited'| < |keys - visited|
  {
    var current := queue[0];
    visited' := visited + {current};
    result' := result + [current];
    dist', queue' := RelaxFrom(edges, current, dist, visited', queue[1..]);
    DijkstraLoopRound(edges, keys, dist, visited, queue, result, budget, order, dist', queue');
  }

  /** The loop's invariant holds at its start. */
  lemma DijkstraBegins(nodes: seq<Node>, edges: seq<Edge>)
    ensures var dist, fuel := InitialDistances(nodes), DijkstraFuel(nodes, edges);
      DijkstraLoop(edges, NodeIds(nodes) + {Start}, dist, {}, [Start], [], fuel,
                   DijkstraOrder(edges, dist, {}, [Start], fuel))
  {
    var keys := NodeIds(nodes) + {Start};
    assert keys - {} == keys;
    DirReachableStart(edges);
  }

  /** The start of `dijkstra`: every node id at `Infinity`, then "Node 1" at 0. */
  method Initialize(nodes: seq<Node>) returns (dist: map<string, Dist>)
    ensures dist == InitialDistances(nodes)
  {
    dist := map[];
    for i := 0 to |nodes|
      invariant dist.Keys == set j | 0 <= j < i :: nodes[j].id
      invariant forall x :: x in dist ==> dist[x] == Inf
    {
      dist := dist[nodes[i].id := Inf];
    }
    dist := dist[Start := Fin(0)];
  }

  /** The `while` loop of `dijkstra`, from any state where its invariant
      holds: it records the rest of `order`, and leaves an empty worklist and
      the invariant. */
  method Worklist(edges: seq<Edge>, ghost keys: set<string>, dist0: map<string, Dist>, visited0: set<string>,
                  queue0: seq<string>, result0: seq<string>, ghost budget: nat, ghost order: seq<string>)
    returns (result: seq<string>, ghost dist: map<string, Dist>, ghost visited: set<string>)
    requires DijkstraLoop(edges, keys, dist0, visited0, queue0, result0, budget, order)
    ensures result == order && DijkstraInvariant(edges, keys, dist, visited, [], result)
  {
    var d, seen, queue := dist0, visited0, queue0;
    result := result0;
    while |queue| > 0
      invariant DijkstraLoop(edges, keys, d, seen, queue, result, budget, order)
      decreases |keys - seen|, |queue|
    {
      d, seen, queue, result := DijkstraStep(edges, keys, d, seen, queue, result, budget, order);
    }
    assert result + [] == result;
    dist, visited := d, seen;
  }

  /** Dijkstra's algorithm as the visualizer implements it: the ids it records
      are exactly `DijkstraOrder` from the start. The result starts with
      "Node 1", holds only ids reachable from it along stored directions that
      have a distance entry, and, when every edge target is a node id (or
      "Node 1"), holds every such reachable id. It may hold an id twice. */
  method Dijkstra(nodes: seq<Node>, edges: seq<Edge>) returns (result: seq<string>)
    ensures result == DijkstraOrder(edges, InitialDistances(nodes), {}, [Start], DijkstraFuel(nodes, edges))
    ensures |result| >= 1 && result[0] == Start
    ensures forall v :: v in result ==> DirReachable(edges, v) && (v == Start || v in NodeIds(nodes))
    ensures (forall k :: 0 <= k < |edges| ==> edges[k].to == Start || edges[k].to in NodeIds(nodes)) ==>
      forall v :: DirReachable(edges, v) ==> v in result
  {
    var dist := Initialize(nodes);
    ghost var keys := NodeIds(nodes) + {Start};
    ghost var fuel := DijkstraFuel(nodes, edges);
    DijkstraBegins(nodes, edges);
    ghost var dist', visited;
    result, dist', visited := Worklist(edges, keys, dist, {}, [Start], [], fuel,
                                       DijkstraOrder(edges, dist, {}, [Start], fuel));
    DijkstraFinish(edges, keys, dist', visited, result);
  }

  /** Two parallel edges from "Node 1" to "X", the heavier one first. */
  const ParallelEdges := [Edge(Start, "X", 5), Edge(Start, "X", 3)]

  /** Scanning "Node 1"'s edges lowers X's distance twice, so "X" is pushed twice. */
  lemma ParallelScan()
    ensures Relaxations(ParallelEdges, Start, map[Start := Fin(0), "X" := Inf], {Start})
         == Relaxation(map[Start := Fin(0), "X" := Fin(3)], ["X", "X"])
  {
    assert "X"[0] != Start[0];
    var d0 := map[Start := Fin(0), "X" := Inf];
    assert ParallelEdges[..1] == [Edge(Start, "X", 5)];
    assert Relaxations(ParallelEdges[..1], Start, d0, {Start})
        == Relaxation(map[Start := Fin(0), "X" := Fin(5)], ["X"]);
  }

  /** "X" has no edges of its own: scanning for it changes nothing. */
  lemma ParallelScanX(dist: map<string, Dist>, visited: set<string>)
    ensures Relaxations(ParallelEdges, "X", dist, visited) == Relaxation(dist, [])
  {
    assert "X"[0] != Start[0];
    assert ParallelEdges[..1] == [Edge(Start, "X", 5)];
    assert Relaxations(ParallelEdges[..1], "X", dist, visited) == Relaxation(dist, []);
  }

  /** The distances a two-node list "Node 1", "X" starts from. */
  lemma ParallelStart()
    ensures InitialDistances([Node(Start), Node("X")]) == map[Start := Fin(0), "X" := Inf]
    ensures DijkstraFuel([Node(Start), Node("X")], ParallelEdges) == 7
  {
    var nodes := [Node(Start), Node("X")];
    assert "X"[0] != Start[0];
    assert nodes[0].id == Start && nodes[1].id == "X";
    assert NodeIds(nodes) + {Start} == {Start} + {"X"};
    assert |{Start} + {"X"}| == 2;
  }

  /** After "Node 1": the two copies of "X" are popped and nothing more. */
  lemma ParallelPops(fuel: nat)
    requires fuel >= 3
    ensures DijkstraOrder(ParallelEdges, map[Start := Fin(0), "X" := Fin(3)], {Start}, ["X", "X"], fuel)
         == ["X", "X"]
  {
    var d2, seen := map[Start := Fin(0), "X" := Fin(3)], {Start, "X"};
    ParallelScanX(d2, {Start} + {"X"});
    ParallelScanX(d2, seen + {"X"});
    assert {Start} + {"X"} == seen && seen + {"X"} == seen;
    assert DijkstraOrder(ParallelEdges, d2, seen, ["X"], fuel - 1) == ["X"];
  }

  /** The whole run from "Node 1", given fuel for four rounds. */
  lemma ParallelFrom(fuel: nat)
    requires fuel >= 4
    ensures DijkstraOrder(ParallelEdges, map[Start := Fin(0), "X" := Inf], {}, [Start], fuel) == [Start, "X", "X"]
  {
    var d0, d2 := map[Start := Fin(0), "X" := Inf], map[Start := Fin(0), "X" := Fin(3)];
    ParallelScan();
    ParallelPops(fuel - 1);
    assert {} + {Start} == {Start};
    assert [Start][1..] + ["X", "X"] == ["X", "X"];
    assert DijkstraOrder(ParallelEdges, d0, {}, [Start], fuel)
        == [Start] + DijkstraOrder(ParallelEdges, d2, {Start}, ["X", "X"], fuel - 1);
  }

  /** Parallel edges make Dijkstra record an id twice: both edges improve
      X's distance when "Node 1" is scanned, "X" is pushed twice, and nothing
      checks at the second pop that it was visited already. */
  lemma ParallelEdgesRecordTwice()
    ensures DijkstraOrder(ParallelEdges, InitialDistances([Node(Start), Node("X")]), {}, [Start],
                          DijkstraFuel([Node(Start), Node("X")], ParallelEdges)) == [Start, "X", "X"]
  {
    ParallelStart();
    ParallelFrom(DijkstraFuel([Node(Start), Node("X")], ParallelEdges));
  }

  /** A* as the visualizer defines it: it returns Dijkstra's result unchanged
      (no heuristic), so it satisfies the same contract. */
  method AStar(nodes: seq<Node>, edges: seq<Edge>) returns (result: seq<string>)
    ensures result == DijkstraOrder(edges, InitialDistances(nodes), {}, [Start], DijkstraFuel(nodes, edges))
    ensures |result| >= 1 && result[0] == Start
    ensures forall v :: v in result ==> DirReachable(edges, v) && (v == Start || v in NodeIds(nodes))
    ensures (forall k :: 0 <= k < |edges| ==> edges[k].to == Start || edges[k].to in NodeIds(nodes)) ==>
      forall v :: DirReachable(edges, v) ==> v in result
  {
    result := Dijkstra(nodes, edges);
  }
}
