/** The shared graph representation of the visualizer: nodes, weighted edges
    stored directed, the fixed start node "Node 1", the decimal rendering used
    in node names and result strings, and the two notions of reachability the
    algorithms rely on (edges traversed both ways, and edges traversed as
    stored). */
module Graph {

  datatype Option<T> = None | Some(value: T)

  /** A node; the visualizer's screen coordinates are presentation only. */
  datatype Node = Node(id: string)

  /** An edge as stored: directed, with an integer weight. */
  datatype Edge = Edge(from: string, to: string, weight: int)

  /** Every traversal starts at this literal id, whatever the node list holds. */
  const Start: string := "Node 1"

  function NodeIds(nodes: seq<Node>): set<string>
  {
    set i | 0 <= i < |nodes| :: nodes[i].id
  }

  /** The ids a traversal can ever meet: the start and every edge endpoint. */
  function Universe(edges: seq<Edge>): set<string>
  {
    if edges == [] then {Start}
    else Universe(edges[..|edges| - 1]) + {edges[|edges| - 1].from, edges[|edges| - 1].to}
  }

  lemma {:induction false} InUniverse(edges: seq<Edge>, k: nat)
    requires k < |edges|
    ensures Start in Universe(edges)
    ensures edges[k].from in Universe(edges) && edges[k].to in Universe(edges)
  {
    var n := |edges| - 1;
    if k < n {
      InUniverse(edges[..n], k);
    }
    StartInUniverse(edges);
  }

  lemma {:induction false} StartInUniverse(edges: seq<Edge>)
    ensures Start in Universe(edges)
  {
    if edges != [] {
      StartInUniverse(edges[..|edges| - 1]);
    }
  }

  predicate Distinct<T(==)>(s: seq<T>)
  {
    forall i, j :: 0 <= i < j < |s| ==> s[i] != s[j]
  }

  /** Index of the first occurrence of `x` in `s`. */
  function IndexOf<T(==)>(s: seq<T>, x: T): (r: nat)
    requires x in s
    ensures r < |s| && s[r] == x
    ensures forall j :: 0 <= j < r ==> s[j] != x
  {
    if s[0] == x then 0 else 1 + IndexOf(s[1..], x)
  }

  // ---------------------------------------------------------------------
  // Decimal rendering (template literals `${i + 1}` and `${edge.weight}`)
  // ---------------------------------------------------------------------

  function DigitChar(d: nat): char
    requires d < 10
  {
    "0123456789"[d]
  }

  function NatToString(n: nat): (s: string)
    ensures |s| >= 1
    ensures n < 10 <==> |s| == 1
  {
    if n < 10 then [DigitChar(n)] else NatToString(n / 10) + [DigitChar(n % 10)]
  }

  /** Distinct numbers render differently, so "Node k" names are distinct. */
  lemma {:induction false} NatToStringInjective(a: nat, b: nat)
    requires NatToString(a) == NatToString(b)
    ensures a == b
  {
    if a >= 10 && b >= 10 {
      var sa, sb := NatToString(a), NatToString(b);
      assert sa[..|sa| - 1] == NatToString(a / 10);
      assert sb[..|sb| - 1] == NatToString(b / 10);
      NatToStringInjective(a / 10, b / 10);
      assert DigitChar(a % 10) == sa[|sa| - 1] == DigitChar(b % 10);
    }
  }

  function IntToString(i: int): string
  {
    if i < 0 then "-" + NatToString(-i) else NatToString(i)
  }

  /** The display form of an edge chosen by Prim's or Kruskal's algorithm. */
  function FormatEdge(e: Edge): string
  {
    e.from + " -- " + e.to + " (Weight: " + IntToString(e.weight) + ")"
  }

  function FormatEdges(es: seq<Edge>): (lines: seq<string>)
    ensures |lines| == |es|
    ensures forall k :: 0 <= k < |es| ==> lines[k] == FormatEdge(es[k])
  {
    if es == [] then [] else [FormatEdge(es[0])] + FormatEdges(es[1..])
  }

  // ---------------------------------------------------------------------
  // Undirected view: an edge links its endpoints both ways
  // ---------------------------------------------------------------------

  predicate Links(e: Edge, u: string, v: string)
  {
    (e.from == u && e.to == v) || (e.from == v && e.to == u)
  }

  ghost predicate Adjacent(es: seq<Edge>, u: string, v: string)
  {
    exists k :: 0 <= k < |es| && Links(es[k], u, v)
  }

  ghost predicate IsWalk(es: seq<Edge>, p: seq<string>)
  {
    |p| >= 1 && forall i :: 0 <= i < |p| - 1 ==> Adjacent(es, p[i], p[i + 1])
  }

  ghost predicate Connected(es: seq<Edge>, x: string, y: string)
  {
    exists p :: IsWalk(es, p) && p[0] == x && p[|p| - 1] == y
  }

  /** The connected component of the start node, edges read both ways. */
  ghost predicate Reachable(es: seq<Edge>, v: string)
  {
    Connected(es, Start, v)
  }

  /** Every neighbour of `u` (through any edge touching it) lies in `s`. */
  ghost predicate NeighboursIn(es: seq<Edge>, u: string, s: set<string>)
  {
    forall k :: 0 <= k < |es| ==> (es[k].from == u ==> es[k].to in s) && (es[k].to == u ==> es[k].from in s)
  }

  /** No edge leaves `s`, in either direction. */
  ghost predicate Closed(es: seq<Edge>, s: set<string>)
  {
    forall k :: 0 <= k < |es| ==> (es[k].from in s <==> es[k].to in s)
  }

  lemma NeighboursInMono(es: seq<Edge>, u: string, s: set<string>, t: set<string>)
    requires NeighboursIn(es, u, s) && s <= t
    ensures NeighboursIn(es, u, t)
  {
  }

  /** Appending distinct fresh elements keeps a sequence free of repeats. */
  lemma DistinctAppend<T>(s: seq<T>, f: seq<T>)
    requires Distinct(s) && Distinct(f)
    requires forall x :: x in f ==> x !in s
    ensures Distinct(s + f)
  {
    forall i, j | 0 <= i < j < |s + f|
      ensures (s + f)[i] != (s + f)[j]
    {
      if j >= |s| && i < |s| {
        assert (s + f)[j] in f;
      }
    }
  }

  /** A set each of whose members has all its neighbours inside is closed. */
  lemma NeighboursClosed(es: seq<Edge>, s: set<string>)
    requires forall x :: x in s ==> NeighboursIn(es, x, s)
    ensures Closed(es, s)
  {
    forall k | 0 <= k < |es|
      ensures es[k].from in s <==> es[k].to in s
    {
      if es[k].from in s {
        assert NeighboursIn(es, es[k].from, s);
      }
      if es[k].to in s {
        assert NeighboursIn(es, es[k].to, s);
      }
    }
  }

  /** Ids adjacent to a member of the start's component belong to it too. */
  lemma ReachableExtend(es: seq<Edge>, u: string, s: set<string>, t: set<string>)
    requires Reachable(es, u)
    requires forall x :: x in s ==> Reachable(es, x)
    requires forall x :: x in t - s ==> Adjacent(es, u, x)
    ensures forall x :: x in t ==> Reachable(es, x)
  {
    forall x | x in t
      ensures Reachable(es, x)
    {
      if x !in s {
        ConnectedStep(es, Start, u, x);
      }
    }
  }

  lemma ProperSubsetSmaller<T>(a: set<T>, b: set<T>)
    requires a < b
    ensures |a| < |b|
  {
    var x :| x in b && x !in a;
    assert a <= b - {x};
    assert |b - {x}| == |b| - 1;
    SubsetNoLarger(a, b - {x});
  }

  lemma {:induction false} SubsetNoLarger<T>(a: set<T>, b: set<T>)
    requires a <= b
    ensures |a| <= |b|
    decreases |a|
  {
    if a != {} {
      var x :| x in a;
      SubsetNoLarger(a - {x}, b - {x});
    }
  }

  /** `a * m`, by repeated addition, for the work measures of the worklist
      loops. */
  function Times(a: nat, m: nat): nat
  {
    if a == 0 then 0 else m + Times(a - 1, m)
  }

  /** The work measure `a * (e + 1) + q` of a worklist loop, where `a` counts
      the ids still to mark, `q` the queue length and `e` bounds the pushes of
      one round: it drops when a round shortens the queue without marking, or
      marks something while pushing fewer than `e + 1` entries. */
  lemma {:induction false} MeasureDrops(a: nat, a': nat, q: nat, q': nat, e: nat)
    requires (a' == a && q' < q) || (a' < a && q' < q + e + 1)
    ensures Times(a', e + 1) + q' < Times(a, e + 1) + q
    decreases a
  {
    if a' < a - 1 {
      MeasureDrops(a - 1, a', q, q', e);
    }
  }

  /** `MeasureDrops` for a worklist loop that marks the ids of `u`: marking
      nothing must shorten the queue, marking something must push fewer than
      `e + 1` entries. */
  lemma SetMeasureDrops(u: set<string>, v: set<string>, v': set<string>, q: nat, q': nat, e: nat)
    requires v' == v ==> q' < q
    requires v' != v ==> |u - v'| < |u - v| && q' < q + e + 1
    ensures Times(|u - v'|, e + 1) + q' < Times(|u - v|, e + 1) + q
  {
    if v' == v {
      assert u - v' == u - v;
    }
    MeasureDrops(|u - v|, |u - v'|, q, q', e);
  }

  lemma ConnectedRefl(es: seq<Edge>, x: string)
    ensures Connected(es, x, x)
  {
    assert IsWalk(es, [x]);
  }

  lemma ConnectedByEdge(es: seq<Edge>, k: nat)
    requires k < |es|
    ensures Connected(es, es[k].from, es[k].to) && Connected(es, es[k].to, es[k].from)
  {
    var e := es[k];
    assert Links(es[k], e.from, e.to) && Links(es[k], e.to, e.from);
    assert IsWalk(es, [e.from, e.to]);
    assert IsWalk(es, [e.to, e.from]);
  }

  lemma ConnectedStep(es: seq<Edge>, x: string, y: string, z: string)
    requires Connected(es, x, y) && Adjacent(es, y, z)
    ensures Connected(es, x, z)
  {
    var p :| IsWalk(es, p) && p[0] == x && p[|p| - 1] == y;
    var q := p + [z];
    assert forall i :: 0 <= i < |p| ==> q[i] == p[i];
    assert IsWalk(es, q);
  }

  lemma ConnectedTrans(es: seq<Edge>, x: string, y: string, z: string)
    requires Connected(es, x, y) && Connected(es, y, z)
    ensures Connected(es, x, z)
  {
    var p :| IsWalk(es, p) && p[0] == x && p[|p| - 1] == y;
    var q :| IsWalk(es, q) && q[0] == y && q[|q| - 1] == z;
    var w := p + q[1..];
    forall i | 0 <= i < |w| - 1
      ensures Adjacent(es, w[i], w[i + 1])
    {
      if i < |p| - 1 {
        assert w[i] == p[i] && w[i + 1] == p[i + 1];
      } else {
        var j := i - (|p| - 1);
        assert w[i] == q[j] && w[i + 1] == q[j + 1];
      }
    }
    assert IsWalk(es, w);
  }

  lemma ConnectedSymm(es: seq<Edge>, x: string, y: string)
    requires Connected(es, x, y)
    ensures Connected(es, y, x)
  {
    var p :| IsWalk(es, p) && p[0] == x && p[|p| - 1] == y;
    var r := seq(|p|, i requires 0 <= i < |p| => p[|p| - 1 - i]);
    forall i | 0 <= i < |r| - 1
      ensures Adjacent(es, r[i], r[i + 1])
    {
      var a := |p| - 2 - i;
      assert Adjacent(es, p[a], p[a + 1]);
      var k :| 0 <= k < |es| && Links(es[k], p[a], p[a + 1]);
      assert Links(es[k], r[i], r[i + 1]);
    }
    assert IsWalk(es, r);
  }

  /** Connectivity only grows when edges are added. */
  lemma ConnectedMono(es: seq<Edge>, fs: seq<Edge>, x: string, y: string)
    requires forall k :: 0 <= k < |es| ==> es[k] in fs
    requires Connected(es, x, y)
    ensures Connected(fs, x, y)
  {
    var p :| IsWalk(es, p) && p[0] == x && p[|p| - 1] == y;
    forall i | 0 <= i < |p| - 1
      ensures Adjacent(fs, p[i], p[i + 1])
    {
      var k :| 0 <= k < |es| && Links(es[k], p[i], p[i + 1]);
      var m := IndexOf(fs, es[k]);
      assert Links(fs[m], p[i], p[i + 1]);
    }
    assert IsWalk(fs, p);
  }

  /** If the ends of every edge of `es` are connected in `fs`, whatever
      `es` connects `fs` connects too. */
  lemma {:induction false} ConnectedByCover(es: seq<Edge>, fs: seq<Edge>, x: string, y: string)
    requires forall k :: 0 <= k < |es| ==> Connected(fs, es[k].from, es[k].to)
    requires Connected(es, x, y)
    ensures Connected(fs, x, y)
  {
    var p :| IsWalk(es, p) && p[0] == x && p[|p| - 1] == y;
    WalkCovered(es, fs, p);
  }

  lemma {:induction false} WalkCovered(es: seq<Edge>, fs: seq<Edge>, p: seq<string>)
    requires forall k :: 0 <= k < |es| ==> Connected(fs, es[k].from, es[k].to)
    requires IsWalk(es, p)
    ensures Connected(fs, p[0], p[|p| - 1])
  {
    if |p| == 1 {
      ConnectedRefl(fs, p[0]);
    } else {
      var q := p[..|p| - 1];
      assert forall i :: 0 <= i < |q| ==> q[i] == p[i];
      assert IsWalk(es, q);
      WalkCovered(es, fs, q);
      assert Adjacent(es, p[|p| - 2], p[|p| - 1]);
      var k :| 0 <= k < |es| && Links(es[k], p[|p| - 2], p[|p| - 1]);
      if es[k].from == p[|p| - 2] {
        ConnectedTrans(fs, p[0], p[|p| - 2], p[|p| - 1]);
      } else {
        ConnectedSymm(fs, es[k].from, es[k].to);
        ConnectedTrans(fs, p[0], p[|p| - 2], p[|p| - 1]);
      }
    }
  }

  /** A set that no edge leaves contains everything connected to its members. */
  lemma {:induction false} ClosedContainsConnected(es: seq<Edge>, s: set<string>, x: string, y: string)
    requires Closed(es, s) && x in s && Connected(es, x, y)
    ensures y in s
  {
    var p :| IsWalk(es, p) && p[0] == x && p[|p| - 1] == y;
    WalkStaysIn(es, s, p);
  }

  lemma {:induction false} WalkStaysIn(es: seq<Edge>, s: set<string>, p: seq<string>)
    requires Closed(es, s) && IsWalk(es, p) && p[0] in s
    ensures p[|p| - 1] in s
  {
    if |p| > 1 {
      var q := p[..|p| - 1];
      assert forall i :: 0 <= i < |q| ==> q[i] == p[i];
      assert IsWalk(es, q);
      WalkStaysIn(es, s, q);
      assert Adjacent(es, p[|p| - 2], p[|p| - 1]);
    }
  }

  /** Where every edge joins two keys with the same label, connected ids share a label. */
  lemma {:induction false} ConnectedSameLabel(es: seq<Edge>, m: map<string, string>, x: string, y: string)
    requires forall k :: 0 <= k < |es| ==> es[k].from in m && es[k].to in m && m[es[k].from] == m[es[k].to]
    requires x in m && Connected(es, x, y)
    ensures y in m && m[y] == m[x]
  {
    var p :| IsWalk(es, p) && p[0] == x && p[|p| - 1] == y;
    WalkSameLabel(es, m, p);
  }

  lemma {:induction false} WalkSameLabel(es: seq<Edge>, m: map<string, string>, p: seq<string>)
    requires forall k :: 0 <= k < |es| ==> es[k].from in m && es[k].to in m && m[es[k].from] == m[es[k].to]
    requires IsWalk(es, p) && p[0] in m
    ensures p[|p| - 1] in m && m[p[|p| - 1]] == m[p[0]]
  {
    if |p| > 1 {
      var q := p[..|p| - 1];
      assert forall i :: 0 <= i < |q| ==> q[i] == p[i];
      assert IsWalk(es, q);
      WalkSameLabel(es, m, q);
      assert Adjacent(es, p[|p| - 2], p[|p| - 1]);
    }
  }

  // ---------------------------------------------------------------------
  // Directed view: an edge is followed from `from` to `to` only
  // ---------------------------------------------------------------------

  ghost predicate Arc(es: seq<Edge>, u: string, v: string)
  {
    exists k :: 0 <= k < |es| && es[k].from == u && es[k].to == v
  }

  ghost predicate IsPath(es: seq<Edge>, p: seq<string>)
  {
    |p| >= 1 && forall i :: 0 <= i < |p| - 1 ==> Arc(es, p[i], p[i + 1])
  }

  /** The ids reachable from the start following edges as stored. */
  ghost predicate DirReachable(es: seq<Edge>, v: string)
  {
    exists p :: IsPath(es, p) && p[0] == Start && p[|p| - 1] == v
  }

  /** No edge leads out of `s` as stored. */
  ghost predicate OutClosed(es: seq<Edge>, s: set<string>)
  {
    forall k :: 0 <= k < |es| ==> es[k].from in s ==> es[k].to in s
  }

  lemma DirReachableStart(es: seq<Edge>)
    ensures DirReachable(es, Start)
  {
    assert IsPath(es, [Start]);
  }

  lemma DirReachableStep(es: seq<Edge>, k: nat)
    requires k < |es| && DirReachable(es, es[k].from)
    ensures DirReachable(es, es[k].to)
  {
    var p :| IsPath(es, p) && p[0] == Start && p[|p| - 1] == es[k].from;
    var q := p + [es[k].to];
    assert forall i :: 0 <= i < |p| ==> q[i] == p[i];
    assert Arc(es, q[|p| - 1], q[|p|]);
    assert IsPath(es, q);
  }

  lemma {:induction false} OutClosedContainsReachable(es: seq<Edge>, s: set<string>, v: string)
    requires OutClosed(es, s) && Start in s && DirReachable(es, v)
    ensures v in s
  {
    var p :| IsPath(es, p) && p[0] == Start && p[|p| - 1] == v;
    PathStaysIn(es, s, p);
  }

  lemma {:induction false} PathStaysIn(es: seq<Edge>, s: set<string>, p: seq<string>)
    requires OutClosed(es, s) && IsPath(es, p) && p[0] in s
    ensures p[|p| - 1] in s
  {
    if |p| > 1 {
      var q := p[..|p| - 1];
      assert forall i :: 0 <= i < |q| ==> q[i] == p[i];
      assert IsPath(es, q);
      PathStaysIn(es, s, q);
      assert Arc(es, p[|p| - 2], p[|p| - 1]);
    }
  }
  lemma DirReachableMono(es: seq<Edge>, fs: seq<Edge>, v: string)
    requires forall k :: 0 <= k < |es| ==> es[k] in fs
    requires DirReachable(es, v)
    ensures DirReachable(fs, v)
  {
    var p :| IsPath(es, p) && p[0] == Start && p[|p| - 1] == v;
    forall i | 0 <= i < |p| - 1
      ensures Arc(fs, p[i], p[i + 1])
    {
      var k :| 0 <= k < |es| && es[k].from == p[i] && es[k].to == p[i + 1];
      var j :| 0 <= j < |fs| && fs[j] == es[k];
    }
    assert IsPath(fs, p);
  }

  /** Node lists whose ids are pairwise different. */
  predicate DistinctIds(nodes: seq<Node>)
  {
    forall i, j :: 0 <= i < j < |nodes| ==> nodes[i].id != nodes[j].id
  }

  lemma NodeIdsSnoc(nodes: seq<Node>)
    requires nodes != []
    ensures NodeIds(nodes) == NodeIds(nodes[..|nodes| - 1]) + {nodes[|nodes| - 1].id}
  {
    var init := nodes[..|nodes| - 1];
    forall x | x in NodeIds(nodes)
      ensures x in NodeIds(init) + {nodes[|nodes| - 1].id}
    {
      var i :| 0 <= i < |nodes| && nodes[i].id == x;
      if i < |nodes| - 1 {
        assert init[i] == nodes[i];
      }
    }
    forall x | x in NodeIds(init)
      ensures x in NodeIds(nodes)
    {
      var i :| 0 <= i < |init| && init[i].id == x;
      assert nodes[i] == init[i];
    }
  }

  /** With pairwise different ids there are as many ids as nodes. */
  lemma {:induction false} DistinctIdsCount(nodes: seq<Node>)
    requires DistinctIds(nodes)
    ensures |NodeIds(nodes)| == |nodes|
  {
    if nodes != [] {
      var init := nodes[..|nodes| - 1];
      var last := nodes[|nodes| - 1];
      assert DistinctIds(init) by {
        forall i, j | 0 <= i < j < |init|
          ensures init[i].id != init[j].id
        {
          assert init[i] == nodes[i] && init[j] == nodes[j];
        }
      }
      DistinctIdsCount(init);
      NodeIdsSnoc(nodes);
    }
  }
}
