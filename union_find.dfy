/** The union-find inside the visualizer's Kruskal: a `parent` dictionary
    with path compression in `find` and a `rank` dictionary for union by
    rank. The pure part states what a well-formed forest is and how one
    linking or compressing step keeps it well formed; the class is the pair
    of dictionaries that `find` and `union` rewrite in place. The keys are
    node ids; the module is written for any key type with equality. */
module UnionFind {

  /** Every id has a parent and a rank, parents are ids, ranks are at most
      `bound`, and a parent outranks its child. The last condition makes the
      parent links acyclic. */
  ghost predicate Forest<T>(parent: map<T, T>, rank: map<T, nat>, bound: nat)
  {
    && parent.Keys == rank.Keys && parent.Values <= parent.Keys
    && (forall x {:trigger rank[x]} :: x in rank ==> rank[x] <= bound)
    && forall x {:trigger parent[x]} :: x in parent && parent[x] != x ==> rank[x] < rank[parent[x]]
  }

  /** The ids that are their own parent. */
  function Roots<T>(parent: map<T, T>): set<T>
  {
    set x | x in parent && parent[x] == x
  }

  /** `root` sends every id to the root at the end of its parent links: a
      root to itself, any other id to the root of its parent. */
  ghost predicate RootsOf<T>(parent: map<T, T>, root: map<T, T>)
  {
    && root.Keys == parent.Keys
    && (forall x {:trigger root[x]} :: x in parent ==> root[x] in Roots(parent))
    && forall x {:trigger parent[x]} :: x in parent ==>
         if parent[x] == x then root[x] == x else parent[x] in root && root[x] == root[parent[x]]
  }

  /** A root outranks everything beneath it. */
  lemma {:induction false} RankBelowRoot<T>(parent: map<T, T>, rank: map<T, nat>, bound: nat,
                                            root: map<T, T>, x: T)
    requires Forest(parent, rank, bound) && RootsOf(parent, root) && x in parent
    ensures parent[x] != x ==> rank[x] < rank[root[x]]
    decreases bound - rank[x]
  {
    if parent[x] != x {
      var p := parent[x];
      assert root[x] == root[p];
      if parent[p] != p {
        RankBelowRoot(parent, rank, bound, root, p);
      } else {
        assert root[p] == p;
      }
    }
  }

  /** Pointing a non-root `x` straight at its root keeps the forest, the
      roots of all ids and the set of roots. */
  lemma Compress<T>(parent: map<T, T>, rank: map<T, nat>, bound: nat, root: map<T, T>, x: T)
    requires Forest(parent, rank, bound) && RootsOf(parent, root) && x in parent && parent[x] != x
    ensures Forest(parent[x := root[x]], rank, bound)
    ensures RootsOf(parent[x := root[x]], root)
    ensures Roots(parent[x := root[x]]) == Roots(parent)
  {
    var p := parent[x := root[x]];
    RankBelowRoot(parent, rank, bound, root, x);
    assert root[x] in Roots(parent);
    assert Forest(p, rank, bound);
    assert Roots(p) == Roots(parent) by {
      forall y | y in Roots(p)
        ensures y in Roots(parent)
      {
        assert y != x && p[y] == parent[y];
      }
      forall y | y in Roots(parent)
        ensures y in Roots(p)
      {
        assert y != x && p[y] == parent[y];
      }
    }
    forall y | y in p
      ensures if p[y] == y then root[y] == y else p[y] in root && root[y] == root[p[y]]
    {
      if y == x {
        assert root[root[x]] == root[x];
      } else {
        assert p[y] == parent[y];
      }
    }
  }

  /** The ranks after `w` takes in a tree of its own rank: one more at `w`. */
  function Promote<T>(rank: map<T, nat>, w: T): (r: map<T, nat>)
    requires w in rank
    ensures r.Keys == rank.Keys && r[w] == rank[w] + 1
    ensures forall y :: y in rank && y != w ==> r[y] == rank[y]
  {
    rank[w := rank[w] + 1]
  }

  /** A rank ceiling that still covers `Promote(rank, w)`. */
  function PromoteBound<T>(rank: map<T, nat>, bound: nat, w: T): (b: nat)
    requires w in rank
    ensures bound <= b && rank[w] + 1 <= b
  {
    if bound < rank[w] + 1 then rank[w] + 1 else bound
  }

  /** The roots after root `l` is hung under `w`: whatever had root `l` now
      has root `w`, everything else keeps its root. */
  function Relabel<T>(root: map<T, T>, l: T, w: T): (r: map<T, T>)
    ensures r.Keys == root.Keys
    ensures forall y {:trigger r[y]} :: y in root ==> r[y] == if root[y] == l then w else root[y]
  {
    map y | y in root :: if root[y] == l then w else root[y]
  }

  /** `parent'` is `parent` with root `l` hung under the root `w`, and
      `root'` relabels `l`'s ids to `w`: the roots stay consistent and `l`
      stops being a root. */
  lemma AttachRoots<T>(parent: map<T, T>, root: map<T, T>, l: T, w: T, parent': map<T, T>, root': map<T, T>)
    requires RootsOf(parent, root) && l in Roots(parent) && w in Roots(parent) && l != w
    requires parent' == parent[l := w] && root' == Relabel(root, l, w)
    ensures RootsOf(parent', root')
    ensures Roots(parent') == Roots(parent) - {l}
  {
    var p, r := parent', root';
    assert Roots(p) == Roots(parent) - {l} by {
      forall y | y in Roots(p)
        ensures y in Roots(parent) - {l}
      {
        assert y != l && p[y] == parent[y];
      }
      forall y | y in Roots(parent) - {l}
        ensures y in Roots(p)
      {
        assert p[y] == parent[y];
      }
    }
    forall y | y in p
      ensures r[y] in Roots(p)
    {
      assert root[y] in Roots(parent);
    }
    forall y | y in p
      ensures if p[y] == y then r[y] == y else p[y] in r && r[y] == r[p[y]]
    {
      if y == l {
        assert root[l] == l && root[w] == w;
      } else {
        assert p[y] == parent[y];
      }
    }
  }

  /** Hanging root `l` under a root `w` of higher rank keeps a forest with
      the same ranks. */
  lemma AttachBelow<T>(parent: map<T, T>, rank: map<T, nat>, bound: nat, root: map<T, T>, l: T, w: T,
                       parent': map<T, T>, root': map<T, T>)
    requires Forest(parent, rank, bound) && RootsOf(parent, root)
    requires l in Roots(parent) && w in Roots(parent) && rank[l] < rank[w]
    requires parent' == parent[l := w] && root' == Relabel(root, l, w)
    ensures Forest(parent', rank, bound) && RootsOf(parent', root')
    ensures Roots(parent') == Roots(parent) - {l}
  {
    AttachRoots(parent, root, l, w, parent', root');
  }

  /** Hanging root `l` under a different root `w` of the same rank keeps a
      forest once `w`'s rank goes up by one. */
  lemma AttachEqual<T>(parent: map<T, T>, rank: map<T, nat>, bound: nat, root: map<T, T>, l: T, w: T,
                       parent': map<T, T>, rank': map<T, nat>, bound': nat, root': map<T, T>)
    requires Forest(parent, rank, bound) && RootsOf(parent, root)
    requires l in Roots(parent) && w in Roots(parent) && l != w && rank[l] == rank[w]
    requires parent' == parent[l := w] && rank' == Promote(rank, w) && bound' == PromoteBound(rank, bound, w)
    requires root' == Relabel(root, l, w)
    ensures Forest(parent', rank', bound') && RootsOf(parent', root')
    ensures Roots(parent') == Roots(parent) - {l}
  {
    AttachRoots(parent, root, l, w, parent', root');
  }

  /** Of two different roots, the one `union` hangs under the other: the
      one of lower rank, or the second on equal ranks. */
  function Loser<T>(rank: map<T, nat>, r1: T, r2: T): T
    requires r1 in rank && r2 in rank
  {
    if rank[r1] >= rank[r2] then r2 else r1
  }

  /** The root that stays a root when `Loser(rank, r1, r2)` is hung. */
  function Winner<T>(rank: map<T, nat>, r1: T, r2: T): T
    requires r1 in rank && r2 in rank
  {
    if rank[r1] >= rank[r2] then r1 else r2
  }

  /** The `parent` and `rank` dictionaries of one Kruskal run. `root` and
      `bound` are ghost: the root each id's parent links end at, and a
      ceiling on the ranks that makes `find` terminate. */
  class DisjointSets<T(==)> {
    var parent: map<T, T>
    var rank: map<T, nat>
    ghost var root: map<T, T>
    ghost var bound: nat

    ghost predicate Valid()
      reads this
    {
      Forest(parent, rank, bound) && RootsOf(parent, root)
    }

    /** The `forEach` over the nodes: every id is its own parent with rank 0. */
    constructor (ids: seq<T>)
      ensures Valid() && parent.Keys == set i | 0 <= i < |ids| :: ids[i]
      ensures forall x :: x in parent ==> parent[x] == x && rank[x] == 0 && root[x] == x
      ensures Roots(parent) == parent.Keys
    {
      var p: map<T, T> := map[];
      var r: map<T, nat> := map[];
      for i := 0 to |ids|
        invariant p.Keys == r.Keys == set j | 0 <= j < i :: ids[j]
        invariant forall x :: x in p ==> p[x] == x && r[x] == 0
      {
        p := p[ids[i] := ids[i]];
        r := r[ids[i] := 0];
      }
      parent, rank, root, bound := p, r, p, 0;
    }

    /** `find`: returns the root of `x` and, on the way back, points every id
        on the path straight at it. No root changes, no rank changes, and
        the ids outranked by `x` keep their parents. */
    method Find(x: T) returns (r: T)
      requires Valid() && x in parent
      modifies this
      ensures Valid() && parent.Keys == old(parent.Keys)
      ensures rank == old(rank) && root == old(root) && bound == old(bound)
      ensures r == root[x] && parent[x] == r && r in Roots(parent)
      ensures Roots(parent) == old(Roots(parent))
      ensures forall y :: y in parent && rank[y] < rank[x] ==> parent[y] == old(parent[y])
      decreases bound - rank[x]
    {
      if parent[x] != x {
        var up := Find(parent[x]);
        Compress(parent, rank, bound, root, x);
        parent := parent[x := up];
      }
      r := parent[x];
    }

    /** `parent[l] = w` for a root `l` of lower rank than the root `w`. */
    method Hang(l: T, w: T)
      requires Valid() && l in Roots(parent) && w in Roots(parent) && rank[l] < rank[w]
      modifies this
      ensures Valid() && parent == old(parent)[l := w] && rank == old(rank) && bound == old(bound)
      ensures root == Relabel(old(root), l, w) && Roots(parent) == old(Roots(parent)) - {l}
    {
      parent, root := parent[l := w], Relabel(root, l, w);
      AttachBelow(old(parent), rank, bound, old(root), l, w, parent, root);
    }

    /** `parent[l] = w` and `rank[w]++` for two different roots of equal rank. */
    method HangEqual(l: T, w: T)
      requires Valid() && l in Roots(parent) && w in Roots(parent) && l != w && rank[l] == rank[w]
      modifies this
      ensures Valid() && parent == old(parent)[l := w] && rank == Promote(old(rank), w)
      ensures root == Relabel(old(root), l, w) && Roots(parent) == old(Roots(parent)) - {l}
    {
      parent, rank, root, bound := parent[l := w], Promote(rank, w), Relabel(root, l, w), PromoteBound(rank, bound, w);
      AttachEqual(old(parent), old(rank), old(bound), old(root), l, w, parent, rank, bound, root);
    }

    /** `union`: finds both roots; if they differ, the root of lower rank is
        hung under the other, and on equal ranks `root2` goes under `root1`
        and `root1`'s rank goes up by one. If they are the same, only the
        path compression of the two finds happens. */
    method Union(a: T, b: T)
      requires Valid() && a in parent && b in parent
      modifies this
      ensures Valid() && parent.Keys == old(parent.Keys)
      ensures old(root[a]) == old(root[b]) ==>
        rank == old(rank) && root == old(root) && Roots(parent) == old(Roots(parent))
      ensures var ra, rb := old(root[a]), old(root[b]);
        ra != rb && old(rank[ra]) > old(rank[rb]) ==>
          parent[rb] == ra && rank == old(rank) && root == Relabel(old(root), rb, ra) && Roots(parent) == old(Roots(parent)) - {rb}
      ensures var ra, rb := old(root[a]), old(root[b]);
        ra != rb && old(rank[ra]) < old(rank[rb]) ==>
          parent[ra] == rb && rank == old(rank) && root == Relabel(old(root), ra, rb) && Roots(parent) == old(Roots(parent)) - {ra}
      ensures var ra, rb := old(root[a]), old(root[b]);
        ra != rb && old(rank[ra]) == old(rank[rb]) ==>
          parent[rb] == ra && rank == Promote(old(rank), ra) && root == Relabel(old(root), rb, ra) && Roots(parent) == old(Roots(parent)) - {rb}
      ensures var ra, rb := old(root[a]), old(root[b]);
        ra != rb ==>
          && root == Relabel(old(root), Loser(old(rank), ra, rb), Winner(old(rank), ra, rb))
          && Roots(parent) == old(Roots(parent)) - {Loser(old(rank), ra, rb)}
    {
      var root1 := Find(a);
      var root2 := Find(b);
      if root1 != root2 {
        if rank[root1] > rank[root2] {
          Hang(root2, root1);
        } else if rank[root1] < rank[root2] {
          Hang(root1, root2);
        } else {
          HangEqual(root2, root1);
        }
      }
    }
  }
}
