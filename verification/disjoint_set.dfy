/** The union-find of backend/utils/disjointSet.js: parent and size arrays over the dense
    indices 0..n, path compression in FindUpar and union by size in UnionBySize. */
module DisjointSet {
  import opened Connectivity

  datatype DSU = DSU(parent: seq<nat>, size: seq<nat>)

  /** Structural well-formedness: parent links stay in range, sizes are positive, and a
      parent link always leads to a strictly larger recorded size, so every chain ends. */
  ghost predicate Shape(d: DSU) {
    && |d.parent| == |d.size|
    && (forall i :: 0 <= i < |d.parent| ==> d.parent[i] < |d.parent|)
    && (forall i :: 0 <= i < |d.size| ==> d.size[i] >= 1)
    && (forall i :: 0 <= i < |d.parent| && d.parent[i] != i ==> d.size[i] < d.size[d.parent[i]])
  }

  /** The largest recorded size; bounds the walk up a parent chain. */
  function MaxOf(s: seq<nat>): (m: nat)
    ensures forall i :: 0 <= i < |s| ==> s[i] <= m
  {
    if |s| == 0 then 0
    else
      var t := MaxOf(s[1..]);
      if s[0] > t then s[0] else t
  }

  function Sum(s: seq<int>): int {
    if |s| == 0 then 0 else Sum(s[..|s| - 1]) + s[|s| - 1]
  }

  lemma {:induction false} SumUpdate(s: seq<int>, i: nat, v: int)
    requires i < |s|
    ensures Sum(s[i := v]) == Sum(s) - s[i] + v
  {
    if i < |s| - 1 {
      SumUpdate(s[..|s| - 1], i, v);
      assert s[i := v][..|s| - 1] == s[..|s| - 1][i := v];
    } else {
      assert s[i := v][..|s| - 1] == s[..|s| - 1];
    }
  }

  lemma {:induction false} SumOnes(n: nat)
    ensures Sum(seq(n, _ => 1)) == n
  {
    if n > 0 {
      SumOnes(n - 1);
      assert seq(n, _ => 1)[..n - 1] == seq(n - 1, _ => 1);
    }
  }

  /** The size of each root, and 0 for every node that is not a root. */
  function RootSizes(d: DSU): seq<int>
    requires |d.parent| == |d.size|
  {
    seq(|d.parent|, i requires 0 <= i < |d.parent| && |d.parent| == |d.size| =>
      if d.parent[i] == i then d.size[i] else 0)
  }

  /** Shape, plus: the sizes of the roots add up to the number of nodes. */
  ghost predicate Valid(d: DSU) {
    Shape(d) && Sum(RootSizes(d)) == |d.parent|
  }

  /** The representative of x, found by following parent links (no side effect). */
  function Root(d: DSU, x: nat): (r: nat)
    requires Shape(d) && x < |d.parent|
    ensures r < |d.parent| && d.parent[r] == r
    ensures d.size[x] <= d.size[r]
    ensures d.parent[x] != x ==> d.size[x] < d.size[r]
    decreases MaxOf(d.size) - d.size[x]
  {
    if d.parent[x] == x then x else Root(d, d.parent[x])
  }

  /** The constructor: n + 1 slots, each its own parent with size 1. */
  function Make(n: nat): (d: DSU)
    ensures |d.parent| == n + 1 && |d.size| == n + 1
    ensures Valid(d)
    ensures forall x :: 0 <= x <= n ==> d.parent[x] == x && d.size[x] == 1
    ensures forall x :: 0 <= x <= n ==> Root(d, x) == x
  {
    var d := DSU(seq(n + 1, i => i), seq(n + 1, _ => 1));
    assert RootSizes(d) == seq(n + 1, _ => 1);
    SumOnes(n + 1);
    d
  }

  /** Points x straight at its representative. */
  function Redirect(d: DSU, x: nat): DSU
    requires Shape(d) && x < |d.parent|
  {
    d.(parent := d.parent[x := Root(d, x)])
  }

  lemma {:induction false} RedirectRoot(d: DSU, x: nat, y: nat)
    requires Shape(d) && x < |d.parent| && y < |d.parent|
    requires Shape(Redirect(d, x))
    ensures Root(Redirect(d, x), y) == Root(d, y)
    decreases MaxOf(d.size) - d.size[y]
  {
    var d2 := Redirect(d, x);
    var r := Root(d, x);
    if y == x {
      if r != x {
        assert d2.parent[r] == r;
      }
    } else if d.parent[y] != y {
      RedirectRoot(d, x, d.parent[y]);
    }
  }

  /** e has the nodes, sizes, roots and representatives of d; only the links of non-roots
      may differ. */
  ghost predicate SameForest(d: DSU, e: DSU)
    requires Shape(d) && Shape(e)
  {
    && |e.parent| == |d.parent| && e.size == d.size
    && (forall y :: 0 <= y < |d.parent| ==> (e.parent[y] == y <==> d.parent[y] == y))
    && (forall y :: 0 <= y < |d.parent| ==> Root(e, y) == Root(d, y))
    && RootSizes(e) == RootSizes(d)
  }

  /** Redirecting one node keeps the shape, the set of roots and every representative. */
  lemma RedirectKeepsRoots(d: DSU, x: nat)
    requires Shape(d) && x < |d.parent|
    ensures Shape(Redirect(d, x)) && SameForest(d, Redirect(d, x))
  {
    var e := Redirect(d, x);
    forall y | 0 <= y < |d.parent|
      ensures Root(e, y) == Root(d, y)
    {
      RedirectRoot(d, x, y);
    }
    assert Root(d, x) == x <==> d.parent[x] == x;
    assert RootSizes(e) == RootSizes(d);
  }

  /** findUpar: returns the representative of x and the arrays after path compression, which
      points every node on the walk from x at the representative. */
  function FindUpar(d: DSU, x: nat): (res: (nat, DSU))
    requires Shape(d) && x < |d.parent|
    ensures res.0 == Root(d, x)
    ensures Shape(res.1) && SameForest(d, res.1)
    ensures res.1.parent[x] == res.0
    decreases MaxOf(d.size) - d.size[x]
  {
    if d.parent[x] == x then (x, d)
    else
      var (r, d1) := FindUpar(d, d.parent[x]);
      RedirectKeepsRoots(d1, x);
      SameForestTrans(d, d1, Redirect(d1, x));
      (r, Redirect(d1, x))
  }

  lemma SameForestTrans(d: DSU, e: DSU, f: DSU)
    requires Shape(d) && Shape(e) && Shape(f)
    requires SameForest(d, e) && SameForest(e, f)
    ensures SameForest(d, f)
  {
  }

  /** Hangs root `child` under root `root`; the surviving root absorbs child's size. */
  function Link(d: DSU, child: nat, root: nat): DSU
    requires |d.parent| == |d.size| && child < |d.parent| && root < |d.parent|
  {
    DSU(d.parent[child := root], d.size[root := d.size[root] + d.size[child]])
  }

  lemma {:induction false} LinkRoot(d: DSU, child: nat, root: nat, y: nat)
    requires Shape(d) && child < |d.parent| && root < |d.parent| && y < |d.parent|
    requires d.parent[child] == child && d.parent[root] == root && child != root
    requires Shape(Link(d, child, root))
    ensures Root(Link(d, child, root), y) == if Root(d, y) == child then root else Root(d, y)
    decreases MaxOf(d.size) - d.size[y]
  {
    var d2 := Link(d, child, root);
    if y == child {
      assert d2.parent[root] == root;
    } else if d.parent[y] != y {
      LinkRoot(d, child, root, d.parent[y]);
    }
  }

  /** Linking two distinct roots keeps sizes growing along every parent link. */
  lemma LinkShape(d: DSU, child: nat, root: nat)
    requires Shape(d) && child < |d.parent| && root < |d.parent|
    requires d.parent[child] == child && d.parent[root] == root && child != root
    ensures Shape(Link(d, child, root))
  {
    var d2 := Link(d, child, root);
    forall i | 0 <= i < |d2.parent| && d2.parent[i] != i
      ensures d2.size[i] < d2.size[d2.parent[i]]
    {
      if i != child {
        assert d.parent[i] == d2.parent[i];
      }
    }
  }

  /** Linking moves child's size onto root and clears child's entry. */
  lemma LinkRootSizes(d: DSU, child: nat, root: nat)
    requires Shape(d) && child < |d.parent| && root < |d.parent|
    requires d.parent[child] == child && d.parent[root] == root && child != root
    ensures Sum(RootSizes(Link(d, child, root))) == Sum(RootSizes(d))
  {
    var rs := RootSizes(d);
    var rs2 := RootSizes(Link(d, child, root));
    forall i | 0 <= i < |rs|
      ensures rs2[i] == rs[child := 0][root := d.size[root] + d.size[child]][i]
    {
    }
    assert rs2 == rs[child := 0][root := d.size[root] + d.size[child]];
    SumUpdate(rs, child, 0);
    SumUpdate(rs[child := 0], root, d.size[root] + d.size[child]);
  }

  /** Linking two distinct roots keeps the structure valid; the nodes under `child` now have
      `root` as representative and nobody else changes representative. */
  lemma LinkKeepsValid(d: DSU, child: nat, root: nat)
    requires Valid(d) && child < |d.parent| && root < |d.parent|
    requires d.parent[child] == child && d.parent[root] == root && child != root
    ensures Valid(Link(d, child, root))
    ensures forall y :: 0 <= y < |d.parent| ==>
      Root(Link(d, child, root), y) == if Root(d, y) == child then root else Root(d, y)
  {
    LinkShape(d, child, root);
    LinkRootSizes(d, child, root);
    forall y | 0 <= y < |d.parent|
      ensures Root(Link(d, child, root), y) == if Root(d, y) == child then root else Root(d, y)
    {
      LinkRoot(d, child, root, y);
    }
  }

  /** y's representative is the representative of u or of v. */
  ghost predicate Touches(d: DSU, u: nat, v: nat, y: nat)
    requires Shape(d) && u < |d.parent| && v < |d.parent| && y < |d.parent|
  {
    Root(d, y) == Root(d, u) || Root(d, y) == Root(d, v)
  }

  /** unionBySize: compress from u, compress from v, then join the two representatives.
      The classes of u and v merge and no other class changes. When they were already one
      class only paths are compressed (UnionBySizeLinks states how the roots are joined). The
      root sizes keep adding up to the number of nodes (Valid). */
  function UnionBySize(d: DSU, u: nat, v: nat): (r: DSU)
    requires Valid(d) && u < |d.parent| && v < |d.parent|
    ensures Valid(r) && |r.parent| == |d.parent|
    ensures MergedBy(d, r, u, v)
  {
    var fu := FindUpar(d, u);
    var fv := FindUpar(fu.1, v);
    JoinMergesClasses(d, fv.1, u, v);
    JoinRoots(fv.1, fu.0, fv.0)
  }

  /** Joins two roots: nothing to do when they are equal, otherwise the root with the
      strictly smaller size goes under the other one; on a tie rv goes under ru. */
  function JoinRoots(d: DSU, ru: nat, rv: nat): (r: DSU)
    requires Valid(d) && ru < |d.parent| && rv < |d.parent|
    requires d.parent[ru] == ru && d.parent[rv] == rv
    ensures Valid(r) && |r.parent| == |d.parent|
  {
    if ru == rv then d
    else if d.size[ru] < d.size[rv] then
      LinkKeepsValid(d, ru, rv);
      Link(d, ru, rv)
    else
      LinkKeepsValid(d, rv, ru);
      Link(d, rv, ru)
  }

  /** Joining two roots merges exactly their two classes into one of the two. */
  lemma JoinRootsMerges(d: DSU, ru: nat, rv: nat)
    requires Valid(d) && ru < |d.parent| && rv < |d.parent|
    requires d.parent[ru] == ru && d.parent[rv] == rv
    ensures var w := Root(JoinRoots(d, ru, rv), ru);
      && (w == ru || w == rv)
      && forall x :: 0 <= x < |d.parent| ==>
           Root(JoinRoots(d, ru, rv), x) == if Root(d, x) == ru || Root(d, x) == rv then w else Root(d, x)
  {
    if ru != rv {
      if d.size[ru] < d.size[rv] {
        LinkKeepsValid(d, ru, rv);
      } else {
        LinkKeepsValid(d, rv, ru);
      }
    }
  }

  /** r arises from d by merging the classes of u and v: the nodes with u or with v now share
      one representative (one of their two old ones) and everybody else keeps theirs. */
  ghost predicate MergedBy(d: DSU, r: DSU, u: nat, v: nat)
    requires Shape(d) && Shape(r) && |r.parent| == |d.parent| && u < |d.parent| && v < |d.parent|
  {
    && Root(r, u) == Root(r, v)
    && (Root(r, u) == Root(d, u) || Root(r, u) == Root(d, v))
    && forall x :: 0 <= x < |d.parent| ==>
         Root(r, x) == if Touches(d, u, v, x) then Root(r, u) else Root(d, x)
  }

  /** Merging the classes of u and v, read pairwise: two nodes share a representative exactly
      when they did before or each of them was with u or with v. */
  lemma MergedByPairs(d: DSU, r: DSU, u: nat, v: nat, x: nat, y: nat)
    requires Shape(d) && Shape(r) && |r.parent| == |d.parent| && u < |d.parent| && v < |d.parent|
    requires x < |d.parent| && y < |d.parent|
    requires MergedBy(d, r, u, v)
    ensures Root(r, x) == Root(r, y) <==>
      (Root(d, x) == Root(d, y) || (Touches(d, u, v, x) && Touches(d, u, v, y)))
  {
  }

  /** Joining the representatives of u and v in a compressed copy d2 of d (same classes)
      merges exactly the classes of u and v of d. */
  lemma JoinMergesClasses(d: DSU, d2: DSU, u: nat, v: nat)
    requires Valid(d) && Valid(d2) && |d2.parent| == |d.parent| && u < |d.parent| && v < |d.parent|
    requires forall y :: 0 <= y < |d.parent| ==> Root(d2, y) == Root(d, y)
    requires forall y :: 0 <= y < |d.parent| ==> (d2.parent[y] == y <==> d.parent[y] == y)
    ensures MergedBy(d, JoinRoots(d2, Root(d, u), Root(d, v)), u, v)
  {
    var ru, rv := Root(d, u), Root(d, v);
    assert Root(d2, u) == ru && Root(d2, v) == rv;
    var r := JoinRoots(d2, ru, rv);
    JoinRootsMerges(d2, ru, rv);
    assert Root(r, u) == ru || Root(r, u) == rv;
    forall x | 0 <= x < |d.parent|
      ensures Root(r, x) == if Touches(d, u, v, x) then Root(r, u) else Root(d, x)
    {
      assert Root(d2, x) == Root(d, x);
    }
  }

  /** How unionBySize joins the roots: when u and v already share a representative, sizes and
      representatives stay as they were; otherwise the root with the strictly smaller size is
      hung under the other (v's root under u's root on a tie) and the survivor's size becomes
      the sum of the two. */
  lemma UnionBySizeLinks(d: DSU, u: nat, v: nat)
    requires Valid(d) && u < |d.parent| && v < |d.parent|
    ensures var r, ru, rv := UnionBySize(d, u, v), Root(d, u), Root(d, v);
      if ru == rv then
        r.size == d.size && forall y :: 0 <= y < |d.parent| ==> Root(r, y) == Root(d, y)
      else if d.size[ru] < d.size[rv] then
        r.parent[ru] == rv && r.parent[rv] == rv && r.size[rv] == d.size[ru] + d.size[rv]
      else
        r.parent[rv] == ru && r.parent[ru] == ru && r.size[ru] == d.size[ru] + d.size[rv]
  {
    var fu := FindUpar(d, u);
    var fv := FindUpar(fu.1, v);
    assert fu.0 == Root(d, u) && fv.0 == Root(d, v);
    assert fv.1.size == d.size;
  }

  /** Every pair is a pair of valid indices. */
  ghost predicate InRange(pairs: seq<(nat, nat)>, n: nat) {
    forall i :: 0 <= i < |pairs| ==> pairs[i].0 < n && pairs[i].1 < n
  }

  /** unionBySize applied to each pair in order. */
  function UnionAll(d: DSU, pairs: seq<(nat, nat)>): (r: DSU)
    requires Valid(d) && InRange(pairs, |d.parent|)
    ensures Valid(r) && |r.parent| == |d.parent|
  {
    if |pairs| == 0 then d
    else
      var last := pairs[|pairs| - 1];
      UnionBySize(UnionAll(d, pairs[..|pairs| - 1]), last.0, last.1)
  }

  /** In d two nodes share a representative exactly when a chain of pairs connects them. */
  ghost predicate ClassesAreComponents(d: DSU, pairs: seq<(nat, nat)>)
    requires Shape(d)
  {
    forall x: nat, y: nat :: x < |d.parent| && y < |d.parent| ==>
      (Root(d, x) == Root(d, y) <==> Connected(pairs, x, y))
  }

  /** Union-find correctness: starting from the constructor, after the unions of all pairs two
      nodes share a representative exactly when a chain of pairs connects them. */
  lemma {:induction false} UnionAllConnects(n: nat, pairs: seq<(nat, nat)>)
    requires InRange(pairs, n + 1)
    ensures ClassesAreComponents(UnionAll(Make(n), pairs), pairs)
  {
    var d0 := Make(n);
    if |pairs| == 0 {
      forall x: nat, y: nat | x <= n && y <= n
        ensures Root(d0, x) == Root(d0, y) <==> Connected(pairs, x, y)
      {
        if x == y {
          ConnectedRefl(pairs, x);
        }
        if Connected(pairs, x, y) {
          ConnectedNoEdges(x, y);
        }
      }
    } else {
      var pre := pairs[..|pairs| - 1];
      var (u, v) := pairs[|pairs| - 1];
      assert pairs == pre + [(u, v)];
      UnionAllConnects(n, pre);
      UnionStepConnects(UnionAll(d0, pre), pre, u, v);
    }
  }

  /** One more union keeps the classes equal to the components, with one more edge. */
  lemma UnionStepConnects(d: DSU, pre: seq<(nat, nat)>, u: nat, v: nat)
    requires Valid(d) && u < |d.parent| && v < |d.parent|
    requires ClassesAreComponents(d, pre)
    ensures ClassesAreComponents(UnionBySize(d, u, v), pre + [(u, v)])
  {
    var r := UnionBySize(d, u, v);
    forall x: nat, y: nat | x < |d.parent| && y < |d.parent|
      ensures Root(r, x) == Root(r, y) <==> Connected(pre + [(u, v)], x, y)
    {
      MergedByPairs(d, r, u, v, x, y);
      ConnectedAddEdge(pre, u, v, x, y);
      TouchesIsNear(d, pre, u, v, x);
      TouchesIsNear(d, pre, u, v, y);
    }
  }

  lemma TouchesIsNear(d: DSU, pre: seq<(nat, nat)>, u: nat, v: nat, x: nat)
    requires Shape(d) && u < |d.parent| && v < |d.parent| && x < |d.parent|
    requires ClassesAreComponents(d, pre)
    ensures Touches(d, u, v, x) <==> Near(pre, u, v, x)
  {
    assert Root(d, x) == Root(d, u) <==> Connected(pre, x, u);
    assert Root(d, x) == Root(d, v) <==> Connected(pre, x, v);
  }

  lemma ConnectedSymmetric(edges: seq<(nat, nat)>, a: nat, b: nat)
    ensures Connected(edges, a, b) <==> Connected(edges, b, a)
  {
    if Connected(edges, a, b) {
      ConnectedSym(edges, a, b);
    }
    if Connected(edges, b, a) {
      ConnectedSym(edges, b, a);
    }
  }
}
