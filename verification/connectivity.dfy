/** Reachability over an undirected edge list: the reference definition that the union-find
    and the roommate-group discovery are proved against. */
module Connectivity {

  /** a and b are the two ends of some edge, in either direction. */
  ghost predicate Adjacent<T>(edges: seq<(T, T)>, a: T, b: T) {
    (a, b) in edges || (b, a) in edges
  }

  /** p is a non-empty walk whose consecutive nodes are adjacent. */
  ghost predicate IsPath<T>(edges: seq<(T, T)>, p: seq<T>) {
    |p| >= 1 && forall i :: 0 <= i < |p| - 1 ==> Adjacent(edges, p[i], p[i + 1])
  }

  /** A chain of edges leads from a to b. */
  ghost predicate Connected<T(!new)>(edges: seq<(T, T)>, a: T, b: T) {
    exists p :: IsPath(edges, p) && p[0] == a && p[|p| - 1] == b
  }

  /** z is connected to one of the ends of the edge (u, v). */
  ghost predicate Near<T(!new)>(edges: seq<(T, T)>, u: T, v: T, z: T) {
    Connected(edges, z, u) || Connected(edges, z, v)
  }

  lemma ConnectedRefl<T(!new)>(edges: seq<(T, T)>, a: T)
    ensures Connected(edges, a, a)
  {
    assert IsPath(edges, [a]);
  }

  lemma ConnectedEdge<T(!new)>(edges: seq<(T, T)>, a: T, b: T)
    requires Adjacent(edges, a, b)
    ensures Connected(edges, a, b)
  {
    assert IsPath(edges, [a, b]);
  }

  lemma ConnectedSym<T(!new)>(edges: seq<(T, T)>, a: T, b: T)
    requires Connected(edges, a, b)
    ensures Connected(edges, b, a)
  {
    var p :| IsPath(edges, p) && p[0] == a && p[|p| - 1] == b;
    var q := seq(|p|, i requires 0 <= i < |p| => p[|p| - 1 - i]);
    forall i | 0 <= i < |q| - 1
      ensures Adjacent(edges, q[i], q[i + 1])
    {
      var j := |p| - 2 - i;
      assert Adjacent(edges, p[j], p[j + 1]);
    }
    assert IsPath(edges, q);
  }

  lemma ConnectedTrans<T(!new)>(edges: seq<(T, T)>, a: T, b: T, c: T)
    requires Connected(edges, a, b) && Connected(edges, b, c)
    ensures Connected(edges, a, c)
  {
    var p :| IsPath(edges, p) && p[0] == a && p[|p| - 1] == b;
    var q :| IsPath(edges, q) && q[0] == b && q[|q| - 1] == c;
    var r := p + q[1..];
    forall i | 0 <= i < |r| - 1
      ensures Adjacent(edges, r[i], r[i + 1])
    {
      if i < |p| - 1 {
        assert r[i] == p[i] && r[i + 1] == p[i + 1];
      } else {
        var j := i - (|p| - 1);
        assert r[i] == q[j] && r[i + 1] == q[j + 1];
      }
    }
    assert IsPath(edges, r);
  }

  /** A chain over no edges at all is a single node. */
  lemma ConnectedNoEdges<T(!new)>(a: T, b: T)
    requires Connected([], a, b)
    ensures a == b
  {
    var p :| IsPath([], p) && p[0] == a && p[|p| - 1] == b;
    assert 1 < |p| ==> Adjacent<T>([], p[0], p[1]);
  }

  /** Walking a path over edges + [(u, v)]: either it never needed the new edge, or both
      of its ends already reached u or v. */
  lemma {:induction false} PathAddEdge<T(!new)>(edges: seq<(T, T)>, u: T, v: T, p: seq<T>)
    requires IsPath(edges + [(u, v)], p)
    ensures Connected(edges, p[0], p[|p| - 1])
         || (Near(edges, u, v, p[0]) && Near(edges, u, v, p[|p| - 1]))
    decreases |p|
  {
    if |p| == 1 {
      ConnectedRefl(edges, p[0]);
    } else {
      var q := p[..|p| - 1];
      assert IsPath(edges + [(u, v)], q) by {
        forall i | 0 <= i < |q| - 1
          ensures Adjacent(edges + [(u, v)], q[i], q[i + 1])
        {
          assert q[i] == p[i] && q[i + 1] == p[i + 1];
        }
      }
      PathAddEdge(edges, u, v, q);
      var x, a, b := p[0], p[|p| - 2], p[|p| - 1];
      assert Adjacent(edges + [(u, v)], a, b);
      if Adjacent(edges, a, b) {
        ConnectedEdge(edges, a, b);
        ConnectedSym(edges, a, b);
        if Connected(edges, x, a) {
          ConnectedTrans(edges, x, a, b);
        } else if Connected(edges, a, u) {
          ConnectedTrans(edges, b, a, u);
        } else {
          ConnectedTrans(edges, b, a, v);
        }
      } else {
        assert (a == u && b == v) || (a == v && b == u);
        ConnectedRefl(edges, u);
        ConnectedRefl(edges, v);
        if Connected(edges, x, a) {
          assert Near(edges, u, v, x);
        }
      }
    }
  }

  /** Adding the edge (u, v) connects exactly the pairs that were connected already, or whose
      two ends each reached u or v. */
  lemma ConnectedAddEdge<T(!new)>(edges: seq<(T, T)>, u: T, v: T, a: T, b: T)
    ensures Connected(edges + [(u, v)], a, b)
        <==> Connected(edges, a, b) || (Near(edges, u, v, a) && Near(edges, u, v, b))
  {
    var more := edges + [(u, v)];
    if Connected(more, a, b) {
      var p :| IsPath(more, p) && p[0] == a && p[|p| - 1] == b;
      PathAddEdge(edges, u, v, p);
    }
    if Connected(edges, a, b) {
      ConnectedGrow(edges, (u, v), a, b);
    }
    if Near(edges, u, v, a) && Near(edges, u, v, b) {
      ConnectedEdge(more, u, v);
      ConnectedEdge(more, v, u);
      ConnectedRefl(more, u);
      var ea := if Connected(edges, a, u) then u else v;
      var eb := if Connected(edges, b, u) then u else v;
      ConnectedGrow(edges, (u, v), a, ea);
      ConnectedGrow(edges, (u, v), b, eb);
      ConnectedSym(more, b, eb);
      assert Connected(more, ea, eb) by {
        if ea == eb {
          ConnectedRefl(more, ea);
        }
      }
      ConnectedTrans(more, a, ea, eb);
      ConnectedTrans(more, a, eb, b);
    }
  }

  /** A chain stays a chain when an edge is appended to the list. */
  lemma ConnectedGrow<T(!new)>(edges: seq<(T, T)>, e: (T, T), a: T, b: T)
    requires Connected(edges, a, b)
    ensures Connected(edges + [e], a, b)
  {
    var p :| IsPath(edges, p) && p[0] == a && p[|p| - 1] == b;
    forall i | 0 <= i < |p| - 1
      ensures Adjacent(edges + [e], p[i], p[i + 1])
    {
      assert Adjacent(edges, p[i], p[i + 1]);
    }
    assert IsPath(edges + [e], p);
  }

  /** The edge list with every endpoint renamed by f. */
  function MapEdges<A, B>(edges: seq<(A, A)>, f: A -> B): (r: seq<(B, B)>)
    ensures |r| == |edges|
    ensures forall k :: 0 <= k < |edges| ==> r[k] == (f(edges[k].0), f(edges[k].1))
  {
    seq(|edges|, k requires 0 <= k < |edges| => (f(edges[k].0), f(edges[k].1)))
  }

  /** Renaming the nodes carries every chain over to the renamed edge list. */
  lemma ConnectedImage<A(!new), B(!new)>(edges: seq<(A, A)>, f: A -> B, a: A, b: A)
    requires Connected(edges, a, b)
    ensures Connected(MapEdges(edges, f), f(a), f(b))
  {
    var image := MapEdges(edges, f);
    var p :| IsPath(edges, p) && p[0] == a && p[|p| - 1] == b;
    var q := seq(|p|, i requires 0 <= i < |p| => f(p[i]));
    forall i | 0 <= i < |q| - 1
      ensures Adjacent(image, q[i], q[i + 1])
    {
      assert Adjacent(edges, p[i], p[i + 1]);
      if (p[i], p[i + 1]) in edges {
        var k :| 0 <= k < |edges| && edges[k] == (p[i], p[i + 1]);
        assert image[k] == (q[i], q[i + 1]);
      } else {
        var k :| 0 <= k < |edges| && edges[k] == (p[i + 1], p[i]);
        assert image[k] == (q[i + 1], q[i]);
      }
    }
    assert IsPath(image, q);
  }

  /** x is an endpoint of some edge. */
  ghost predicate Endpoint<T>(edges: seq<(T, T)>, x: T) {
    exists k :: 0 <= k < |edges| && (edges[k].0 == x || edges[k].1 == x)
  }

  /** Two different nodes joined by a chain both lie on some edge. */
  lemma ConnectedEndpoints<T(!new)>(edges: seq<(T, T)>, a: T, b: T)
    requires Connected(edges, a, b) && a != b
    ensures Endpoint(edges, a) && Endpoint(edges, b)
  {
    var p :| IsPath(edges, p) && p[0] == a && p[|p| - 1] == b;
    var n := |p| - 1;
    assert Adjacent(edges, p[0], p[1]);
    assert Adjacent(edges, p[n - 1], p[n]);
  }
}
