/**
 * What an MST result is: a sequence of graph edges that closes no cycle and, on a connected
 * graph, joins every vertex to vertex 0. The solvers' contracts are stated with these.
 */
module Forests {
  import opened Edges
  import opened Adjacency

  /** Some edge of `es` joins `a` and `b`, in either orientation. */
  ghost predicate Linked(es: seq<Edge>, a: int, b: int)
  {
    exists i :: 0 <= i < |es| && ((es[i].u == a && es[i].v == b) || (es[i].u == b && es[i].v == a))
  }

  /** A sequence of vertices, each consecutive pair linked by an edge of `es`. */
  ghost predicate IsWalk(es: seq<Edge>, p: seq<int>)
  {
    |p| >= 1 && forall i :: 0 <= i < |p| - 1 ==> Linked(es, p[i], p[i + 1])
  }

  /** `x` and `y` are in the same tree of the forest `es`. */
  ghost predicate Joins(es: seq<Edge>, x: int, y: int)
  {
    exists p :: IsWalk(es, p) && p[0] == x && p[|p| - 1] == y
  }

  /** No edge closes a cycle: each joins two vertices that the edges before it do not already join. */
  ghost predicate Acyclic(es: seq<Edge>)
  {
    forall i :: 0 <= i < |es| ==> !Joins(es[..i], es[i].u, es[i].v)
  }

  /** Every edge is stored in the graph, in the list of its first endpoint. */
  ghost predicate FromGraph(adj: AdjList, es: seq<Edge>)
  {
    forall i :: 0 <= i < |es| ==> 0 <= es[i].u < |adj| && es[i] in adj[es[i].u]
  }

  /** `es` is a spanning tree of the graph: `n - 1` graph edges, no cycle, every vertex joined to vertex 0. */
  ghost predicate SpanningTree(adj: AdjList, es: seq<Edge>)
  {
    |es| == |adj| - 1 && FromGraph(adj, es) && Acyclic(es) &&
    forall x :: 0 <= x < |adj| ==> Joins(es, 0, x)
  }

  /** Every vertex is in its own tree. */
  lemma JoinsRefl(es: seq<Edge>, x: int)
    ensures Joins(es, x, x)
  {
    assert IsWalk(es, [x]);
  }

  /** An edge joins its endpoints. */
  lemma JoinsLinked(es: seq<Edge>, a: int, b: int)
    requires Linked(es, a, b)
    ensures Joins(es, a, b)
  {
    assert IsWalk(es, [a, b]);
  }

  /** Walks compose. */
  lemma JoinsTrans(es: seq<Edge>, x: int, y: int, z: int)
    requires Joins(es, x, y) && Joins(es, y, z)
    ensures Joins(es, x, z)
  {
    var p :| IsWalk(es, p) && p[0] == x && p[|p| - 1] == y;
    var q :| IsWalk(es, q) && q[0] == y && q[|q| - 1] == z;
    var r := p + q[1..];
    forall i | 0 <= i < |r| - 1 ensures Linked(es, r[i], r[i + 1]) {
      if i < |p| - 1 {
        assert r[i] == p[i] && r[i + 1] == p[i + 1];
      } else {
        assert r[i] == q[i - |p| + 1] && r[i + 1] == q[i - |p| + 2];
      }
    }
    assert IsWalk(es, r);
  }

  /** Walks can be read backwards. */
  lemma JoinsSym(es: seq<Edge>, x: int, y: int)
    requires Joins(es, x, y)
    ensures Joins(es, y, x)
  {
    var p :| IsWalk(es, p) && p[0] == x && p[|p| - 1] == y;
    var q := seq(|p|, i requires 0 <= i < |p| => p[|p| - 1 - i]);
    forall i | 0 <= i < |q| - 1 ensures Linked(es, q[i], q[i + 1]) {
      var m := |p| - 2 - i;
      assert Linked(es, p[m], p[m + 1]);
      assert q[i] == p[m + 1] && q[i + 1] == p[m];
      var j :| 0 <= j < |es| && ((es[j].u == p[m] && es[j].v == p[m + 1]) || (es[j].u == p[m + 1] && es[j].v == p[m]));
    }
    assert IsWalk(es, q);
  }

  /** Adding an edge keeps every walk. */
  lemma JoinsGrow(es: seq<Edge>, e: Edge, x: int, y: int)
    requires Joins(es, x, y)
    ensures Joins(es + [e], x, y)
  {
    var p :| IsWalk(es, p) && p[0] == x && p[|p| - 1] == y;
    forall i | 0 <= i < |p| - 1 ensures Linked(es + [e], p[i], p[i + 1]) {
      var j :| 0 <= j < |es| && ((es[j].u == p[i] && es[j].v == p[i + 1]) || (es[j].u == p[i + 1] && es[j].v == p[i]));
      assert (es + [e])[j] == es[j];
    }
    assert IsWalk(es + [e], p);
  }

  /** Appending an edge between two vertices the forest does not yet join keeps it acyclic. */
  lemma AcyclicAppend(es: seq<Edge>, e: Edge)
    requires Acyclic(es) && !Joins(es, e.u, e.v)
    ensures Acyclic(es + [e])
  {
    var es' := es + [e];
    assert es'[..|es|] == es;
    forall i | 0 <= i < |es| ensures es'[..i] == es[..i] {
    }
  }

  /** Appending the edge `(a, b)` to a forest where `x` is joined to `a` joins `x` to `b`. */
  lemma JoinsThroughNewEdge(es: seq<Edge>, e: Edge, x: int)
    requires Joins(es, x, e.u) || Joins(es, x, e.v)
    ensures Joins(es + [e], x, e.u) && Joins(es + [e], x, e.v)
  {
    var es' := es + [e];
    assert es'[|es|] == e;
    assert Linked(es', e.u, e.v) && Linked(es', e.v, e.u);
    JoinsLinked(es', e.u, e.v);
    JoinsLinked(es', e.v, e.u);
    if Joins(es, x, e.u) {
      JoinsGrow(es, e, x, e.u);
      JoinsTrans(es', x, e.u, e.v);
    } else {
      JoinsGrow(es, e, x, e.v);
      JoinsTrans(es', x, e.v, e.u);
    }
  }

  /** When every edge stays within one class of a labelling, so does every walk. */
  lemma {:induction false} WalkKeepsLabel(es: seq<Edge>, tag: seq<int>, p: seq<int>, i: int)
    requires forall j :: 0 <= j < |es| ==> 0 <= es[j].u < |tag| && 0 <= es[j].v < |tag| && tag[es[j].u] == tag[es[j].v]
    requires IsWalk(es, p) && 0 <= p[0] < |tag| && 0 <= i < |p|
    ensures 0 <= p[i] < |tag| && tag[p[i]] == tag[p[0]]
  {
    if i > 0 {
      WalkKeepsLabel(es, tag, p, i - 1);
      var j :| 0 <= j < |es| && ((es[j].u == p[i - 1] && es[j].v == p[i]) || (es[j].u == p[i] && es[j].v == p[i - 1]));
    }
  }

  /** When every edge stays within one class of a labelling, joined vertices carry the same tag. */
  lemma JoinsKeepsLabel(es: seq<Edge>, tag: seq<int>, x: int, y: int)
    requires forall j :: 0 <= j < |es| ==> 0 <= es[j].u < |tag| && 0 <= es[j].v < |tag| && tag[es[j].u] == tag[es[j].v]
    requires 0 <= x < |tag| && Joins(es, x, y)
    ensures 0 <= y < |tag| && tag[x] == tag[y]
  {
    var p :| IsWalk(es, p) && p[0] == x && p[|p| - 1] == y;
    WalkKeepsLabel(es, tag, p, |p| - 1);
  }

  /** A vertex no edge touches is joined to nothing but itself. */
  lemma UntouchedIsolated(es: seq<Edge>, x: int, y: int)
    requires forall j :: 0 <= j < |es| ==> es[j].u != x && es[j].v != x
    requires x != y
    ensures !Joins(es, x, y)
  {
    forall p | IsWalk(es, p) && p[0] == x
      ensures p[|p| - 1] == x
    {
      assert |p| > 1 ==> Linked(es, p[0], p[1]);
    }
  }
}
