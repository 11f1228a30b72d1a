/**
 * The `Edge` record of Graph.hpp: a weighted edge as stored in one endpoint's adjacency
 * list, `u` being the near endpoint and `v` the far one, with its two equality operators.
 */
module Edges {
  /** Largest value of a 32-bit C++ `int`; both solvers use it as "no edge yet". */
  const INT_MAX: int := 0x7fff_ffff

  /** `Edge(u, v, weight)`: the constructor stores the three fields as given. */
  datatype Edge = Edge(u: int, v: int, weight: int)

  /** The same undirected edge seen from its other endpoint. */
  function Reverse(e: Edge): Edge
  {
    Edge(e.v, e.u, e.weight)
  }

  /** `operator==(const Edge&)`: same weight and the same endpoints, in either orientation. */
  predicate SameEdge(a: Edge, b: Edge)
  {
    (a.u == b.u && a.v == b.v && a.weight == b.weight) ||
    (a.u == b.v && a.v == b.u && a.weight == b.weight)
  }

  /** `operator==(const int&)`: the edge has `x` as one of its endpoints, whichever way round it is stored. */
  predicate Touches(e: Edge, x: int)
  {
    e.u == x || e.v == x
  }

  /** Edge equality ignores orientation: an edge equals its reverse, both ways round. */
  lemma SameEdgeIgnoresOrientation(e: Edge)
    ensures SameEdge(e, Reverse(e)) && SameEdge(Reverse(e), e)
    ensures Reverse(Reverse(e)) == e
  {
  }

  /** Edge equality needs equal weights: the same endpoints with another weight do not compare equal. */
  lemma SameEdgeCharacterized(a: Edge, b: Edge)
    ensures SameEdge(a, b) ==> a.weight == b.weight
    ensures a.u == b.u && a.v == b.v && a.weight != b.weight ==> !SameEdge(a, b)
  {
  }

  /** Edge equality is an equivalence relation. */
  lemma SameEdgeIsEquivalence(a: Edge, b: Edge, c: Edge)
    ensures SameEdge(a, a)
    ensures SameEdge(a, b) ==> SameEdge(b, a)
    ensures SameEdge(a, b) && SameEdge(b, c) ==> SameEdge(a, c)
  {
  }

  /** Every edge matches both its endpoints, and an edge and its reverse match the same ids. */
  lemma TouchesEndpoints(e: Edge, x: int)
    ensures Touches(e, e.u) && Touches(e, e.v)
    ensures Touches(Reverse(e), x) == Touches(e, x)
  {
  }
}
