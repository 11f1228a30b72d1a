/**
 * The value a `Graph` stores (Graph.hpp: `std::vector<std::vector<Edge>> adj`) and what each
 * of its updates does to that value, as pure functions, with the invariants the graph keeps
 * and the lemmas that say which update keeps which invariant.
 */
module Adjacency {
  import opened Edges

  /** One adjacency list per vertex: `adj[a]` holds the edges stored at vertex `a`. */
  type AdjList = seq<seq<Edge>>

  /** Every entry of `adj[a]` starts at `a` and ends at a vertex id. */
  ghost predicate WellFormed(adj: AdjList)
  {
    forall a, k :: 0 <= a < |adj| && 0 <= k < |adj[a]| ==> adj[a][k].u == a && 0 <= adj[a][k].v < |adj|
  }

  /** Each logical edge is stored twice: an entry `(a, b, w)` of `adj[a]` has its mirror `(b, a, w)` in `adj[b]`. */
  ghost predicate Symmetric(adj: AdjList)
    requires WellFormed(adj)
  {
    forall a, k :: 0 <= a < |adj| && 0 <= k < |adj[a]| ==> Reverse(adj[a][k]) in adj[adj[a][k].v]
  }

  /** No list holds two entries with the same far endpoint. */
  ghost predicate NoDuplicates(adj: AdjList)
  {
    forall a, i, j :: 0 <= a < |adj| && 0 <= i < j < |adj[a]| ==> adj[a][i].v != adj[a][j].v
  }

  /** The undirected-graph invariant: shape, mirrored storage and at most one edge per pair. */
  ghost predicate Consistent(adj: AdjList)
  {
    WellFormed(adj) && Symmetric(adj) && NoDuplicates(adj)
  }

  /** Every stored weight is below the `INT_MAX` sentinel the solvers start from. */
  ghost predicate WeightsBelowMax(adj: AdjList)
  {
    forall a, k :: 0 <= a < |adj| && 0 <= k < |adj[a]| ==> adj[a][k].weight < INT_MAX
  }

  /** `adj.resize(n)` on an empty vector: `n` empty lists. */
  function Empty(n: nat): (adj: AdjList)
    ensures |adj| == n && WellFormed(adj)
    ensures forall a :: 0 <= a < n ==> |adj[a]| == 0
  {
    seq(n, _ => [])
  }

  /** Whether some entry of `s` compares equal (`Edge == int`) to `x`. */
  predicate AnyTouches(s: seq<Edge>, x: int)
  {
    exists k :: 0 <= k < |s| && Touches(s[k], x)
  }

  /** One half of `addEdge`: push `(a, b, w)` onto `adj[a]` unless an entry there already compares equal to `b`. */
  function AddHalf(adj: AdjList, a: int, b: int, w: int): (r: AdjList)
    requires 0 <= a < |adj|
    ensures |r| == |adj| && AnyTouches(r[a], b)
    ensures r[a] == adj[a] || r[a] == adj[a] + [Edge(a, b, w)]
    ensures forall x :: 0 <= x < |adj| && x != a ==> r[x] == adj[x]
  {
    if AnyTouches(adj[a], b) then adj
    else
      var r := adj[a := adj[a] + [Edge(a, b, w)]];
      assert Touches(r[a][|adj[a]|], b);
      r
  }

  /** `addEdge(u, v, w)`: ignored when an id is out of range, otherwise both halves in turn. */
  function WithEdge(adj: AdjList, u: int, v: int, w: int): (r: AdjList)
    ensures |r| == |adj|
    ensures 0 <= u < |adj| && 0 <= v < |adj| ==> AnyTouches(r[u], v) && AnyTouches(r[v], u)
    ensures !(0 <= u < |adj| && 0 <= v < |adj|) ==> r == adj
  {
    if 0 <= u < |adj| && 0 <= v < |adj| then AddHalf(AddHalf(adj, u, v, w), v, u, w) else adj
  }

  /** `std::remove_if` followed by `erase`: the entries of `s` not comparing equal to `x`, in their order. */
  function Without(s: seq<Edge>, x: int): (r: seq<Edge>)
    ensures |r| <= |s|
    ensures forall k :: 0 <= k < |r| ==> !Touches(r[k], x)
  {
    if s == [] then []
    else Without(s[..|s| - 1], x) + (if Touches(s[|s| - 1], x) then [] else [s[|s| - 1]])
  }

  /** `removeEdge(u, v)`: filter `adj[u]` against `v`, then `adj[v]` against `u`. */
  function WithoutEdge(adj: AdjList, u: int, v: int): (r: AdjList)
    requires 0 <= u < |adj| && 0 <= v < |adj|
    ensures |r| == |adj| && !AnyTouches(r[u], v) && !AnyTouches(r[v], u)
    ensures forall a :: 0 <= a < |adj| && a != u && a != v ==> r[a] == adj[a]
  {
    var first: AdjList := adj[u := Without(adj[u], v)];
    first[v := Without(first[v], u)]
  }

  /** `getEdges()`: the lists concatenated in vertex order. */
  function Flatten(adj: AdjList): (edges: seq<Edge>)
    ensures forall e :: e in edges ==> exists a :: 0 <= a < |adj| && e in adj[a]
  {
    if adj == [] then [] else Flatten(adj[..|adj| - 1]) + adj[|adj| - 1]
  }

  /** `adj[a]` holds an entry whose far endpoint is `b`: the step the depth-first search takes. */
  ghost predicate Adjacent(adj: AdjList, a: int, b: int)
  {
    0 <= a < |adj| && exists k :: 0 <= k < |adj[a]| && adj[a][k].v == b
  }

  /** A sequence of vertex ids, each step following an adjacency entry. */
  ghost predicate IsPath(adj: AdjList, p: seq<int>)
  {
    |p| >= 1 &&
    (forall i :: 0 <= i < |p| ==> 0 <= p[i] < |adj|) &&
    (forall i :: 0 <= i < |p| - 1 ==> Adjacent(adj, p[i], p[i + 1]))
  }

  ghost predicate Reachable(adj: AdjList, s: int, t: int)
  {
    exists p :: IsPath(adj, p) && p[0] == s && p[|p| - 1] == t
  }

  /** What `isConnected()` decides: every vertex is reachable from vertex 0. */
  ghost predicate Connected(adj: AdjList)
  {
    forall t :: 0 <= t < |adj| ==> Reachable(adj, 0, t)
  }

  /** A set of vertices, given by its indicator, that no adjacency entry leaves. */
  ghost predicate Closed(adj: AdjList, member: seq<bool>)
    requires |member| == |adj| && WellFormed(adj)
  {
    forall a, k :: 0 <= a < |adj| && member[a] && 0 <= k < |adj[a]| ==> member[adj[a][k].v]
  }

  // ---------------------------------------------------------------- construction

  /** A freshly built or reset graph has `n` empty lists, satisfies the invariant and has no edges. */
  lemma {:induction false} EmptyGraph(n: nat)
    ensures |Empty(n)| == n && Consistent(Empty(n))
    ensures forall a :: 0 <= a < n ==> Empty(n)[a] == []
    ensures Flatten(Empty(n)) == []
  {
    if n > 0 {
      EmptyGraph(n - 1);
      assert Empty(n)[..n - 1] == Empty(n - 1);
    }
  }

  // ---------------------------------------------------------------- addEdge

  /** For an entry of a well-formed list, comparing with an id other than its near end looks at the far end. */
  lemma TouchesFar(adj: AdjList, a: int, x: int)
    requires WellFormed(adj) && 0 <= a < |adj| && x != a
    ensures AnyTouches(adj[a], x) <==> Adjacent(adj, a, x)
  {
  }

  /** `addEdge` keeps the shape and the vertex count, and does nothing when an id is out of range. */
  lemma WithEdgeShape(adj: AdjList, u: int, v: int, w: int)
    requires WellFormed(adj)
    ensures |WithEdge(adj, u, v, w)| == |adj| && WellFormed(WithEdge(adj, u, v, w))
    ensures !(0 <= u < |adj| && 0 <= v < |adj|) ==> WithEdge(adj, u, v, w) == adj
  {
    if 0 <= u < |adj| && 0 <= v < |adj| {
      var first := AddHalf(adj, u, v, w);
      assert WellFormed(first);
    }
  }

  /** `addEdge` on a pair already joined changes nothing, whatever the new weight. */
  lemma WithEdgeExisting(adj: AdjList, u: int, v: int, w: int)
    requires Consistent(adj) && 0 <= u < |adj| && 0 <= v < |adj| && u != v
    requires Adjacent(adj, u, v)
    ensures WithEdge(adj, u, v, w) == adj
  {
    var k :| 0 <= k < |adj[u]| && adj[u][k].v == v;
    assert Touches(adj[u][k], v);
    assert AddHalf(adj, u, v, w) == adj;
    var k' :| 0 <= k' < |adj[v]| && adj[v][k'] == Reverse(adj[u][k]);
    assert Touches(adj[v][k'], u);
  }

  /** `addEdge` on an unjoined pair `u != v` appends `(u, v, w)` to `adj[u]` and `(v, u, w)` to `adj[v]`, nothing else. */
  lemma WithEdgeFresh(adj: AdjList, u: int, v: int, w: int)
    requires Consistent(adj) && 0 <= u < |adj| && 0 <= v < |adj| && u != v
    requires !Adjacent(adj, u, v)
    ensures WithEdge(adj, u, v, w) == AppendPair(adj, u, v, w)
  {
    TouchesFar(adj, u, v);
    var first := adj[u := adj[u] + [Edge(u, v, w)]];
    assert AddHalf(adj, u, v, w) == first;
    assert !AnyTouches(first[v], u) by {
      forall k | 0 <= k < |adj[v]| ensures !Touches(adj[v][k], u) {
        assert Reverse(adj[v][k]) in adj[adj[v][k].v];
      }
    }
  }

  /** A self-loop `addEdge(u, u, w)` is stored once, and only when `adj[u]` is empty (every entry there compares equal to `u`). */
  lemma WithEdgeSelfLoop(adj: AdjList, u: int, w: int)
    requires WellFormed(adj) && 0 <= u < |adj|
    ensures WithEdge(adj, u, u, w) == if adj[u] == [] then adj[u := [Edge(u, u, w)]] else adj
  {
    if adj[u] != [] {
      assert Touches(adj[u][0], u);
    } else {
      var first := adj[u := [Edge(u, u, w)]];
      assert adj[u] + [Edge(u, u, w)] == [Edge(u, u, w)];
      assert AddHalf(adj, u, u, w) == first;
      assert Touches(first[u][0], u);
    }
  }

  /** A self-loop added to an empty list keeps the invariant: no other list can point at that vertex. */
  lemma SelfLoopConsistent(adj: AdjList, u: int, w: int)
    requires Consistent(adj) && 0 <= u < |adj| && adj[u] == []
    ensures Consistent(adj[u := [Edge(u, u, w)]])
  {
    var r := adj[u := [Edge(u, u, w)]];
    forall a: int, k: int | 0 <= a < |r| && 0 <= k < |r[a]|
      ensures Reverse(r[a][k]) in r[r[a][k].v]
    {
      if a != u {
        var e := adj[a][k];
        assert Reverse(e) in adj[e.v];
      }
    }
  }

  /** The graph `addEdge` builds for an unjoined pair `u != v`. */
  function AppendPair(adj: AdjList, u: int, v: int, w: int): AdjList
    requires 0 <= u < |adj| && 0 <= v < |adj|
  {
    adj[u := adj[u] + [Edge(u, v, w)]][v := adj[v] + [Edge(v, u, w)]]
  }

  /** In the appended graph every entry is an old entry at its old place or one of the two new ones. */
  lemma AppendPairEntry(adj: AdjList, u: int, v: int, w: int, a: int, k: int)
    requires 0 <= u < |adj| && 0 <= v < |adj| && u != v
    requires 0 <= a < |adj| && 0 <= k < |AppendPair(adj, u, v, w)[a]|
    ensures k < |adj[a]| ==> AppendPair(adj, u, v, w)[a][k] == adj[a][k]
    ensures k >= |adj[a]| ==> (a == u || a == v) && k == |adj[a]|
    ensures k >= |adj[a]| && a == u ==> AppendPair(adj, u, v, w)[a][k] == Edge(u, v, w)
    ensures k >= |adj[a]| && a == v ==> AppendPair(adj, u, v, w)[a][k] == Edge(v, u, w)
  {
  }

  /** Appending a mirrored pair for an unjoined `u != v` keeps mirrored storage. */
  lemma FreshPairSymmetric(adj: AdjList, u: int, v: int, w: int)
    requires Consistent(adj) && 0 <= u < |adj| && 0 <= v < |adj| && u != v
    ensures WellFormed(AppendPair(adj, u, v, w)) && Symmetric(AppendPair(adj, u, v, w))
  {
    var r: AdjList := AppendPair(adj, u, v, w);
    forall a: int, k: int | 0 <= a < |r| && 0 <= k < |r[a]|
      ensures r[a][k].u == a && 0 <= r[a][k].v < |r|
    {
      AppendPairEntry(adj, u, v, w, a, k);
    }
    forall a: int, k: int | 0 <= a < |r| && 0 <= k < |r[a]|
      ensures Reverse(r[a][k]) in r[r[a][k].v]
    {
      AppendPairEntry(adj, u, v, w, a, k);
      if k < |adj[a]| {
        var e := adj[a][k];
        assert Reverse(e) in adj[e.v];
        var j :| 0 <= j < |adj[e.v]| && adj[e.v][j] == Reverse(e);
        AppendPairEntry(adj, u, v, w, e.v, j);
        assert r[e.v][j] == Reverse(e);
      } else if a == u {
        AppendPairEntry(adj, u, v, w, v, |adj[v]|);
      } else {
        AppendPairEntry(adj, u, v, w, u, |adj[u]|);
      }
    }
  }

  /** Appending a mirrored pair for an unjoined `u != v` keeps at most one entry per far endpoint. */
  lemma FreshPairNoDuplicates(adj: AdjList, u: int, v: int, w: int)
    requires Consistent(adj) && 0 <= u < |adj| && 0 <= v < |adj| && u != v
    requires !Adjacent(adj, u, v)
    ensures NoDuplicates(AppendPair(adj, u, v, w))
  {
    var r: AdjList := AppendPair(adj, u, v, w);
    forall a: int, i: int, j: int | 0 <= a < |r| && 0 <= i < j < |r[a]|
      ensures r[a][i].v != r[a][j].v
    {
      AppendPairEntry(adj, u, v, w, a, i);
      AppendPairEntry(adj, u, v, w, a, j);
      if j == |adj[a]| && a == v {
        assert Reverse(adj[v][i]) in adj[adj[v][i].v];
      }
    }
  }

  /** `addEdge` keeps the undirected-graph invariant. */
  lemma WithEdgeConsistent(adj: AdjList, u: int, v: int, w: int)
    requires Consistent(adj)
    ensures Consistent(WithEdge(adj, u, v, w))
  {
    if 0 <= u < |adj| && 0 <= v < |adj| {
      if u == v {
        WithEdgeSelfLoop(adj, u, w);
        if adj[u] == [] {
          SelfLoopConsistent(adj, u, w);
        }
      } else if Adjacent(adj, u, v) {
        WithEdgeExisting(adj, u, v, w);
      } else {
        WithEdgeFresh(adj, u, v, w);
        FreshPairSymmetric(adj, u, v, w);
        FreshPairNoDuplicates(adj, u, v, w);
      }
    }
  }

  /** `addEdge` is idempotent: a second call on the same pair, with any weight, changes nothing. */
  lemma WithEdgeIdempotent(adj: AdjList, u: int, v: int, w: int, w': int)
    requires WellFormed(adj)
    ensures WithEdge(WithEdge(adj, u, v, w), u, v, w') == WithEdge(adj, u, v, w)
  {
    var r := WithEdge(adj, u, v, w);
    if 0 <= u < |adj| && 0 <= v < |adj| {
      assert AddHalf(r, u, v, w') == r;
      assert AddHalf(r, v, u, w') == r;
    }
  }

  /** `addEdge` only appends: each list is kept, or gains the one new entry starting at its vertex. */
  lemma WithEdgeGrows(adj: AdjList, u: int, v: int, w: int)
    ensures |WithEdge(adj, u, v, w)| == |adj|
    ensures forall a :: 0 <= a < |adj| ==>
      WithEdge(adj, u, v, w)[a] == adj[a] ||
      (a == u && WithEdge(adj, u, v, w)[a] == adj[a] + [Edge(u, v, w)]) ||
      (a == v && WithEdge(adj, u, v, w)[a] == adj[a] + [Edge(v, u, w)])
  {
    if 0 <= u < |adj| && 0 <= v < |adj| {
      var first := AddHalf(adj, u, v, w);
      if u == v && first != adj {
        assert Touches(first[u][|adj[u]|], u);
        assert AddHalf(first, v, u, w) == first;
      }
    }
  }

  /** `addEdge` never separates two vertices, and joins an in-range pair `u != v` in both directions. */
  lemma WithEdgeAdjacent(adj: AdjList, u: int, v: int, w: int, a: int, b: int)
    requires WellFormed(adj)
    ensures Adjacent(adj, a, b) ==> Adjacent(WithEdge(adj, u, v, w), a, b)
    ensures 0 <= u < |adj| && 0 <= v < |adj| && u != v ==>
      Adjacent(WithEdge(adj, u, v, w), u, v) && Adjacent(WithEdge(adj, u, v, w), v, u)
  {
    var r: AdjList := WithEdge(adj, u, v, w);
    WithEdgeGrows(adj, u, v, w);
    WithEdgeShape(adj, u, v, w);
    if Adjacent(adj, a, b) {
      var k :| 0 <= k < |adj[a]| && adj[a][k].v == b;
      assert r[a][k] == adj[a][k];
    }
    if 0 <= u < |adj| && 0 <= v < |adj| && u != v {
      var first := AddHalf(adj, u, v, w);
      assert AnyTouches(first[u], v) by {
        if !AnyTouches(adj[u], v) {
          assert Touches(first[u][|adj[u]|], v);
        }
      }
      assert r[u] == first[u];
      assert AnyTouches(r[v], u) by {
        if !AnyTouches(first[v], u) {
          assert Touches(r[v][|first[v]|], u);
        }
      }
      TouchesFar(r, u, v);
      TouchesFar(r, v, u);
    }
  }

  /** `addEdge` inside a set no entry leaves, or wholly outside it, keeps the set closed. */
  lemma WithEdgeClosed(adj: AdjList, member: seq<bool>, u: int, v: int, w: int)
    requires WellFormed(adj) && |member| == |adj| && Closed(adj, member)
    requires 0 <= u < |adj| && 0 <= v < |adj| ==> member[u] == member[v]
    ensures WellFormed(WithEdge(adj, u, v, w)) && Closed(WithEdge(adj, u, v, w), member)
  {
    var r: AdjList := WithEdge(adj, u, v, w);
    WithEdgeGrows(adj, u, v, w);
    WithEdgeShape(adj, u, v, w);
    forall a, k | 0 <= a < |r| && member[a] && 0 <= k < |r[a]|
      ensures member[r[a][k].v]
    {
      if k < |adj[a]| {
        assert r[a][k] == adj[a][k];
      }
    }
  }

  /** `addEdge` with a weight below `INT_MAX` keeps every stored weight below it. */
  lemma WithEdgeBelowMax(adj: AdjList, u: int, v: int, w: int)
    requires WeightsBelowMax(adj) && w < INT_MAX
    ensures WeightsBelowMax(WithEdge(adj, u, v, w))
  {
    var r: AdjList := WithEdge(adj, u, v, w);
    WithEdgeGrows(adj, u, v, w);
    forall a, k | 0 <= a < |r| && 0 <= k < |r[a]|
      ensures r[a][k].weight < INT_MAX
    {
      if k < |adj[a]| {
        assert r[a][k] == adj[a][k];
      }
    }
  }

  // ---------------------------------------------------------------- removeEdge

  /** The filter keeps exactly the entries that do not compare equal to `x`, and all of a list none of whose entries does. */
  lemma {:induction false} WithoutMembers(s: seq<Edge>, x: int)
    ensures forall e :: e in Without(s, x) <==> e in s && !Touches(e, x)
    ensures (forall k :: 0 <= k < |s| ==> !Touches(s[k], x)) ==> Without(s, x) == s
  {
    if s != [] {
      WithoutMembers(s[..|s| - 1], x);
      assert s == s[..|s| - 1] + [s[|s| - 1]];
    }
  }

  /** The filter keeps the relative order of what it keeps: it distributes over concatenation. */
  lemma {:induction false} WithoutAppend(s: seq<Edge>, t: seq<Edge>, x: int)
    ensures Without(s + t, x) == Without(s, x) + Without(t, x)
    decreases |t|
  {
    if t == [] {
      assert s + t == s;
    } else {
      var t' := t[..|t| - 1];
      WithoutAppend(s, t', x);
      assert (s + t)[..|s + t| - 1] == s + t';
    }
  }

  /** The filter keeps the shape of a list: entries stay entries of the original. */
  lemma WithoutKeepsEntries(s: seq<Edge>, x: int, k: int)
    requires 0 <= k < |Without(s, x)|
    ensures Without(s, x)[k] in s && !Touches(Without(s, x)[k], x)
  {
    WithoutMembers(s, x);
    assert Without(s, x)[k] in Without(s, x);
  }

  /** `removeEdge` keeps the shape and the vertex count. */
  lemma WithoutEdgeShape(adj: AdjList, u: int, v: int)
    requires WellFormed(adj) && 0 <= u < |adj| && 0 <= v < |adj|
    ensures |WithoutEdge(adj, u, v)| == |adj| && WellFormed(WithoutEdge(adj, u, v))
  {
    var r: AdjList := WithoutEdge(adj, u, v);
    var first: AdjList := adj[u := Without(adj[u], v)];
    forall a: int, k: int | 0 <= a < |r| && 0 <= k < |r[a]|
      ensures r[a][k].u == a && 0 <= r[a][k].v < |r|
    {
      if a == v {
        WithoutKeepsEntries(first[v], u, k);
        WithoutMembers(adj[u], v);
      } else if a == u {
        WithoutKeepsEntries(adj[u], v, k);
      }
    }
  }

  /** Far endpoints are pairwise distinct within one list. */
  ghost predicate DistinctFar(s: seq<Edge>)
  {
    forall i, j :: 0 <= i < j < |s| ==> s[i].v != s[j].v
  }

  /** Filtering keeps far endpoints distinct. */
  lemma {:induction false} WithoutDistinct(s: seq<Edge>, x: int)
    requires DistinctFar(s)
    ensures DistinctFar(Without(s, x))
  {
    if s != [] {
      var init := s[..|s| - 1];
      var last := s[|s| - 1];
      assert DistinctFar(init) by {
        forall i, j | 0 <= i < j < |init| ensures init[i].v != init[j].v {
          assert init[i] == s[i] && init[j] == s[j];
        }
      }
      WithoutDistinct(init, x);
      var w := Without(init, x);
      if !Touches(last, x) {
        forall i | 0 <= i < |w| ensures w[i].v != last.v {
          WithoutMembers(init, x);
          assert w[i] in init;
          var m :| 0 <= m < |init| && init[m] == w[i];
          assert s[m] == w[i];
        }
        AppendDistinct(w, last);
      }
    }
  }

  /** Appending an entry whose far endpoint is new keeps far endpoints distinct. */
  lemma AppendDistinct(w: seq<Edge>, last: Edge)
    requires DistinctFar(w) && forall i :: 0 <= i < |w| ==> w[i].v != last.v
    ensures DistinctFar(w + [last])
  {
    var r := w + [last];
    forall i, j | 0 <= i < j < |r| ensures r[i].v != r[j].v {
      assert r[i] == w[i];
    }
  }

  /** For `u != v`, `removeEdge` drops from `adj[u]` exactly the entries ending at `v`, from `adj[v]` those ending at `u`, and nothing else. */
  lemma WithoutEdgeEntries(adj: AdjList, u: int, v: int)
    requires WellFormed(adj) && 0 <= u < |adj| && 0 <= v < |adj| && u != v
    ensures |WithoutEdge(adj, u, v)| == |adj|
    ensures forall a, e :: 0 <= a < |adj| ==>
      (e in WithoutEdge(adj, u, v)[a] <==> e in adj[a] && !(a == u && e.v == v) && !(a == v && e.v == u))
    ensures forall a :: 0 <= a < |adj| && a != u && a != v ==> WithoutEdge(adj, u, v)[a] == adj[a]
  {
    WithoutMembers(adj[u], v);
    WithoutMembers(adj[v], u);
  }

  /** For `u != v`, `removeEdge` leaves no edge between `u` and `v` in either list and keeps every other entry. */
  lemma WithoutEdgeSeparates(adj: AdjList, u: int, v: int)
    requires WellFormed(adj) && 0 <= u < |adj| && 0 <= v < |adj| && u != v
    ensures !Adjacent(WithoutEdge(adj, u, v), u, v) && !Adjacent(WithoutEdge(adj, u, v), v, u)
    ensures forall k :: 0 <= k < |adj[u]| && adj[u][k].v != v ==> adj[u][k] in WithoutEdge(adj, u, v)[u]
    ensures forall k :: 0 <= k < |adj[v]| && adj[v][k].v != u ==> adj[v][k] in WithoutEdge(adj, u, v)[v]
    ensures forall a :: 0 <= a < |adj| && a != u && a != v ==> WithoutEdge(adj, u, v)[a] == adj[a]
  {
    var r := WithoutEdge(adj, u, v);
    WithoutEdgeEntries(adj, u, v);
  }

  /** `removeEdge(u, u)` empties the whole of `adj[u]`, because every entry there compares equal to `u`. */
  lemma WithoutEdgeSelfLoop(adj: AdjList, u: int)
    requires WellFormed(adj) && 0 <= u < |adj|
    ensures WithoutEdge(adj, u, u) == adj[u := []]
  {
    WithoutMembers(adj[u], u);
  }

  /** For `u != v`, `removeEdge` keeps the undirected-graph invariant. */
  lemma WithoutEdgeConsistent(adj: AdjList, u: int, v: int)
    requires Consistent(adj) && 0 <= u < |adj| && 0 <= v < |adj| && u != v
    ensures Consistent(WithoutEdge(adj, u, v))
  {
    var r: AdjList := WithoutEdge(adj, u, v);
    WithoutEdgeShape(adj, u, v);
    WithoutEdgeEntries(adj, u, v);
    forall a: int, k: int | 0 <= a < |r| && 0 <= k < |r[a]|
      ensures Reverse(r[a][k]) in r[r[a][k].v]
    {
      var e := r[a][k];
      assert e in r[a];
      var i :| 0 <= i < |adj[a]| && adj[a][i] == e;
      assert Reverse(e) in adj[e.v];
    }
    forall a | 0 <= a < |r| ensures DistinctFar(r[a]) {
      assert DistinctFar(adj[a]);
      if a == u {
        WithoutDistinct(adj[u], v);
      } else if a == v {
        WithoutDistinct(adj[v], u);
      }
    }
  }

  /** `removeEdge` on an unjoined pair `u != v` is a no-op. */
  lemma WithoutEdgeMissing(adj: AdjList, u: int, v: int)
    requires Consistent(adj) && 0 <= u < |adj| && 0 <= v < |adj| && u != v
    requires !Adjacent(adj, u, v)
    ensures WithoutEdge(adj, u, v) == adj
  {
    WithoutMembers(adj[u], v);
    forall k | 0 <= k < |adj[v]| ensures !Touches(adj[v][k], u) {
      assert Reverse(adj[v][k]) in adj[adj[v][k].v];
    }
    WithoutMembers(adj[v], u);
  }

  /** `removeEdge` followed by `addEdge` on the same pair `u != v` stores the new edge, with the new weight, in both lists. */
  lemma RemoveThenAdd(adj: AdjList, u: int, v: int, w: int)
    requires WellFormed(adj) && 0 <= u < |adj| && 0 <= v < |adj| && u != v
    ensures WithEdge(WithoutEdge(adj, u, v), u, v, w) == AppendPair(WithoutEdge(adj, u, v), u, v, w)
    ensures Consistent(adj) ==> Consistent(WithEdge(WithoutEdge(adj, u, v), u, v, w))
  {
    var r := WithoutEdge(adj, u, v);
    var first := r[u := r[u] + [Edge(u, v, w)]];
    assert AddHalf(r, u, v, w) == first;
    assert AddHalf(first, v, u, w) == AppendPair(r, u, v, w);
    if Consistent(adj) {
      WithoutEdgeConsistent(adj, u, v);
      WithEdgeConsistent(r, u, v, w);
    }
  }

  // ---------------------------------------------------------------- getEdges

  /** One more list of the prefix adds that list at the end: the step of the nested loop in `getEdges`. */
  lemma FlattenPrefix(adj: AdjList, i: int)
    requires 0 <= i < |adj|
    ensures Flatten(adj[..i + 1]) == Flatten(adj[..i]) + adj[i]
  {
    assert adj[..i + 1][..i] == adj[..i];
  }

  /** An edge is listed by `getEdges` iff it is stored in some vertex's list. */
  lemma {:induction false} FlattenMembers(adj: AdjList)
    ensures forall e :: e in Flatten(adj) <==> exists a :: 0 <= a < |adj| && e in adj[a]
  {
    if adj != [] {
      var init := adj[..|adj| - 1];
      FlattenMembers(init);
      forall e | e in Flatten(adj) ensures exists a :: 0 <= a < |adj| && e in adj[a] {
        if e in Flatten(init) {
          var a :| 0 <= a < |init| && e in init[a];
          assert e in adj[a];
        } else {
          assert e in adj[|adj| - 1];
        }
      }
      forall e, a | 0 <= a < |adj| && e in adj[a] ensures e in Flatten(adj) {
        if a < |adj| - 1 {
          assert e in init[a];
        }
      }
    }
  }

  /** Entries of `adj[a]` all start at `a`. */
  ghost predicate NearEnds(adj: AdjList)
  {
    forall a, k :: 0 <= a < |adj| && 0 <= k < |adj[a]| ==> adj[a][k].u == a
  }

  /** Distinct far endpoints mean no entry occurs twice. */
  lemma {:induction false} DistinctCount(s: seq<Edge>, e: Edge)
    requires DistinctFar(s)
    ensures multiset(s)[e] <= 1
  {
    if s != [] {
      var init := s[..|s| - 1];
      DistinctCount(init, e);
      assert s == init + [s[|s| - 1]];
    }
  }

  /** How often `getEdges` lists an edge: as often as the list of its near endpoint holds it. */
  lemma {:induction false} FlattenCount(adj: AdjList, i: int, e: Edge)
    requires NearEnds(adj) && 0 <= i <= |adj|
    ensures multiset(Flatten(adj[..i]))[e] == if 0 <= e.u < i then multiset(adj[e.u])[e] else 0
  {
    if i > 0 {
      FlattenCount(adj, i - 1, e);
      FlattenPrefix(adj, i - 1);
    } else {
      assert adj[..0] == [];
    }
  }

  /** In a consistent graph `getEdges` lists each stored edge exactly once per orientation: every edge and its mirror appear, each once. */
  lemma FlattenMirrored(adj: AdjList, e: Edge)
    requires Consistent(adj) && e in Flatten(adj)
    ensures Reverse(e) in Flatten(adj)
    ensures multiset(Flatten(adj))[e] == 1 && multiset(Flatten(adj))[Reverse(e)] == 1
    ensures e.u != e.v ==> Reverse(e) != e
  {
    FlattenMembers(adj);
    var a :| 0 <= a < |adj| && e in adj[a];
    var k :| 0 <= k < |adj[a]| && adj[a][k] == e;
    assert Reverse(e) in adj[e.v];
    assert adj[..|adj|] == adj;
    FlattenCount(adj, |adj|, e);
    FlattenCount(adj, |adj|, Reverse(e));
    assert DistinctFar(adj[a]) && DistinctFar(adj[e.v]);
    DistinctCount(adj[a], e);
    DistinctCount(adj[e.v], Reverse(e));
  }

  // ---------------------------------------------------------------- isConnected

  /** Every vertex reaches itself. */
  lemma ReachableRefl(adj: AdjList, s: int)
    requires 0 <= s < |adj|
    ensures Reachable(adj, s, s)
  {
    assert IsPath(adj, [s]);
  }

  /** Following one adjacency entry extends reachability. */
  lemma ReachableStep(adj: AdjList, s: int, a: int, b: int)
    requires WellFormed(adj) && Reachable(adj, s, a) && Adjacent(adj, a, b)
    ensures Reachable(adj, s, b)
  {
    var p :| IsPath(adj, p) && p[0] == s && p[|p| - 1] == a;
    var q := p + [b];
    assert IsPath(adj, q);
  }

  /** Every vertex of a path from a member of a closed set is a member. */
  lemma {:induction false} PathStaysIn(adj: AdjList, member: seq<bool>, p: seq<int>, i: int)
    requires WellFormed(adj) && |member| == |adj| && Closed(adj, member)
    requires IsPath(adj, p) && member[p[0]] && 0 <= i < |p|
    ensures member[p[i]]
  {
    if i > 0 {
      PathStaysIn(adj, member, p, i - 1);
      var k :| 0 <= k < |adj[p[i - 1]]| && adj[p[i - 1]][k].v == p[i];
    }
  }

  /** A closed set holding `s` holds every vertex reachable from `s`. */
  lemma ClosedHoldsReachable(adj: AdjList, member: seq<bool>, s: int)
    requires WellFormed(adj) && |member| == |adj| && Closed(adj, member)
    requires 0 <= s < |adj| && member[s]
    ensures forall t :: Reachable(adj, s, t) ==> 0 <= t < |adj| && member[t]
  {
    forall t | Reachable(adj, s, t) ensures 0 <= t < |adj| && member[t] {
      var p :| IsPath(adj, p) && p[0] == s && p[|p| - 1] == t;
      PathStaysIn(adj, member, p, |p| - 1);
    }
  }
}
