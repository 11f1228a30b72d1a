/**
 * Graph.hpp / Graph.cpp: the `Graph` class, a weighted undirected graph kept as one adjacency
 * list per vertex and updated in place. Each method's contract gives the new state as a
 * function (module Adjacency) of the old one; the lemmas there say what those functions keep.
 */
module Graphs {
  import opened Edges
  import opened Wrappers
  import opened Adjacency

  /** `std::remove_if` followed by `erase` on one list: keep, in order, the entries not comparing equal to `x`. */
  method RemoveMatching(s: seq<Edge>, x: int) returns (r: seq<Edge>)
    ensures r == Without(s, x)
  {
    r := [];
    for i := 0 to |s|
      invariant r == Without(s[..i], x)
    {
      assert s[..i + 1][..i] == s[..i];
      if !Touches(s[i], x) {
        r := r + [s[i]];
      }
    }
    assert s[..|s|] == s;
  }

  /** The search loop of `addEdge`: whether some entry of `s` compares equal to `x`. */
  method HasTouching(s: seq<Edge>, x: int) returns (found: bool)
    ensures found <==> exists k :: 0 <= k < |s| && Touches(s[k], x)
  {
    found := false;
    for k := 0 to |s|
      invariant found <==> exists j :: 0 <= j < k && Touches(s[j], x)
    {
      if Touches(s[k], x) {
        found := true;
      }
    }
  }

  /** One half of `addEdge`: scan `adj[a]` for an entry comparing equal to `b`, and push `(a, b, w)` when there is none. */
  method PushUnlessTouching(adj: AdjList, a: int, b: int, w: int) returns (r: AdjList)
    requires 0 <= a < |adj|
    ensures r == AddHalf(adj, a, b, w)
  {
    r := adj;
    var found := HasTouching(adj[a], b);
    if !found {
      r := adj[a := adj[a] + [Edge(a, b, w)]];
    }
  }

  class Graph {
    var numVertices: int
    var adj: AdjList

    /** The shape every method keeps: one list per vertex, each entry starting at its list's vertex and ending at a vertex id. */
    ghost predicate Valid()
      reads this
    {
      numVertices == |adj| && WellFormed(adj)
    }

    /** The undirected-graph invariant: mirrored storage and at most one entry per far endpoint. */
    ghost predicate Undirected()
      reads this
    {
      Valid() && Consistent(adj)
    }

    /** `Graph(n)`: `n` isolated vertices. A negative count makes the source's `resize` throw, so it is excluded. */
    constructor (n: int)
      requires n >= 0
      ensures Valid() && Undirected()
      ensures numVertices == n && adj == Empty(n) && Flatten(adj) == []
    {
      numVertices := n;
      adj := Empty(n);
      EmptyGraph(n);
    }

    /** `resetGraph(n)`: discard every edge and start again with `n` isolated vertices. */
    method ResetGraph(n: int)
      requires n >= 0
      modifies this
      ensures Valid() && Undirected()
      ensures numVertices == n && adj == Empty(n) && Flatten(adj) == []
    {
      numVertices := n;
      adj := Empty(n);
      EmptyGraph(n);
    }

    /**
     * `addEdge(u, v, w)`: nothing when an id is out of range; otherwise `(u, v, w)` is pushed onto
     * `adj[u]` unless an entry there compares equal to `v`, then `(v, u, w)` onto `adj[v]` unless an
     * entry there compares equal to `u`.
     */
    method AddEdge(u: int, v: int, weight: int)
      requires Valid()
      modifies this
      ensures Valid() && numVertices == old(numVertices)
      ensures adj == WithEdge(old(adj), u, v, weight)
      ensures old(Undirected()) ==> Undirected()
    {
      ghost var before := adj;
      WithEdgeShape(before, u, v, weight);
      if Consistent(before) {
        WithEdgeConsistent(before, u, v, weight);
      }
      if u < 0 || u >= numVertices || v < 0 || v >= numVertices {
        return;
      }
      var lists := PushUnlessTouching(adj, u, v, weight);
      lists := PushUnlessTouching(lists, v, u, weight);
      adj := lists;
    }

    /**
     * `removeEdge(u, v)`: drop from `adj[u]` every entry comparing equal to `v`, then from `adj[v]`
     * every entry comparing equal to `u`. The source does not check the ids, so they must be in range.
     */
    method RemoveEdge(u: int, v: int)
      requires Valid() && 0 <= u < numVertices && 0 <= v < numVertices
      modifies this
      ensures Valid() && numVertices == old(numVertices)
      ensures adj == WithoutEdge(old(adj), u, v)
      ensures u != v && old(Undirected()) ==> Undirected()
    {
      WithoutEdgeShape(adj, u, v);
      if u != v && Undirected() {
        WithoutEdgeConsistent(adj, u, v);
      }
      var kept := RemoveMatching(adj[u], v);
      adj := adj[u := kept];
      kept := RemoveMatching(adj[v], u);
      adj := adj[v := kept];
    }

    /** `getEdges()`: every list, in vertex order, copied into one sequence. */
    method GetEdges() returns (edges: seq<Edge>)
      requires Valid()
      ensures edges == Flatten(adj)
    {
      edges := [];
      for i := 0 to numVertices
        invariant edges == Flatten(adj[..i])
      {
        for k := 0 to |adj[i]|
          invariant edges == Flatten(adj[..i]) + adj[i][..k]
        {
          edges := edges + [adj[i][k]];
        }
        assert adj[i][..|adj[i]|] == adj[i];
        FlattenPrefix(adj, i);
      }
      assert adj[..numVertices] == adj;
    }

    /** `getEdge(u, v)`: the first entry of `adj[u]` whose far endpoint is `v`; `out_of_range` when there is none. */
    method GetEdge(u: int, v: int) returns (r: Result<Edge>)
      requires Valid() && 0 <= u < numVertices
      ensures r.Ok? <==> Adjacent(adj, u, v)
      ensures r.Ok? ==> exists k :: 0 <= k < |adj[u]| && adj[u][k] == r.value && r.value.v == v &&
                                    forall j :: 0 <= j < k ==> adj[u][j].v != v
      ensures r == Err(EdgeNotFound) || r.Ok?
    {
      for k := 0 to |adj[u]|
        invariant forall j :: 0 <= j < k ==> adj[u][j].v != v
      {
        if adj[u][k].v == v {
          return Ok(adj[u][k]);
        }
      }
      return Err(EdgeNotFound);
    }

    /** `getNeighbors(u)`: a copy of `adj[u]`; its entries start at `u`, end at vertex ids and, in an undirected graph, are mirrored. */
    method GetNeighbors(u: int) returns (r: seq<Edge>)
      requires Valid() && 0 <= u < numVertices
      ensures r == adj[u]
      ensures forall k :: 0 <= k < |r| ==> r[k].u == u && 0 <= r[k].v < numVertices
      ensures Undirected() ==> forall k :: 0 <= k < |r| ==> Reverse(r[k]) in adj[r[k].v]
    {
      r := adj[u];
    }

    /** `getNumVertices()`: the vertex count, which is the number of adjacency lists. */
    function GetNumVertices(): (n: int)
      reads this
      requires Valid()
      ensures n == |adj| && n >= 0
    {
      numVertices
    }

    /**
     * `DFS(v, visited)`: mark `v`, then recurse into every unmarked far endpoint of `adj[v]`.
     * Every vertex it marks is reachable from `root`, and every vertex it marks has all its far
     * endpoints marked when it returns.
     */
    method Dfs(v: int, visited: array<bool>, ghost root: int)
      requires Valid() && visited.Length == numVertices
      requires 0 <= v < numVertices && !visited[v]
      requires 0 <= root < numVertices && Reachable(adj, root, v)
      modifies visited
      ensures visited[v]
      ensures forall x :: 0 <= x < visited.Length && old(visited[x]) ==> visited[x]
      ensures forall x :: 0 <= x < visited.Length && visited[x] && !old(visited[x]) ==> Reachable(adj, root, x)
      ensures forall x, k :: 0 <= x < visited.Length && visited[x] && !old(visited[x]) && 0 <= k < |adj[x]| ==>
                visited[adj[x][k].v]
      decreases set x | 0 <= x < visited.Length && !visited[x]
    {
      ghost var unvisited := set x | 0 <= x < visited.Length && !visited[x];
      visited[v] := true;
      for k := 0 to |adj[v]|
        invariant visited[v]
        invariant forall x :: 0 <= x < visited.Length && old(visited[x]) ==> visited[x]
        invariant forall x :: 0 <= x < visited.Length && visited[x] && !old(visited[x]) ==> Reachable(adj, root, x)
        invariant forall x, j :: 0 <= x < visited.Length && visited[x] && !old(visited[x]) && x != v && 0 <= j < |adj[x]| ==>
                    visited[adj[x][j].v]
        invariant forall j :: 0 <= j < k ==> visited[adj[v][j].v]
      {
        var w := adj[v][k].v;
        if !visited[w] {
          ReachableStep(adj, root, v, w);
          ghost var now := set x | 0 <= x < visited.Length && !visited[x];
          assert now <= unvisited && v in unvisited - now;
          Dfs(w, visited, root);
        }
      }
    }

    /** `isConnected()`: a depth-first search from vertex 0, then a scan for an unmarked vertex. Vertex 0 must exist. */
    method IsConnected() returns (connected: bool)
      requires Valid() && numVertices >= 1
      ensures connected <==> Connected(adj)
    {
      var visited := new bool[numVertices](_ => false);
      ReachableRefl(adj, 0);
      Dfs(0, visited, 0);
      for i := 0 to numVertices
        invariant forall j :: 0 <= j < i ==> visited[j]
      {
        if !visited[i] {
          ClosedHoldsReachable(adj, visited[..], 0);
          return false;
        }
      }
      return true;
    }
  }
}
