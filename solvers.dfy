/**
 * MSTSolver.cpp, the solver interface: `solve` dispatched to one of the two algorithms, and the
 * Graph overloads of the integer metrics, each of which solves once and measures the result.
 * The solver classes hold no fields, so a solver is a plain tag.
 */
module Solvers {
  import opened Edges
  import opened Wrappers
  import opened Adjacency
  import opened Forests
  import opened Graphs
  import Boruvka
  import Prim
  import opened Metrics

  /** `BoruvkaSolver` or `PrimSolver`. */
  datatype Solver = BoruvkaSolver | PrimSolver

  /**
   * What `solve` needs: a graph of at least one vertex (`isConnected` reads `visited[0]`) and,
   * for Boruvka, weights below its `INT_MAX` sentinel (otherwise its rounds need not end).
   */
  ghost predicate Runnable(solver: Solver, graph: Graph)
    reads graph
  {
    graph.Valid() && graph.numVertices >= 1 &&
    (solver == BoruvkaSolver ==> WeightsBelowMax(graph.adj))
  }

  /**
   * `solver->solve(graph)`. A disconnected graph gives the empty list; Prim's `getEdge` fails
   * only on a graph whose storage is not mirrored; whatever is returned is a forest of graph
   * edges, and a spanning tree when the graph is connected. Boruvka's tree starts with the
   * edges of its first round; Prim's stores every edge child first.
   */
  method Solve(solver: Solver, graph: Graph) returns (r: Result<seq<Edge>>)
    requires Runnable(solver, graph)
    ensures !Connected(graph.adj) ==> r == Ok([])
    ensures Symmetric(graph.adj) ==> r.Ok?
    ensures solver == BoruvkaSolver ==> r.Ok?
    ensures r.Ok? ==> FromGraph(graph.adj, r.value) && Acyclic(r.value)
    ensures r.Ok? && Connected(graph.adj) && WeightsBelowMax(graph.adj) ==> SpanningTree(graph.adj, r.value)
    ensures solver == BoruvkaSolver && Connected(graph.adj) && graph.numVertices >= 2 ==>
              r.Ok? && Boruvka.RoundEdges(graph.adj, Boruvka.Identity(graph.numVertices), []) <= r.value
    ensures solver == PrimSolver && r.Ok? ==> Prim.Oriented(r.value)
  {
    match solver
    case BoruvkaSolver =>
      var mst := Boruvka.Solve(graph);
      r := Ok(mst);
    case PrimSolver =>
      r := Prim.Solve(graph);
  }

  /** `totalWeight(graph)`: the truncated mean weight of one solved tree; no value for an empty tree. */
  method TotalWeightOf(solver: Solver, graph: Graph) returns (r: Result<Option<int>>)
    requires Runnable(solver, graph)
    ensures !Connected(graph.adj) ==> r == Ok(None)
    ensures Symmetric(graph.adj) ==> r.Ok?
    ensures r.Ok? ==> exists mst :: FromGraph(graph.adj, mst) && Acyclic(mst) && IsTruncatedMean(mst, r.value)
    ensures r.Ok? && Connected(graph.adj) && WeightsBelowMax(graph.adj) ==>
      exists mst :: SpanningTree(graph.adj, mst) && IsTruncatedMean(mst, r.value)
    ensures r.Ok? && Connected(graph.adj) && WeightsBelowMax(graph.adj) && graph.numVertices >= 2 ==> r.value.Some?
  {
    var solved := Solve(solver, graph);
    if solved.Err? {
      return Err(solved.error);
    }
    var mst := solved.value;
    var total := TotalWeight(mst);
    r := Ok(total);
  }

  /** `longestDistance(graph)`: the heaviest weight of one solved tree, 0 for an empty tree. */
  method LongestDistanceOf(solver: Solver, graph: Graph) returns (r: Result<int>)
    requires Runnable(solver, graph)
    ensures !Connected(graph.adj) ==> r == Ok(0)
    ensures Symmetric(graph.adj) ==> r.Ok?
    ensures r.Ok? ==> exists mst :: FromGraph(graph.adj, mst) && Acyclic(mst) && IsLongest(mst, r.value)
    ensures r.Ok? && Connected(graph.adj) && WeightsBelowMax(graph.adj) ==>
      exists mst :: SpanningTree(graph.adj, mst) && IsLongest(mst, r.value)
  {
    var solved := Solve(solver, graph);
    if solved.Err? {
      return Err(solved.error);
    }
    var mst := solved.value;
    var longest := LongestDistance(mst);
    r := Ok(longest);
  }

  /** `shortestDistance(graph)`: the lightest weight of one solved tree, `INT_MAX` for an empty tree. */
  method ShortestDistanceOf(solver: Solver, graph: Graph) returns (r: Result<int>)
    requires Runnable(solver, graph)
    ensures !Connected(graph.adj) ==> r == Ok(INT_MAX)
    ensures Symmetric(graph.adj) ==> r.Ok?
    ensures r.Ok? ==> exists mst :: FromGraph(graph.adj, mst) && Acyclic(mst) && IsShortest(mst, r.value)
    ensures r.Ok? && Connected(graph.adj) && WeightsBelowMax(graph.adj) ==>
      exists mst :: SpanningTree(graph.adj, mst) && IsShortest(mst, r.value)
    ensures r.Ok? && Connected(graph.adj) && WeightsBelowMax(graph.adj) && graph.numVertices >= 2 ==> r.value < INT_MAX
  {
    var solved := Solve(solver, graph);
    if solved.Err? {
      return Err(solved.error);
    }
    var mst := solved.value;
    var shortest := ShortestDistance(mst);
    r := Ok(shortest);
    if Connected(graph.adj) && WeightsBelowMax(graph.adj) && graph.numVertices >= 2 {
      TreeWeightsBelowMax(graph.adj, mst);
      assert shortest <= mst[0].weight;
    }
  }

  /**
   * `averageDistance(graph)`: despite the double return type, it returns `totalWeight` of the
   * solved tree, so the fraction is lost and the result is always a whole number.
   */
  method AverageDistanceOf(solver: Solver, graph: Graph) returns (r: Result<Option<real>>)
    requires Runnable(solver, graph)
    ensures !Connected(graph.adj) ==> r == Ok(None)
    ensures Symmetric(graph.adj) ==> r.Ok?
    ensures r.Ok? && r.value.Some? ==> r.value.value == r.value.value.Floor as real
    ensures r.Ok? ==> exists mst :: (FromGraph(graph.adj, mst) && Acyclic(mst) &&
                                     IsTruncatedMean(mst, if r.value.Some? then Some(r.value.value.Floor) else None))
  {
    var total := TotalWeightOf(solver, graph);
    if total.Err? {
      return Err(total.error);
    }
    if total.value.None? {
      return Ok(None);
    }
    r := Ok(Some(total.value.value as real));
  }

  /** The edges of a tree taken from a graph whose weights are below `INT_MAX` are below it too. */
  lemma TreeWeightsBelowMax(adj: AdjList, mst: seq<Edge>)
    requires WellFormed(adj) && WeightsBelowMax(adj) && FromGraph(adj, mst)
    ensures forall i :: 0 <= i < |mst| ==> mst[i].weight < INT_MAX
  {
    forall i | 0 <= i < |mst|
      ensures mst[i].weight < INT_MAX
    {
      var a := mst[i].u;
      var k :| 0 <= k < |adj[a]| && adj[a][k] == mst[i];
    }
  }
}
