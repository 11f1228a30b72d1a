/**
 * The two graphs Test.cpp builds, run through the factory and both solvers: a 4-vertex graph
 * in two pieces, for which both solvers return nothing, and a connected 5-vertex graph, for
 * which both return a spanning tree of four edges.
 */
module Scenarios {
  import opened Edges
  import opened Wrappers
  import opened Adjacency
  import opened Forests
  import opened Graphs
  import opened Solvers
  import opened Factory
  import opened Metrics
  import Boruvka
  import Prim

  /** The lists of `Graph g(4)` after `addEdge(0, 1, 10)` and `addEdge(2, 3, 4)`. */
  function TwoPieces(): AdjList
  {
    WithEdge(WithEdge(Empty(4), 0, 1, 10), 2, 3, 4)
  }

  /** The lists of `Graph g(5)` after its six `addEdge` calls. */
  function FivePoints(): AdjList
  {
    WithEdge(WithEdge(WithEdge(WithEdge(WithEdge(WithEdge(Empty(5),
      0, 1, 2), 0, 3, 6), 1, 2, 3), 1, 4, 5), 2, 4, 7), 3, 4, 9)
  }

  /** Vertices 0 and 1 form a set no edge leaves, so vertex 2 cannot be reached from 0. */
  lemma TwoPiecesDisconnected()
    ensures WellFormed(TwoPieces()) && |TwoPieces()| == 4
    ensures Adjacent(TwoPieces(), 0, 1) && Adjacent(TwoPieces(), 2, 3)
    ensures !Reachable(TwoPieces(), 0, 2) && !Connected(TwoPieces())
  {
    var member := [true, true, false, false];
    var g0 := Empty(4);
    EmptyGraph(4);
    var g1 := WithEdge(g0, 0, 1, 10);
    WithEdgeShape(g0, 0, 1, 10);
    WithEdgeClosed(g0, member, 0, 1, 10);
    WithEdgeAdjacent(g0, 0, 1, 10, 0, 1);
    var g2 := WithEdge(g1, 2, 3, 4);
    WithEdgeShape(g1, 2, 3, 4);
    WithEdgeClosed(g1, member, 2, 3, 4);
    WithEdgeAdjacent(g1, 2, 3, 4, 0, 1);
    assert g2 == TwoPieces();
    ClosedHoldsReachable(g2, member, 0);
  }

  /** The second graph holds the steps 0-1, 0-3, 1-2 and 1-4, each added by one of its `addEdge` calls and kept by the later ones. */
  lemma FivePointsSteps()
    ensures WellFormed(FivePoints()) && |FivePoints()| == 5
    ensures Adjacent(FivePoints(), 0, 1) && Adjacent(FivePoints(), 0, 3)
    ensures Adjacent(FivePoints(), 1, 2) && Adjacent(FivePoints(), 1, 4)
  {
    var g0 := Empty(5);
    EmptyGraph(5);
    var g1 := WithEdge(g0, 0, 1, 2);
    WithEdgeShape(g0, 0, 1, 2);
    TreeStepsKept(g0, 0, 1, 2);
    var g2 := WithEdge(g1, 0, 3, 6);
    WithEdgeShape(g1, 0, 3, 6);
    TreeStepsKept(g1, 0, 3, 6);
    var g3 := WithEdge(g2, 1, 2, 3);
    WithEdgeShape(g2, 1, 2, 3);
    TreeStepsKept(g2, 1, 2, 3);
    var g4 := WithEdge(g3, 1, 4, 5);
    WithEdgeShape(g3, 1, 4, 5);
    TreeStepsKept(g3, 1, 4, 5);
    var g5 := WithEdge(g4, 2, 4, 7);
    WithEdgeShape(g4, 2, 4, 7);
    TreeStepsKept(g4, 2, 4, 7);
    var g6 := WithEdge(g5, 3, 4, 9);
    WithEdgeShape(g5, 3, 4, 9);
    TreeStepsKept(g5, 3, 4, 9);
    assert g6 == FivePoints();
  }

  /** Every vertex of the second graph is reachable from 0, along the steps 0-1, 0-3, 1-2 and 1-4. */
  lemma FivePointsConnected()
    ensures WellFormed(FivePoints()) && |FivePoints()| == 5
    ensures Connected(FivePoints())
  {
    var g6 := FivePoints();
    FivePointsSteps();
    ReachableRefl(g6, 0);
    ReachableStep(g6, 0, 0, 1);
    ReachableStep(g6, 0, 1, 2);
    ReachableStep(g6, 0, 0, 3);
    ReachableStep(g6, 0, 1, 4);
  }

  /** Every weight of the second graph is below `INT_MAX`, so Boruvka may run on it. */
  lemma FivePointsBelowMax()
    ensures WeightsBelowMax(FivePoints())
  {
    var g0 := Empty(5);
    EmptyGraph(5);
    WithEdgeBelowMax(g0, 0, 1, 2);
    var g1 := WithEdge(g0, 0, 1, 2);
    WithEdgeBelowMax(g1, 0, 3, 6);
    var g2 := WithEdge(g1, 0, 3, 6);
    WithEdgeBelowMax(g2, 1, 2, 3);
    var g3 := WithEdge(g2, 1, 2, 3);
    WithEdgeBelowMax(g3, 1, 4, 5);
    var g4 := WithEdge(g3, 1, 4, 5);
    WithEdgeBelowMax(g4, 2, 4, 7);
    var g5 := WithEdge(g4, 2, 4, 7);
    WithEdgeBelowMax(g5, 3, 4, 9);
  }

  /** The tree Test.cpp expects from Boruvka on the second graph, in the order its one round merges it. */
  function Expected(): seq<Edge>
  {
    [Edge(0, 1, 2), Edge(1, 2, 3), Edge(0, 3, 6), Edge(1, 4, 5)]
  }

  /**
   * An `addEdge(u, v, w)` whose ends hold no entry comparing equal to the other end pushes onto
   * both ends and leaves the other lists alone.
   */
  lemma PushedBoth(adj: AdjList, u: int, v: int, w: int, after: AdjList)
    requires 0 <= u < |adj| && 0 <= v < |adj| && u != v
    requires forall k :: 0 <= k < |adj[u]| ==> adj[u][k].u != v && adj[u][k].v != v
    requires forall k :: 0 <= k < |adj[v]| ==> adj[v][k].u != u && adj[v][k].v != u
    requires |after| == |adj| && after[u] == adj[u] + [Edge(u, v, w)] && after[v] == adj[v] + [Edge(v, u, w)]
    requires forall a :: 0 <= a < |adj| && a != u && a != v ==> after[a] == adj[a]
    ensures WithEdge(adj, u, v, w) == after
  {
    var first := adj[u := adj[u] + [Edge(u, v, w)]];
    assert AddHalf(adj, u, v, w) == first;
    assert AddHalf(first, v, u, w) == first[v := adj[v] + [Edge(v, u, w)]];
  }

  /** The lists of the second graph after its first `k` `addEdge` calls. */
  function Built(k: nat): (adj: AdjList)
    requires k <= 6
    ensures |adj| == 5
  {
    match k
    case 0 => [[], [], [], [], []]
    case 1 => [[Edge(0, 1, 2)], [Edge(1, 0, 2)], [], [], []]
    case 2 => [[Edge(0, 1, 2), Edge(0, 3, 6)], [Edge(1, 0, 2)], [], [Edge(3, 0, 6)], []]
    case 3 => [[Edge(0, 1, 2), Edge(0, 3, 6)], [Edge(1, 0, 2), Edge(1, 2, 3)], [Edge(2, 1, 3)], [Edge(3, 0, 6)], []]
    case 4 => [[Edge(0, 1, 2), Edge(0, 3, 6)], [Edge(1, 0, 2), Edge(1, 2, 3), Edge(1, 4, 5)], [Edge(2, 1, 3)],
               [Edge(3, 0, 6)], [Edge(4, 1, 5)]]
    case 5 => [[Edge(0, 1, 2), Edge(0, 3, 6)], [Edge(1, 0, 2), Edge(1, 2, 3), Edge(1, 4, 5)],
               [Edge(2, 1, 3), Edge(2, 4, 7)], [Edge(3, 0, 6)], [Edge(4, 1, 5), Edge(4, 2, 7)]]
    case 6 => [[Edge(0, 1, 2), Edge(0, 3, 6)], [Edge(1, 0, 2), Edge(1, 2, 3), Edge(1, 4, 5)],
               [Edge(2, 1, 3), Edge(2, 4, 7)], [Edge(3, 0, 6), Edge(3, 4, 9)], [Edge(4, 1, 5), Edge(4, 2, 7), Edge(4, 3, 9)]]
  }

  /** Each `addEdge` call of the second graph, on the lists the earlier calls built, pushes onto both of its ends. */
  lemma BuiltStep(k: nat)
    requires 1 <= k <= 6
    ensures k == 1 ==> WithEdge(Built(0), 0, 1, 2) == Built(1)
    ensures k == 2 ==> WithEdge(Built(1), 0, 3, 6) == Built(2)
    ensures k == 3 ==> WithEdge(Built(2), 1, 2, 3) == Built(3)
    ensures k == 4 ==> WithEdge(Built(3), 1, 4, 5) == Built(4)
    ensures k == 5 ==> WithEdge(Built(4), 2, 4, 7) == Built(5)
    ensures k == 6 ==> WithEdge(Built(5), 3, 4, 9) == Built(6)
  {
    if k == 1 {
      PushedBoth(Built(0), 0, 1, 2, Built(1));
    } else if k == 2 {
      PushedBoth(Built(1), 0, 3, 6, Built(2));
    } else if k == 3 {
      PushedBoth(Built(2), 1, 2, 3, Built(3));
    } else if k == 4 {
      PushedBoth(Built(3), 1, 4, 5, Built(4));
    } else if k == 5 {
      PushedBoth(Built(4), 2, 4, 7, Built(5));
    } else {
      PushedBoth(Built(5), 3, 4, 9, Built(6));
    }
  }

  /** The lists of the second graph: no pair repeats, so every `addEdge` pushes onto both of its ends. */
  lemma FivePointsLists()
    ensures FivePoints() == Built(6)
  {
    assert Empty(5) == Built(0);
    BuiltStep(1);
    BuiltStep(2);
    BuiltStep(3);
    BuiltStep(4);
    BuiltStep(5);
    BuiltStep(6);
  }

  /** What `getEdges()` returns on the second graph: its lists one after the other, twelve entries. */
  function FivePointsEdges(): seq<Edge>
  {
    [Edge(0, 1, 2), Edge(0, 3, 6), Edge(1, 0, 2), Edge(1, 2, 3), Edge(1, 4, 5), Edge(2, 1, 3),
     Edge(2, 4, 7), Edge(3, 0, 6), Edge(3, 4, 9), Edge(4, 1, 5), Edge(4, 2, 7), Edge(4, 3, 9)]
  }

  /** The flattening of the second graph's lists, list by list, is `FivePointsEdges()`. */
  lemma FivePointsFlat()
    ensures Flatten(Built(6)) == FivePointsEdges()
  {
    var adj := Built(6);
    var all := FivePointsEdges();
    assert adj[..0] == [];
    FlattenPrefix(adj, 0);
    assert Flatten(adj[..1]) == all[..2];
    FlattenPrefix(adj, 1);
    assert Flatten(adj[..2]) == all[..5];
    FlattenPrefix(adj, 2);
    assert Flatten(adj[..3]) == all[..7];
    FlattenPrefix(adj, 3);
    assert Flatten(adj[..4]) == all[..9];
    FlattenPrefix(adj, 4);
    assert adj[..5] == adj;
  }

  /** Every entry of the second graph joins two of its five vertices, and every vertex alone is a labelling. */
  lemma FivePointsScanWellFormed()
    ensures Boruvka.EdgesIn(FivePointsEdges(), 5) && Boruvka.Labelling(Boruvka.Identity(5))
  {
    Boruvka.IdentityFixed(5);
  }

  /**
   * The slots of the first round's scan of the second graph, every vertex alone, after its first
   * `k` entries: a slot holds the first cheapest entry seen so far leaving its vertex.
   */
  function Slots(k: nat): seq<Edge>
  {
    var none := Boruvka.Sentinel;
    if k == 0 then [none, none, none, none, none]
    else if k == 1 then [Edge(0, 1, 2), Edge(0, 1, 2), none, none, none]
    else if k <= 3 then [Edge(0, 1, 2), Edge(0, 1, 2), none, Edge(0, 3, 6), none]
    else if k == 4 then [Edge(0, 1, 2), Edge(0, 1, 2), Edge(1, 2, 3), Edge(0, 3, 6), none]
    else [Edge(0, 1, 2), Edge(0, 1, 2), Edge(1, 2, 3), Edge(0, 3, 6), Edge(1, 4, 5)]
  }

  /** One entry of the scan: a slot takes the entry only when it is strictly lighter than what the slot holds. */
  lemma SlotsStep(k: nat)
    requires k < 12
    requires Boruvka.EdgesIn(FivePointsEdges(), 5) && Boruvka.Labelling(Boruvka.Identity(5))
    requires Boruvka.Cheapest(FivePointsEdges()[..k], Boruvka.Identity(5)) == Slots(k)
    ensures Boruvka.Cheapest(FivePointsEdges()[..k + 1], Boruvka.Identity(5)) == Slots(k + 1)
  {
    Boruvka.CheapestStep(FivePointsEdges(), Boruvka.Identity(5), k);
  }

  /**
   * The first round's scan of the second graph, every vertex alone: the first cheapest entry
   * leaving each vertex, 0-1 for both 0 and 1, 1-2 for 2, 0-3 for 3 and 1-4 for 4.
   */
  lemma FivePointsSlots()
    ensures Boruvka.EdgesIn(FivePointsEdges(), 5) && Boruvka.Labelling(Boruvka.Identity(5))
    ensures Boruvka.Cheapest(FivePointsEdges(), Boruvka.Identity(5)) == Slots(12)
  {
    FivePointsScanWellFormed();
    var edges := FivePointsEdges();
    assert edges[..0] == [];
    SlotsStep(0);
    SlotsStep(1);
    SlotsStep(2);
    SlotsStep(3);
    SlotsStep(4);
    SlotsStep(5);
    SlotsStep(6);
    SlotsStep(7);
    SlotsStep(8);
    SlotsStep(9);
    SlotsStep(10);
    SlotsStep(11);
    assert edges[..12] == edges;
  }

  /** A vertex no edge of `es` touches is joined to no other vertex, from either side. */
  lemma NotJoinedToUntouched(es: seq<Edge>, x: int, y: int)
    requires forall j :: 0 <= j < |es| ==> es[j].u != y && es[j].v != y
    requires x != y
    ensures !Joins(es, x, y)
  {
    UntouchedIsolated(es, y, x);
    if Joins(es, x, y) {
      JoinsSym(es, x, y);
    }
  }

  /** A slot whose far end no merged edge touches yet is appended by the merge. */
  lemma MergeAppends(slots: seq<Edge>, k: int, before: seq<Edge>)
    requires 0 <= k < |slots| && Boruvka.Merged([], slots[..k]) == before
    requires slots[k] != Boruvka.Sentinel && slots[k].u != slots[k].v
    requires forall j :: 0 <= j < |before| ==> before[j].u != slots[k].v && before[j].v != slots[k].v
    ensures Boruvka.Merged([], slots[..k + 1]) == before + [slots[k]]
  {
    NotJoinedToUntouched(before, slots[k].u, slots[k].v);
    Boruvka.MergedStep([], slots, k);
  }

  /** A slot whose ends a merged edge already links is skipped by the merge. */
  lemma MergeSkips(slots: seq<Edge>, k: int, before: seq<Edge>)
    requires 0 <= k < |slots| && Boruvka.Merged([], slots[..k]) == before
    requires Linked(before, slots[k].u, slots[k].v)
    ensures Boruvka.Merged([], slots[..k + 1]) == before
  {
    JoinsLinked(before, slots[k].u, slots[k].v);
    Boruvka.MergedStep([], slots, k);
  }

  /** What the first round's merge on the second graph has appended after its first `k` slots. */
  function MergedSoFar(k: nat): seq<Edge>
  {
    if k == 0 then [] else if k <= 2 then [Edge(0, 1, 2)]
    else if k == 3 then [Edge(0, 1, 2), Edge(1, 2, 3)]
    else if k == 4 then [Edge(0, 1, 2), Edge(1, 2, 3), Edge(0, 3, 6)]
    else Expected()
  }

  /** One slot of the merge on the second graph: 0-1 again for `k == 2`, whose ends are already joined. */
  lemma FivePointsMergeNext(slots: seq<Edge>, k: nat)
    requires slots == Slots(12) && 1 <= k <= 5
    requires Boruvka.Merged([], slots[..k - 1]) == MergedSoFar(k - 1)
    ensures Boruvka.Merged([], slots[..k]) == MergedSoFar(k)
  {
    if k == 2 {
      assert Linked(MergedSoFar(1), 0, 1);
      MergeSkips(slots, 1, MergedSoFar(1));
    } else {
      MergeAppends(slots, k - 1, MergedSoFar(k - 1));
      assert MergedSoFar(k - 1) + [slots[k - 1]] == MergedSoFar(k);
    }
  }

  /**
   * The first round's merge on the second graph, slot by slot: 0-1 is taken once (its second
   * slot finds 0 and 1 already joined), and 1-2, 0-3 and 1-4 each reach a vertex no earlier edge
   * touches.
   */
  lemma {:induction false} FivePointsMerge(slots: seq<Edge>, k: nat)
    requires slots == Slots(12) && k <= 5
    ensures Boruvka.Merged([], slots[..k]) == MergedSoFar(k)
  {
    if k == 0 {
      assert slots[..0] == [];
    } else {
      FivePointsMerge(slots, k - 1);
      FivePointsMergeNext(slots, k);
    }
  }

  /** Boruvka's first round on the second graph, every vertex alone, merges exactly the expected tree. */
  lemma FivePointsFirstRound()
    ensures WellFormed(FivePoints()) && |FivePoints()| == 5 && Boruvka.Labelling(Boruvka.Identity(5))
    ensures Boruvka.RoundEdges(FivePoints(), Boruvka.Identity(5), []) == Expected()
  {
    FivePointsRoundSlots();
    FivePointsMergeAll(Slots(12));
  }

  /** The slot table the second graph's first round fills, read off its flattened lists. */
  lemma FivePointsRoundSlots()
    ensures WellFormed(FivePoints()) && |FivePoints()| == 5 && Boruvka.Labelling(Boruvka.Identity(5))
    ensures Boruvka.EdgesIn(Flatten(FivePoints()), 5)
    ensures Boruvka.Cheapest(Flatten(FivePoints()), Boruvka.Identity(5)) == Slots(12)
  {
    FivePointsSteps();
    FivePointsLists();
    FivePointsFlat();
    FivePointsSlots();
  }

  /** Merging the whole slot table into an empty tree yields the expected tree. */
  lemma FivePointsMergeAll(slots: seq<Edge>)
    requires slots == Slots(12)
    ensures Boruvka.Merged([], slots) == Expected()
  {
    FivePointsMerge(slots, 5);
    assert slots[..5] == slots;
  }

  /**
   * A spanning tree of the second graph that starts with the first round's merge is exactly the
   * expected tree: the round already appends four edges, as many as a spanning tree of five
   * vertices has.
   */
  lemma BoruvkaFivePoints(adj: AdjList, mst: seq<Edge>)
    requires adj == FivePoints() && WellFormed(adj) && |adj| == 5 && Boruvka.Labelling(Boruvka.Identity(5))
    requires SpanningTree(adj, mst) && Boruvka.RoundEdges(adj, Boruvka.Identity(5), []) <= mst
    ensures mst == Expected() && Sum(mst) == 16
  {
    FivePointsFirstRound();
    assert mst[..4] == Expected();
    ExpectedWeights();
  }

  /** The expected tree weighs 2 + 3 + 6 + 5 = 16; its heaviest edge weighs 6 and its lightest 2. */
  lemma ExpectedWeights()
    ensures Sum(Expected()) == 16
    ensures IsLongest(Expected(), 6) && IsShortest(Expected(), 2) && IsTruncatedMean(Expected(), Some(4))
  {
    var t := Expected();
    assert t[..1][..0] == [];
    assert Sum(t[..1]) == 2;
    assert t[..2][..1] == t[..1];
    assert Sum(t[..2]) == 5;
    assert t[..3][..2] == t[..2];
    assert Sum(t[..3]) == 11;
    assert t[..3] == t[..|t| - 1];
    assert t[2].weight == 6 && t[0].weight == 2;
  }

  /** One more `addEdge` keeps the steps 0-1, 0-3, 1-2 and 1-4 of the tree that joins the second graph, and adds its own pair. */
  lemma TreeStepsKept(g: AdjList, u: int, v: int, w: int)
    requires WellFormed(g)
    ensures Adjacent(g, 0, 1) ==> Adjacent(WithEdge(g, u, v, w), 0, 1)
    ensures Adjacent(g, 0, 3) ==> Adjacent(WithEdge(g, u, v, w), 0, 3)
    ensures Adjacent(g, 1, 2) ==> Adjacent(WithEdge(g, u, v, w), 1, 2)
    ensures Adjacent(g, 1, 4) ==> Adjacent(WithEdge(g, u, v, w), 1, 4)
    ensures 0 <= u < |g| && 0 <= v < |g| && u != v ==> Adjacent(WithEdge(g, u, v, w), u, v)
  {
    WithEdgeAdjacent(g, u, v, w, 0, 1);
    WithEdgeAdjacent(g, u, v, w, 0, 3);
    WithEdgeAdjacent(g, u, v, w, 1, 2);
    WithEdgeAdjacent(g, u, v, w, 1, 4);
  }

  /**
   * Test.cpp, "Test Non-connected graph": `isConnected()` is false, and the solvers the factory
   * makes for `BORUVKA` and for `PRIM` both return the empty list.
   */
  method TwoPiecesScenario() returns (connected: bool, boruvka: Result<seq<Edge>>, prim: Result<seq<Edge>>)
    ensures !connected
    ensures boruvka == Ok([]) && prim == Ok([])
  {
    var g := new Graph(4);
    g.AddEdge(0, 1, 10);
    g.AddEdge(2, 3, 4);
    TwoPiecesDisconnected();
    EmptyGraph(4);
    WithEdgeBelowMax(Empty(4), 0, 1, 10);
    WithEdgeBelowMax(WithEdge(Empty(4), 0, 1, 10), 2, 3, 4);
    connected := g.IsConnected();
    var solver := CreateSolver(Code(BORUVKA));
    boruvka := Solvers.Solve(solver.value, g);
    solver := CreateSolver(Code(PRIM));
    prim := Solvers.Solve(solver.value, g);
  }

  /**
   * Test.cpp, "Connected graph": `isConnected()` is true, Boruvka returns exactly the expected
   * edges 0-1, 1-2, 0-3 and 1-4 (weight 16), and Prim returns a spanning tree of the graph,
   * four edges taken from it without a cycle, each stored child first.
   */
  method FivePointsScenario() returns (connected: bool, boruvka: Result<seq<Edge>>, prim: Result<seq<Edge>>)
    ensures connected
    ensures boruvka.Ok? && boruvka.value == Expected() && Sum(boruvka.value) == 16
    ensures SpanningTree(FivePoints(), boruvka.value)
    ensures prim.Ok? && |prim.value| == 4 && SpanningTree(FivePoints(), prim.value)
    ensures Prim.Oriented(prim.value)
  {
    var g := new Graph(5);
    g.AddEdge(0, 1, 2);
    g.AddEdge(0, 3, 6);
    g.AddEdge(1, 2, 3);
    g.AddEdge(1, 4, 5);
    g.AddEdge(2, 4, 7);
    g.AddEdge(3, 4, 9);
    FivePointsConnected();
    FivePointsBelowMax();
    connected := g.IsConnected();
    var solver := CreateSolver(Code(BORUVKA));
    boruvka := Solvers.Solve(solver.value, g);
    FivePointsFirstRound();
    BoruvkaFivePoints(g.adj, boruvka.value);
    solver := CreateSolver(Code(PRIM));
    prim := Solvers.Solve(solver.value, g);
  }
}
