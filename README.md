# Minimum spanning trees over an adjacency-list graph

This project models the computational core of a small C++ minimum-spanning-tree service:

- the weighted undirected `Graph`, stored as one list of `Edge` records per vertex;
- the two solvers, Boruvka's algorithm over a union-find forest and Prim's algorithm over an
  ordered set of `(key, vertex, parent)` triples;
- the integer metrics computed over a solved tree;
- the factory that picks a solver from an `MSTType` value;
- the two test scenarios.

Each part is written in the form the C++ takes:

- `Graph` is a Dafny class over `seq<seq<Edge>>`. Its updates change that field in place.
- `find` and `unionSets` work on `array<int>` parents and ranks.
- Each solver and metric is a method with loops and invariants. Each is proved against a
  specification: a spanning tree (`n - 1` graph edges, no cycle, every vertex joined to vertex 0),
  the largest or smallest weight, or the truncated mean.

Modules, one per file:

| file | module | models |
|---|---|---|
| wrappers.dfy | `Wrappers` | `Option`/`Result`, `std::out_of_range` as `EdgeNotFound` |
| edges.dfy | `Edges` | `Edge`, its two `operator==` |
| adjacency.dfy | `Adjacency` | the value of `adj` and what each update does to it, as functions; reachability |
| graph.dfy | `Graphs` | class `Graph` |
| forests.dfy | `Forests` | walks, acyclicity and spanning trees over edge lists |
| union_find.dfy | `UnionFind` | `find`, `unionSets` |
| boruvka.dfy | `Boruvka` | `BoruvkaSolver::solve` |
| prim.dfy | `Prim` | `PrimSolver::solve` |
| metrics.dfy | `Metrics` | `totalWeight`, `longestDistance`, `shortestDistance` on an edge list |
| solvers.dfy | `Solvers` | solver dispatch and the `Graph&` overloads of the metrics |
| factory.dfy | `Factory` | `MSTFactory::createSolver` |
| scenarios.dfy | `Scenarios` | the two graphs of Test.cpp |

The model keeps several behaviours of the code that callers might not expect:

- `Edge == int` is true when the id is either endpoint. `addEdge` therefore refuses a second edge
  between a pair whatever its weight. `removeEdge(u, u)` empties the whole list of `u`
  (`Adjacency.WithoutEdgeSelfLoop`), and it is the one case of `removeEdge` that can break the
  mirrored storage.
- `totalWeight(mst)` returns the mean weight truncated toward zero, not the sum.
  `averageDistance(graph)` returns that same integer.
- Prim's `pq.erase({key[v], v, u})` names the new parent `u`, so it usually erases nothing.
  The stale triple stays queued and is skipped later by the `inMST` test. The model's queue
  invariant (`Prim.Queued`) requires only that each vertex's current best triple is present.
  Stale triples may remain.
- Boruvka seeds each slot with weight `INT_MAX` and replaces it only on a strictly smaller weight.
  An edge of weight `INT_MAX` is never chosen, so `Boruvka.Solve` requires every weight to be
  below `INT_MAX`. Without that its loop need not end.
- Prim's `getEdge(u, parent_u)` throws when the mirror entry is missing. This is modelled as
  `Err(EdgeNotFound)`, and proved impossible on mirrored storage.

## Model

| member | source | states |
|---|---|---|
| Edges.SameEdge | Graph.hpp:17-19 | `operator==(const Edge&)`, the field-wise comparison itself; what it means is proved by Edges.SameEdgeIgnoresOrientation (an edge equals its reverse), Edges.SameEdgeCharacterized (equal weights are needed) and Edges.SameEdgeIsEquivalence (an equivalence relation) |
| Edges.Touches | Graph.hpp:21-23 | `operator==(const int&)`, the endpoint test itself; Edges.TouchesEndpoints proves both endpoints match and that orientation does not matter, and Adjacency.TouchesFar that some entry stored at `a` matches an id other than `a` exactly when `a` is adjacent to that id |
| Edges.SameEdgeIgnoresOrientation | Graph.hpp:17-19 | an edge equals its reverse; reversing twice gives the edge back |
| Edges.SameEdgeCharacterized | Graph.hpp:17-19 | equal edges have equal weights; the same endpoints with another weight do not compare equal |
| Edges.SameEdgeIsEquivalence | Graph.hpp:17-19 | edge equality is reflexive, symmetric and transitive |
| Edges.TouchesEndpoints | Graph.hpp:21-23 | every edge compares equal to both of its endpoints, and an edge and its reverse compare equal to the same ids |
| Adjacency.Empty | Graph.cpp:5-12 | the constructor's lists: `n` of them, all empty, satisfying the list-shape invariant |
| Adjacency.AddHalf | Graph.cpp:29-37 | one half of `addEdge`: afterwards `adj[a]` holds an entry comparing equal to `b`; `adj[a]` is unchanged or gains exactly `(a, b, w)` at its end; every other list is unchanged |
| Adjacency.WithEdge | Graph.cpp:25-47 | `addEdge` keeps the vertex count; for in-range ids both lists then hold an entry comparing equal to the other end; an out-of-range id changes nothing |
| Adjacency.Without | Graph.cpp:50-55 | the `remove_if`/`erase` filter: never longer than the list, and no kept entry compares equal to `x` |
| Adjacency.WithoutEdge | Graph.cpp:49-63 | `removeEdge` keeps the vertex count, leaves no entry of `adj[u]` comparing equal to `v` nor of `adj[v]` comparing equal to `u`, and leaves every other list alone |
| Adjacency.Flatten | Graph.cpp:65-73 | `getEdges`: every returned edge is stored in some list |
| Adjacency.EmptyGraph | Graph.cpp:5-12 | `n` empty lists satisfy the undirected-graph invariant and list no edges |
| Adjacency.TouchesFar | Graph.cpp:30-34 | in a list stored at `a`, an entry compares equal to some `x != a` iff its far end is `x` |
| Adjacency.WithEdgeShape | Graph.cpp:25-28 | `addEdge` keeps the vertex count and the list shape, and does nothing for an out-of-range id |
| Adjacency.WithEdgeExisting | Graph.cpp:29-46 | `addEdge` on an already joined pair changes nothing, whatever the weight |
| Adjacency.WithEdgeFresh | Graph.cpp:35-46 | `addEdge` on an unjoined pair `u != v` appends `(u,v,w)` to `adj[u]` and `(v,u,w)` to `adj[v]`, nothing else |
| Adjacency.WithEdgeSelfLoop | Graph.cpp:29-46 | a self-loop is stored once, and only when its list was empty |
| Adjacency.SelfLoopConsistent | Graph.cpp:35-37 | storing a self-loop in an empty list keeps the undirected-graph invariant |
| Adjacency.AppendPairEntry | Graph.cpp:35-46 | the entries after appending a fresh pair: old ones unchanged, one new entry at the end of each of the two lists |
| Adjacency.FreshPairSymmetric | Graph.cpp:35-46 | appending a fresh pair keeps every entry mirrored |
| Adjacency.FreshPairNoDuplicates | Graph.cpp:29-46 | appending a pair not yet joined keeps one entry per far endpoint |
| Adjacency.WithEdgeConsistent | Graph.cpp:25-47 | `addEdge` preserves the invariant: mirrored storage and at most one entry per pair |
| Adjacency.WithEdgeIdempotent | Graph.cpp:29-46 | on any well-formed lists, a second `addEdge` on the same pair, with any weight, changes nothing |
| Adjacency.WithEdgeGrows | Graph.cpp:35-46 | `addEdge` only appends: each list keeps its entries and gains at most the new one |
| Adjacency.WithEdgeAdjacent | Graph.cpp:25-47 | `addEdge` never separates two vertices, and joins an in-range pair `u != v` both ways |
| Adjacency.WithEdgeClosed | Graph.cpp:25-47 | an edge added inside a vertex set, or wholly outside it, leaves the set closed under adjacency |
| Adjacency.WithEdgeBelowMax | Graph.cpp:35-46 | `addEdge` with a weight below `INT_MAX` keeps every stored weight below it |
| Adjacency.WithoutMembers | Graph.cpp:50-55 | the filter keeps exactly the entries not comparing equal to `x`; it never grows the list; it is the identity when no entry matches |
| Adjacency.WithoutAppend | Graph.cpp:50-55 | filtering a concatenation filters each part; order is kept, as with a stable `remove_if` |
| Adjacency.WithoutKeepsEntries | Graph.cpp:50-55 | every kept entry is an original entry that does not match |
| Adjacency.WithoutEdgeShape | Graph.cpp:49-63 | `removeEdge` keeps the vertex count and the list shape |
| Adjacency.WithoutDistinct | Graph.cpp:50-55 | filtering keeps far endpoints distinct |
| Adjacency.WithoutEdgeEntries | Graph.cpp:49-63 | for `u != v`, `removeEdge` removes from `adj[u]` exactly the entries ending at `v` and from `adj[v]` those ending at `u`; other lists are unchanged |
| Adjacency.WithoutEdgeSeparates | Graph.cpp:49-63 | after `removeEdge(u, v)` with `u != v` no entry joins the pair; every other entry of the two lists is kept, and every other list is unchanged |
| Adjacency.WithoutEdgeSelfLoop | Graph.cpp:49-63 | `removeEdge(u, u)` empties `adj[u]` and changes nothing else |
| Adjacency.WithoutEdgeConsistent | Graph.cpp:49-63 | `removeEdge` with `u != v` preserves the undirected-graph invariant |
| Adjacency.WithoutEdgeMissing | Graph.cpp:49-63 | removing an edge that is not there is a no-op |
| Adjacency.RemoveThenAdd | Graph.cpp:25-63 | on any well-formed lists, `addEdge(u, v, w)` after `removeEdge(u, v)` appends the fresh pair; it keeps the undirected-graph invariant when that held before |
| Adjacency.FlattenPrefix | Graph.cpp:65-73 | `getEdges` over the first `i + 1` lists extends that over the first `i` by list `i` |
| Adjacency.FlattenMembers | Graph.cpp:65-73 | an edge is in `getEdges()` iff it is stored in some list |
| Adjacency.DistinctCount | Graph.cpp:29-46 | a list with distinct far endpoints holds each entry at most once |
| Adjacency.FlattenCount | Graph.cpp:65-73 | how often an edge occurs among the first `i` lists is how often it occurs in the list of its near end |
| Adjacency.FlattenMirrored | Graph.cpp:65-73 | under the invariant, every listed edge occurs exactly once and so does its reverse; a non-loop edge therefore appears twice |
| Adjacency.ReachableRefl | Graph.cpp:103-104 | every vertex reaches itself |
| Adjacency.ReachableStep | Graph.cpp:107-111 | following one adjacency entry extends reachability |
| Adjacency.PathStaysIn | Graph.cpp:103-112 | a path from a member of a closed vertex set stays in it |
| Adjacency.ClosedHoldsReachable | Graph.cpp:88-112 | a closed set containing `s` contains every vertex reachable from `s` |
| Graphs.RemoveMatching | Graph.cpp:50-55 | the `remove_if`/`erase` loop computes the order-keeping filter |
| Graphs.PushUnlessTouching | Graph.cpp:29-37 | the scan-then-`push_back` half of `addEdge` computes `AddHalf` |
| Graphs.HasTouching | Graph.cpp:29-34 | the `found` scan is true iff some entry compares equal to the id |
| Graphs.Graph.constructor | Graph.cpp:5-12 | `n` vertices, `n` empty lists, no edges, invariant established |
| Graphs.Graph.ResetGraph | Graph.cpp:19-23 | the same fresh state as the constructor, whatever was stored before |
| Graphs.Graph.AddEdge | Graph.cpp:25-47 | the new lists are `addEdge`'s function of the old ones; the vertex count is unchanged; the invariant is preserved |
| Graphs.Graph.RemoveEdge | Graph.cpp:49-63 | the new lists are `removeEdge`'s function of the old ones; the invariant is preserved when `u != v` |
| Graphs.Graph.GetEdges | Graph.cpp:65-73 | the lists concatenated in vertex order |
| Graphs.Graph.GetEdge | Graph.cpp:75-82 | succeeds iff `adj[u]` has an entry ending at `v`, and returns the first such entry; otherwise `EdgeNotFound` |
| Graphs.Graph.GetNeighbors | Graph.cpp:84-86 | a copy of `adj[u]`; every entry starts at `u`; under the invariant every entry's mirror is stored |
| Graphs.Graph.GetNumVertices | Graph.cpp:114-116 | the vertex count, equal to the number of lists |
| Graphs.Graph.Dfs | Graph.cpp:103-112 | marks `v`; never unmarks; marks only vertices reachable from the root; leaves every newly marked vertex's neighbours marked |
| Graphs.Graph.IsConnected | Graph.cpp:88-100 | true iff every vertex is reachable from vertex 0 |
| Forests.JoinsTrans | MSTSolver.cpp:159-161 | tree connection is transitive |
| Forests.JoinsSym | MSTSolver.cpp:159-161 | tree connection is symmetric |
| Forests.AcyclicAppend | MSTSolver.cpp:159-161 | adding an edge whose ends are not yet joined keeps the edge list acyclic |
| Forests.JoinsKeepsLabel | MSTSolver.cpp:155-161 | if every edge joins two vertices with the same label, joined vertices have the same label |
| UnionFind.RootOf | MSTSolver.cpp:82-87 | the root reached by following parents is a fixed point with rank at least that of the start, and strictly greater for a non-root |
| UnionFind.Reps | MSTSolver.cpp:82-87 | the root of every element, in range and fixed, and its fixed points are exactly the roots |
| UnionFind.RedirectKeepsRoots | MSTSolver.cpp:83-85 | redirecting a node to its root keeps the forest and every element's root |
| UnionFind.LinkRoots | MSTSolver.cpp:94-101 | linking root `loser` under root `winner` sends exactly `loser`'s elements to `winner` |
| UnionFind.Find | MSTSolver.cpp:82-87 | returns the root of `i`; path compression leaves exactly the compressed parents and the same partition |
| UnionFind.LinkMerges | MSTSolver.cpp:94-101 | a link with the rank rule keeps the forest invariant and merges exactly the two sets |
| UnionFind.UnionSets | MSTSolver.cpp:90-102 | merges exactly the sets of `u` and `v` under the root of higher rank (the first on a tie); rank grows by 1 only on a tie |
| Boruvka.RepsLabelling | MSTSolver.cpp:133-134 | the roots of a union-find form a labelling: each label is its own label |
| Boruvka.TracksInitially | MSTSolver.cpp:109-119 | each vertex alone, no tree edge and `numComponents == n` satisfy the round invariant |
| Boruvka.NoCrossingOneSet | MSTSolver.cpp:122 | on a connected graph, if no edge crosses two sets there is only one set |
| Boruvka.CrossingEntry | MSTSolver.cpp:127-147 | on a connected graph with more than one set, some stored edge crosses two sets |
| Boruvka.JoinsAfterLink | MSTSolver.cpp:159-161 | after adding a crossing edge, every vertex of the two merged sets is joined to the new root |
| Boruvka.RelabelFixed | MSTSolver.cpp:161-162 | merging two sets removes exactly one label, so `numComponents--` stays the number of sets |
| Boruvka.CrossingKeepsAcyclic | MSTSolver.cpp:159-160 | an edge between different components keeps the tree acyclic |
| Boruvka.AddCrossingEdge | MSTSolver.cpp:155-163 | adding a crossing edge and merging its sets keeps the round invariant with one component fewer |
| Boruvka.TracksSpanning | MSTSolver.cpp:169-171 | when one component is left, the edges form a spanning tree |
| Boruvka.EarliestGrow | MSTSolver.cpp:127-147 | a slot's record stays the first cheapest outgoing edge when a later edge is scanned |
| Boruvka.OfferEarliest | MSTSolver.cpp:139-145 | the strict `>` replaces a slot only with a strictly lighter edge, so the earliest lightest edge is kept |
| Boruvka.OfferOne | MSTSolver.cpp:139-145 | one offer keeps every slot a sentinel or an outgoing edge seen so far, and no heavier than any seen |
| Boruvka.ScanStep | MSTSolver.cpp:128-146 | scanning one more edge keeps the scan invariant |
| Boruvka.Cheapest | MSTSolver.cpp:124-147 | the slot table a scan of the entries leaves: one slot per vertex id |
| Boruvka.CheapestStep | MSTSolver.cpp:127-146 | scanning one more entry offers it to the slots of both its sets, when they differ |
| Boruvka.CheapestPrefix | MSTSolver.cpp:127-147 | after any prefix of the scan, each slot is the sentinel or the first cheapest entry seen so far leaving its set, and no heavier than any such entry |
| Boruvka.OfferSlot | MSTSolver.cpp:139-145 | the slot becomes the edge when the edge is strictly lighter, and nothing else changes |
| Boruvka.CheapestEdges | MSTSolver.cpp:124-147 | the slots are the scan function `Cheapest` of `getEdges()`; each holds the sentinel or an outgoing edge of that set that is no heavier than any other, the first such in `getEdges()` order; the partition is unchanged |
| Boruvka.TracksJoins | MSTSolver.cpp:155-161 | under the round invariant two vertices are in the same set exactly when the tree joins them |
| Boruvka.Merged | MSTSolver.cpp:150-165 | the merge of the slots, in slot order: the old tree is a prefix, and each appended edge is a slot's edge, never the sentinel |
| Boruvka.MergedStep | MSTSolver.cpp:151-164 | merging one more slot appends its edge exactly when it is not the sentinel and the tree so far does not join its endpoints |
| Boruvka.MergeSlot | MSTSolver.cpp:151-164 | a slot whose edge still crosses two sets adds it and merges them with one component fewer; otherwise nothing changes; the edge is appended exactly when the tree so far does not join its endpoints |
| Boruvka.MergeCheapest | MSTSolver.cpp:150-165 | the merge pass keeps the round invariant; the new tree is `Merged` of the old tree and the slots: the old tree followed only by slot edges, never the sentinel; the count only falls, and stays put only when every slot is empty |
| Boruvka.EntryIndex | MSTSolver.cpp:127 | every stored entry appears in `getEdges()` |
| Boruvka.SlotsFromGraph | MSTSolver.cpp:127-147 | a recorded slot holds a stored graph edge leaving its set |
| Boruvka.MergedFirstCheapest | MSTSolver.cpp:127-165 | every edge the merge appends is, for some set, the first cheapest entry of the scan leaving it |
| Boruvka.RoundEdges | MSTSolver.cpp:122-165 | the tree after one round, which extends the old tree |
| Boruvka.CrossingSlot | MSTSolver.cpp:122-147 | on a connected graph with more than one set left, the scan leaves at least one slot holding an edge |
| Boruvka.RoundMerge | MSTSolver.cpp:127-165 | merging the scan's slot table gives the round's result, and every edge it appends was chosen by the scan for some set |
| Boruvka.Round | MSTSolver.cpp:122-169 | a round keeps the invariant and strictly lowers `numComponents`, staying at least 1; the new tree is `RoundEdges` of the old one, which it extends; every edge it appends is, for some set of the labelling at the start of the round, the first cheapest entry of `getEdges()` leaving that set |
| Boruvka.Solve | MSTSolver.cpp:105-172 | empty on a disconnected graph; otherwise a spanning tree: `n - 1` graph edges, acyclic, joining every vertex; with two or more vertices it starts with the edges the first round merges, every vertex then being its own set |
| Prim.Precedes | MSTSolver.cpp:188-189 | the lexicographic tuple order itself; Prim.PrecedesOrder proves it a total order (reflexive, antisymmetric, transitive) and Prim.LeastExists that every non-empty queue has exactly one least entry, the one `begin()` reads |
| Prim.PrecedesOrder | MSTSolver.cpp:188-189 | the tuple order of the set is a total order |
| Prim.LeastExists | MSTSolver.cpp:194 | a non-empty set has exactly one least triple, which `*pq.begin()` reads |
| Prim.GrownStart | MSTSolver.cpp:185-190 | vertex 0 alone with no edge is a valid partial tree |
| Prim.GrownAttach | MSTSolver.cpp:198-203 | attaching a new vertex by a stored edge to the tree keeps a valid partial tree, stored child first |
| Prim.OrientedAttach | MSTSolver.cpp:198-203 | the edge pushed for a new vertex `u` is stored child first: `u` is neither 0 nor an earlier child, and the parent is 0 or an earlier child |
| Prim.PopStale | MSTSolver.cpp:195-197 | dropping a triple of a finalised vertex keeps the queue invariants |
| Prim.PopFresh | MSTSolver.cpp:194-203 | finalising the popped vertex keeps the queue invariants; its triple is the start triple or names a finalised neighbour |
| Prim.MirrorAdjacent | MSTSolver.cpp:202 | under mirrored storage the child-to-parent entry exists, so `getEdge` succeeds |
| Prim.DrainedClosed | MSTSolver.cpp:192-218 | when the queue is empty, every neighbour of a finalised vertex is finalised (weights below `INT_MAX`) |
| Prim.Relax | MSTSolver.cpp:205-217 | relaxing the neighbours of `u` keeps the queue invariants and makes `u` relaxed; keys never rise, a key changes only for a vertex outside the tree, and a vertex's parent becomes `u` exactly when its key drops |
| Prim.QueueLowered | MSTSolver.cpp:211-215 | erasing `(key[v], v, u)` and inserting `(weight, v, u)` for a neighbour `v` outside the tree keeps every queued entry a graph edge from a tree vertex and keeps every lowered key queued |
| Prim.KeysLowered | MSTSolver.cpp:211-213 | lowering `key[v]` to the weight of an entry ending at `v` keeps every relaxed vertex relaxed, and relaxes that entry |
| Prim.StateInitially | MSTSolver.cpp:178-190 | the initial arrays and the start triple satisfy the loop invariant |
| Prim.StateDrained | MSTSolver.cpp:218-220 | at loop exit the edges are graph edges without a cycle; on a connected graph they form a spanning tree |
| Prim.StateJoined | MSTSolver.cpp:192-218 | the loop invariant assembled from its parts after a vertex is added |
| Prim.Visit | MSTSolver.cpp:197-217 | finalising a vertex keeps the loop invariant and adds exactly that vertex; `getEdge` fails only without mirrored storage |
| Prim.Step | MSTSolver.cpp:192-218 | one loop iteration keeps the invariant, and either adds a vertex or shrinks the queue |
| Prim.Solve | MSTSolver.cpp:174-221 | empty on a disconnected graph; it never fails on mirrored storage; its result is graph edges without a cycle, and a spanning tree when the graph is connected; every edge is stored child first: its `u` is a vertex other than 0 that no earlier edge has as child, and its `v` is 0 or an earlier child |
| Metrics.TruncDiv | MSTSolver.cpp:37 | the `int` conversion of the quotient truncates toward zero: for a non-negative sum the quotient times the count is at most the sum and within one count of it, and the mirror image for a negative sum |
| Metrics.TotalWeight | MSTSolver.cpp:30-38 | no value on an empty list; otherwise the truncated mean weight |
| Metrics.LongestDistance | MSTSolver.cpp:40-46 | the largest of 0 and all weights: at least every weight and 0, and equal to 0 or to some weight |
| Metrics.ShortestDistance | MSTSolver.cpp:48-54 | the smallest of `INT_MAX` and all weights: at most every weight and `INT_MAX`, and equal to `INT_MAX` or to some weight |
| Metrics.MetricsUnique | MSTSolver.cpp:40-54 | each list has exactly one longest and one shortest value |
| Metrics.SumBounds | MSTSolver.cpp:32-35 | `n` weights in `[lo, hi]` sum to between `n * lo` and `n * hi` |
| Metrics.SumAppend | MSTSolver.cpp:32-35 | accumulating one more edge adds its weight |
| Metrics.TruncDivBetween | MSTSolver.cpp:37 | truncating a quotient that lies between two integers keeps it between them |
| Metrics.Extremes | MSTSolver.cpp:40-54 | a non-empty list has a lightest and a heaviest weight |
| Metrics.MeanBetween | MSTSolver.cpp:30-38 | on a non-empty list, `totalWeight` lies between the lightest and the heaviest weight |
| Metrics.MeanOfEqualWeights | MSTSolver.cpp:30-38 | when every weight is `w`, `totalWeight` is `w` |
| Solvers.Solve | MSTSolver.hpp:11 | virtual `solve`: empty on a disconnected graph, failing only on unmirrored storage (never for Boruvka), a forest of graph edges, a spanning tree on a connected graph; Boruvka's tree starts with its first round's edges; Prim's edges are stored child first |
| Solvers.TotalWeightOf | MSTSolver.cpp:10-13 | no value on a disconnected graph; otherwise the truncated mean of some solved forest, or of a spanning tree when connected; defined when `n >= 2` and connected |
| Solvers.LongestDistanceOf | MSTSolver.cpp:15-18 | 0 on a disconnected graph; otherwise the largest weight of a solved forest, or of a spanning tree when connected |
| Solvers.ShortestDistanceOf | MSTSolver.cpp:20-23 | `INT_MAX` on a disconnected graph; otherwise the smallest weight of a solved forest, or of a spanning tree when connected; below `INT_MAX` when `n >= 2` and connected |
| Solvers.AverageDistanceOf | MSTSolver.cpp:25-28 | returns the integer `totalWeight` as a real: always a whole number, the truncated mean of a solved forest |
| Solvers.TreeWeightsBelowMax | MSTSolver.cpp:48-54 | a tree taken from a graph with weights below `INT_MAX` has weights below it |
| Factory.Code | MSTFactory.hpp:10 | `BORUVKA` is 0 and `PRIM` is 1 |
| Factory.CreateSolver | MSTFactory.cpp:3-12 | a Boruvka solver exactly for `BORUVKA`, a Prim solver exactly for `PRIM`, nothing for any other value |
| Factory.CreateSolverRoundTrip | MSTFactory.cpp:3-12 | each enumerator gives a solver running the algorithm it names, and that solver maps back to the value |
| Factory.CreateSolverInjective | MSTFactory.cpp:5-8 | distinct enumerators give distinct solvers |
| Scenarios.TwoPiecesDisconnected | Test.cpp:12-16 | the graph `{0-1, 2-3}` on 4 vertices stores both edges, and vertex 2 is not reachable from 0, so it is not connected |
| Scenarios.FivePointsSteps | Test.cpp:65-71 | the 5-vertex graph stores the steps 0-1, 0-3, 1-2 and 1-4 |
| Scenarios.FivePointsConnected | Test.cpp:65-73 | the 5-vertex graph is connected |
| Scenarios.FivePointsBelowMax | Test.cpp:65-71 | every weight of the 5-vertex graph is below `INT_MAX` |
| Scenarios.TreeStepsKept | Test.cpp:66-71 | each later `addEdge` keeps the four tree steps and joins its own pair |
| Scenarios.PushedBoth | Graph.cpp:29-46 | an `addEdge` whose two lists hold no entry comparing equal to the other end pushes onto both and changes nothing else |
| Scenarios.BuiltStep | Test.cpp:66-71 | each `addEdge` call of the 5-vertex graph, on the lists the earlier calls built, gives the next lists |
| Scenarios.FivePointsLists | Test.cpp:65-71 | the lists of the 5-vertex graph, entry by entry |
| Scenarios.FivePointsFlat | Graph.cpp:65-73 | `getEdges()` on the 5-vertex graph is its twelve entries in list order |
| Scenarios.FivePointsScanWellFormed | MSTSolver.cpp:109-119 | every entry of the 5-vertex graph is in range, and every vertex alone is a labelling |
| Scenarios.SlotsStep | MSTSolver.cpp:127-146 | each entry of the first scan on the 5-vertex graph updates the slots as the strict `>` test says |
| Scenarios.FivePointsSlots | MSTSolver.cpp:124-147 | the first scan on the 5-vertex graph picks 0-1 for vertices 0 and 1, 1-2 for 2, 0-3 for 3 and 1-4 for 4 |
| Scenarios.NotJoinedToUntouched | MSTSolver.cpp:155-160 | a vertex no edge touches is joined to no other vertex |
| Scenarios.MergeAppends | MSTSolver.cpp:151-164 | a slot whose far end no merged edge touches is appended |
| Scenarios.MergeSkips | MSTSolver.cpp:151-164 | a slot whose ends a merged edge already links is skipped |
| Scenarios.FivePointsMergeNext | MSTSolver.cpp:150-165 | one slot of the first merge on the 5-vertex graph: the second 0-1 is skipped, every other slot is appended |
| Scenarios.FivePointsMerge | MSTSolver.cpp:150-165 | the first merge on the 5-vertex graph appends 0-1, 1-2, 0-3 and 1-4, in that order |
| Scenarios.FivePointsFirstRound | Test.cpp:79-84 | Boruvka's first round on the 5-vertex graph yields exactly the tree Test.cpp expects |
| Scenarios.BoruvkaFivePoints | Test.cpp:79-87 | a spanning tree of the 5-vertex graph that starts with the first round's edges is exactly the expected tree, of weight 16 |
| Scenarios.ExpectedWeights | MSTSolver.cpp:30-54 | the expected tree weighs 16 in all, 6 at most and 2 at least, and its truncated mean is 4 |
| Scenarios.TwoPiecesScenario | Test.cpp:9-61 | `isConnected()` is false, and both factory-made solvers return the empty list |
| Scenarios.FivePointsScenario | Test.cpp:63-106 | `isConnected()` is true; Boruvka returns exactly the expected edges `(0,1,2)`, `(1,2,3)`, `(0,3,6)`, `(1,4,5)`, of total weight 16; Prim returns a spanning tree of 4 edges, stored child first |

## Left out

- Server.cpp, ThreadPool.cpp and ThreadPool.hpp: sockets, threads, the graph mutex, the idle timeout and the text command protocol are I/O and concurrency. Profiling.cpp is a benchmark driver built on `rand()` and console output.
- `averageDistance(mst)` (MSTSolver.cpp:56-64) divides as a `double`, and `printMetrics` (MSTSolver.cpp:66-78) formats through `std::to_string`. Floating point is not modelled.
- `Edge`'s stream `operator<<` (Graph.hpp:25-28) and the `DEBUG` print in the constructor are output only.
- Integer overflow of the weight sum in `totalWeight` is not modelled: weights and sums are mathematical integers.
- Metrics.TotalWeight: on an empty list the source converts a NaN to `int`, which C++ leaves undefined. The model returns `None` there.
- Boruvka.Solve: requires every weight to be below `INT_MAX`. An edge of weight `INT_MAX` is never recorded, and the rounds may then not end.
- Prim.Solve: the spanning-tree conclusion assumes weights below `INT_MAX`. A neighbour reached only by an `INT_MAX` edge is never queued, because of the strict `<`. Without that assumption the result is still an acyclic list of graph edges.
- Graphs.Graph.IsConnected: requires at least one vertex. On 0 vertices the source indexes `visited[0]` of an empty vector.
- Graphs.Graph.RemoveEdge: requires both ids in range, because the source indexes `adj[u]` and `adj[v]` unchecked. Graphs.Graph.GetEdge and Graphs.Graph.GetNeighbors likewise require `u` in range.
- Graphs.Graph.constructor and Graphs.Graph.ResetGraph: require a non-negative count, for which `resize` is defined.
- `Dfs` is modelled without its recursion depth: a stack overflow on a long path is not captured.
- Boruvka.Solve: minimality is not proved. The result is shown to be a spanning tree that starts with the first round's cheapest edges, and every round's edges are the first cheapest leaving their sets (Boruvka.Round), but not that no spanning tree weighs less. The cut property this would need is not part of the model.
- Prim.Solve: minimality is not proved. The result is shown to be a spanning tree stored child first, but not one of least weight.
- Solvers.Solve: minimality is not proved, for the same reason as for Boruvka.Solve and Prim.Solve.
- Solvers.TotalWeightOf: states the truncated mean of the tree the solver returns, characterised only as a spanning tree (or a forest of graph edges). It is not shown to be the mean of a tree of least weight, because minimality is not proved.
- Solvers.LongestDistanceOf: states the largest weight of the returned tree, characterised as for Solvers.TotalWeightOf; not shown to be that of a tree of least weight.
- Solvers.ShortestDistanceOf: states the smallest weight of the returned tree, characterised as for Solvers.TotalWeightOf; not shown to be that of a tree of least weight.
- Solvers.AverageDistanceOf: the same truncated mean as Solvers.TotalWeightOf, with the same limit.
- Scenarios.FivePointsScenario: Prim's exact edges `(1,0,2)`, `(2,1,3)`, `(4,1,5)`, `(3,0,6)` are not derived, because Prim.Solve's contract does not determine its output: minimality is not proved and the run of the loop is not given as a function of the graph. Only a 4-edge spanning tree stored child first is shown. Boruvka's exact edges and total weight are proved.
- `std::set` is modelled as a Dafny `set` of triples with its lexicographic order (Prim.Precedes). Iterator invalidation and allocation are not modelled.
- `unique_ptr` ownership and the console message of `createSolver`'s default case are not modelled. The null pointer is `None`.
