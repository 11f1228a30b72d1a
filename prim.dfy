/**
 * MSTSolver.cpp, `PrimSolver::solve`: grow one tree from vertex 0. A `std::set` of
 * `(key, vertex, parent)` tuples serves as the priority queue; the least tuple is taken, its
 * vertex joins the tree with the edge `getEdge(vertex, parent)`, and its neighbours' keys are
 * lowered. Stale tuples are left in the queue and skipped when they come out.
 */
module Prim {
  import opened Edges
  import opened Wrappers
  import opened Adjacency
  import opened Forests
  import opened Graphs

  /** One `std::tuple<int, int, int>` of the queue: (key, vertex, parent); `from` is -1 for the start. */
  datatype Entry = Entry(key: int, vertex: int, from: int)

  /** The order of `std::tuple` and so of `std::set`: lexicographic on (key, vertex, parent). */
  predicate Precedes(a: Entry, b: Entry)
  {
    a.key < b.key ||
    (a.key == b.key && (a.vertex < b.vertex || (a.vertex == b.vertex && a.from <= b.from)))
  }

  /** `*pq.begin()`: the entry that precedes every entry of the queue. */
  ghost predicate Least(pq: set<Entry>, t: Entry)
  {
    t in pq && forall t' :: t' in pq ==> Precedes(t, t')
  }

  /** The tuple order is a total order. */
  lemma PrecedesOrder(a: Entry, b: Entry, c: Entry)
    ensures Precedes(a, a)
    ensures Precedes(a, b) || Precedes(b, a)
    ensures Precedes(a, b) && Precedes(b, a) ==> a == b
    ensures Precedes(a, b) && Precedes(b, c) ==> Precedes(a, c)
  {
  }

  /** The tuple order is total and transitive, so a non-empty queue has a first entry, and only one. */
  lemma {:induction false} LeastExists(pq: set<Entry>)
    requires pq != {}
    ensures exists t :: Least(pq, t)
    ensures forall t, t' :: Least(pq, t) && Least(pq, t') ==> t == t'
  {
    var t :| t in pq;
    if pq == {t} {
      assert Least(pq, t);
    } else {
      LeastExists(pq - {t});
      var m :| Least(pq - {t}, m);
      if Precedes(t, m) {
        forall t' | t' in pq ensures Precedes(t, t') {
          PrecedesOrder(t, m, t');
        }
        assert Least(pq, t);
      } else {
        forall t' | t' in pq ensures Precedes(m, t') {
          PrecedesOrder(m, t, t');
        }
        assert Least(pq, m);
      }
    }
    forall a, b | Least(pq, a) && Least(pq, b) ensures a == b {
      PrecedesOrder(a, b, b);
    }
  }

  /** The ids `0 .. n - 1`. */
  ghost function Vertices(n: nat): (vs: set<int>)
    ensures forall x :: x in vs <==> 0 <= x < n
    ensures |vs| == n
  {
    if n == 0 then {} else Vertices(n - 1) + {n - 1}
  }

  /** The vertices a `inMST` vector marks. */
  ghost function Members(member: seq<bool>): (tree: set<int>)
    ensures forall x :: x in tree <==> 0 <= x < |member| && member[x]
  {
    set x | 0 <= x < |member| && member[x]
  }

  /**
   * What the queue holds: every entry names a vertex; the start entry `(0, 0, -1)` exists only
   * before the first vertex joins the tree; every other entry came from an adjacency entry
   * of a tree vertex `from`.
   */
  ghost predicate EntriesSound(adj: AdjList, member: seq<bool>, pq: set<Entry>)
    requires |member| == |adj|
  {
    forall t :: t in pq ==>
      0 <= t.vertex < |adj| &&
      (t.from == -1 ==> t == Entry(0, 0, -1) && forall x :: 0 <= x < |adj| ==> !member[x]) &&
      (t.from != -1 ==> 0 <= t.from < |adj| && member[t.from] && Adjacent(adj, t.from, t.vertex))
  }

  /** Every vertex outside the tree whose key was lowered has its current tuple queued. */
  ghost predicate Queued(member: seq<bool>, key: seq<int>, parent: seq<int>, pq: set<Entry>)
    requires |member| == |key| == |parent|
  {
    forall y :: 0 <= y < |member| && !member[y] && key[y] != INT_MAX ==> Entry(key[y], y, parent[y]) in pq
  }

  /** Every entry of `adj[x]` ends in the tree or at a vertex whose key is at most its weight. */
  ghost predicate Relaxed(adj: AdjList, member: seq<bool>, key: seq<int>, x: int)
    requires WellFormed(adj) && |member| == |key| == |adj| && 0 <= x < |adj|
  {
    forall k :: 0 <= k < |adj[x]| ==> member[adj[x][k].v] || key[adj[x][k].v] <= adj[x][k].weight
  }

  /**
   * Edge `i` of `mst` is stored child first, as `getEdge(parent[u], u)` on the child's list
   * returns it: its `u` is a vertex other than 0 that no earlier edge has as child, and its `v`,
   * the parent, is vertex 0 or the child of an earlier edge.
   */
  ghost predicate ChildFirst(mst: seq<Edge>, i: int)
    requires 0 <= i < |mst|
  {
    mst[i].u != 0 && (forall j :: 0 <= j < i ==> mst[j].u != mst[i].u) &&
    (mst[i].v == 0 || exists j :: 0 <= j < i && mst[j].u == mst[i].v)
  }

  /** Every edge of `mst` joins a new child to a parent already reached from vertex 0. */
  ghost predicate Oriented(mst: seq<Edge>)
  {
    forall i :: 0 <= i < |mst| ==> ChildFirst(mst, i)
  }

  /** Every vertex of `tree` other than 0 is the child of some edge of `mst`. */
  ghost predicate Attached(tree: set<int>, mst: seq<Edge>)
  {
    forall x :: x in tree && x != 0 ==> exists j :: 0 <= j < |mst| && mst[j].u == x
  }

  /**
   * The tree grown so far: its edges are graph edges between tree vertices, close no cycle and
   * join vertex 0 to every tree vertex; it has one edge fewer than vertices, and each edge joins
   * its child to a parent reached before it.
   */
  ghost predicate Grown(adj: AdjList, tree: set<int>, mst: seq<Edge>)
  {
    (tree == {} ==> mst == []) &&
    (tree != {} ==> 0 in tree && |mst| + 1 == |tree|) &&
    (forall x :: x in tree ==> 0 <= x < |adj| && Joins(mst, 0, x)) &&
    FromGraph(adj, mst) && Acyclic(mst) &&
    (forall j :: 0 <= j < |mst| ==> mst[j].u in tree && mst[j].v in tree) &&
    Oriented(mst) && Attached(tree, mst)
  }

  /** The first vertex out of the queue is vertex 0, with no edge. */
  lemma GrownStart(adj: AdjList)
    requires |adj| >= 1
    ensures Grown(adj, {0}, [])
  {
    JoinsRefl([], 0);
  }

  /** Attaching a vertex outside the tree by a graph edge to a tree vertex keeps a tree. */
  lemma GrownAttach(adj: AdjList, tree: set<int>, mst: seq<Edge>, e: Edge)
    requires Grown(adj, tree, mst) && tree != {}
    requires 0 <= e.u < |adj| && e in adj[e.u] && e.u !in tree && e.v in tree
    ensures Grown(adj, tree + {e.u}, mst + [e])
  {
    var mst' := mst + [e];
    UntouchedIsolated(mst, e.u, e.v);
    AcyclicAppend(mst, e);
    forall x | x in tree ensures Joins(mst', 0, x) {
      JoinsGrow(mst, e, 0, x);
    }
    JoinsThroughNewEdge(mst, e, 0);
    OrientedAttach(tree, mst, e);
  }

  /** An edge from a vertex outside the tree to a tree vertex is stored child first. */
  lemma OrientedAttach(tree: set<int>, mst: seq<Edge>, e: Edge)
    requires Oriented(mst) && Attached(tree, mst) && 0 in tree
    requires forall j :: 0 <= j < |mst| ==> mst[j].u in tree
    requires e.u !in tree && e.v in tree
    ensures Oriented(mst + [e]) && Attached(tree + {e.u}, mst + [e])
  {
    var mst' := mst + [e];
    forall i | 0 <= i < |mst'| ensures ChildFirst(mst', i) {
      if i < |mst| {
        assert ChildFirst(mst, i);
        assert forall j :: 0 <= j <= i ==> mst'[j] == mst[j];
      } else if e.v != 0 {
        var j :| 0 <= j < |mst| && mst[j].u == e.v;
        assert mst'[j].u == e.v;
      }
    }
    forall x | x in tree + {e.u} && x != 0 ensures exists j :: 0 <= j < |mst'| && mst'[j].u == x {
      if x == e.u {
        assert mst'[|mst|].u == x;
      } else {
        var j :| 0 <= j < |mst| && mst[j].u == x;
        assert mst'[j].u == x;
      }
    }
  }

  /** Taking a stale entry, one whose vertex is already in the tree, keeps what the queue holds. */
  lemma PopStale(adj: AdjList, member: seq<bool>, key: seq<int>, parent: seq<int>, pq: set<Entry>, top: Entry)
    requires |member| == |key| == |parent| == |adj| && top in pq && 0 <= top.vertex < |adj| && member[top.vertex]
    requires EntriesSound(adj, member, pq) && Queued(member, key, parent, pq)
    ensures EntriesSound(adj, member, pq - {top}) && Queued(member, key, parent, pq - {top})
  {
  }

  /**
   * Taking an entry whose vertex is outside the tree and marking that vertex keeps what the
   * queue holds and keeps every earlier tree vertex relaxed. The entry is the start entry
   * exactly when the tree was empty, and otherwise came from an adjacency entry of a tree vertex.
   */
  lemma PopFresh(adj: AdjList, member: seq<bool>, member': seq<bool>, key: seq<int>, parent: seq<int>,
                  pq: set<Entry>, top: Entry)
    requires WellFormed(adj) && |member| == |key| == |parent| == |adj|
    requires top in pq && 0 <= top.vertex < |adj| && !member[top.vertex] && member' == member[top.vertex := true]
    requires EntriesSound(adj, member, pq) && Queued(member, key, parent, pq)
    requires Members(member) == {} ==> pq == {Entry(0, 0, -1)}
    requires forall x :: 0 <= x < |adj| && member[x] ==> Relaxed(adj, member, key, x)
    ensures EntriesSound(adj, member', pq - {top}) && Queued(member', key, parent, pq - {top})
    ensures forall x :: 0 <= x < |member'| && member'[x] && x != top.vertex ==> Relaxed(adj, member', key, x)
    ensures Members(member') == Members(member) + {top.vertex}
    ensures top.from == -1 ==> top == Entry(0, 0, -1) && Members(member) == {} && pq - {top} == {}
    ensures top.from != -1 ==> 0 <= top.from < |adj| && member[top.from] && Adjacent(adj, top.from, top.vertex)
  {
    var u := top.vertex;
    if top.from == -1 {
      assert Members(member) == {} by {
        forall x | 0 <= x < |adj| ensures !member[x] {
        }
      }
    } else {
      assert member[top.from];
      assert top.from in Members(member);
      forall t | t in pq - {top} ensures t.from != -1 {
      }
    }
    forall x | 0 <= x < |member'| && member'[x] && x != u ensures Relaxed(adj, member', key, x) {
      assert Relaxed(adj, member, key, x);
    }
  }

  /** An entry of `adj[a]` ending at `b` has its mirror in `adj[b]` when the storage is symmetric. */
  lemma MirrorAdjacent(adj: AdjList, a: int, b: int)
    requires WellFormed(adj) && Adjacent(adj, a, b)
    ensures Symmetric(adj) ==> Adjacent(adj, b, a)
  {
    if Symmetric(adj) {
      var k :| 0 <= k < |adj[a]| && adj[a][k].v == b;
      var j :| 0 <= j < |adj[b]| && adj[b][j] == Reverse(adj[a][k]);
    }
  }

  /**
   * When the queue runs dry, the tree is closed under adjacency: no stored weight is `INT_MAX`,
   * so every neighbour of a tree vertex outside the tree would still be queued.
   */
  lemma DrainedClosed(adj: AdjList, member: seq<bool>, key: seq<int>, parent: seq<int>)
    requires WellFormed(adj) && WeightsBelowMax(adj)
    requires |member| == |key| == |parent| == |adj|
    requires Queued(member, key, parent, {})
    requires forall x :: 0 <= x < |adj| && member[x] ==> Relaxed(adj, member, key, x)
    ensures Closed(adj, member)
  {
    forall a, k | 0 <= a < |adj| && member[a] && 0 <= k < |adj[a]| ensures member[adj[a][k].v] {
      assert Relaxed(adj, member, key, a);
    }
  }

  /** Lowering the key of a vertex outside the tree to the weight of an edge from tree vertex `u` keeps the queue sound and complete. */
  lemma QueueLowered(adj: AdjList, member: seq<bool>, key: seq<int>, parent: seq<int>, pq: set<Entry>, u: int, v: int, w: int)
    requires |member| == |key| == |parent| == |adj|
    requires EntriesSound(adj, member, pq) && Queued(member, key, parent, pq)
    requires 0 <= u < |adj| && member[u] && 0 <= v < |adj| && !member[v] && Adjacent(adj, u, v)
    ensures var lowered := pq - {Entry(key[v], v, u)} + {Entry(w, v, u)};
      EntriesSound(adj, member, lowered) && Queued(member, key[v := w], parent[v := u], lowered)
  {
  }

  /** Lowering the key of `v` to the weight of the entry `adj[u][i]` that ends at `v` keeps every vertex relaxed, and relaxes that entry. */
  lemma KeysLowered(adj: AdjList, member: seq<bool>, key: seq<int>, u: int, i: int)
    requires WellFormed(adj) && |member| == |key| == |adj| && 0 <= u < |adj| && 0 <= i < |adj[u]|
    requires adj[u][i].weight < key[adj[u][i].v]
    ensures var lowered := key[adj[u][i].v := adj[u][i].weight];
      (forall x :: 0 <= x < |adj| && Relaxed(adj, member, key, x) ==> Relaxed(adj, member, lowered, x)) &&
      ((forall j :: 0 <= j < i ==> member[adj[u][j].v] || key[adj[u][j].v] <= adj[u][j].weight) ==>
       forall j :: 0 <= j <= i ==> member[adj[u][j].v] || lowered[adj[u][j].v] <= adj[u][j].weight)
  {
  }

  /**
   * The loop over `getNeighbors(u)`: every neighbour `v` outside the tree whose key exceeds the
   * edge weight gets the weight as key, `u` as parent, and the tuple `(weight, v, u)` in the
   * queue; the erase before it removes `(key[v], v, u)`, which is the queued tuple only when
   * `u` was already `v`'s parent.
   */
  method Relax(graph: Graph, ghost adj: AdjList, u: int, key: array<int>, inMST: array<bool>, ghost member: seq<bool>,
               parent: array<int>, pq0: set<Entry>) returns (pq: set<Entry>)
    requires graph.Valid() && adj == graph.adj && member == inMST[..]
    requires 0 <= u < graph.numVertices && key != parent
    requires key.Length == |member| == parent.Length == graph.numVertices && member[u]
    requires EntriesSound(adj, member, pq0) && Queued(member, key[..], parent[..], pq0)
    requires forall x :: 0 <= x < |member| && member[x] && x != u ==> Relaxed(adj, member, key[..], x)
    modifies key, parent
    ensures EntriesSound(adj, member, pq) && Queued(member, key[..], parent[..], pq)
    ensures forall x :: 0 <= x < |member| && member[x] ==> Relaxed(adj, member, key[..], x)
    ensures forall y :: 0 <= y < key.Length ==> key[y] <= old(key[y])
    ensures forall y :: 0 <= y < key.Length && member[y] ==> key[y] == old(key[y])
    ensures forall y :: 0 <= y < key.Length ==>
              if key[y] == old(key[y]) then parent[y] == old(parent[y]) else parent[y] == u
  {
    var neighbors := graph.GetNeighbors(u);
    pq := pq0;
    for i := 0 to |neighbors|
      invariant EntriesSound(adj, member, pq) && Queued(member, key[..], parent[..], pq)
      invariant forall x :: 0 <= x < |member| && member[x] && x != u ==> Relaxed(adj, member, key[..], x)
      invariant forall j :: 0 <= j < i ==> member[adj[u][j].v] || key[adj[u][j].v] <= adj[u][j].weight
      invariant forall y :: 0 <= y < key.Length ==> key[y] <= old(key[y])
      invariant forall y :: 0 <= y < key.Length && member[y] ==> key[y] == old(key[y])
      invariant forall y :: 0 <= y < key.Length ==>
                  if key[y] == old(key[y]) then parent[y] == old(parent[y]) else parent[y] == u
    {
      var v := neighbors[i].v;
      var weight := neighbors[i].weight;
      if !inMST[v] && weight < key[v] {
        ghost var before := key[..];
        ghost var parentBefore := parent[..];
        assert Adjacent(adj, u, v);
        QueueLowered(adj, member, before, parentBefore, pq, u, v, weight);
        KeysLowered(adj, member, before, u, i);
        pq := pq - {Entry(key[v], v, u)};
        key[v] := weight;
        pq := pq + {Entry(key[v], v, u)};
        parent[v] := u;
        assert key[..] == before[v := weight] && parent[..] == parentBefore[v := u];
      }
    }
    assert forall x :: 0 <= x < |member| && member[x] ==> Relaxed(adj, member, key[..], x);
  }

  /**
   * The state at the head of the main loop: `tree` is the set `inMST` marks; before the first
   * vertex joins, the queue holds only the start entry, with key 0 and no parent; the queue
   * and keys are as described above; and `mst` is a tree over `tree`.
   */
  ghost predicate State(adj: AdjList, member: seq<bool>, key: seq<int>, parent: seq<int>, pq: set<Entry>,
                        tree: set<int>, mst: seq<Edge>)
  {
    WellFormed(adj) && |member| == |key| == |parent| == |adj| >= 1 &&
    tree == Members(member) &&
    (tree == {} ==> pq == {Entry(0, 0, -1)} && key[0] == 0 && parent[0] == -1) &&
    EntriesSound(adj, member, pq) && Queued(member, key, parent, pq) &&
    (forall x :: 0 <= x < |adj| && member[x] ==> Relaxed(adj, member, key, x)) &&
    Grown(adj, tree, mst)
  }

  /** Before the loop: no vertex marked, every key `INT_MAX` but vertex 0's, which is 0, no parents, and the start entry queued. */
  lemma StateInitially(adj: AdjList)
    requires WellFormed(adj) && |adj| >= 1
    ensures var n := |adj|;
      State(adj, seq(n, _ => false), seq(n, _ => INT_MAX)[0 := 0], seq(n, _ => -1), {Entry(0, 0, -1)}, {}, [])
  {
    var n := |adj|;
    assert Members(seq(n, _ => false)) == {};
  }

  /**
   * When the queue is empty the edges form an acyclic set of graph edges; on a connected graph
   * with every weight below `INT_MAX` every vertex has joined, so they form a spanning tree.
   */
  lemma StateDrained(adj: AdjList, member: seq<bool>, key: seq<int>, parent: seq<int>, tree: set<int>, mst: seq<Edge>)
    requires State(adj, member, key, parent, {}, tree, mst)
    ensures FromGraph(adj, mst) && Acyclic(mst)
    ensures Connected(adj) && WeightsBelowMax(adj) ==> SpanningTree(adj, mst)
  {
    if Connected(adj) && WeightsBelowMax(adj) {
      DrainedClosed(adj, member, key, parent);
      ClosedHoldsReachable(adj, member, 0);
      assert tree == Vertices(|adj|);
    }
  }

  /** A vertex has just joined: the queue and keys are in order and the grown edges form a tree. */
  lemma StateJoined(adj: AdjList, member: seq<bool>, key: seq<int>, parent: seq<int>, pq: set<Entry>,
                    tree: set<int>, mst: seq<Edge>)
    requires WellFormed(adj) && |member| == |key| == |parent| == |adj| >= 1
    requires tree == Members(member) && tree != {}
    requires EntriesSound(adj, member, pq) && Queued(member, key, parent, pq)
    requires forall x :: 0 <= x < |member| && member[x] ==> Relaxed(adj, member, key, x)
    requires Grown(adj, tree, mst)
    ensures State(adj, member, key, parent, pq, tree, mst)
  {
  }

  /**
   * The body of the main loop once the least entry names a vertex `u` outside the tree: mark
   * it, append `getEdge(u, parent_u)` unless `u` is the start vertex, and relax its neighbours.
   * A failing `getEdge` is reported; it cannot fail with symmetric storage.
   */
  method Visit(graph: Graph, ghost adj: AdjList, key: array<int>, inMST: array<bool>, parent: array<int>,
               pq0: set<Entry>, top: Entry, mst0: seq<Edge>, ghost tree0: set<int>)
    returns (failure: Option<Failure>, pq: set<Entry>, mst: seq<Edge>, ghost tree: set<int>)
    requires graph.Valid() && adj == graph.adj && key != parent
    requires State(adj, inMST[..], key[..], parent[..], pq0, tree0, mst0)
    requires top in pq0 && 0 <= top.vertex < inMST.Length && !inMST[top.vertex]
    modifies key, inMST, parent
    ensures failure.Some? ==> !Symmetric(adj)
    ensures failure.None? ==> State(adj, inMST[..], key[..], parent[..], pq, tree, mst) && tree == tree0 + {top.vertex}
  {
    var u := top.vertex;
    var parentU := top.from;
    ghost var member := inMST[..];
    ghost var member' := member[u := true];
    PopFresh(adj, member, member', key[..], parent[..], pq0, top);
    pq := pq0 - {top};
    inMST[u] := true;
    assert inMST[..] == member';
    mst := mst0;
    if parentU != -1 {
      var edge := graph.GetEdge(u, parentU);
      if edge.Err? {
        MirrorAdjacent(adj, parentU, u);
        return Some(edge.error), pq, mst, tree0;
      }
      GrownAttach(adj, tree0, mst, edge.value);
      mst := mst + [edge.value];
    } else {
      GrownStart(adj);
    }
    tree := tree0 + {u};
    pq := Relax(graph, adj, u, key, inMST, member', parent, pq);
    StateJoined(adj, member', key[..], parent[..], pq, tree, mst);
    failure := None;
  }

  /**
   * One pass of the main loop: take the least entry and skip it when its vertex is already in
   * the tree, otherwise visit that vertex. Either the tree grows or the queue shrinks.
   */
  method Step(graph: Graph, ghost adj: AdjList, key: array<int>, inMST: array<bool>, parent: array<int>,
              pq0: set<Entry>, mst0: seq<Edge>, ghost tree0: set<int>)
    returns (failure: Option<Failure>, pq: set<Entry>, mst: seq<Edge>, ghost tree: set<int>)
    requires graph.Valid() && adj == graph.adj && key != parent && pq0 != {}
    requires State(adj, inMST[..], key[..], parent[..], pq0, tree0, mst0)
    modifies key, inMST, parent
    ensures failure.Some? ==> !Symmetric(adj)
    ensures failure.None? ==> State(adj, inMST[..], key[..], parent[..], pq, tree, mst)
    ensures failure.None? ==> tree0 <= tree <= Vertices(|adj|) &&
                              (Vertices(|adj|) - tree < Vertices(|adj|) - tree0 || (tree == tree0 && |pq| < |pq0|))
  {
    LeastExists(pq0);
    var top :| top in pq0 && forall t :: t in pq0 ==> Precedes(top, t);
    var u := top.vertex;
    if inMST[u] {
      PopStale(adj, inMST[..], key[..], parent[..], pq0, top);
      return None, pq0 - {top}, mst0, tree0;
    }
    assert u in Vertices(|adj|) - tree0;
    failure, pq, mst, tree := Visit(graph, adj, key, inMST, parent, pq0, top, mst0, tree0);
  }

  /**
   * `PrimSolver::solve(graph)`: the empty sequence when the graph is not connected. Otherwise the
   * edges `getEdge(u, parent_u)` in the order the vertices join; `getEdge` throws when `adj[u]`
   * has no entry back to the parent, which symmetric storage rules out. What comes back is
   * always an acyclic set of graph edges, and a spanning tree of a connected graph whose weights
   * are all below `INT_MAX`.
   */
  method Solve(graph: Graph) returns (r: Result<seq<Edge>>)
    requires graph.Valid() && graph.numVertices >= 1
    ensures !Connected(graph.adj) ==> r == Ok([])
    ensures Symmetric(graph.adj) ==> r.Ok?
    ensures r.Ok? ==> FromGraph(graph.adj, r.value) && Acyclic(r.value)
    ensures r.Ok? && Connected(graph.adj) && WeightsBelowMax(graph.adj) ==> SpanningTree(graph.adj, r.value)
    ensures r.Ok? ==> Oriented(r.value)
  {
    var connected := graph.IsConnected();
    if !connected {
      return Ok([]);
    }
    ghost var adj := graph.adj;
    var numVertices := graph.GetNumVertices();
    var key := new int[numVertices](_ => INT_MAX);
    var inMST := new bool[numVertices](_ => false);
    var parent := new int[numVertices](_ => -1);
    var mst: seq<Edge> := [];
    key[0] := 0;
    var pq := {Entry(0, 0, -1)};
    ghost var tree: set<int> := {};
    StateInitially(adj);
    assert inMST[..] == seq(numVertices, _ => false);
    assert key[..] == seq(numVertices, _ => INT_MAX)[0 := 0];
    assert parent[..] == seq(numVertices, _ => -1);
    while pq != {}
      invariant State(adj, inMST[..], key[..], parent[..], pq, tree, mst)
      invariant tree <= Vertices(numVertices)
      decreases Vertices(numVertices) - tree, |pq|
    {
      var failure;
      failure, pq, mst, tree := Step(graph, adj, key, inMST, parent, pq, mst, tree);
      if failure.Some? {
        return Err(failure.value);
      }
    }
    StateDrained(adj, inMST[..], key[..], parent[..], tree, mst);
    return Ok(mst);
  }
}
