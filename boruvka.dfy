/**
 * `BoruvkaSolver::solve`: in rounds, every component picks its cheapest outgoing edge among
 * the graph's entries and the picked edges that still join two components are added, with
 * the components tracked by the union-find forest. On a connected graph the result is a
 * spanning tree; on a disconnected graph it is empty.
 */
module Boruvka {
  import opened Edges
  import opened Adjacency
  import opened Forests
  import opened UnionFind
  import opened Graphs

  /** What a component's slot holds until an outgoing edge is found: `Edge{-1, -1, INT_MAX}`. */
  const Sentinel: Edge := Edge(-1, -1, INT_MAX)

  /** `e` leaves the component represented by `r`: its endpoints are in two different sets, one of them `r`'s. */
  ghost predicate Outgoing(rep: seq<int>, e: Edge, r: int)
  {
    0 <= e.u < |rep| && 0 <= e.v < |rep| && rep[e.u] != rep[e.v] && (rep[e.u] == r || rep[e.v] == r)
  }

  /** `rep` maps every vertex to a representative that represents itself. */
  ghost predicate Labelling(rep: seq<int>)
  {
    forall x :: 0 <= x < |rep| ==> 0 <= rep[x] < |rep| && rep[rep[x]] == rep[x]
  }

  /** The representatives of a union-find forest form a labelling. */
  lemma RepsLabelling(parent: seq<int>, rank: seq<int>)
    requires IsForest(parent, rank)
    ensures Labelling(Reps(parent, rank))
  {
    var rep := Reps(parent, rank);
    forall x | 0 <= x < |rep| ensures rep[rep[x]] == rep[x] {
      assert parent[rep[x]] == rep[x];
    }
  }

  /**
   * The invariant of the rounds: the sets given by `rep` are the trees of `mst`, there are
   * `count` of them, and `mst` holds `n - count` graph edges and closes no cycle.
   */
  ghost predicate Tracks(adj: AdjList, rep: seq<int>, mst: seq<Edge>, count: int)
  {
    |rep| == |adj| && Labelling(rep) &&
    count == |Fixed(rep)| && |mst| + count == |adj| &&
    FromGraph(adj, mst) && Acyclic(mst) &&
    (forall i :: 0 <= i < |mst| ==> 0 <= mst[i].v < |adj| && rep[mst[i].u] == rep[mst[i].v]) &&
    (forall x :: 0 <= x < |adj| ==> Joins(mst, x, rep[x]))
  }

  /** Every vertex its own representative. */
  ghost function Identity(n: nat): (rep: seq<int>)
    ensures |rep| == n && forall x :: 0 <= x < n ==> rep[x] == x
  {
    seq(n, x => x)
  }

  /** With every vertex alone there are `n` sets. */
  lemma {:induction false} IdentityFixed(n: nat)
    ensures |Fixed(Identity(n))| == n
  {
    if n > 0 {
      IdentityFixed(n - 1);
      assert Fixed(Identity(n)) == Fixed(Identity(n - 1)) + {n - 1};
    }
  }

  /** Before the first round: every vertex alone, no edge chosen. */
  lemma TracksInitially(adj: AdjList)
    ensures Tracks(adj, Identity(|adj|), [], |adj|)
  {
    IdentityFixed(|adj|);
    forall x | 0 <= x < |adj| ensures Joins([], x, Identity(|adj|)[x]) {
      JoinsRefl([], x);
    }
  }

  /** When no adjacency entry crosses between two sets of a connected graph, there is only one set. */
  lemma NoCrossingOneSet(adj: AdjList, rep: seq<int>)
    requires WellFormed(adj) && Connected(adj) && |rep| == |adj| >= 1 && Labelling(rep)
    requires forall a, k :: 0 <= a < |adj| && 0 <= k < |adj[a]| ==> rep[a] == rep[adj[a][k].v]
    ensures Fixed(rep) == {rep[0]}
  {
    var member := seq(|adj|, x requires 0 <= x < |adj| => rep[x] == rep[0]);
    assert Closed(adj, member);
    ClosedHoldsReachable(adj, member, 0);
    forall y | y in Fixed(rep) ensures y == rep[0] {
      assert Reachable(adj, 0, y);
    }
  }

  /** On a connected graph with two or more sets, some adjacency entry `adj[a][k]` crosses between two sets. */
  lemma CrossingEntry(adj: AdjList, rep: seq<int>) returns (a: int, k: int)
    requires WellFormed(adj) && Connected(adj) && |rep| == |adj| >= 1 && Labelling(rep)
    requires |Fixed(rep)| > 1
    ensures 0 <= a < |adj| && 0 <= k < |adj[a]| && rep[a] != rep[adj[a][k].v]
  {
    if exists a', k' :: 0 <= a' < |adj| && 0 <= k' < |adj[a']| && rep[a'] != rep[adj[a'][k'].v] {
      a, k :| 0 <= a < |adj| && 0 <= k < |adj[a]| && rep[a] != rep[adj[a][k].v];
    } else {
      NoCrossingOneSet(adj, rep);
    }
  }

  /** Adding edge `e` that links the trees of `ru` and `rv` joins each vertex of either tree to the winner. */
  lemma JoinsAfterLink(mst: seq<Edge>, e: Edge, x: int, r: int, ru: int, rv: int, winner: int)
    requires Joins(mst, x, r) && Joins(mst, e.u, ru) && Joins(mst, e.v, rv)
    requires (r == ru || r == rv) && (winner == ru || winner == rv)
    ensures Joins(mst + [e], x, winner)
  {
    var es := mst + [e];
    JoinsGrow(mst, e, x, r);
    JoinsGrow(mst, e, e.u, ru);
    JoinsGrow(mst, e, e.v, rv);
    JoinsRefl(mst, e.u);
    JoinsThroughNewEdge(mst, e, e.u);
    JoinsSym(es, e.u, ru);
    JoinsSym(es, e.v, rv);
    JoinsSym(es, e.u, e.v);
    if r == ru {
      JoinsTrans(es, x, ru, e.u);
      if winner == rv {
        JoinsTrans(es, x, e.u, e.v);
        JoinsTrans(es, x, e.v, rv);
      }
    } else {
      JoinsTrans(es, x, rv, e.v);
      if winner == ru {
        JoinsTrans(es, x, e.v, e.u);
        JoinsTrans(es, x, e.u, ru);
      }
    }
  }

  /** Uniting two different sets leaves one set fewer. */
  lemma RelabelFixed(rep: seq<int>, ru: int, rv: int, winner: int)
    requires Labelling(rep) && ru in Fixed(rep) && rv in Fixed(rep) && ru != rv && (winner == ru || winner == rv)
    ensures Labelling(Relabel(rep, ru, rv, winner))
    ensures Fixed(Relabel(rep, ru, rv, winner)) == Fixed(rep) - {if winner == ru then rv else ru}
    ensures |Fixed(Relabel(rep, ru, rv, winner))| == |Fixed(rep)| - 1
  {
    var loser := if winner == ru then rv else ru;
    assert Fixed(rep) == Fixed(rep) - {loser} + {loser};
  }

  /** An edge whose endpoints are in two different sets closes no cycle. */
  lemma CrossingKeepsAcyclic(adj: AdjList, rep: seq<int>, mst: seq<Edge>, count: int, e: Edge)
    requires Tracks(adj, rep, mst, count)
    requires 0 <= e.u < |adj| && 0 <= e.v < |adj| && rep[e.u] != rep[e.v]
    ensures Acyclic(mst + [e])
  {
    if Joins(mst, e.u, e.v) {
      JoinsKeepsLabel(mst, rep, e.u, e.v);
    }
    AcyclicAppend(mst, e);
  }

  /** Appending a crossing graph edge and uniting its two sets keeps the invariant with one set fewer. */
  lemma AddCrossingEdge(adj: AdjList, rep: seq<int>, mst: seq<Edge>, count: int, e: Edge, winner: int)
    requires Tracks(adj, rep, mst, count)
    requires 0 <= e.u < |adj| && 0 <= e.v < |adj| && e in adj[e.u] && rep[e.u] != rep[e.v]
    requires winner == rep[e.u] || winner == rep[e.v]
    ensures Tracks(adj, Relabel(rep, rep[e.u], rep[e.v], winner), mst + [e], count - 1)
  {
    var rep' := Relabel(rep, rep[e.u], rep[e.v], winner);
    RelabelFixed(rep, rep[e.u], rep[e.v], winner);
    CrossingKeepsAcyclic(adj, rep, mst, count, e);
    forall x | 0 <= x < |adj| ensures Joins(mst + [e], x, rep'[x]) {
      if rep[x] == rep[e.u] || rep[x] == rep[e.v] {
        JoinsAfterLink(mst, e, x, rep[x], rep[e.u], rep[e.v], winner);
      } else {
        JoinsGrow(mst, e, x, rep[x]);
      }
    }
  }

  /** With a single set left, the chosen edges form a spanning tree. */
  lemma TracksSpanning(adj: AdjList, rep: seq<int>, mst: seq<Edge>)
    requires Tracks(adj, rep, mst, 1) && |adj| >= 1
    ensures SpanningTree(adj, mst)
  {
    var r0 := rep[0];
    assert Fixed(rep) == Fixed(rep) - {r0} + {r0};
    forall x | 0 <= x < |adj| ensures Joins(mst, 0, x) {
      assert rep[x] in Fixed(rep);
      JoinsSym(mst, x, rep[x]);
      JoinsTrans(mst, 0, r0, x);
    }
  }

  /** Each slot holds the sentinel or one of `edges` that leaves the slot's set. */
  ghost predicate SlotsValid(slots: seq<Edge>, edges: seq<Edge>, rep: seq<int>)
  {
    |slots| == |rep| &&
    forall r :: 0 <= r < |slots| ==> slots[r] == Sentinel || (slots[r] in edges && Outgoing(rep, slots[r], r))
  }

  /** No edge among `edges[..k]` leaves a set more cheaply than that set's slot. */
  ghost predicate Bounded(slots: seq<Edge>, edges: seq<Edge>, k: int, rep: seq<int>)
    requires 0 <= k <= |edges| && |slots| == |rep|
  {
    forall j, r :: 0 <= j < k && 0 <= r < |slots| && Outgoing(rep, edges[j], r) ==> slots[r].weight <= edges[j].weight
  }

  /**
   * `e` is `edges[j]` for some `j < k` leaving set `r`, and every entry before position `j`
   * that leaves `r` is strictly heavier: the first of the cheapest.
   */
  ghost predicate FirstCheapest(edges: seq<Edge>, k: int, rep: seq<int>, r: int, e: Edge)
    requires 0 <= k <= |edges|
  {
    exists j :: 0 <= j < k && edges[j] == e && Outgoing(rep, e, r) &&
      forall i :: 0 <= i < j && Outgoing(rep, edges[i], r) ==> edges[i].weight > e.weight
  }

  /** Every slot that is not the sentinel holds the first cheapest entry of `edges[..k]` leaving its set. */
  ghost predicate Earliest(slots: seq<Edge>, edges: seq<Edge>, k: int, rep: seq<int>)
    requires 0 <= k <= |edges|
  {
    forall r :: 0 <= r < |slots| && slots[r] != Sentinel ==> FirstCheapest(edges, k, rep, r, slots[r])
  }

  /** What the slots hold after the scan has seen `edges[..k]`. */
  ghost predicate Scanned(slots: seq<Edge>, edges: seq<Edge>, k: int, rep: seq<int>)
    requires 0 <= k <= |edges|
  {
    SlotsValid(slots, edges, rep) && Bounded(slots, edges, k, rep) && Earliest(slots, edges, k, rep)
  }

  /** A first cheapest entry of a prefix stays one when the prefix grows. */
  lemma EarliestGrow(slots: seq<Edge>, edges: seq<Edge>, k: int, rep: seq<int>)
    requires 0 <= k < |edges| && Earliest(slots, edges, k, rep)
    ensures Earliest(slots, edges, k + 1, rep)
  {
    forall r | 0 <= r < |slots| && slots[r] != Sentinel ensures FirstCheapest(edges, k + 1, rep, r, slots[r]) {
      var j :| 0 <= j < k && edges[j] == slots[r] && Outgoing(rep, slots[r], r) &&
        forall i :: 0 <= i < j && Outgoing(rep, edges[i], r) ==> edges[i].weight > slots[r].weight;
    }
  }

  /**
   * Offering `edges[k]` to slot `r` keeps every slot a first cheapest entry of `edges[..k + 1]`:
   * the slot takes the entry only when it is strictly lighter than all earlier ones leaving `r`.
   */
  lemma OfferEarliest(slots: seq<Edge>, edges: seq<Edge>, k: int, rep: seq<int>, r: int)
    requires 0 <= k < |edges| && |slots| == |rep| && 0 <= r < |slots| && Outgoing(rep, edges[k], r)
    requires Bounded(slots, edges, k, rep) && Earliest(slots, edges, k + 1, rep)
    ensures Earliest(Offer(slots, r, edges[k]), edges, k + 1, rep)
  {
    var s' := Offer(slots, r, edges[k]);
    forall q | 0 <= q < |s'| && s'[q] != Sentinel ensures FirstCheapest(edges, k + 1, rep, q, s'[q]) {
      if q == r && slots[r].weight > edges[k].weight {
        forall i | 0 <= i < k && Outgoing(rep, edges[i], r) ensures edges[i].weight > edges[k].weight {
          assert slots[r].weight <= edges[i].weight;
        }
        assert s'[q] == edges[k];
      } else {
        assert s'[q] == slots[q];
      }
    }
  }

  /** Slot `r` takes `e` when `e` is strictly cheaper than what it holds. */
  ghost function Offer(slots: seq<Edge>, r: int, e: Edge): seq<Edge>
    requires 0 <= r < |slots|
  {
    if slots[r].weight > e.weight then slots[r := e] else slots
  }

  /** The slots after the scan has looked at entry `e`: both its sets are offered `e` when they differ. */
  ghost function ScanNext(slots: seq<Edge>, rep: seq<int>, e: Edge): seq<Edge>
    requires 0 <= e.u < |rep| && 0 <= e.v < |rep| && Labelling(rep) && |slots| == |rep|
  {
    if rep[e.u] != rep[e.v] then Offer(Offer(slots, rep[e.u], e), rep[e.v], e) else slots
  }

  /** Every entry of `edges` joins two of the vertex ids `0 .. n - 1`. */
  ghost predicate EdgesIn(edges: seq<Edge>, n: int)
  {
    forall j :: 0 <= j < |edges| ==> 0 <= edges[j].u < n && 0 <= edges[j].v < n
  }

  /** The slots once the scan has looked at every entry of `edges`, starting from the sentinel in every slot. */
  ghost function Cheapest(edges: seq<Edge>, rep: seq<int>): (slots: seq<Edge>)
    requires Labelling(rep) && EdgesIn(edges, |rep|)
    ensures |slots| == |rep|
  {
    if edges == [] then seq(|rep|, _ => Sentinel)
    else ScanNext(Cheapest(edges[..|edges| - 1], rep), rep, edges[|edges| - 1])
  }

  /** One more entry of the scan: the slots before it, offered that entry. */
  lemma CheapestStep(edges: seq<Edge>, rep: seq<int>, k: int)
    requires Labelling(rep) && EdgesIn(edges, |rep|) && 0 <= k < |edges|
    ensures Cheapest(edges[..k + 1], rep) == ScanNext(Cheapest(edges[..k], rep), rep, edges[k])
  {
    assert edges[..k + 1][..k] == edges[..k];
  }

  /** After any prefix of the scan, each slot is the sentinel or the first cheapest entry so far that leaves its set, and no entry so far leaving the set is cheaper. */
  lemma {:induction false} CheapestPrefix(edges: seq<Edge>, rep: seq<int>, k: int)
    requires Labelling(rep) && EdgesIn(edges, |rep|) && 0 <= k <= |edges|
    ensures Scanned(Cheapest(edges[..k], rep), edges, k, rep)
  {
    if k == 0 {
      CheapestNone(edges, rep);
    } else {
      CheapestPrefix(edges, rep, k - 1);
      CheapestNext(edges, rep, k - 1);
    }
  }

  /** Before the scan looks at any entry, every slot holds the sentinel. */
  lemma CheapestNone(edges: seq<Edge>, rep: seq<int>)
    requires Labelling(rep) && EdgesIn(edges, |rep|)
    ensures Scanned(Cheapest(edges[..0], rep), edges, 0, rep)
  {
    assert edges[..0] == [];
  }

  /** One more entry keeps the slots of the scan a faithful record of the prefix. */
  lemma CheapestNext(edges: seq<Edge>, rep: seq<int>, k: int)
    requires Labelling(rep) && EdgesIn(edges, |rep|) && 0 <= k < |edges|
    requires Scanned(Cheapest(edges[..k], rep), edges, k, rep)
    ensures Scanned(Cheapest(edges[..k + 1], rep), edges, k + 1, rep)
  {
    CheapestStep(edges, rep, k);
    ScanStep(Cheapest(edges[..k], rep), edges, k, rep);
  }

  /** Offering an edge that leaves set `r` to slot `r` keeps the slots valid, keeps them bounded by the earlier entries, and bounds slot `r` by the edge. */
  lemma OfferOne(slots: seq<Edge>, edges: seq<Edge>, k: int, rep: seq<int>, r: int)
    requires 0 <= k < |edges| && SlotsValid(slots, edges, rep) && Bounded(slots, edges, k, rep)
    requires 0 <= r < |slots| && Outgoing(rep, edges[k], r)
    ensures SlotsValid(Offer(slots, r, edges[k]), edges, rep) && Bounded(Offer(slots, r, edges[k]), edges, k, rep)
    ensures Offer(slots, r, edges[k])[r].weight <= edges[k].weight
    ensures forall q :: 0 <= q < |slots| && q != r ==> Offer(slots, r, edges[k])[q] == slots[q]
  {
    var s' := Offer(slots, r, edges[k]);
    forall j, q | 0 <= j < k && 0 <= q < |s'| && Outgoing(rep, edges[j], q)
      ensures s'[q].weight <= edges[j].weight
    {
      assert slots[q].weight <= edges[j].weight;
    }
  }

  /** Offering the next edge to the slots of both its sets, when they differ, extends the scan by one edge. */
  lemma ScanStep(slots: seq<Edge>, edges: seq<Edge>, k: int, rep: seq<int>)
    requires 0 <= k < |edges| && Scanned(slots, edges, k, rep)
    requires 0 <= edges[k].u < |rep| && 0 <= edges[k].v < |rep| && Labelling(rep)
    ensures Scanned(ScanNext(slots, rep, edges[k]), edges, k + 1, rep)
  {
    var e := edges[k];
    EarliestGrow(slots, edges, k, rep);
    if rep[e.u] != rep[e.v] {
      var s1 := Offer(slots, rep[e.u], e);
      OfferOne(slots, edges, k, rep, rep[e.u]);
      OfferEarliest(slots, edges, k, rep, rep[e.u]);
      var s2 := Offer(s1, rep[e.v], e);
      OfferOne(s1, edges, k, rep, rep[e.v]);
      OfferEarliest(s1, edges, k, rep, rep[e.v]);
      forall j, q | 0 <= j < k + 1 && 0 <= q < |s2| && Outgoing(rep, edges[j], q)
        ensures s2[q].weight <= edges[j].weight
      {
        if j == k && q == rep[e.u] {
          assert s2[q] == s1[q];
        }
      }
    } else {
      forall j, q | 0 <= j < k + 1 && 0 <= q < |slots| && Outgoing(rep, edges[j], q)
        ensures slots[q].weight <= edges[j].weight
      {
        assert j < k;
      }
    }
  }

  /** `if (cheapestEdge[r].weight > weight) cheapestEdge[r] = edge;` */
  method OfferSlot(cheapest: array<Edge>, r: int, e: Edge)
    requires 0 <= r < cheapest.Length
    modifies cheapest
    ensures cheapest[..] == Offer(old(cheapest[..]), r, e)
    ensures cheapest[r].weight <= e.weight && cheapest[r].weight <= old(cheapest[r].weight)
  {
    if cheapest[r].weight > e.weight {
      cheapest[r] := e;
    }
  }

  /**
   * The edge scan of one round (`for (const Edge& edge : graph.getEdges())`): for every entry
   * whose endpoints are in different sets, each of the two sets keeps the entry if it is
   * strictly cheaper than what it holds. Afterwards each set's slot holds a cheapest outgoing
   * entry, or the sentinel when the set has none; the finds leave the sets unchanged.
   */
  method CheapestEdges(edges: seq<Edge>, parent: array<int>, ghost rank: seq<int>, ghost rep: seq<int>)
    returns (cheapest: array<Edge>)
    requires IsForest(parent[..], rank) && rep == Reps(parent[..], rank)
    requires EdgesIn(edges, parent.Length)
    modifies parent
    ensures fresh(cheapest) && cheapest.Length == parent.Length
    ensures Labelling(rep) && cheapest[..] == Cheapest(edges, rep)
    ensures IsForest(parent[..], rank) && Reps(parent[..], rank) == rep
    ensures forall r :: 0 <= r < cheapest.Length ==>
              cheapest[r] == Sentinel || (cheapest[r] in edges && Outgoing(rep, cheapest[r], r))
    ensures forall j, r :: 0 <= j < |edges| && 0 <= r < cheapest.Length && Outgoing(rep, edges[j], r) ==>
              cheapest[r].weight <= edges[j].weight
    ensures Earliest(cheapest[..], edges, |edges|, rep)
  {
    cheapest := new Edge[parent.Length](_ => Sentinel);
    RepsLabelling(parent[..], rank);
    assert edges[..0] == [];
    for k := 0 to |edges|
      invariant IsForest(parent[..], rank) && Reps(parent[..], rank) == rep
      invariant cheapest[..] == Cheapest(edges[..k], rep)
    {
      var e := edges[k];
      ghost var before := cheapest[..];
      CheapestStep(edges, rep, k);
      var setU := Find(parent, rank, e.u);
      var setV := Find(parent, rank, e.v);
      assert setU == rep[e.u] && setV == rep[e.v];
      if setU != setV {
        OfferSlot(cheapest, setU, e);
        OfferSlot(cheapest, setV, e);
      }
      assert cheapest[..] == ScanNext(before, rep, e);
    }
    assert edges[..|edges|] == edges;
    CheapestPrefix(edges, rep, |edges|);
  }

  /** Under the invariant, two vertices are in the same set exactly when the chosen edges join them. */
  lemma TracksJoins(adj: AdjList, rep: seq<int>, mst: seq<Edge>, count: int, x: int, y: int)
    requires Tracks(adj, rep, mst, count) && 0 <= x < |adj| && 0 <= y < |adj|
    ensures Joins(mst, x, y) <==> rep[x] == rep[y]
  {
    if Joins(mst, x, y) {
      JoinsKeepsLabel(mst, rep, x, y);
    }
    if rep[x] == rep[y] {
      JoinsSym(mst, y, rep[y]);
      JoinsTrans(mst, x, rep[x], y);
    }
  }

  /**
   * The merge pass as a function of the slots: in slot order, the edge of each slot that is not
   * the sentinel is appended when the edges so far do not already join its endpoints.
   */
  ghost function Merged(mst: seq<Edge>, slots: seq<Edge>): (r: seq<Edge>)
    ensures mst <= r
    ensures forall i :: |mst| <= i < |r| ==> r[i] != Sentinel && r[i] in slots
  {
    if slots == [] then mst
    else
      var before := Merged(mst, slots[..|slots| - 1]);
      var e := slots[|slots| - 1];
      if e != Sentinel && !Joins(before, e.u, e.v) then before + [e] else before
  }

  /** One more slot of the merge: the edge is appended when the merge so far does not join its endpoints. */
  lemma MergedStep(mst: seq<Edge>, slots: seq<Edge>, i: int)
    requires 0 <= i < |slots|
    ensures Merged(mst, slots[..i + 1]) ==
              var before := Merged(mst, slots[..i]);
              if slots[i] != Sentinel && !Joins(before, slots[i].u, slots[i].v) then before + [slots[i]] else before
  {
    assert slots[..i + 1][..i] == slots[..i];
  }

  /**
   * The merge of one slot: when it holds an edge whose endpoints are still in two different
   * sets, the edge is appended and the two sets are united; otherwise nothing changes.
   */
  method MergeSlot(ghost adj: AdjList, e: Edge, parent: array<int>, rank: array<int>,
                   mst: seq<Edge>, count: int, ghost rep: seq<int>)
    returns (mst': seq<Edge>, count': int, ghost rep': seq<int>)
    requires parent != rank && IsForest(parent[..], rank[..]) && rep == Reps(parent[..], rank[..])
    requires Tracks(adj, rep, mst, count)
    requires e == Sentinel || (0 <= e.u < |adj| && 0 <= e.v < |adj| && e in adj[e.u])
    modifies parent, rank
    ensures IsForest(parent[..], rank[..]) && rep' == Reps(parent[..], rank[..])
    ensures Tracks(adj, rep', mst', count')
    ensures if e != Sentinel && rep[e.u] != rep[e.v] then mst' == mst + [e] && count' == count - 1
            else mst' == mst && count' == count && rep' == rep
    ensures mst' == if e != Sentinel && !Joins(mst, e.u, e.v) then mst + [e] else mst
  {
    if e != Sentinel {
      TracksJoins(adj, rep, mst, count, e.u, e.v);
    }
    mst', count', rep' := mst, count, rep;
    if e.u != -1 && e.v != -1 {
      var setU := Find(parent, rank[..], e.u);
      var setV := Find(parent, rank[..], e.v);
      assert setU == rep[e.u] && setV == rep[e.v];
      if setU != setV {
        ghost var winner := if rank[setU] < rank[setV] then setV else setU;
        AddCrossingEdge(adj, rep, mst, count, e, winner);
        mst' := mst + [e];
        assert RootOf(parent[..], rank[..], setU) == setU && RootOf(parent[..], rank[..], setV) == setV;
        UnionSets(parent, rank, setU, setV);
        count' := count - 1;
        rep' := Relabel(rep, setU, setV, winner);
      }
    }
  }

  /**
   * The merge after its first `i` slots: the sets still track the tree, the tree is the merge of
   * those slots, and the count has dropped unless every slot so far was the sentinel.
   */
  ghost predicate Merging(adj: AdjList, cheapest: seq<Edge>, i: int, mst0: seq<Edge>, count0: int, rep0: seq<int>,
                          mst: seq<Edge>, count: int, rep: seq<int>)
    requires 0 <= i <= |cheapest|
  {
    Tracks(adj, rep, mst, count) && mst == Merged(mst0, cheapest[..i]) && count <= count0 &&
    (count == count0 ==> rep == rep0 && forall r :: 0 <= r < i ==> cheapest[r] == Sentinel)
  }

  /**
   * The merge step of one round: each slot holding an edge whose endpoints are still in two
   * different sets adds that edge and unites the sets. If no set was merged, every slot held
   * the sentinel. The slots are only read here, so they are passed as a sequence.
   */
  method MergeCheapest(ghost adj: AdjList, cheapest: seq<Edge>, parent: array<int>, rank: array<int>,
                       mst0: seq<Edge>, count0: int, ghost rep0: seq<int>)
    returns (mst: seq<Edge>, count: int, ghost rep: seq<int>)
    requires parent != rank && |cheapest| == parent.Length
    requires IsForest(parent[..], rank[..]) && rep0 == Reps(parent[..], rank[..])
    requires Tracks(adj, rep0, mst0, count0)
    requires forall r :: 0 <= r < |cheapest| ==>
               cheapest[r] == Sentinel || (Outgoing(rep0, cheapest[r], r) && cheapest[r] in adj[cheapest[r].u])
    modifies parent, rank
    ensures IsForest(parent[..], rank[..]) && rep == Reps(parent[..], rank[..])
    ensures Tracks(adj, rep, mst, count)
    ensures count <= count0
    ensures count == count0 ==> forall r :: 0 <= r < |cheapest| ==> cheapest[r] == Sentinel
    ensures mst == Merged(mst0, cheapest)
    ensures mst0 <= mst && forall i :: |mst0| <= i < |mst| ==> mst[i] != Sentinel && mst[i] in cheapest
  {
    rep := rep0;
    mst, count := mst0, count0;
    assert cheapest[..0] == [];
    for i := 0 to |cheapest|
      invariant IsForest(parent[..], rank[..]) && rep == Reps(parent[..], rank[..])
      invariant Merging(adj, cheapest, i, mst0, count0, rep0, mst, count, rep)
    {
      var e := cheapest[i];
      MergedStep(mst0, cheapest, i);
      ghost var (c, r) := (count, rep);
      mst, count, rep := MergeSlot(adj, e, parent, rank, mst, count, rep);
      if count == count0 {
        assert c == count0 && r == rep0;
        assert e == Sentinel;
        assert forall q :: 0 <= q <= i ==> cheapest[q] == Sentinel;
      }
    }
    assert cheapest[..|cheapest|] == cheapest;
  }

  /** The position of entry `adj[a][k]` in the list `getEdges()` returns. */
  lemma EntryIndex(adj: AdjList, a: int, k: int) returns (j: int)
    requires 0 <= a < |adj| && 0 <= k < |adj[a]|
    ensures 0 <= j < |Flatten(adj)| && Flatten(adj)[j] == adj[a][k]
  {
    FlattenMembers(adj);
    assert adj[a][k] in adj[a];
    assert adj[a][k] in Flatten(adj);
    j :| 0 <= j < |Flatten(adj)| && Flatten(adj)[j] == adj[a][k];
  }

  /** A slot holding one of the graph's entries holds an edge stored in its first endpoint's list. */
  lemma SlotsFromGraph(adj: AdjList, slots: seq<Edge>, rep: seq<int>)
    requires WellFormed(adj) && |rep| == |adj| && SlotsValid(slots, Flatten(adj), rep)
    ensures forall r :: 0 <= r < |slots| ==>
              slots[r] == Sentinel || (Outgoing(rep, slots[r], r) && slots[r] in adj[slots[r].u])
  {
    FlattenMembers(adj);
    forall r | 0 <= r < |slots| && slots[r] != Sentinel
      ensures slots[r] in adj[slots[r].u]
    {
      var a :| 0 <= a < |adj| && slots[r] in adj[a];
      var k :| 0 <= k < |adj[a]| && adj[a][k] == slots[r];
    }
  }

  /** Every entry of `getEdges()` ends at vertices. */
  lemma FlattenInRange(adj: AdjList)
    requires WellFormed(adj)
    ensures EdgesIn(Flatten(adj), |adj|)
  {
    FlattenMembers(adj);
    forall j | 0 <= j < |Flatten(adj)|
      ensures 0 <= Flatten(adj)[j].u < |adj| && 0 <= Flatten(adj)[j].v < |adj|
    {
      assert Flatten(adj)[j] in Flatten(adj);
      var a :| 0 <= a < |adj| && Flatten(adj)[j] in adj[a];
      var k :| 0 <= k < |adj[a]| && adj[a][k] == Flatten(adj)[j];
    }
  }

  /** `e` is, for some set of `rep`, the first cheapest entry of the whole of `edges` leaving it. */
  ghost predicate Chosen(edges: seq<Edge>, rep: seq<int>, e: Edge)
  {
    exists r :: 0 <= r < |rep| && FirstCheapest(edges, |edges|, rep, r, e)
  }

  /** Every edge the merge appends is the first cheapest entry of the scan that leaves some set. */
  lemma MergedFirstCheapest(edges: seq<Edge>, rep: seq<int>, slots: seq<Edge>, mst0: seq<Edge>, mst: seq<Edge>)
    requires |slots| == |rep| && Earliest(slots, edges, |edges|, rep)
    requires forall i :: |mst0| <= i < |mst| ==> mst[i] != Sentinel && mst[i] in slots
    ensures forall i :: |mst0| <= i < |mst| ==> Chosen(edges, rep, mst[i])
  {
    forall i | |mst0| <= i < |mst| ensures Chosen(edges, rep, mst[i]) {
      var r :| 0 <= r < |slots| && slots[r] == mst[i];
      assert FirstCheapest(edges, |edges|, rep, r, slots[r]);
    }
  }

  /** What one round makes of `mst`: the scan of `getEdges()` under the sets `rep`, then the merge of its slots. */
  ghost function RoundEdges(adj: AdjList, rep: seq<int>, mst: seq<Edge>): (r: seq<Edge>)
    requires WellFormed(adj) && |rep| == |adj| && Labelling(rep)
    ensures mst <= r
  {
    FlattenInRange(adj);
    Merged(mst, Cheapest(Flatten(adj), rep))
  }

  /**
   * One pass of the main loop of `BoruvkaSolver::solve`: every set picks its cheapest outgoing
   * edge and the picked edges are merged. On a connected graph with two or more sets at least
   * one set has an outgoing edge, so the number of sets strictly drops.
   */
  method Round(graph: Graph, parent: array<int>, rank: array<int>, mst0: seq<Edge>, count0: int, ghost rep0: seq<int>)
    returns (mst: seq<Edge>, count: int, ghost rep: seq<int>)
    requires graph.Valid() && Connected(graph.adj) && WeightsBelowMax(graph.adj) && parent != rank
    requires IsForest(parent[..], rank[..]) && rep0 == Reps(parent[..], rank[..])
    requires Tracks(graph.adj, rep0, mst0, count0) && count0 > 1
    modifies parent, rank
    ensures IsForest(parent[..], rank[..]) && rep == Reps(parent[..], rank[..])
    ensures Tracks(graph.adj, rep, mst, count) && 1 <= count < count0
    ensures mst == RoundEdges(graph.adj, rep0, mst0) && mst0 <= mst
    ensures forall i :: |mst0| <= i < |mst| ==> Chosen(Flatten(graph.adj), rep0, mst[i])
  {
    ghost var adj := graph.adj;
    var edges := graph.GetEdges();
    FlattenInRange(adj);
    var cheapest := CheapestEdges(edges, parent, rank[..], rep0);
    ghost var slots := cheapest[..];
    CrossingSlot(adj, rep0, slots);
    SlotsFromGraph(adj, cheapest[..], rep0);
    mst, count, rep := MergeCheapest(adj, cheapest[..], parent, rank, mst0, count0, rep0);
    assert rep[0] in Fixed(rep);
    RoundMerge(adj, rep0, slots, mst0, mst);
  }

  /** While more than one set is left, some slot of the scan holds an edge: a connected graph has an entry between two sets, and no slot it leaves can stay the sentinel. */
  lemma CrossingSlot(adj: AdjList, rep: seq<int>, slots: seq<Edge>)
    requires WellFormed(adj) && Connected(adj) && WeightsBelowMax(adj)
    requires |rep| == |adj| >= 1 && Labelling(rep) && |Fixed(rep)| > 1 && |slots| == |rep|
    requires forall j, r :: 0 <= j < |Flatten(adj)| && 0 <= r < |slots| && Outgoing(rep, Flatten(adj)[j], r) ==>
               slots[r].weight <= Flatten(adj)[j].weight
    ensures exists r :: 0 <= r < |slots| && slots[r] != Sentinel
  {
    var a, k := CrossingEntry(adj, rep);
    var j := EntryIndex(adj, a, k);
    FlattenInRange(adj);
    assert Outgoing(rep, Flatten(adj)[j], rep[a]) && Flatten(adj)[j].weight < INT_MAX;
    assert slots[rep[a]] != Sentinel;
  }

  /** A merge of the round's slot table is the round's result, and each edge it appends was chosen by the scan. */
  lemma RoundMerge(adj: AdjList, rep: seq<int>, slots: seq<Edge>, mst0: seq<Edge>, mst: seq<Edge>)
    requires WellFormed(adj) && |rep| == |adj| && Labelling(rep) && EdgesIn(Flatten(adj), |adj|)
    requires slots == Cheapest(Flatten(adj), rep) && Earliest(slots, Flatten(adj), |Flatten(adj)|, rep)
    requires mst == Merged(mst0, slots)
    ensures mst == RoundEdges(adj, rep, mst0)
    ensures forall i :: |mst0| <= i < |mst| ==> Chosen(Flatten(adj), rep, mst[i])
  {
    MergedFirstCheapest(Flatten(adj), rep, slots, mst0, mst);
  }

  /**
   * `BoruvkaSolver::solve(graph)`: the empty sequence when the graph is not connected,
   * otherwise a spanning tree of it that starts with the edges the first round merges,
   * every vertex then being its own set.
   */
  method Solve(graph: Graph) returns (mst: seq<Edge>)
    requires graph.Valid() && graph.numVertices >= 1
    requires WeightsBelowMax(graph.adj)
    ensures !Connected(graph.adj) ==> mst == []
    ensures Connected(graph.adj) ==> SpanningTree(graph.adj, mst)
    ensures Connected(graph.adj) && graph.numVertices >= 2 ==>
              RoundEdges(graph.adj, Identity(graph.numVertices), []) <= mst
  {
    var connected := graph.IsConnected();
    if !connected {
      return [];
    }
    var numVertices := graph.GetNumVertices();
    ghost var adj := graph.adj;
    mst := [];
    var parent := new int[numVertices](i => i);
    var rank := new int[numVertices](_ => 0);
    assert IsForest(parent[..], rank[..]);
    assert Reps(parent[..], rank[..]) == Identity(numVertices);
    TracksInitially(adj);
    var numComponents := numVertices;
    ghost var rep := Identity(numVertices);
    while numComponents > 1
      invariant IsForest(parent[..], rank[..]) && rep == Reps(parent[..], rank[..])
      invariant Tracks(adj, rep, mst, numComponents) && 1 <= numComponents <= numVertices
      invariant numComponents == numVertices ==> mst == [] && rep == Identity(numVertices)
      invariant numComponents < numVertices ==> RoundEdges(adj, Identity(numVertices), []) <= mst
      decreases numComponents
    {
      mst, numComponents, rep := Round(graph, parent, rank, mst, numComponents, rep);
    }
    TracksSpanning(adj, rep, mst);
  }
}
