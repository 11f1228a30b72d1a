/**
 * The disjoint-set helpers of MSTSolver.cpp: `find` with path compression and `unionSets`
 * with union by rank, both over `parent` and `rank` vectors (arrays here) that they update in
 * place. The sets are given by `RootOf`; the rank strictly grows along every parent pointer,
 * which is also what makes `find` terminate.
 */
module UnionFind {
  /** A disjoint-set forest: pointers stay in range, and every non-root has a smaller rank than its parent. */
  ghost predicate IsForest(parent: seq<int>, rank: seq<int>)
  {
    |parent| == |rank| &&
    forall x :: 0 <= x < |parent| ==> 0 <= parent[x] < |parent| && (parent[x] != x ==> rank[x] < rank[parent[x]])
  }

  /** The nodes of strictly higher rank than `i`; it shrinks at each step towards a root. */
  ghost function Above(rank: seq<int>, i: int): set<int>
    requires 0 <= i < |rank|
  {
    set x | 0 <= x < |rank| && rank[x] > rank[i]
  }

  /** The representative of `i`'s set: the root reached by following `parent`. */
  ghost function RootOf(parent: seq<int>, rank: seq<int>, i: int): (r: int)
    requires IsForest(parent, rank) && 0 <= i < |parent|
    ensures 0 <= r < |parent| && parent[r] == r
    ensures rank[i] <= rank[r] && (parent[i] != i ==> rank[i] < rank[r])
    decreases Above(rank, i)
  {
    if parent[i] == i then i
    else
      assert parent[i] in Above(rank, i) - Above(rank, parent[i]);
      RootOf(parent, rank, parent[i])
  }

  /** `x` lies on the path from `i` to its root. */
  ghost predicate OnPath(parent: seq<int>, rank: seq<int>, i: int, x: int)
    requires IsForest(parent, rank) && 0 <= i < |parent|
    decreases Above(rank, i)
  {
    x == i ||
    (parent[i] != i &&
     assert parent[i] in Above(rank, i) - Above(rank, parent[i]);
     OnPath(parent, rank, parent[i], x))
  }

  /** The representatives: one per set. */
  ghost function Roots(parent: seq<int>): set<int>
  {
    set x | 0 <= x < |parent| && parent[x] == x
  }

  /** The vertices that are their own representative in a labelling `rep`. */
  ghost function Fixed(rep: seq<int>): set<int>
  {
    set x | 0 <= x < |rep| && rep[x] == x
  }

  /**
   * The representative of every node, as a sequence. Representatives are roots, are their own
   * representatives, and the roots are exactly the nodes that represent themselves.
   */
  ghost function Reps(parent: seq<int>, rank: seq<int>): (rep: seq<int>)
    requires IsForest(parent, rank)
    ensures |rep| == |parent|
    ensures forall x :: 0 <= x < |rep| ==> rep[x] == RootOf(parent, rank, x)
    ensures forall x :: 0 <= x < |rep| ==> 0 <= rep[x] < |rep| && parent[rep[x]] == rep[x]
    ensures Fixed(rep) == Roots(parent)
  {
    seq(|parent|, x requires 0 <= x < |parent| => RootOf(parent, rank, x))
  }

  /** The representatives after the sets of `ru` and `rv` are united under `winner`; every other set keeps its own. */
  ghost function Relabel(rep: seq<int>, ru: int, rv: int, winner: int): seq<int>
  {
    seq(|rep|, x requires 0 <= x < |rep| => if rep[x] == ru || rep[x] == rv then winner else rep[x])
  }

  /** The pointers after path compression from `i`: every node on the path from `i` points at the root, the rest are unchanged. */
  ghost function Compressed(parent: seq<int>, rank: seq<int>, i: int): seq<int>
    requires IsForest(parent, rank) && 0 <= i < |parent|
  {
    seq(|parent|, x requires 0 <= x < |parent| =>
      if OnPath(parent, rank, i, x) then RootOf(parent, rank, i) else parent[x])
  }

  /** Ranks do not decrease along a path, and the only root on a path is the path's end. */
  lemma {:induction false} OnPathFacts(parent: seq<int>, rank: seq<int>, i: int, x: int)
    requires IsForest(parent, rank) && 0 <= i < |parent| && OnPath(parent, rank, i, x)
    ensures 0 <= x < |parent| && rank[i] <= rank[x]
    ensures parent[x] == x ==> x == RootOf(parent, rank, i)
    decreases Above(rank, i)
  {
    if x != i {
      assert parent[i] in Above(rank, i) - Above(rank, parent[i]);
      OnPathFacts(parent, rank, parent[i], x);
    }
  }

  /** The sets do not depend on the ranks, only on the pointers. */
  lemma {:induction false} RootOfRankFree(parent: seq<int>, rank: seq<int>, rank': seq<int>, x: int)
    requires IsForest(parent, rank) && IsForest(parent, rank') && 0 <= x < |parent|
    ensures RootOf(parent, rank, x) == RootOf(parent, rank', x)
    decreases Above(rank, x)
  {
    if parent[x] != x {
      assert parent[x] in Above(rank, x) - Above(rank, parent[x]);
      RootOfRankFree(parent, rank, rank', parent[x]);
    }
  }

  /** Pointing `i` straight at its own root keeps the forest and every node's root. */
  lemma {:induction false} RedirectKeepsRoots(parent: seq<int>, rank: seq<int>, i: int, x: int)
    requires IsForest(parent, rank) && 0 <= i < |parent| && 0 <= x < |parent|
    ensures IsForest(parent[i := RootOf(parent, rank, i)], rank)
    ensures RootOf(parent[i := RootOf(parent, rank, i)], rank, x) == RootOf(parent, rank, x)
    decreases Above(rank, x)
  {
    var r := RootOf(parent, rank, i);
    var p' := parent[i := r];
    assert IsForest(p', rank);
    if x != i && parent[x] != x {
      assert parent[x] in Above(rank, x) - Above(rank, parent[x]);
      RedirectKeepsRoots(parent, rank, i, parent[x]);
    }
  }

  /** Linking the root `loser` under the root `winner` merges exactly their two sets. */
  lemma {:induction false} LinkRoots(parent: seq<int>, rank: seq<int>, rank': seq<int>, loser: int, winner: int, x: int)
    requires IsForest(parent, rank) && 0 <= loser < |parent| && 0 <= winner < |parent| && loser != winner
    requires parent[loser] == loser && parent[winner] == winner
    requires IsForest(parent[loser := winner], rank') && 0 <= x < |parent|
    ensures RootOf(parent[loser := winner], rank', x) ==
            if RootOf(parent, rank, x) == loser then winner else RootOf(parent, rank, x)
    decreases Above(rank', x)
  {
    var p' := parent[loser := winner];
    if x != loser && parent[x] != x {
      assert p'[x] in Above(rank', x) - Above(rank', p'[x]);
      LinkRoots(parent, rank, rank', loser, winner, parent[x]);
    }
  }

  /**
   * `find(parent, i)`: returns the root of `i`'s set; every node on the path from `i` now points
   * straight at that root, every other pointer is unchanged, and so are the sets.
   */
  method Find(parent: array<int>, ghost rank: seq<int>, i: int) returns (r: int)
    requires IsForest(parent[..], rank) && 0 <= i < parent.Length
    modifies parent
    ensures IsForest(parent[..], rank)
    ensures r == RootOf(old(parent[..]), rank, i) && parent[r] == r
    ensures parent[..] == Compressed(old(parent[..]), rank, i)
    ensures Reps(parent[..], rank) == Reps(old(parent[..]), rank)
    decreases Above(rank, i)
  {
    ghost var before := parent[..];
    if parent[i] != i {
      assert parent[i] in Above(rank, i) - Above(rank, parent[i]);
      var root := Find(parent, rank, parent[i]);
      if OnPath(before, rank, before[i], i) {
        OnPathFacts(before, rank, before[i], i);
      }
      ghost var mid := parent[..];
      parent[i] := root;
      assert parent[..] == Compressed(before, rank, i);
      forall x | 0 <= x < parent.Length
        ensures RootOf(parent[..], rank, x) == RootOf(before, rank, x)
      {
        RedirectKeepsRoots(mid, rank, i, x);
      }
    }
    r := parent[i];
    assert parent[..] == Compressed(before, rank, i);
  }

  /**
   * Linking the root `loser` under the root `winner`, where `winner` keeps its rank or gains
   * one and outranks `loser` afterwards, keeps the forest and unites the two sets under `winner`.
   */
  lemma LinkMerges(parent: seq<int>, rank: seq<int>, rank': seq<int>, loser: int, winner: int)
    requires IsForest(parent, rank) && 0 <= loser < |parent| && 0 <= winner < |parent| && loser != winner
    requires parent[loser] == loser && parent[winner] == winner
    requires rank' == rank || rank' == rank[winner := rank[winner] + 1]
    requires rank[loser] < rank'[winner]
    ensures IsForest(parent[loser := winner], rank')
    ensures Reps(parent[loser := winner], rank') == Relabel(Reps(parent, rank), loser, winner, winner)
    ensures Reps(parent[loser := winner], rank') == Relabel(Reps(parent, rank), winner, loser, winner)
  {
    var p' := parent[loser := winner];
    assert IsForest(p', rank');
    forall x | 0 <= x < |parent|
      ensures RootOf(p', rank', x) == if RootOf(parent, rank, x) == loser then winner else RootOf(parent, rank, x)
    {
      LinkRoots(parent, rank, rank', loser, winner, x);
    }
  }

  /** Changing only ranks changes no set. */
  lemma RerankMergesNothing(parent: seq<int>, rank: seq<int>, rank': seq<int>, r: int)
    requires IsForest(parent, rank) && IsForest(parent, rank') && 0 <= r < |parent| && parent[r] == r
    ensures Reps(parent, rank') == Relabel(Reps(parent, rank), r, r, r)
  {
    forall x | 0 <= x < |parent|
      ensures RootOf(parent, rank', x) == RootOf(parent, rank, x)
    {
      RootOfRankFree(parent, rank, rank', x);
    }
  }

  /**
   * `unionSets(parent, rank, u, v)`: find both roots, then hang the root of lower rank under the
   * other; on equal ranks `v`'s root goes under `u`'s and `u`'s root gains one rank (even when
   * the two roots are the same).
   */
  method UnionSets(parent: array<int>, rank: array<int>, u: int, v: int)
    requires parent != rank && IsForest(parent[..], rank[..])
    requires 0 <= u < parent.Length && 0 <= v < parent.Length
    modifies parent, rank
    ensures IsForest(parent[..], rank[..])
    ensures var ru := RootOf(old(parent[..]), old(rank[..]), u);
            var rv := RootOf(old(parent[..]), old(rank[..]), v);
            Reps(parent[..], rank[..]) ==
              Relabel(Reps(old(parent[..]), old(rank[..])), ru, rv, if old(rank[ru]) < old(rank[rv]) then rv else ru) &&
            rank[..] == if old(rank[ru]) == old(rank[rv]) then old(rank[..])[ru := old(rank[ru]) + 1] else old(rank[..])
  {
    ghost var p0 := parent[..];
    ghost var k0 := rank[..];
    var rootU := Find(parent, rank[..], u);
    var rootV := Find(parent, rank[..], v);
    ghost var p2 := parent[..];
    assert Reps(p2, k0) == Reps(p0, k0) && rootU == Reps(p0, k0)[u] && rootV == Reps(p0, k0)[v];
    if rank[rootU] < rank[rootV] {
      parent[rootU] := rootV;
      assert parent[..] == p2[rootU := rootV];
      LinkMerges(p2, k0, k0, rootU, rootV);
    } else if rank[rootU] > rank[rootV] {
      parent[rootV] := rootU;
      assert parent[..] == p2[rootV := rootU];
      LinkMerges(p2, k0, k0, rootV, rootU);
    } else if rootU == rootV {
      rank[rootU] := rank[rootU] + 1;
      RerankMergesNothing(p2, k0, rank[..], rootU);
    } else {
      parent[rootV] := rootU;
      rank[rootU] := rank[rootU] + 1;
      assert parent[..] == p2[rootV := rootU] && rank[..] == k0[rootU := k0[rootU] + 1];
      LinkMerges(p2, k0, rank[..], rootV, rootU);
    }
  }
}
