/**
 * MSTSolver.cpp, the integer metrics over an MST edge list: `totalWeight`, `longestDistance`
 * and `shortestDistance`. Each is an accumulator loop; the model states what each returns
 * as a property of the edge weights.
 */
module Metrics {
  import opened Edges
  import opened Wrappers

  /** The sum of the weights, accumulated front to back. */
  function Sum(mst: seq<Edge>): int
  {
    if mst == [] then 0 else Sum(mst[..|mst| - 1]) + mst[|mst| - 1].weight
  }

  /**
   * `static_cast<double>(total) / numEdges` converted back to `int`: the quotient truncated
   * toward zero. (For 32-bit operands the double quotient never rounds onto the next integer,
   * so this is the exact quotient truncated.)
   */
  function TruncDiv(a: int, b: int): (q: int)
    requires b > 0
    ensures a >= 0 ==> 0 <= q * b <= a < q * b + b
    ensures a < 0 ==> q * b - b < a <= q * b <= 0
  {
    if a >= 0 then DivBounds(a, b); a / b else DivBounds(-a, b); -((-a) / b)
  }

  /** Euclidean division of a non-negative number: the quotient times the divisor is at most the number, by less than the divisor. */
  lemma DivBounds(a: int, b: int)
    requires a >= 0 && b > 0
    ensures 0 <= (a / b) * b <= a < (a / b) * b + b
  {
    assert a == (a / b) * b + a % b;
  }

  /** `r` is the largest of 0 and the weights: the value `longestDistance` returns. */
  ghost predicate IsLongest(mst: seq<Edge>, r: int)
  {
    r >= 0 && (forall i :: 0 <= i < |mst| ==> mst[i].weight <= r) &&
    (r == 0 || exists i :: 0 <= i < |mst| && mst[i].weight == r)
  }

  /** `r` is the smallest of `INT_MAX` and the weights: the value `shortestDistance` returns. */
  ghost predicate IsShortest(mst: seq<Edge>, r: int)
  {
    r <= INT_MAX && (forall i :: 0 <= i < |mst| ==> r <= mst[i].weight) &&
    (r == INT_MAX || exists i :: 0 <= i < |mst| && mst[i].weight == r)
  }

  /** `r` is what `totalWeight` returns: nothing for an empty list, else the truncated mean weight. */
  ghost predicate IsTruncatedMean(mst: seq<Edge>, r: Option<int>)
  {
    if mst == [] then r == None else r == Some(TruncDiv(Sum(mst), |mst|))
  }

  /**
   * `totalWeight(mst)`: despite its name, the sum of the weights divided by their number,
   * truncated. On an empty list it divides zero by zero and converts the resulting NaN to `int`,
   * which C++ leaves undefined; the model returns `None` there.
   */
  method TotalWeight(mst: seq<Edge>) returns (r: Option<int>)
    ensures IsTruncatedMean(mst, r)
  {
    var total := 0;
    var numEdges := 0;
    for i := 0 to |mst|
      invariant total == Sum(mst[..i]) && numEdges == i
    {
      assert mst[..i + 1][..i] == mst[..i];
      total := total + mst[i].weight;
      numEdges := numEdges + 1;
    }
    assert mst[..|mst|] == mst;
    if numEdges == 0 {
      return None;
    }
    return Some(TruncDiv(total, numEdges));
  }

  /** `longestDistance(mst)`: a running `std::max` seeded with 0. */
  method LongestDistance(mst: seq<Edge>) returns (r: int)
    ensures IsLongest(mst, r)
  {
    r := 0;
    for i := 0 to |mst|
      invariant IsLongest(mst[..i], r)
    {
      if mst[i].weight > r {
        r := mst[i].weight;
      }
      assert forall j :: 0 <= j < i ==> mst[..i + 1][j] == mst[..i][j];
    }
    assert mst[..|mst|] == mst;
  }

  /** `shortestDistance(mst)`: a running `std::min` seeded with `INT_MAX`. */
  method ShortestDistance(mst: seq<Edge>) returns (r: int)
    ensures IsShortest(mst, r)
  {
    r := INT_MAX;
    for i := 0 to |mst|
      invariant IsShortest(mst[..i], r)
    {
      if mst[i].weight < r {
        r := mst[i].weight;
      }
      assert forall j :: 0 <= j < i ==> mst[..i + 1][j] == mst[..i][j];
    }
    assert mst[..|mst|] == mst;
  }

  /** Each list has exactly one longest and one shortest value. */
  lemma MetricsUnique(mst: seq<Edge>, a: int, b: int)
    ensures IsLongest(mst, a) && IsLongest(mst, b) ==> a == b
    ensures IsShortest(mst, a) && IsShortest(mst, b) ==> a == b
  {
  }

  /** A sum of weights lying between `lo` and `hi` lies between `n * lo` and `n * hi`. */
  lemma {:induction false} SumBounds(mst: seq<Edge>, lo: int, hi: int)
    requires forall i :: 0 <= i < |mst| ==> lo <= mst[i].weight <= hi
    ensures |mst| * lo <= Sum(mst) <= |mst| * hi
  {
    if mst != [] {
      var init := mst[..|mst| - 1];
      assert forall i :: 0 <= i < |init| ==> init[i] == mst[i];
      SumBounds(init, lo, hi);
      BoundsStep(|mst|, lo, hi, Sum(init), mst[|mst| - 1].weight);
    }
  }

  /** Bounds on a sum of `n - 1` terms and on one more term bound the sum of `n` terms. */
  lemma BoundsStep(n: int, lo: int, hi: int, a: int, x: int)
    requires (n - 1) * lo <= a <= (n - 1) * hi && lo <= x <= hi
    ensures n * lo <= a + x <= n * hi
  {
    assert n * lo == (n - 1) * lo + lo && n * hi == (n - 1) * hi + hi;
  }

  /** A sum appended to is the old sum plus the new weight. */
  lemma SumAppend(mst: seq<Edge>, e: Edge)
    ensures Sum(mst + [e]) == Sum(mst) + e.weight
  {
    assert (mst + [e])[..|mst|] == mst;
  }

  /** Truncating a quotient that lies between two integers keeps it between them. */
  lemma TruncDivBetween(s: int, n: int, lo: int, hi: int)
    requires n > 0 && n * lo <= s <= n * hi
    ensures lo <= TruncDiv(s, n) <= hi
  {
    var q := TruncDiv(s, n);
    assert q * n < (hi + 1) * n by {
      assert (hi + 1) * n == hi * n + n;
    }
    MulCancel(q, hi + 1, n);
    assert (lo - 1) * n < q * n by {
      assert (lo - 1) * n == lo * n - n;
    }
    MulCancel(lo - 1, q, n);
  }

  /** Multiplying by a positive number keeps strict order, so it can be cancelled. */
  lemma MulCancel(x: int, y: int, n: int)
    requires n > 0 && x * n < y * n
    ensures x < y
  {
    assert (y - x) * n == y * n - x * n;
  }

  /** Some weight is no larger than every other, and some no smaller. */
  lemma {:induction false} Extremes(mst: seq<Edge>) returns (lo: int, hi: int)
    requires mst != []
    ensures 0 <= lo < |mst| && 0 <= hi < |mst|
    ensures forall i :: 0 <= i < |mst| ==> mst[lo].weight <= mst[i].weight <= mst[hi].weight
  {
    if |mst| == 1 {
      return 0, 0;
    }
    var init := mst[..|mst| - 1];
    var l, h := Extremes(init);
    assert forall i :: 0 <= i < |init| ==> init[i] == mst[i];
    lo := if mst[|mst| - 1].weight < mst[l].weight then |mst| - 1 else l;
    hi := if mst[|mst| - 1].weight > mst[h].weight then |mst| - 1 else h;
  }

  /** The value `totalWeight` returns lies between the lightest and the heaviest weight. */
  lemma MeanBetween(mst: seq<Edge>, r: Option<int>)
    requires IsTruncatedMean(mst, r) && mst != []
    ensures r.Some?
    ensures exists i :: 0 <= i < |mst| && mst[i].weight <= r.value
    ensures exists i :: 0 <= i < |mst| && r.value <= mst[i].weight
  {
    var lo, hi := Extremes(mst);
    SumBounds(mst, mst[lo].weight, mst[hi].weight);
    TruncDivBetween(Sum(mst), |mst|, mst[lo].weight, mst[hi].weight);
  }

  /** When every weight is `w`, `totalWeight` returns `w`. */
  lemma MeanOfEqualWeights(mst: seq<Edge>, w: int, r: Option<int>)
    requires IsTruncatedMean(mst, r) && mst != []
    requires forall i :: 0 <= i < |mst| ==> mst[i].weight == w
    ensures r == Some(w)
  {
    SumBounds(mst, w, w);
    TruncDivBetween(Sum(mst), |mst|, w, w);
  }
}
