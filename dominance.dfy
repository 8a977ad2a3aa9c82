/** Pareto dominance for a minimisation problem over an n-by-m cost matrix,
    and the declarative description of the rows the Pareto filter keeps. */
module Dominance {
  import opened Masking

  type Row = seq<real>
  type Matrix = seq<Row>

  /** Every row has the same width, as in a two-dimensional NumPy array. */
  predicate Rectangular(costs: Matrix)
  {
    forall i, j :: 0 <= i < |costs| && 0 <= j < |costs| ==> |costs[i]| == |costs[j]|
  }

  /** `np.any(x < y)`: some coordinate of `x` is strictly below the same coordinate of `y`. */
  predicate AnyBelow(x: Row, y: Row)
  {
    exists k :: 0 <= k < |x| && k < |y| && x[k] < y[k]
  }

  /** `x <= y` componentwise: `y` is weakly dominated by `x`. */
  predicate Leq(x: Row, y: Row)
  {
    |x| == |y| && forall k :: 0 <= k < |x| ==> x[k] <= y[k]
  }

  /** Row `j` rules out row `i`: it is componentwise no worse than row `i`, and
      either strictly better somewhere or an earlier copy of the same values. */
  predicate Covers(costs: Matrix, j: int, i: int)
  {
    0 <= j < |costs| && 0 <= i < |costs| && j != i &&
    Leq(costs[j], costs[i]) && (j < i || costs[j] != costs[i])
  }

  /** Row `i` is kept by the Pareto filter: no row covers it. */
  predicate Kept(costs: Matrix, i: int)
  {
    0 <= i < |costs| && forall j :: 0 <= j < |costs| ==> !Covers(costs, j, i)
  }

  /** The textbook notion: no row is componentwise no worse and different. */
  predicate ParetoMinimal(costs: Matrix, i: int)
    requires 0 <= i < |costs|
  {
    forall j :: 0 <= j < |costs| ==> !(Leq(costs[j], costs[i]) && costs[j] != costs[i])
  }

  /** No earlier row holds the same values. */
  predicate FirstOccurrence(costs: Matrix, i: int)
    requires 0 <= i < |costs|
  {
    forall j :: 0 <= j < i ==> costs[j] != costs[i]
  }

  /** The indices at or after `lo` of the kept rows, in increasing order. */
  function KeptFrom(costs: Matrix, lo: nat): (r: seq<nat>)
    ensures StrictlyIncreasing(r)
    ensures forall x :: x in r <==> lo <= x && Kept(costs, x)
    decreases |costs| - lo
  {
    if lo >= |costs| then []
    else
      var rest := KeptFrom(costs, lo + 1);
      assert forall t :: 0 <= t < |rest| ==> lo < rest[t] by {
        forall t | 0 <= t < |rest| ensures lo < rest[t] {
          assert rest[t] in rest;
        }
      }
      (if Kept(costs, lo) then [lo] else []) + rest
  }

  /** The indices of the kept rows, in increasing order. */
  function EfficientIndices(costs: Matrix): (r: seq<nat>)
    ensures StrictlyIncreasing(r)
    ensures forall x :: x in r <==> Kept(costs, x)
  {
    KeptFrom(costs, 0)
  }

  /** With equal widths, "no coordinate of `x` below `y`" is `y <= x`. */
  lemma NotAnyBelowIsLeq(x: Row, y: Row)
    requires |x| == |y|
    ensures !AnyBelow(x, y) <==> Leq(y, x)
  {
  }

  /** Covering is transitive. */
  lemma CoversTransitive(costs: Matrix, a: int, b: int, c: int)
    requires Covers(costs, a, b) && Covers(costs, b, c)
    ensures Covers(costs, a, c)
  {
    if costs[a] == costs[c] {
      assert costs[a] == costs[b] by {
        assert |costs[a]| == |costs[b]|;
        forall k | 0 <= k < |costs[a]| ensures costs[a][k] == costs[b][k] {
          assert costs[b][k] <= costs[c][k];
        }
      }
    }
  }

  /** The filter's rule agrees with the textbook definition plus a tie-break:
      a row is kept exactly when it is Pareto-minimal and the first of its copies. */
  lemma KeptIsFirstParetoMinimal(costs: Matrix, i: int)
    requires 0 <= i < |costs|
    ensures Kept(costs, i) <==> ParetoMinimal(costs, i) && FirstOccurrence(costs, i)
  {
    if Kept(costs, i) {
      forall j | 0 <= j < i ensures costs[j] != costs[i] {
        assert !Covers(costs, j, i);
      }
      forall j | 0 <= j < |costs| ensures !(Leq(costs[j], costs[i]) && costs[j] != costs[i]) {
        assert !Covers(costs, j, i);
      }
    }
    if ParetoMinimal(costs, i) && FirstOccurrence(costs, i) {
      forall j | 0 <= j < |costs| ensures !Covers(costs, j, i) {
        if j < i {
          assert costs[j] != costs[i];
        }
      }
    }
  }

  /** Any two distinct kept rows are mutually non-dominating: each has a
      coordinate strictly below the other's. */
  lemma KeptMutuallyNonDominating(costs: Matrix, i: int, j: int)
    requires Rectangular(costs)
    requires Kept(costs, i) && Kept(costs, j) && i != j
    ensures AnyBelow(costs[i], costs[j]) && AnyBelow(costs[j], costs[i])
  {
    NotAnyBelowIsLeq(costs[i], costs[j]);
    NotAnyBelowIsLeq(costs[j], costs[i]);
    assert !Covers(costs, i, j) && !Covers(costs, j, i);
  }

  /** Two distinct kept rows never hold the same values: a later copy of any
      earlier row is not kept. */
  lemma LaterCopyDropped(costs: Matrix, i: int, j: int)
    requires 0 <= i < j < |costs| && costs[i] == costs[j]
    ensures !Kept(costs, j)
  {
    assert Covers(costs, i, j);
  }

  /** The first of identical rows is kept exactly when the shared values are
      Pareto-minimal, judged at any of the copies. */
  lemma FirstCopyKeptIffMinimal(costs: Matrix, i: int, j: int)
    requires 0 <= i < j < |costs| && costs[i] == costs[j]
    requires FirstOccurrence(costs, i)
    ensures Kept(costs, i) <==> ParetoMinimal(costs, j)
  {
    KeptIsFirstParetoMinimal(costs, i);
    assert ParetoMinimal(costs, i) <==> ParetoMinimal(costs, j);
  }

  ghost function Coverers(costs: Matrix, i: int): set<int>
  {
    set j | 0 <= j < |costs| && Covers(costs, j, i)
  }

  /** Every row that is not kept is covered by a kept row; in particular it is
      componentwise no better than some row of the front. */
  lemma {:induction false} ExcludedIsCovered(costs: Matrix, i: int)
    requires 0 <= i < |costs| && !Kept(costs, i)
    ensures exists w :: Kept(costs, w) && Covers(costs, w, i)
    ensures exists w :: Kept(costs, w) && Leq(costs[w], costs[i])
    decreases |Coverers(costs, i)|
  {
    var j :| 0 <= j < |costs| && Covers(costs, j, i);
    if Kept(costs, j) {
      assert Leq(costs[j], costs[i]);
    } else {
      assert Coverers(costs, j) < Coverers(costs, i) by {
        forall k | k in Coverers(costs, j) ensures k in Coverers(costs, i) {
          CoversTransitive(costs, k, j, i);
        }
        assert j in Coverers(costs, i) && j !in Coverers(costs, j);
      }
      assert |Coverers(costs, j)| < |Coverers(costs, i)| by {
        var extra := Coverers(costs, i) - Coverers(costs, j);
        assert j in extra;
        assert Coverers(costs, i) == Coverers(costs, j) + extra;
      }
      ExcludedIsCovered(costs, j);
      var w :| Kept(costs, w) && Covers(costs, w, j);
      CoversTransitive(costs, w, j, i);
      assert Leq(costs[w], costs[i]);
    }
  }
}
