/** The Pareto filter of the optimiser: `is_pareto_efficient`, which selects
    the efficient rows of a cost matrix for a minimisation problem, and
    `paretofront`, which returns those rows. */
module ParetoFilter {
  import opened Masking
  import opened Dominance

  /** What `is_pareto_efficient` returns: a boolean mask over all rows, or the
      increasing list of efficient row indices. */
  datatype Efficiency = Mask(flags: seq<bool>) | Indices(rows: seq<nat>)

  /** The rows the pivot `p` lets through: those with some coordinate strictly
      below the pivot's, and the pivot itself, whose entry is forced to true. */
  function NondominatedMask(costs: Matrix, p: nat): (mask: seq<bool>)
    requires p < |costs|
  {
    seq(|costs|, u requires 0 <= u < |costs| => u == p || AnyBelow(costs[u], costs[p]))
  }

  /** Row lookup into the original matrix, total so that it can be passed as a function. */
  function RowOf(costs: Matrix): nat -> Row
  {
    (i: nat) => if i < |costs| then costs[i] else []
  }

  /** The first `k` entries of the working index list have been pivots: every
      other surviving row has some coordinate strictly below each of theirs. */
  ghost predicate PivotsBelow(costs: Matrix, alive: seq<nat>, k: nat)
  {
    && k <= |alive|
    && forall x: nat, y: nat :: x in alive[..k] && y in alive && x != y ==>
         x < |costs| && y < |costs| && AnyBelow(costs[y], costs[x])
  }

  /** The state of the filtering loop. `alive` is the working index list
      (`is_efficient`), `work` the working cost matrix and `next` the pivot
      position. The rows before `next` have already been pivots, so every other
      surviving row has a coordinate below theirs; every dropped row is covered
      by a surviving one. */
  ghost predicate LoopInv(costs: Matrix, alive: seq<nat>, work: Matrix, next: nat)
  {
    && Rectangular(costs)
    && StrictlyIncreasing(alive)
    && (forall t :: 0 <= t < |alive| ==> alive[t] < |costs|)
    && |work| == |alive|
    && (forall t :: 0 <= t < |alive| ==> work[t] == costs[alive[t]])
    && next <= |alive|
    && PivotsBelow(costs, alive, next)
    && (forall i :: 0 <= i < |costs| && i !in alive ==> exists w :: w in alive && Covers(costs, w, i))
  }

  /** A surviving row that the pivot drops is covered by the pivot. A row equal
      to the pivot but before it cannot be dropped: it was a pivot earlier and
      would have dropped the pivot then. */
  lemma DroppedCoveredByPivot(costs: Matrix, alive: seq<nat>, work: Matrix, next: nat, t: nat)
    requires LoopInv(costs, alive, work, next) && next < |alive|
    requires t < |alive| && !NondominatedMask(work, next)[t]
    ensures Covers(costs, alive[next], alive[t])
  {
    var p, i := alive[next], alive[t];
    assert !AnyBelow(costs[i], costs[p]);
    NotAnyBelowIsLeq(costs[i], costs[p]);
    if i < p {
      assert t < next;
      assert i in alive[..next];
      assert AnyBelow(costs[p], costs[i]);
    }
  }

  /** The survivors of one pivot step: the selected rows before the pivot, the
      pivot itself at position `CountTrue(mask[..next])`, and the selected rows
      after it. */
  lemma {:induction false} PivotStepShape(alive: seq<nat>, mask: seq<bool>, next: nat)
    requires |alive| == |mask| && next < |alive| && mask[next]
    ensures var c := CountTrue(mask[..next]);
      && c < |Select(alive, mask)|
      && Select(alive, mask)[..c + 1] == Select(alive[..next], mask[..next]) + [alive[next]]
      && |Select(alive, mask)| - (c + 1) < |alive| - next
  {
    var front := Select(alive[..next], mask[..next]);
    var back := Select(alive[next + 1..], mask[next + 1..]);
    SelectSplit(alive, mask, next);
    assert alive[next..][1..] == alive[next + 1..] && mask[next..][1..] == mask[next + 1..];
    assert Select(alive[next..], mask[next..]) == [alive[next]] + back;
    assert Select(alive, mask) == front + [alive[next]] + back;
  }

  /** After a pivot step the pivots so far, now including the pivot, still have
      no survivor componentwise at or above them. */
  lemma PivotStepPivot(costs: Matrix, alive: seq<nat>, work: Matrix, next: nat, x: nat, y: nat)
    requires LoopInv(costs, alive, work, next) && next < |alive|
    requires x in Select(alive[..next], NondominatedMask(work, next)[..next]) + [alive[next]]
    requires y in Select(alive, NondominatedMask(work, next)) && x != y
    ensures x < |costs| && y < |costs| && AnyBelow(costs[y], costs[x])
  {
    var mask := NondominatedMask(work, next);
    SelectMembers(alive, mask);
    SelectMembers(alive[..next], mask[..next]);
    var u :| 0 <= u < |alive| && mask[u] && alive[u] == y;
    if x == alive[next] {
      assert u != next;
      assert mask[u] == AnyBelow(work[u], work[next]);
    } else {
      var s :| 0 <= s < next && mask[..next][s] && alive[..next][s] == x;
      assert x in alive[..next];
    }
  }

  /** After a pivot step the rows that have been pivots, which now end with the
      pivot at position `CountTrue(mask[..next])`, each have every other
      survivor strictly below them in some coordinate. */
  lemma PivotStepPivots(costs: Matrix, alive: seq<nat>, work: Matrix, next: nat, mask: seq<bool>)
    requires LoopInv(costs, alive, work, next) && next < |alive|
    requires mask == NondominatedMask(work, next)
    ensures CountTrue(mask[..next]) < |Select(alive, mask)|
    ensures PivotsBelow(costs, Select(alive, mask), CountTrue(mask[..next]) + 1)
  {
    var alive' := Select(alive, mask);
    var c := CountTrue(mask[..next]);
    var pivots := Select(alive[..next], mask[..next]) + [alive[next]];
    PivotStepShape(alive, mask, next);
    assert alive'[..c + 1] == pivots;
    forall x: nat, y: nat | x in alive'[..c + 1] && y in alive' && x != y
      ensures x < |costs| && y < |costs| && AnyBelow(costs[y], costs[x])
    {
      assert x in pivots;
      PivotStepPivot(costs, alive, work, next, x, y);
    }
    assert PivotsBelow(costs, alive', c + 1);
  }

  /** After a pivot step every dropped row is still covered by a survivor. */
  lemma PivotStepCovered(costs: Matrix, alive: seq<nat>, work: Matrix, next: nat)
    requires LoopInv(costs, alive, work, next) && next < |alive|
    ensures var alive' := Select(alive, NondominatedMask(work, next));
      forall i :: 0 <= i < |costs| && i !in alive' ==> exists w :: w in alive' && Covers(costs, w, i)
  {
    var mask := NondominatedMask(work, next);
    var p := alive[next];
    var alive' := Select(alive, mask);
    SelectMembers(alive, mask);
    forall i | 0 <= i < |costs| && i !in alive'
      ensures exists w :: w in alive' && Covers(costs, w, i)
    {
      assert p in alive';
      if i in alive {
        var t :| 0 <= t < |alive| && alive[t] == i;
        DroppedCoveredByPivot(costs, alive, work, next, t);
      } else {
        var w :| w in alive && Covers(costs, w, i);
        if w !in alive' {
          var t :| 0 <= t < |alive| && alive[t] == w;
          DroppedCoveredByPivot(costs, alive, work, next, t);
          CoversTransitive(costs, p, w, i);
        }
      }
    }
  }

  /** One iteration of the loop keeps the invariant and shrinks `|work| - next`. */
  lemma PivotStep(costs: Matrix, alive: seq<nat>, work: Matrix, next: nat)
    requires LoopInv(costs, alive, work, next) && next < |alive|
    ensures var mask := NondominatedMask(work, next);
      && LoopInv(costs, Select(alive, mask), Select(work, mask), CountTrue(mask[..next]) + 1)
      && |Select(work, mask)| - (CountTrue(mask[..next]) + 1) < |work| - next
  {
    var mask := NondominatedMask(work, next);
    var alive', work' := Select(alive, mask), Select(work, mask);
    SelectIncreasing(alive, mask);
    SelectMembers(alive, mask);
    SelectAligned(alive, work, mask, RowOf(costs));
    forall t | 0 <= t < |alive'| ensures alive'[t] < |costs| && work'[t] == costs[alive'[t]] {
      assert alive'[t] in alive';
    }
    PivotStepShape(alive, mask, next);
    PivotStepPivots(costs, alive, work, next, mask);
    PivotStepCovered(costs, alive, work, next);
  }

  /** When the pivot runs off the end, the working index list is exactly the
      increasing list of kept rows. */
  lemma LoopDone(costs: Matrix, alive: seq<nat>, work: Matrix, next: nat)
    requires LoopInv(costs, alive, work, next) && next >= |alive|
    ensures alive == EfficientIndices(costs)
  {
    assert alive[..next] == alive;
    forall i ensures i in alive <==> Kept(costs, i) {
      if i in alive {
        forall j | 0 <= j < |costs| ensures !Covers(costs, j, i) {
          NotAnyBelowIsLeq(costs[i], costs[j]);
          if j !in alive && Covers(costs, j, i) {
            var w :| w in alive && Covers(costs, w, j);
            CoversTransitive(costs, w, j, i);
            NotAnyBelowIsLeq(costs[i], costs[w]);
          }
        }
      }
    }
    IncreasingUnique(alive, EfficientIndices(costs));
  }

  /** Mask mode of the filter: a zeroed boolean array of length `n` in which
      the listed rows are then set, so it is true exactly at those rows. */
  method MarkRows(n: nat, rows: seq<nat>) returns (flags: seq<bool>)
    requires forall t :: 0 <= t < |rows| ==> rows[t] < n
    ensures |flags| == n
    ensures forall i :: 0 <= i < n ==> (flags[i] <==> i in rows)
  {
    var mask := new bool[n](_ => false);
    for t := 0 to |rows|
      invariant forall i :: 0 <= i < n ==> (mask[i] <==> i in rows[..t])
    {
      mask[rows[t]] := true;
      assert rows[..t + 1] == rows[..t] + [rows[t]];
    }
    assert rows[..|rows|] == rows;
    flags := mask[..];
  }

  /** `is_pareto_efficient(costs, return_mask)`. Every row is a pivot in turn;
      a pivot drops each other row that has no coordinate strictly below its own
      (equal rows included), and the working index list and cost matrix shrink
      together. With `returnMask` the result is a mask over all `|costs|` rows
      that is true exactly at the kept rows; otherwise it is the increasing list
      of kept row indices. */
  method IsParetoEfficient(costs: Matrix, returnMask: bool) returns (r: Efficiency)
    requires Rectangular(costs)
    ensures r.Mask? <==> returnMask
    ensures r.Mask? ==> |r.flags| == |costs| && forall i :: 0 <= i < |costs| ==> (r.flags[i] <==> Kept(costs, i))
    ensures r.Indices? ==> r.rows == EfficientIndices(costs)
    ensures r.Indices? ==> StrictlyIncreasing(r.rows) && forall i :: i in r.rows <==> Kept(costs, i)
  {
    var isEfficient: seq<nat> := seq(|costs|, i requires 0 <= i => i);
    var nPoints := |costs|;
    var work := costs;
    var next: nat := 0;
    forall i | 0 <= i < |costs| ensures i in isEfficient {
      assert isEfficient[i] == i;
    }
    while next < |work|
      invariant LoopInv(costs, isEfficient, work, next)
      decreases |work| - next
    {
      PivotStep(costs, isEfficient, work, next);
      var mask := NondominatedMask(work, next);
      isEfficient := Select(isEfficient, mask);
      work := Select(work, mask);
      next := CountTrue(mask[..next]) + 1;
    }
    LoopDone(costs, isEfficient, work, next);
    if returnMask {
      var flags := MarkRows(nPoints, isEfficient);
      r := Mask(flags);
    } else {
      r := Indices(isEfficient);
    }
  }

  /** `paretofront(Y)`: the kept rows of `Y`, unchanged and in their original
      order. Every row of the front is a kept row of `Y`, every kept row of `Y`
      is in the front, and there is one front row per kept row. */
  function ParetoFront(costs: Matrix): (front: Matrix)
    ensures |front| == |EfficientIndices(costs)|
    ensures forall t :: 0 <= t < |front| ==> exists i :: Kept(costs, i) && front[t] == costs[i]
    ensures forall i :: Kept(costs, i) ==> costs[i] in front
  {
    var idx := EfficientIndices(costs);
    assert forall t :: 0 <= t < |idx| ==> idx[t] in idx;
    var front := seq(|idx|, t requires 0 <= t < |idx| => costs[idx[t]]);
    assert forall i :: Kept(costs, i) ==> costs[i] in front by {
      forall i | Kept(costs, i) ensures costs[i] in front {
        var t :| 0 <= t < |idx| && idx[t] == i;
        assert front[t] == costs[i];
      }
    }
    front
  }

  /** The front keeps the original row order: row `t` of the front is the
      `t`-th kept row of `Y`, and a later front row comes from a later row of `Y`. */
  lemma FrontInRowOrder(costs: Matrix, s: nat, t: nat)
    requires s <= t < |ParetoFront(costs)|
    ensures var idx := EfficientIndices(costs);
      && idx[s] <= idx[t] < |costs|
      && (s < t ==> idx[s] < idx[t])
      && ParetoFront(costs)[s] == costs[idx[s]]
      && ParetoFront(costs)[t] == costs[idx[t]]
  {
    assert EfficientIndices(costs)[t] in EfficientIndices(costs);
  }

  /** Distinct rows of the front are mutually non-dominating: each has a
      coordinate strictly below the other's (so no two are equal). */
  lemma FrontMutuallyNonDominating(costs: Matrix, s: nat, t: nat)
    requires Rectangular(costs)
    requires s < |ParetoFront(costs)| && t < |ParetoFront(costs)| && s != t
    ensures AnyBelow(ParetoFront(costs)[s], ParetoFront(costs)[t])
  {
    var idx := EfficientIndices(costs);
    assert idx[s] in idx && idx[t] in idx;
    assert idx[s] != idx[t] by {
      if s < t { assert idx[s] < idx[t]; } else { assert idx[t] < idx[s]; }
    }
    KeptMutuallyNonDominating(costs, idx[s], idx[t]);
  }

  /** Every row of `Y`, kept or not, is componentwise at or above some row of the front. */
  lemma FrontWeaklyDominatesAll(costs: Matrix, i: nat)
    requires i < |costs|
    ensures exists t :: 0 <= t < |ParetoFront(costs)| && Leq(ParetoFront(costs)[t], costs[i])
  {
    var front := ParetoFront(costs);
    var w := i;
    if !Kept(costs, i) {
      ExcludedIsCovered(costs, i);
      w :| Kept(costs, w) && Leq(costs[w], costs[i]);
    }
    assert Leq(costs[w], costs[i]);
    assert costs[w] in front;
    var t :| 0 <= t < |front| && front[t] == costs[w];
  }

  /** Filtering the front again keeps every row of it: the filter is idempotent. */
  lemma FrontIdempotent(costs: Matrix)
    requires Rectangular(costs)
    ensures var front := ParetoFront(costs);
      && EfficientIndices(front) == seq(|front|, t requires 0 <= t => t)
      && ParetoFront(front) == front
  {
    var front := ParetoFront(costs);
    var all: seq<nat> := seq(|front|, t requires 0 <= t => t);
    forall t | 0 <= t < |front| ensures Kept(front, t) {
      forall s | 0 <= s < |front| ensures !Covers(front, s, t) {
        if s != t {
          FrontMutuallyNonDominating(costs, t, s);
        }
      }
    }
    forall x ensures x in all <==> Kept(front, x) {
      if 0 <= x < |front| { assert all[x] == x; }
    }
    IncreasingUnique(all, EfficientIndices(front));
  }

  /** A worked example: row 4 is componentwise below every other row, so it is
      the only row kept. */
  lemma FrontOfFiveRows()
    ensures EfficientIndices([[1.0, 2.0], [2.0, 1.0], [1.5, 1.5], [3.0, 3.0], [0.5, 0.5]]) == [4]
  {
    var costs: Matrix := [[1.0, 2.0], [2.0, 1.0], [1.5, 1.5], [3.0, 3.0], [0.5, 0.5]];
    forall x ensures x in [4] <==> Kept(costs, x) {
      if 0 <= x < 4 {
        assert Covers(costs, 4, x);
      }
      if x == 4 {
        forall j | 0 <= j < 5 ensures !Covers(costs, j, 4) {
          assert j != 4 ==> costs[j][0] > costs[4][0];
        }
      }
    }
    IncreasingUnique([4], EfficientIndices(costs));
  }

  /** A worked example with a repeated row: the later copy of `[1, 2]` is dropped. */
  lemma RepeatedRowKeptOnce()
    ensures EfficientIndices([[1.0, 2.0], [1.0, 2.0], [2.0, 1.0]]) == [0, 2]
  {
    var kept: seq<nat> := [0, 2];
    assert StrictlyIncreasing(kept) by {
      forall a, b | 0 <= a < b < 2 ensures kept[a] < kept[b] {
        assert a == 0 && b == 1;
      }
    }
    var costs: Matrix := [[1.0, 2.0], [1.0, 2.0], [2.0, 1.0]];
    assert Covers(costs, 0, 1);
    assert !Leq(costs[2], costs[0]) && !Leq(costs[2], costs[1]) by {
      assert costs[2][0] > costs[0][0];
    }
    assert !Leq(costs[0], costs[2]) && !Leq(costs[1], costs[2]) by {
      assert costs[0][1] > costs[2][1];
    }
    assert costs[1] == costs[0];
    assert Kept(costs, 0) && Kept(costs, 2);
    var idx := EfficientIndices(costs);
    forall x ensures x in [0, 2] <==> x in idx {
      if x == 0 || x == 2 {
        assert Kept(costs, x);
      } else if x == 1 {
        assert !Kept(costs, x);
      } else {
        assert !Kept(costs, x);
      }
    }
    assert StrictlyIncreasing(idx);
    assert forall x :: x in kept <==> x in idx;
    IncreasingUnique(kept, idx);
  }
}
