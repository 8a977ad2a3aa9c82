/** Choosing the best discrete assignment after the continuous solver has run
    once per sampled assignment: the solver results are minimised, so the
    winner is the first assignment whose result equals the smallest result. */
module DiscreteSelection {

  datatype Option<T> = None | Some(value: T)

  /** What the selection returns: the best solver value and the point made of
      that run's continuous coordinates followed by its discrete assignment. */
  datatype Choice = Choice(fval: real, xmax: seq<real>)

  /** `min(fs)`: the smallest value of a non-empty list. */
  function Min(fs: seq<real>): (m: real)
    requires |fs| > 0
    ensures m in fs
    ensures forall k :: 0 <= k < |fs| ==> m <= fs[k]
  {
    if |fs| == 1 then fs[0]
    else
      var rest := Min(fs[1..]);
      assert forall k :: 1 <= k < |fs| ==> fs[k] == fs[1..][k - 1];
      if fs[0] <= rest then fs[0] else rest
  }

  /** Python's list lookup of a value: the first position holding `v`. */
  function IndexOf(fs: seq<real>, v: real): (i: nat)
    requires v in fs
    ensures i < |fs| && fs[i] == v
    ensures forall k :: 0 <= k < i ==> fs[k] != v
  {
    if fs[0] == v then 0 else 1 + IndexOf(fs[1..], v)
  }

  /** The first position of the minimum, where the lookup of the minimum stops. */
  function FirstMinIndex(fs: seq<real>): (i: nat)
    requires |fs| > 0
    ensures i < |fs|
    ensures forall k :: 0 <= k < |fs| ==> fs[i] <= fs[k]
    ensures forall k :: 0 <= k < i ==> fs[i] < fs[k]
  {
    var m := Min(fs);
    var i := IndexOf(fs, m);
    assert forall k :: 0 <= k < i ==> fs[k] != m && m <= fs[k];
    i
  }

  /** The first position of the minimum is the only position that holds a
      minimal value and has no minimal value before it. */
  lemma FirstMinIndexUnique(fs: seq<real>, j: nat)
    requires j < |fs|
    requires forall k :: 0 <= k < |fs| ==> fs[j] <= fs[k]
    requires forall k :: 0 <= k < j ==> fs[j] < fs[k]
    ensures FirstMinIndex(fs) == j
  {
  }

  /** The selection at the end of the SHGO and DE paths of the adaptive mixed
      optimiser. `resX[k]` and `resF[k]` are the solver's point and value for
      the discrete assignment `qual[k]`. An empty list has no minimum (Python's
      `min` raises), which is the `None` case. Otherwise the value returned is
      the minimum of `resF`, and the point is the continuous part of the first
      run that attains it, followed by that run's discrete assignment. */
  function BestAssignment(resX: seq<seq<real>>, qual: seq<seq<real>>, resF: seq<real>): (r: Option<Choice>)
    requires |resX| == |resF| && |qual| == |resF|
    ensures r.None? <==> resF == []
    ensures r.Some? ==>
      exists ind ::
        && 0 <= ind < |resF|
        && r.value.fval == resF[ind]
        && r.value.xmax == resX[ind] + qual[ind]
        && (forall k :: 0 <= k < |resF| ==> resF[ind] <= resF[k])
        && (forall k :: 0 <= k < ind ==> resF[ind] < resF[k])
  {
    if resF == [] then None
    else
      var ind := FirstMinIndex(resF);
      Some(Choice(Min(resF), resX[ind] + qual[ind]))
  }
}
