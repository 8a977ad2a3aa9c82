/** Boolean-mask selection on sequences, as NumPy performs it with `a[mask]`:
    the elements whose mask entry is true, kept in their original order. */
module Masking {

  /** Number of true entries of a mask (NumPy's `np.sum` over a boolean array). */
  function CountTrue(mask: seq<bool>): (c: nat)
    ensures c <= |mask|
  {
    if mask == [] then 0 else (if mask[0] then 1 else 0) + CountTrue(mask[1..])
  }

  /** `xs[mask]`: the elements of `xs` at the positions where `mask` is true,
      in order; one element per true entry. */
  function Select<T>(xs: seq<T>, mask: seq<bool>): (r: seq<T>)
    requires |xs| == |mask|
    ensures |r| == CountTrue(mask)
  {
    if xs == [] then [] else (if mask[0] then [xs[0]] else []) + Select(xs[1..], mask[1..])
  }

  /** Every selected element comes from a true position, and every true
      position is selected. */
  lemma {:induction false} SelectMembers<T>(xs: seq<T>, mask: seq<bool>)
    requires |xs| == |mask|
    ensures forall t :: 0 <= t < |xs| && mask[t] ==> xs[t] in Select(xs, mask)
    ensures forall x :: x in Select(xs, mask) ==> exists t :: 0 <= t < |xs| && mask[t] && xs[t] == x
  {
    if xs != [] {
      SelectMembers(xs[1..], mask[1..]);
      assert forall t :: 1 <= t < |xs| ==> xs[t] == xs[1..][t - 1] && mask[t] == mask[1..][t - 1];
    }
  }

  /** Selecting from a concatenation is selecting from each part. */
  lemma {:induction false} SelectAppend<T>(a: seq<T>, ma: seq<bool>, b: seq<T>, mb: seq<bool>)
    requires |a| == |ma| && |b| == |mb|
    ensures Select(a + b, ma + mb) == Select(a, ma) + Select(b, mb)
  {
    if a == [] {
      assert a + b == b && ma + mb == mb;
    } else {
      var head := if ma[0] then [a[0]] else [];
      var rest, tail := Select(a[1..], ma[1..]), Select(b, mb);
      SelectAppend(a[1..], ma[1..], b, mb);
      assert (a + b)[0] == a[0] && (ma + mb)[0] == ma[0];
      assert (a + b)[1..] == a[1..] + b && (ma + mb)[1..] == ma[1..] + mb;
      assert Select(a + b, ma + mb) == head + (rest + tail);
      assert Select(a, ma) == head + rest;
      assert head + (rest + tail) == (head + rest) + tail;
    }
  }

  lemma SelectSplit<T>(xs: seq<T>, mask: seq<bool>, k: nat)
    requires |xs| == |mask| && k <= |xs|
    ensures Select(xs, mask) == Select(xs[..k], mask[..k]) + Select(xs[k..], mask[k..])
  {
    SelectAppend(xs[..k], mask[..k], xs[k..], mask[k..]);
    assert xs[..k] + xs[k..] == xs && mask[..k] + mask[k..] == mask;
  }

  /** Two sequences filtered by one mask stay aligned: if `ys[t]` is `f(xs[t])`
      at every position, the same holds of the two selections. This is why the
      working cost matrix and the working index list can be shrunk together. */
  lemma {:induction false} SelectAligned<T, U>(xs: seq<T>, ys: seq<U>, mask: seq<bool>, f: T -> U)
    requires |xs| == |mask| && |ys| == |mask|
    requires forall t :: 0 <= t < |xs| ==> ys[t] == f(xs[t])
    ensures |Select(ys, mask)| == |Select(xs, mask)|
    ensures forall t :: 0 <= t < |Select(xs, mask)| ==> Select(ys, mask)[t] == f(Select(xs, mask)[t])
  {
    if xs != [] {
      SelectAligned(xs[1..], ys[1..], mask[1..], f);
    }
  }

  ghost predicate StrictlyIncreasing(s: seq<nat>)
  {
    forall a, b :: 0 <= a < b < |s| ==> s[a] < s[b]
  }

  lemma PrependIncreasing(x: nat, rest: seq<nat>)
    requires StrictlyIncreasing(rest)
    requires forall y :: y in rest ==> x < y
    ensures StrictlyIncreasing([x] + rest)
  {
    var r := [x] + rest;
    forall a, b | 0 <= a < b < |r| ensures r[a] < r[b] {
      assert r[b] == rest[b - 1];
      if a == 0 {
        assert rest[b - 1] in rest;
      } else {
        assert r[a] == rest[a - 1];
      }
    }
  }

  /** Filtering preserves order, so it keeps a sequence strictly increasing. */
  lemma {:induction false} SelectIncreasing(xs: seq<nat>, mask: seq<bool>)
    requires |xs| == |mask| && StrictlyIncreasing(xs)
    ensures StrictlyIncreasing(Select(xs, mask))
  {
    if xs != [] {
      var rest := Select(xs[1..], mask[1..]);
      assert StrictlyIncreasing(xs[1..]);
      SelectIncreasing(xs[1..], mask[1..]);
      SelectMembers(xs[1..], mask[1..]);
      if mask[0] {
        forall y | y in rest ensures xs[0] < y {
          var t :| 0 <= t < |xs[1..]| && mask[1..][t] && xs[1..][t] == y;
          assert xs[1..][t] == xs[t + 1];
        }
        PrependIncreasing(xs[0], rest);
      }
    }
  }

  lemma HeadIn(s: seq<nat>)
    requires s != []
    ensures s[0] in s
  {
  }

  /** A strictly increasing sequence is determined by its set of elements. */
  lemma {:induction false} IncreasingUnique(a: seq<nat>, b: seq<nat>)
    requires StrictlyIncreasing(a) && StrictlyIncreasing(b)
    requires forall x :: x in a <==> x in b
    ensures a == b
  {
    if a != [] && b != [] {
      assert a[0] in b && b[0] in a;
      if a[0] != b[0] {
        assert false;
      }
      forall x ensures x in a[1..] <==> x in b[1..] {
        if x in a[1..] {
          var t :| 0 <= t < |a[1..]| && a[1..][t] == x;
          assert x in b && x != b[0];
        }
        if x in b[1..] {
          var t :| 0 <= t < |b[1..]| && b[1..][t] == x;
          assert x in a && x != a[0];
        }
      }
      IncreasingUnique(a[1..], b[1..]);
      assert a == [a[0]] + a[1..] && b == [b[0]] + b[1..];
    } else if a != [] {
      HeadIn(a);
      assert false;
    } else if b != [] {
      HeadIn(b);
      assert false;
    }
  }
}
