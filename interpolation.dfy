/** Gap filling as pandas `Series.interpolate(limit_direction="both")` does it
    with the default linear method: positions are equally spaced, a missing
    value between two present ones lies on the straight line joining them,
    and missing values before the first (after the last) present value take
    that value. */
module Interpolation {
  import opened Wrappers

  /** A column of samples in acquisition order; `None` is a NaN. */
  type Series = seq<Option<real>>

  predicate Complete(y: Series) {
    forall i :: 0 <= i < |y| ==> y[i].Some?
  }

  /** The nearest position before `i` that holds a value, if any. */
  function LastValidBefore(y: Series, i: nat): (r: Option<nat>)
    requires i <= |y|
    ensures r.Some? ==> r.value < i && y[r.value].Some?
    ensures r.Some? ==> forall k :: r.value < k < i ==> y[k].None?
    ensures r.None? ==> forall k :: 0 <= k < i ==> y[k].None?
    decreases i
  {
    if i == 0 then None
    else if y[i - 1].Some? then Some(i - 1)
    else LastValidBefore(y, i - 1)
  }

  /** The nearest position at or after `i` that holds a value, if any. */
  function FirstValidFrom(y: Series, i: nat): (r: Option<nat>)
    requires i <= |y|
    ensures r.Some? ==> i <= r.value < |y| && y[r.value].Some?
    ensures r.Some? ==> forall k :: i <= k < r.value ==> y[k].None?
    ensures r.None? ==> forall k :: i <= k < |y| ==> y[k].None?
    decreases |y| - i
  {
    if i == |y| then None
    else if y[i].Some? then Some(i)
    else FirstValidFrom(y, i + 1)
  }

  /** The value at position `i` on the line through `(p, a)` and `(q, b)`
      (the formula of `np.interp`). */
  function Lerp(a: real, b: real, p: nat, q: nat, i: nat): (r: real)
    requires p < q
    ensures i == p ==> r == a
    ensures i == q ==> r == b
  {
    a + (b - a) / ((q - p) as real) * ((i - p) as real)
  }

  /** Strictly between its two ends, the line stays between their values. */
  lemma LerpBetween(a: real, b: real, p: nat, q: nat, i: nat)
    requires p < i < q
    ensures a <= b ==> a <= Lerp(a, b, p, q, i) <= b
    ensures b <= a ==> b <= Lerp(a, b, p, q, i) <= a
  {
    var t := ((i - p) as real) / ((q - p) as real);
    assert 0.0 < t < 1.0;
    assert Lerp(a, b, p, q, i) == a + (b - a) * t;
    if a <= b {
      assert (b - a) * (1.0 - t) >= 0.0;
      assert (b - a) * t >= 0.0;
    } else {
      assert (a - b) * (1.0 - t) >= 0.0;
      assert (a - b) * t >= 0.0;
    }
  }

  /** The value given to a missing position `i` whose nearest present
      neighbours are `prev` (before) and `next` (after). */
  function GapValue(y: Series, prev: Option<nat>, next: Option<nat>, i: nat): (r: Option<real>)
    requires i < |y|
    requires prev.Some? ==> prev.value < i && y[prev.value].Some?
    requires next.Some? ==> i < next.value < |y| && y[next.value].Some?
    ensures r.Some? <==> prev.Some? || next.Some?
  {
    match (prev, next)
    case (Some(p), Some(q)) => Some(Lerp(y[p].value, y[q].value, p, q, i))
    case (Some(p), None) => y[p]
    case (None, Some(q)) => y[q]
    case (None, None) => None
  }

  function FillAt(y: Series, i: nat): Option<real>
    requires i < |y|
  {
    if y[i].Some? then y[i]
    else GapValue(y, LastValidBefore(y, i), FirstValidFrom(y, i), i)
  }

  /** The interpolated series, position by position. */
  function Interpolated(y: Series): (r: Series)
    ensures |r| == |y|
    ensures forall i :: 0 <= i < |y| && y[i].Some? ==> r[i] == y[i]
    ensures (exists k :: 0 <= k < |y| && y[k].Some?) ==> Complete(r)
    ensures (forall k :: 0 <= k < |y| ==> y[k].None?) ==> r == y
  {
    var r := seq(|y|, i requires 0 <= i < |y| => FillAt(y, i));
    assert (exists k :: 0 <= k < |y| && y[k].Some?) ==> Complete(r) by {
      if k :| 0 <= k < |y| && y[k].Some? {
        forall i | 0 <= i < |y| ensures r[i].Some? {
          if y[i].None? {
            if i < k {
              assert FirstValidFrom(y, i).Some?;
            } else {
              assert LastValidBefore(y, i).Some?;
            }
          }
        }
      }
    }
    r
  }

  /** A series with nothing missing is left as it is. */
  lemma InterpolatedOfComplete(y: Series)
    requires Complete(y)
    ensures Interpolated(y) == y
  {
    var r := Interpolated(y);
    assert forall i :: 0 <= i < |y| ==> r[i] == y[i];
  }

  /** A missing position strictly between present positions `p` and `q`,
      with nothing present in between, lies on the line joining them. */
  lemma InterpolatedInterior(y: Series, p: nat, i: nat, q: nat)
    requires p < i < q < |y|
    requires y[p].Some? && y[q].Some?
    requires forall k :: p < k < q ==> y[k].None?
    ensures Interpolated(y)[i] == Some(Lerp(y[p].value, y[q].value, p, q, i))
  {
    assert LastValidBefore(y, i) == Some(p);
    assert FirstValidFrom(y, i) == Some(q);
  }

  /** Before the first present position `q`, every position takes its value. */
  lemma InterpolatedLeading(y: Series, i: nat, q: nat)
    requires i < q < |y|
    requires y[q].Some?
    requires forall k :: 0 <= k < q ==> y[k].None?
    ensures Interpolated(y)[i] == y[q]
  {
    assert LastValidBefore(y, i) == None;
    assert FirstValidFrom(y, i) == Some(q);
  }

  /** After the last present position `p`, every position takes its value. */
  lemma InterpolatedTrailing(y: Series, p: nat, i: nat)
    requires p < i < |y|
    requires y[p].Some?
    requires forall k :: p < k < |y| ==> y[k].None?
    ensures Interpolated(y)[i] == y[p]
  {
    assert LastValidBefore(y, i) == Some(p);
    assert FirstValidFrom(y, i) == None;
  }

  /** No filled value leaves the range of the values around its gap. */
  lemma InterpolatedBetween(y: Series, p: nat, i: nat, q: nat)
    requires p < i < q < |y|
    requires y[p].Some? && y[q].Some?
    requires forall k :: p < k < q ==> y[k].None?
    ensures Interpolated(y)[i].Some?
    ensures y[p].value <= y[q].value ==> y[p].value <= Interpolated(y)[i].value <= y[q].value
    ensures y[q].value <= y[p].value ==> y[q].value <= Interpolated(y)[i].value <= y[p].value
  {
    InterpolatedInterior(y, p, i, q);
    LerpBetween(y[p].value, y[q].value, p, q, i);
  }

  lemma {:induction false} LastValidSkip(y: Series, i: nat, j: nat)
    requires i <= j <= |y|
    requires forall k :: i <= k < j ==> y[k].None?
    ensures LastValidBefore(y, j) == LastValidBefore(y, i)
    decreases j
  {
    if i < j {
      LastValidSkip(y, i, j - 1);
    }
  }

  lemma {:induction false} FirstValidSkip(y: Series, i: nat, j: nat)
    requires i <= j <= |y|
    requires forall k :: i <= k < j ==> y[k].None?
    ensures FirstValidFrom(y, i) == FirstValidFrom(y, j)
    decreases j - i
  {
    if i < j {
      FirstValidSkip(y, i + 1, j);
    }
  }

  /** Fills the gaps one at a time: each run of missing positions is found,
      then filled from the present values on either side of it. */
  method Interpolate(y: Series) returns (r: Series)
    ensures r == Interpolated(y)
  {
    r := [];
    var i := 0;
    var last: Option<nat> := None;
    while i < |y|
      invariant 0 <= i <= |y|
      invariant |r| == i
      invariant last == LastValidBefore(y, i)
      invariant forall k :: 0 <= k < i ==> r[k] == FillAt(y, k)
    {
      if y[i].Some? {
        r := r + [y[i]];
        last := Some(i);
        i := i + 1;
      } else {
        var j := i;
        while j < |y| && y[j].None?
          invariant i <= j <= |y|
          invariant forall k :: i <= k < j ==> y[k].None?
        {
          j := j + 1;
        }
        var next: Option<nat> := if j < |y| then Some(j) else None;
        assert next == FirstValidFrom(y, j);
        var k := i;
        while k < j
          invariant i <= k <= j
          invariant |r| == k
          invariant forall t :: 0 <= t < k ==> r[t] == FillAt(y, t)
        {
          LastValidSkip(y, i, k);
          FirstValidSkip(y, k, j);
          r := r + [GapValue(y, last, next, k)];
          k := k + 1;
        }
        LastValidSkip(y, i, j);
        i := j;
      }
    }
  }
}
