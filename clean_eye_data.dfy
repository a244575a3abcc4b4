/** The pupil-signal artifact cleaner: every sample whose jump from either
    neighbour exceeds a robust threshold (median of the jumps plus N scaled
    median absolute deviations) is blanked, and the blanks are filled by
    linear interpolation over position. */
module CleanEyeData {
  import opened Wrappers
  import opened Stats
  import opened Interpolation

  /** The MAD multiplier of the threshold. */
  const N: real := 2.0
  /** The scale that makes the MAD estimate a standard deviation. */
  const MadScale: real := 1.4826

  /** The values of a series with no missing entry. */
  function Values(x: Series): (v: seq<real>)
    requires Complete(x)
    ensures |v| == |x|
    ensures forall i {:trigger x[i]} :: 0 <= i < |x| ==> x[i] == Some(v[i])
  {
    seq(|x|, i requires 0 <= i < |x| => x[i].value)
  }

  /** `np.diff`: the differences of consecutive entries. */
  function Diff(s: seq<real>): (d: seq<real>)
    ensures |d| == if s == [] then 0 else |s| - 1
    ensures forall i {:trigger d[i]} :: 0 <= i < |d| ==> d[i] == s[i + 1] - s[i]
  {
    if |s| <= 1 then [] else seq(|s| - 1, i requires 0 <= i < |s| - 1 => s[i + 1] - s[i])
  }

  function AbsAll(s: seq<real>): (r: seq<real>)
    ensures |r| == |s|
    ensures forall i {:trigger r[i]} :: 0 <= i < |s| ==> r[i] == Abs(s[i])
  {
    seq(|s|, i requires 0 <= i < |s| => Abs(s[i]))
  }

  /** The distance of each value from `c`. */
  function Deviations(s: seq<real>, c: real): (r: seq<real>)
    ensures |r| == |s|
    ensures forall i {:trigger r[i]} :: 0 <= i < |s| ==> r[i] == Abs(s[i] - c)
  {
    seq(|s|, i requires 0 <= i < |s| => Abs(s[i] - c))
  }

  /** `np.maximum`: the element-wise larger of two sequences. */
  function MaxAll(a: seq<real>, b: seq<real>): (r: seq<real>)
    requires |a| == |b|
    ensures |r| == |a|
    ensures forall i {:trigger r[i]} :: 0 <= i < |a| ==> r[i] >= a[i] && r[i] >= b[i]
    ensures forall i {:trigger r[i]} :: 0 <= i < |a| ==> r[i] == a[i] || r[i] == b[i]
  {
    seq(|a|, i requires 0 <= i < |a| => if a[i] >= b[i] then a[i] else b[i])
  }

  /** The scaled median absolute deviation (`mad`). It is never negative. */
  function Mad(a: seq<real>): (r: real)
    requires |a| > 0
    ensures r >= 0.0
  {
    var dev := Deviations(a, Median(a));
    MedianNonNegative(dev);
    MadScale * Median(dev)
  }

  /** A constant sequence has no spread. */
  lemma MadOfConstant(a: seq<real>, c: real)
    requires |a| > 0
    requires forall i :: 0 <= i < |a| ==> a[i] == c
    ensures Mad(a) == 0.0
  {
    MedianOfConstant(a, c);
    MedianOfConstant(Deviations(a, c), 0.0);
  }

  /** Deviations of non-negative values from 0 are the values themselves. */
  lemma DeviationsFromZero(d: seq<real>)
    requires forall i :: 0 <= i < |d| ==> d[i] >= 0.0
    ensures Deviations(d, 0.0) == d
  {
  }

  /** The jump of each position from its left neighbour: 0 at the first
      position. */
  function LeftJumps(v: seq<real>): (d: seq<real>)
    requires |v| > 0
    ensures |d| == |v| && d[0] == 0.0
  {
    seq(|v|, i requires 0 <= i < |v| => if i == 0 then 0.0 else Abs(v[i] - v[i - 1]))
  }

  /** The jump of each position to its right neighbour: 0 at the last
      position. */
  function RightJumps(v: seq<real>): (d: seq<real>)
    requires |v| > 0
    ensures |d| == |v| && d[|v| - 1] == 0.0
  {
    seq(|v|, i requires 0 <= i < |v| => if i == |v| - 1 then 0.0 else Abs(v[i + 1] - v[i]))
  }

  /** The jump between positions i and i+1 is the right jump of i and the
      left jump of i+1. */
  lemma JumpSeenFromBothSides(v: seq<real>, i: nat)
    requires i + 1 < |v|
    ensures RightJumps(v)[i] == LeftJumps(v)[i + 1] == Abs(v[i + 1] - v[i])
  {
  }

  /** The left jumps are the absolute first differences of the series with
      its first value repeated in front. */
  lemma LeftJumpsAreDiffPrepend(v: seq<real>)
    requires |v| > 0
    ensures LeftJumps(v) == AbsAll(Diff([v[0]] + v))
  {
    var padded := [v[0]] + v;
    var d := Diff(padded);
    forall i | 0 <= i < |v| ensures LeftJumps(v)[i] == AbsAll(d)[i] {
      assert d[i] == padded[i + 1] - padded[i];
      if i > 0 {
        assert padded[i + 1] == v[i] && padded[i] == v[i - 1];
      } else {
        assert padded[1] == v[0] && padded[0] == v[0];
      }
    }
  }

  /** The right jumps are the absolute first differences of the series with
      its last value repeated at the end. */
  lemma RightJumpsAreDiffAppend(v: seq<real>)
    requires |v| > 0
    ensures RightJumps(v) == AbsAll(Diff(v + [v[|v| - 1]]))
  {
  }

  /** The larger of each position's two jumps, from which the threshold is
      derived. */
  function Diffs(v: seq<real>): (d: seq<real>)
    requires |v| > 0
    ensures |d| == |v|
    ensures forall i :: 0 <= i < |v| ==> d[i] >= 0.0
  {
    MaxAll(LeftJumps(v), RightJumps(v))
  }

  /** The threshold: the median jump plus `N` times the MAD of the jumps.
      It is at least the median jump, hence not negative, and at least one
      position's larger jump does not exceed it. */
  function Threshold(v: seq<real>): (ts: real)
    requires |v| > 0
    ensures ts >= Median(Diffs(v)) >= 0.0
    ensures exists i :: 0 <= i < |v| && Diffs(v)[i] <= ts
  {
    var d := Diffs(v);
    MedianNonNegative(d);
    Median(d) + N * Mad(d)
  }

  /** The positions whose left jump or right jump, taken alone, exceeds
      the threshold `ts`. */
  function Flags(v: seq<real>, ts: real): (m: seq<bool>)
    requires |v| > 0
    ensures |m| == |v|
    ensures forall i :: 0 <= i < |v| ==> (m[i] <==> LeftJumps(v)[i] > ts || RightJumps(v)[i] > ts)
  {
    var left, right := LeftJumps(v), RightJumps(v);
    seq(|v|, i requires 0 <= i < |v| => left[i] > ts || right[i] > ts)
  }

  /** Flagging on either jump is flagging on the larger one: position `i` is
      flagged exactly when `diffs[i]` exceeds the threshold. */
  lemma FlagsIsDiffsAbove(v: seq<real>, ts: real, i: nat)
    requires i < |v|
    ensures Flags(v, ts)[i] <==> Diffs(v)[i] > ts
  {
  }

  /** A jump between neighbours `i` and `i + 1` that exceeds the threshold
      flags both of them. */
  lemma JumpFlagsBothEnds(v: seq<real>, ts: real, i: nat)
    requires i + 1 < |v| && Abs(v[i + 1] - v[i]) > ts
    ensures Flags(v, ts)[i] && Flags(v, ts)[i + 1]
  {
    assert RightJumps(v)[i] > ts;
    assert LeftJumps(v)[i + 1] > ts;
  }

  /** A higher threshold flags no more positions than a lower one. */
  lemma FlagsAntitone(v: seq<real>, s: real, t: real, i: nat)
    requires s <= t && i < |v|
    ensures Flags(v, t)[i] ==> Flags(v, s)[i]
  {
  }

  /** The flagged positions of `clean_series`, at the threshold computed
      from the series itself. A missing value makes the median NaN, and
      nothing compares greater than NaN, so a series with a gap has no
      flagged position. */
  function Mask(x: Series): (m: seq<bool>)
    ensures |m| == |x|
    ensures !Complete(x) ==> forall i :: 0 <= i < |x| ==> !m[i]
    ensures Complete(x) && |x| > 0 ==> m == Flags(Values(x), Threshold(Values(x)))
  {
    if |x| == 0 || !Complete(x) then
      seq(|x|, i => false)
    else
      var v := Values(x);
      Flags(v, Threshold(v))
  }

  /** Position `i` of a complete series is flagged exactly when its larger
      jump exceeds the series' threshold. */
  lemma MaskIsDiffsAboveThreshold(x: Series, i: nat)
    requires Complete(x) && i < |x|
    ensures Mask(x)[i] <==> Diffs(Values(x))[i] > Threshold(Values(x))
  {
    FlagsIsDiffsAbove(Values(x), Threshold(Values(x)), i);
  }

  /** A series with a missing value has no flagged position. */
  lemma MaskOfIncomplete(x: Series, i: nat)
    requires !Complete(x) && i < |x|
    ensures !Mask(x)[i]
  {
  }

  /** A non-empty series with no missing value keeps at least one position
      unflagged: the one holding the smallest larger-jump. */
  lemma UnflaggedExists(x: Series) returns (i: nat)
    requires Complete(x) && |x| > 0
    ensures i < |x| && !Mask(x)[i]
  {
    var v := Values(x);
    i :| 0 <= i < |v| && Diffs(v)[i] <= Threshold(v);
    MaskIsDiffsAboveThreshold(x, i);
  }

  /** A copy of the series with every flagged position made missing. */
  function Blank(x: Series, m: seq<bool>): (y: Series)
    requires |m| == |x|
    ensures |y| == |x|
    ensures forall i {:trigger y[i]} :: 0 <= i < |x| ==> y[i] == if m[i] then None else x[i]
  {
    seq(|x|, i requires 0 <= i < |x| => if m[i] then None else x[i])
  }

  /** The cleaned series (`clean_series`): same length and order, unflagged
      values kept, and no missing value left once any value is present. */
  function Cleaned(x: Series): (r: Series)
    ensures |r| == |x|
    ensures forall i :: 0 <= i < |x| && x[i].Some? && !Mask(x)[i] ==> r[i] == x[i]
    ensures (exists k :: 0 <= k < |x| && x[k].Some?) ==> Complete(r)
  {
    if |x| == 0 then
      x
    else
      BlankKeepsAValue(x);
      Interpolated(Blank(x, Mask(x)))
  }

  /** Blanking the flagged positions leaves a value in place whenever the
      series has one. */
  lemma BlankKeepsAValue(x: Series)
    ensures (exists k :: 0 <= k < |x| && x[k].Some?) ==>
      exists k :: 0 <= k < |x| && Blank(x, Mask(x))[k].Some?
  {
    var y := Blank(x, Mask(x));
    if Complete(x) && |x| > 0 {
      var i := UnflaggedExists(x);
      assert y[i] == x[i];
    } else if k :| 0 <= k < |x| && x[k].Some? {
      assert y[k].Some?;
    }
  }

  /** A blank strictly between two kept positions `p` and `q` with only
      blanks between them is filled on the line joining their values. */
  lemma CleanedInteriorGap(x: Series, p: nat, i: nat, q: nat)
    requires p < i < q < |x|
    requires x[p].Some? && !Mask(x)[p] && x[q].Some? && !Mask(x)[q]
    requires forall k :: p < k < q ==> Blank(x, Mask(x))[k].None?
    ensures Cleaned(x)[i] == Some(Lerp(x[p].value, x[q].value, p, q, i))
  {
    InterpolatedInterior(Blank(x, Mask(x)), p, i, q);
  }

  /** Blanks before the first kept position take its value. */
  lemma CleanedLeadingGap(x: Series, i: nat, q: nat)
    requires i < q < |x|
    requires x[q].Some? && !Mask(x)[q]
    requires forall k :: 0 <= k < q ==> Blank(x, Mask(x))[k].None?
    ensures Cleaned(x)[i] == x[q]
  {
    InterpolatedLeading(Blank(x, Mask(x)), i, q);
  }

  /** Blanks after the last kept position take its value. */
  lemma CleanedTrailingGap(x: Series, p: nat, i: nat)
    requires p < i < |x|
    requires x[p].Some? && !Mask(x)[p]
    requires forall k :: p < k < |x| ==> Blank(x, Mask(x))[k].None?
    ensures Cleaned(x)[i] == x[p]
  {
    InterpolatedTrailing(Blank(x, Mask(x)), p, i);
  }

  /** A series with nothing to flag and nothing missing comes back as it is. */
  lemma CleanedSmoothUnchanged(x: Series)
    requires Complete(x)
    requires forall i :: 0 <= i < |x| ==> !Mask(x)[i]
    ensures Cleaned(x) == x
  {
    if |x| > 0 {
      BlankNothing(x, Mask(x));
      InterpolatedOfComplete(x);
    }
  }

  /** Blanking with no flag set changes nothing. */
  lemma BlankNothing(x: Series, m: seq<bool>)
    requires |m| == |x| && forall i :: 0 <= i < |x| ==> !m[i]
    ensures Blank(x, m) == x
  {
    var y := Blank(x, m);
    assert forall i :: 0 <= i < |x| ==> y[i] == x[i];
  }

  /** When every position's larger jump is the same value `c`, the median
      jump is `c`, the MAD is 0 and the threshold is `c`. */
  lemma ThresholdOfEqualDiffs(v: seq<real>, c: real)
    requires |v| > 0
    requires forall i :: 0 <= i < |v| ==> Diffs(v)[i] == c
    ensures Threshold(v) == c
  {
    MedianOfConstant(Diffs(v), c);
    MadOfConstant(Diffs(v), c);
  }

  /** When the median jump is 0 and the jumps are their own deviations from
      it, the MAD is 0 and the threshold is 0. */
  lemma ThresholdOfZeroMedian(v: seq<real>, d: seq<real>)
    requires |v| > 0 && Diffs(v) == d
    requires Median(d) == 0.0 && Deviations(d, 0.0) == d
    ensures Threshold(v) == 0.0
  {
  }

  /** No position is flagged at a threshold no larger jump exceeds. */
  lemma NothingFlaggedAtMaxJump(v: seq<real>, ts: real)
    requires |v| > 0
    requires forall i :: 0 <= i < |v| ==> Diffs(v)[i] <= ts
    ensures forall i :: 0 <= i < |v| ==> !Flags(v, ts)[i]
  {
    forall i | 0 <= i < |v| ensures !Flags(v, ts)[i] {
      FlagsIsDiffsAbove(v, ts, i);
    }
  }

  /** A complete series whose larger jumps are all equal comes back as it is:
      the threshold is that common jump, and no jump exceeds itself. */
  lemma CleanedEqualDiffsUnchanged(x: Series, c: real)
    requires Complete(x) && |x| > 0
    requires forall i :: 0 <= i < |x| ==> Diffs(Values(x))[i] == c
    ensures Cleaned(x) == x
  {
    var v := Values(x);
    ThresholdOfEqualDiffs(v, c);
    NothingFlaggedAtMaxJump(v, c);
    CleanedSmoothUnchanged(x);
  }

  /** The empty series and a single sample come back unchanged. */
  lemma CleanedShortUnchanged(x: Series)
    requires |x| <= 1
    ensures Cleaned(x) == x
  {
    if |x| == 1 {
      if Complete(x) {
        assert Diffs(Values(x))[0] == 0.0;
        CleanedEqualDiffsUnchanged(x, 0.0);
      } else {
        assert Blank(x, Mask(x)) == x;
      }
    }
  }

  /** Two samples are never filtered: both positions see the one jump, the
      threshold equals it, and no jump exceeds itself. */
  lemma CleanedTwoSamplesUnchanged(x: Series)
    requires |x| == 2 && Complete(x)
    ensures Cleaned(x) == x
  {
    var v := Values(x);
    assert Abs(v[0] - v[1]) == Abs(v[1] - v[0]);
    assert forall i :: 0 <= i < 2 ==> Diffs(v)[i] == Abs(v[1] - v[0]);
    CleanedEqualDiffsUnchanged(x, Abs(v[1] - v[0]));
  }

  /** A constant series has only zero jumps, a zero threshold, and nothing
      above it. */
  lemma CleanedConstantUnchanged(x: Series, c: real)
    requires |x| > 0
    requires forall i :: 0 <= i < |x| ==> x[i] == Some(c)
    ensures Cleaned(x) == x
  {
    assert Complete(x);
    var v := Values(x);
    forall i | 0 <= i < |v| ensures v[i] == c {
      assert x[i] == Some(v[i]);
    }
    ConstantDiffsZero(v, c);
    CleanedEqualDiffsUnchanged(x, 0.0);
  }

  /** Constant values have only zero jumps. */
  lemma ConstantDiffsZero(v: seq<real>, c: real)
    requires |v| > 0 && forall i :: 0 <= i < |v| ==> v[i] == c
    ensures forall i :: 0 <= i < |v| ==> Diffs(v)[i] == 0.0
  {
    forall i | 0 <= i < |v| ensures Diffs(v)[i] == 0.0 {
      assert LeftJumps(v)[i] == 0.0 && RightJumps(v)[i] == 0.0;
    }
  }

  /** A flat signal at level `c` of nine samples with one spike of height
      `h` in the middle (for instance `[5,5,5,5,100,5,5,5,5]`). */
  function SpikeSeries(c: real, h: real): Series {
    [Some(c), Some(c), Some(c), Some(c), Some(h), Some(c), Some(c), Some(c), Some(c)]
  }

  lemma SpikeValues(c: real, h: real)
    ensures Complete(SpikeSeries(c, h))
    ensures Values(SpikeSeries(c, h)) == [c, c, c, c, h, c, c, c, c]
  {
  }

  /** Only the jumps into the spike (at 4) and out of it (at 5) are non-zero. */
  lemma SpikeLeftJumps(c: real, h: real)
    ensures LeftJumps([c, c, c, c, h, c, c, c, c])
         == [0.0, 0.0, 0.0, 0.0, Abs(h - c), Abs(h - c), 0.0, 0.0, 0.0]
  {
    assert Abs(c - h) == Abs(h - c);
  }

  /** Only the jumps to the spike (at 3) and from it (at 4) are non-zero. */
  lemma SpikeRightJumps(c: real, h: real)
    ensures RightJumps([c, c, c, c, h, c, c, c, c])
         == [0.0, 0.0, 0.0, Abs(h - c), Abs(h - c), 0.0, 0.0, 0.0, 0.0]
  {
    assert Abs(c - h) == Abs(h - c);
  }

  /** The larger jumps of the spike: `|h - c|` at indices 3 to 5, 0 elsewhere. */
  lemma SpikeDiffs(c: real, h: real)
    ensures Diffs([c, c, c, c, h, c, c, c, c])
         == [0.0, 0.0, 0.0] + [Abs(h - c), Abs(h - c), Abs(h - c)] + [0.0, 0.0, 0.0]
  {
    SpikeLeftJumps(c, h);
    SpikeRightJumps(c, h);
  }

  /** Three zeros, three copies of `a >= 0`, three zeros: the ascending
      rearrangement puts the six zeros first, so the middle one is 0. */
  lemma SpikeMedianJump(z: seq<real>, w: seq<real>, a: real)
    requires |z| == 3 && |w| == 3 && a >= 0.0
    requires forall i :: 0 <= i < 3 ==> z[i] == 0.0 && w[i] == a
    ensures Median(z + w + z) == 0.0
  {
    MultisetMoveBack(z, w, z);
    var t := z + z + w;
    assert Sorted(t) by {
      forall i, j | 0 <= i < j < |t| ensures t[i] <= t[j] {
        assert t[i] == (if i < 6 then 0.0 else a);
        assert t[j] == (if j < 6 then 0.0 else a);
      }
    }
    MedianOfOddRearranged(z + w + z, t, 0.0);
  }

  /** More than half of the spike's larger jumps are 0, so both the median
      jump and the MAD are 0, and so is the threshold. */
  lemma SpikeThreshold(c: real, h: real)
    ensures Threshold([c, c, c, c, h, c, c, c, c]) == 0.0
  {
    var a := Abs(h - c);
    var z, w := [0.0, 0.0, 0.0], [a, a, a];
    SpikeDiffs(c, h);
    SpikeMedianJump(z, w, a);
    DeviationsOfBlocks(z, w, a);
    ThresholdOfZeroMedian([c, c, c, c, h, c, c, c, c], z + w + z);
  }

  /** The spike's larger jumps are their own deviations from 0. */
  lemma DeviationsOfBlocks(z: seq<real>, w: seq<real>, a: real)
    requires |z| == 3 && |w| == 3 && a >= 0.0
    requires forall i :: 0 <= i < 3 ==> z[i] == 0.0 && w[i] == a
    ensures Deviations(z + w + z, 0.0) == z + w + z
  {
    var d := z + w + z;
    assert forall i :: 0 <= i < |d| ==> d[i] == (if 3 <= i < 6 then a else 0.0);
    DeviationsFromZero(d);
  }

  /** At threshold 0 a spike flags itself and both its neighbours: the jump
      into it flags index 3, the jump out of it flags index 5. */
  lemma SpikeFlags(c: real, h: real)
    requires h != c
    ensures Flags([c, c, c, c, h, c, c, c, c], 0.0)
         == [false, false, false, true, true, true, false, false, false]
  {
    SpikeLeftJumps(c, h);
    SpikeRightJumps(c, h);
  }

  /** The spike's own threshold is 0, so its mask flags indices 3 to 5. */
  lemma SpikeMask(c: real, h: real)
    requires h != c
    ensures Mask(SpikeSeries(c, h)) == [false, false, false, true, true, true, false, false, false]
  {
    SpikeValues(c, h);
    SpikeThreshold(c, h);
    SpikeFlags(c, h);
  }

  /** Blanking the three flagged samples leaves the flat level on both sides. */
  lemma SpikeBlanked(c: real, h: real)
    ensures Blank(SpikeSeries(c, h), [false, false, false, true, true, true, false, false, false])
         == [Some(c), Some(c), Some(c), None, None, None, Some(c), Some(c), Some(c)]
  {
  }

  /** A gap between two equal values is filled with that value. */
  lemma InterpolatedFlatGap(c: real)
    ensures Interpolated([Some(c), Some(c), Some(c), None, None, None, Some(c), Some(c), Some(c)])
         == SpikeSeries(c, c)
  {
    var y := [Some(c), Some(c), Some(c), None, None, None, Some(c), Some(c), Some(c)];
    InterpolatedInterior(y, 2, 3, 6);
    InterpolatedInterior(y, 2, 4, 6);
    InterpolatedInterior(y, 2, 5, 6);
  }

  /** The spike comes out as the flat signal it interrupted. */
  lemma CleanedSpike(c: real, h: real)
    requires h != c
    ensures Cleaned(SpikeSeries(c, h)) == SpikeSeries(c, c)
  {
    SpikeMask(c, h);
    SpikeBlanked(c, h);
    InterpolatedFlatGap(c);
  }

  /** A series with missing values, at its start and inside: with a gap
      nothing is flagged, the start is filled flat and the inner blank
      linearly. */
  lemma CleanedWithGaps()
    ensures Cleaned([None, Some(3.0), Some(4.0), None, Some(5.0)])
         == [Some(3.0), Some(3.0), Some(4.0), Some(4.5), Some(5.0)]
  {
    var x := [None, Some(3.0), Some(4.0), None, Some(5.0)];
    assert x[0].None?;
    var y := Blank(x, Mask(x));
    assert y == x;
    InterpolatedLeading(y, 0, 1);
    InterpolatedInterior(y, 2, 3, 4);
  }

  /** Fills the flagged positions of a copy with NaN, in place, then
      interpolates over it. */
  method CleanSeries(x: Series) returns (r: Series)
    ensures r == Cleaned(x)
  {
    if |x| == 0 {
      return x;
    }
    var blanked := BlankCopy(x, Mask(x));
    r := Interpolate(blanked);
  }

  /** Copies the series into an array and makes every flagged position
      missing. */
  method BlankCopy(x: Series, mask: seq<bool>) returns (y: Series)
    requires |mask| == |x|
    ensures y == Blank(x, mask)
  {
    var copy := new Option<real>[|x|](i requires 0 <= i < |x| => x[i]);
    forall i | 0 <= i < copy.Length && mask[i] {
      copy[i] := None;
    }
    y := copy[..];
  }
}
