/**
 What the table left by `smooth_curve` holds, degree by degree: the low end,
 the calibration points, the interpolated segments, the degree just above the
 last point (never written) and the fail-safe tail. All of it is about
 `Smoothed`, the function the imperative `FanProfile.SmoothCurve` is proved
 to compute.
 */
module CurveProperties {
  import opened FanCurve

  /** Below the first calibration temperature the table holds the first
      duty, or, with `fanStop`, whatever it held before (0 from static
      initialisation). Only points at or above the first temperature are
      assumed, not a sorted curve. */
  lemma SmoothedLowEnd(s: seq<int>, fanStop: bool, points: seq<CurvePoint>, x: int)
    requires WellFormed(points) && |s| == CurveSize
    requires forall k :: 0 <= k < |points| ==> points[0].temp <= points[k].temp
    requires 0 <= x < points[0].temp
    ensures Smoothed(s, fanStop, points)[x] == if fanStop then s[x] else points[0].duty
  {
    var n := |points|;
    var held := HoldBelow(s, fanStop, points[0].temp, points[0].duty);
    var written := WritePoints(held, points, n);
    WritePointsElsewhere(held, points, n, x);
    InterpolatedUntouched(written, points, n - 1, x);
  }

  /** Every calibration point survives with its own duty (exact arithmetic). */
  lemma SmoothedKeepsPoints(s: seq<int>, fanStop: bool, points: seq<CurvePoint>, k: nat)
    requires WellFormed(points) && StrictlyIncreasing(points) && |s| == CurveSize
    requires k < |points|
    ensures Smoothed(s, fanStop, points)[points[k].temp] == points[k].duty
  {
    var n := |points|;
    var held := HoldBelow(s, fanStop, points[0].temp, points[0].duty);
    var written := WritePoints(held, points, n);
    WritePointsAt(held, points, n, 0);
    if k == 0 {
      InterpolatedUntouched(written, points, n - 1, points[0].temp);
    } else {
      InterpolatedInside(written, points, n - 1, k - 1, points[k].temp);
      InterpAtEnd(points, k - 1);
    }
    assert points[k].temp <= points[n - 1].temp;
  }

  /** Inside segment `i` every degree gets the truncated linear value, which
      lies between the segment's two duties. */
  lemma SmoothedInterpolates(s: seq<int>, fanStop: bool, points: seq<CurvePoint>, i: nat, x: int)
    requires WellFormed(points) && StrictlyIncreasing(points) && |s| == CurveSize
    requires i + 1 < |points| && points[i].temp < x <= points[i + 1].temp
    ensures Smoothed(s, fanStop, points)[x] == Interp(points, i, x)
    ensures points[i].duty <= points[i + 1].duty ==>
              points[i].duty <= Smoothed(s, fanStop, points)[x] <= points[i + 1].duty
    ensures points[i + 1].duty < points[i].duty ==>
              points[i + 1].duty <= Smoothed(s, fanStop, points)[x] <= points[i].duty
  {
    var n := |points|;
    var held := HoldBelow(s, fanStop, points[0].temp, points[0].duty);
    var written := WritePoints(held, points, n);
    WritePointsAt(held, points, n, 0);
    InterpolatedInside(written, points, n - 1, i, x);
    InterpBetween(points, i, x);
    assert points[i + 1].temp <= points[n - 1].temp;
  }

  /** Across one segment, endpoints included, the finished table follows the
      segment's duties: non-decreasing on a rising segment, non-increasing on a
      falling one. */
  lemma SmoothedMonotoneInSegment(s: seq<int>, fanStop: bool, points: seq<CurvePoint>, i: nat, x: int, y: int)
    requires WellFormed(points) && StrictlyIncreasing(points) && |s| == CurveSize
    requires i + 1 < |points| && points[i].temp <= x <= y <= points[i + 1].temp
    ensures points[i].duty <= points[i + 1].duty ==>
              Smoothed(s, fanStop, points)[x] <= Smoothed(s, fanStop, points)[y]
    ensures points[i + 1].duty <= points[i].duty ==>
              Smoothed(s, fanStop, points)[y] <= Smoothed(s, fanStop, points)[x]
  {
    SmoothedOnSegment(s, fanStop, points, i, x);
    SmoothedOnSegment(s, fanStop, points, i, y);
    InterpMono(points, i, x, y);
  }

  /** Every degree of a segment, its first one included, holds `Interp`. */
  lemma SmoothedOnSegment(s: seq<int>, fanStop: bool, points: seq<CurvePoint>, i: nat, x: int)
    requires WellFormed(points) && StrictlyIncreasing(points) && |s| == CurveSize
    requires i + 1 < |points| && points[i].temp <= x <= points[i + 1].temp
    ensures Smoothed(s, fanStop, points)[x] == Interp(points, i, x)
  {
    if x == points[i].temp {
      SmoothedKeepsPoints(s, fanStop, points, i);
      assert Interp(points, i, x) == points[i].duty;
    } else {
      SmoothedInterpolates(s, fanStop, points, i, x);
    }
  }

  /** From two degrees above the last calibration temperature the table
      holds full duty, whatever the points. */
  lemma SmoothedTail(s: seq<int>, fanStop: bool, points: seq<CurvePoint>, x: int)
    requires WellFormed(points) && |s| == CurveSize
    requires points[|points| - 1].temp + 2 <= x < CurveSize
    ensures Smoothed(s, fanStop, points)[x] == FullDuty
  {
  }

  /** The degree just above the last calibration temperature is written by
      no pass: it keeps the value it had before `smooth_curve`. */
  lemma SmoothedSkipsAfterLast(s: seq<int>, fanStop: bool, points: seq<CurvePoint>)
    requires WellFormed(points) && StrictlyIncreasing(points) && |s| == CurveSize
    requires points[|points| - 1].temp + 1 < CurveSize
    ensures Smoothed(s, fanStop, points)[points[|points| - 1].temp + 1]
              == s[points[|points| - 1].temp + 1]
  {
    var n := |points|;
    var x := points[n - 1].temp + 1;
    var held := HoldBelow(s, fanStop, points[0].temp, points[0].duty);
    var written := WritePoints(held, points, n);
    assert held[x] == s[x] by {
      assert points[0].temp <= points[n - 1].temp;
    }
    forall k | 0 <= k < n ensures points[k].temp != x {
      assert points[k].temp <= points[n - 1].temp;
    }
    WritePointsElsewhere(held, points, n, x);
    forall i | 0 <= i < n - 1 ensures !(points[i].temp < x <= points[i + 1].temp) {
      assert points[i + 1].temp <= points[n - 1].temp;
    }
    InterpolatedUntouched(written, points, n - 1, x);
  }

  /** Between the first and the last calibration temperature every degree
      belongs to a segment. */
  lemma FindSegment(points: seq<CurvePoint>, x: int) returns (i: nat)
    requires |points| >= 1 && StrictlyIncreasing(points)
    requires points[0].temp < x <= points[|points| - 1].temp
    ensures i + 1 < |points| && points[i].temp < x <= points[i + 1].temp
  {
    i := 0;
    while points[i + 1].temp < x
      invariant i + 1 < |points| && points[i].temp < x
      decreases |points| - i
    {
      i := i + 1;
    }
  }

  /** Valid duties and a valid starting table give a table of valid duties:
      every entry a percentage in 0..100. */
  lemma SmoothedInRange(s: seq<int>, fanStop: bool, points: seq<CurvePoint>)
    requires WellFormed(points) && StrictlyIncreasing(points) && DutiesInRange(points)
    requires |s| == CurveSize && forall x :: 0 <= x < CurveSize ==> 0 <= s[x] <= FullDuty
    ensures forall x :: 0 <= x < CurveSize ==> 0 <= Smoothed(s, fanStop, points)[x] <= FullDuty
  {
    var n := |points|;
    var r := Smoothed(s, fanStop, points);
    forall x | 0 <= x < CurveSize ensures 0 <= r[x] <= FullDuty {
      if x < points[0].temp {
        SmoothedLowEnd(s, fanStop, points, x);
      } else if x == points[0].temp {
        SmoothedKeepsPoints(s, fanStop, points, 0);
      } else if x <= points[n - 1].temp {
        var i := FindSegment(points, x);
        SmoothedInterpolates(s, fanStop, points, i, x);
      } else if x == points[n - 1].temp + 1 {
        SmoothedSkipsAfterLast(s, fanStop, points);
      }
    }
  }

  /** The curve (30,20), (50,60), (70,100) built over the zero table: the
      midpoints 40 and 80, the held 20 below 30, full duty from 72 on, and
      0 at 71, the degree the tail loop skips. */
  lemma ExampleCurve()
    ensures var points := [CurvePoint(30, 20), CurvePoint(50, 60), CurvePoint(70, 100)];
            var r := Smoothed(StaticTable(), false, points);
            r[29] == 20 && r[30] == 20 && r[40] == 40 && r[50] == 60 &&
            r[60] == 80 && r[70] == 100 && r[71] == 0 && r[72] == 100 && r[99] == 100
  {
    var points := [CurvePoint(30, 20), CurvePoint(50, 60), CurvePoint(70, 100)];
    var s := StaticTable();
    assert StrictlyIncreasing(points);
    SmoothedLowEnd(s, false, points, 29);
    SmoothedKeepsPoints(s, false, points, 0);
    SmoothedKeepsPoints(s, false, points, 1);
    SmoothedKeepsPoints(s, false, points, 2);
    SmoothedInterpolates(s, false, points, 0, 40);
    SmoothedInterpolates(s, false, points, 1, 60);
    SmoothedSkipsAfterLast(s, false, points);
    SmoothedTail(s, false, points, 72);
    SmoothedTail(s, false, points, 99);
  }

  /** With `fanStop` the same curve leaves 0 below 30. */
  lemma ExampleFanStop()
    ensures var points := [CurvePoint(30, 20), CurvePoint(50, 60), CurvePoint(70, 100)];
            var r := Smoothed(StaticTable(), true, points);
            r[0] == 0 && r[29] == 0 && r[30] == 20
  {
    var points := [CurvePoint(30, 20), CurvePoint(50, 60), CurvePoint(70, 100)];
    var s := StaticTable();
    assert StrictlyIncreasing(points);
    SmoothedLowEnd(s, true, points, 0);
    SmoothedLowEnd(s, true, points, 29);
    SmoothedKeepsPoints(s, true, points, 0);
  }

  /** A falling segment (30,60) to (33,50): the gap -10 is shared by
      truncation toward zero, giving 57 and 54, where rounding down would
      give 56 and 53. */
  lemma ExampleFallingSegment()
    ensures var points := [CurvePoint(30, 60), CurvePoint(33, 50)];
            var r := Smoothed(StaticTable(), false, points);
            r[31] == 57 && r[32] == 54 && r[33] == 50
  {
    var points := [CurvePoint(30, 60), CurvePoint(33, 50)];
    var s := StaticTable();
    SmoothedInterpolates(s, false, points, 0, 31);
    SmoothedInterpolates(s, false, points, 0, 32);
    SmoothedKeepsPoints(s, false, points, 1);
  }

  /** Unsorted points are not rejected. For (50,10), (40,90) the segment from
      50 down to 40 is skipped, the last point (40) starts the tail, so the
      first point's own degree 50 ends at full duty and 41 keeps the low-end
      duty 10. */
  lemma ExampleUnsortedPoints()
    ensures var points := [CurvePoint(50, 10), CurvePoint(40, 90)];
            var r := Smoothed(StaticTable(), false, points);
            r[39] == 10 && r[40] == 90 && r[41] == 10 && r[42] == 100 && r[50] == 100
  {
    var points := [CurvePoint(50, 10), CurvePoint(40, 90)];
    var s := StaticTable();
    var held := HoldBelow(s, false, 50, 10);
    var written := WritePoints(held, points, 2);
    WritePointsElsewhere(held, points, 2, 39);
    WritePointsElsewhere(held, points, 2, 41);
    InterpolatedUntouched(written, points, 1, 39);
    InterpolatedUntouched(written, points, 1, 40);
    InterpolatedUntouched(written, points, 1, 41);
  }
}
