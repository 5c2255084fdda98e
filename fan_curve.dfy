/**
 The per-degree fan curve of the daemon (`fan_profile.fan_curve`) and the four
 passes of `smooth_curve` that fill it, written as functions on the table's
 contents. Each pass is a function of the table before it, exactly as the loops
 of main.c leave it, so that reads of entries written by an earlier pass are
 modelled too.
 */
module FanCurve {

  /** Number of entries of `fan_curve`: one per whole degree, 0 to 99. */
  const CurveSize := 100

  /** Duty written above the last calibration point. */
  const FullDuty := 100

  /** `fan_curve` before `smooth_curve` runs: `profile` has static storage
      duration, so every entry starts at 0. */
  function StaticTable(): (s: seq<int>)
    ensures |s| == CurveSize
  {
    seq(CurveSize, _ => 0)
  }

  /** One calibration point of the configuration: a temperature and a duty. */
  datatype CurvePoint = CurvePoint(temp: int, duty: int)

  /** C's `(int)` conversion of the exact quotient n/d, which truncates toward
      zero (Dafny's own `/` is Euclidean and rounds down for negative n). */
  function TruncDiv(n: int, d: int): (q: int)
    requires d > 0
    ensures 0 <= n ==> 0 <= q
    ensures n <= 0 ==> q <= 0
  {
    if n >= 0 then n / d else -((-n) / d)
  }

  /** What makes TruncDiv truncation toward zero: `q * d` is the multiple of
      `d` nearest to `n` on the side of zero. */
  lemma TruncDivBounds(n: int, d: int)
    requires d > 0
    ensures 0 <= n ==> 0 <= TruncDiv(n, d) * d <= n < TruncDiv(n, d) * d + d
    ensures n < 0 ==> TruncDiv(n, d) * d - d < n <= TruncDiv(n, d) * d <= 0
  {
    var m := if n >= 0 then n else -n;
    var q, r := m / d, m % d;
    assert m == d * q + r && 0 <= r < d;
    if q < 0 {
      ScaleStrict(q, 0, d);
    }
    ScaleLe(0, q, d);
  }

  /** Every calibration temperature indexes the table. */
  predicate InTable(points: seq<CurvePoint>)
  {
    forall k :: 0 <= k < |points| ==> 0 <= points[k].temp < CurveSize
  }

  /** What `smooth_curve` needs of its input to stay inside `fan_curve`:
      at least one point (it reads the first and the last) and every
      temperature an index of the table. */
  predicate WellFormed(points: seq<CurvePoint>)
  {
    |points| >= 1 && InTable(points)
  }

  predicate StrictlyIncreasing(points: seq<CurvePoint>)
  {
    forall j, k :: 0 <= j < k < |points| ==> points[j].temp < points[k].temp
  }

  predicate DutiesInRange(points: seq<CurvePoint>)
  {
    forall k :: 0 <= k < |points| ==> 0 <= points[k].duty <= FullDuty
  }

  /** Pass 1: unless `fanStop`, every degree below `t0` gets `d0`. */
  function HoldBelow(s: seq<int>, fanStop: bool, t0: int, d0: int): (r: seq<int>)
    ensures |r| == |s|
  {
    if fanStop then s
    else seq(|s|, x requires 0 <= x < |s| => if x < t0 then d0 else s[x])
  }

  /** Pass 2, after its first `m` iterations: each point's duty stored at its
      temperature, in order, so a later point with the same temperature wins. */
  function WritePoints(s: seq<int>, points: seq<CurvePoint>, m: nat): (r: seq<int>)
    requires m <= |points| && InTable(points) && |s| == CurveSize
    ensures |r| == |s|
  {
    if m == 0 then s
    else WritePoints(s, points, m - 1)[points[m - 1].temp := points[m - 1].duty]
  }

  /** One iteration of pass 3: the segment from `a` to `b`. Degrees
      `a.temp + 1 .. b.temp` get the table's value at `a.temp` plus the
      truncated share of the duty gap; nothing is written when `b.temp <= a.temp`. */
  function Segment(s: seq<int>, a: CurvePoint, b: CurvePoint): (r: seq<int>)
    requires 0 <= a.temp < |s|
    ensures |r| == |s|
  {
    seq(|s|, x requires 0 <= x < |s| =>
      if a.temp < x <= b.temp
      then s[a.temp] + TruncDiv((b.duty - a.duty) * (x - a.temp), b.temp - a.temp)
      else s[x])
  }

  /** Pass 3, after its first `m` segments. */
  function Interpolated(s: seq<int>, points: seq<CurvePoint>, m: nat): (r: seq<int>)
    requires m < |points| && InTable(points) && |s| == CurveSize
    ensures |r| == |s|
  {
    if m == 0 then s
    else Segment(Interpolated(s, points, m - 1), points[m - 1], points[m])
  }

  /** Pass 4: the loop runs `i` from `maxTemp + 1` to 99 and stores 100 at
      `i + 1`, so inside the table it covers `maxTemp + 2 ..` only. */
  function TailFilled(s: seq<int>, maxTemp: int): (r: seq<int>)
    ensures |r| == |s|
  {
    seq(|s|, x requires 0 <= x < |s| => if maxTemp + 2 <= x then FullDuty else s[x])
  }

  /** Whether pass 4 runs at all; when it does, its last store is to index
      `CurveSize`, one past the end of `fan_curve`. */
  predicate TailOverruns(maxTemp: int)
  {
    maxTemp + 1 < CurveSize
  }

  /** The table `smooth_curve` leaves, starting from table `s`. */
  function Smoothed(s: seq<int>, fanStop: bool, points: seq<CurvePoint>): (r: seq<int>)
    requires WellFormed(points) && |s| == CurveSize
    ensures |r| == CurveSize
  {
    var held := HoldBelow(s, fanStop, points[0].temp, points[0].duty);
    var written := WritePoints(held, points, |points|);
    var interpolated := Interpolated(written, points, |points| - 1);
    TailFilled(interpolated, points[|points| - 1].temp)
  }

  /** The per-degree value of segment `i` at degree `x` in exact arithmetic:
      `d_i + trunc((d_{i+1} - d_i) * (x - t_i) / (t_{i+1} - t_i))`. */
  function Interp(points: seq<CurvePoint>, i: nat, x: int): (duty: int)
    requires i + 1 < |points| && points[i].temp < points[i + 1].temp
  {
    points[i].duty
      + TruncDiv((points[i + 1].duty - points[i].duty) * (x - points[i].temp),
                 points[i + 1].temp - points[i].temp)
  }

  lemma ScaleStrict(a: int, b: int, g: int)
    requires a < b && g > 0
    ensures a * g + g <= b * g
  {
    var c := b - a - 1;
    assert b * g == a * g + c * g + g;
    assert c * g >= 0;
  }

  lemma ScaleLe(a: int, b: int, g: int)
    requires a <= b && g >= 0
    ensures a * g <= b * g
  {
    assert b * g - a * g == (b - a) * g;
  }

  /** Truncating `g * n / g` gives `n` back: with exact arithmetic the last
      degree of a segment gets exactly the next point's duty. */
  lemma TruncDivExact(n: int, g: int)
    requires g > 0
    ensures TruncDiv(n * g, g) == n
  {
    var q := TruncDiv(n * g, g);
    TruncDivBounds(n * g, g);
    if n < q {
      ScaleStrict(n, q, g);
    } else if q < n {
      ScaleStrict(q, n, g);
    }
  }

  /** A share `k/g <= 1` of a gap `delta` lies between 0 and `delta`. */
  lemma TruncDivWithin(delta: int, k: int, g: int)
    requires g > 0 && 0 <= k <= g
    ensures 0 <= delta ==> 0 <= TruncDiv(delta * k, g) <= delta
    ensures delta < 0 ==> delta <= TruncDiv(delta * k, g) <= 0
  {
    var q := TruncDiv(delta * k, g);
    TruncDivBounds(delta * k, g);
    if 0 <= delta {
      ScaleLe(k, g, delta);
      assert delta * k <= delta * g;
      if q < 0 { ScaleStrict(q, 0, g); }
      if delta < q { ScaleStrict(delta, q, g); }
    } else {
      ScaleLe(k, g, -delta);
      assert delta * g <= delta * k;
      if 0 < q { ScaleStrict(0, q, g); }
      if q < delta { ScaleStrict(q, delta, g); }
    }
  }

  /** Truncation toward zero keeps the order of its operands. */
  lemma TruncDivMono(n1: int, n2: int, d: int)
    requires d > 0 && n1 <= n2
    ensures TruncDiv(n1, d) <= TruncDiv(n2, d)
  {
    TruncDivBounds(n1, d);
    TruncDivBounds(n2, d);
    var q1, q2 := TruncDiv(n1, d), TruncDiv(n2, d);
    if q2 < q1 {
      ScaleStrict(q2, q1, d);
    }
  }

  /** Along a segment the interpolated value follows its duties: it never
      falls on a rising segment and never rises on a falling one. */
  lemma InterpMono(points: seq<CurvePoint>, i: nat, x: int, y: int)
    requires i + 1 < |points| && points[i].temp < points[i + 1].temp && x <= y
    ensures points[i].duty <= points[i + 1].duty ==> Interp(points, i, x) <= Interp(points, i, y)
    ensures points[i + 1].duty <= points[i].duty ==> Interp(points, i, y) <= Interp(points, i, x)
  {
    var delta := points[i + 1].duty - points[i].duty;
    var g := points[i + 1].temp - points[i].temp;
    var kx, ky := x - points[i].temp, y - points[i].temp;
    if 0 <= delta {
      ScaleLe(kx, ky, delta);
      assert delta * kx <= delta * ky;
      TruncDivMono(delta * kx, delta * ky, g);
    }
    if delta <= 0 {
      ScaleLe(kx, ky, -delta);
      assert delta * ky <= delta * kx;
      TruncDivMono(delta * ky, delta * kx, g);
    }
  }

  /** Interpolated values lie between the two duties of their segment. */
  lemma InterpBetween(points: seq<CurvePoint>, i: nat, x: int)
    requires i + 1 < |points| && points[i].temp < x <= points[i + 1].temp
    ensures points[i].duty <= points[i + 1].duty ==>
              points[i].duty <= Interp(points, i, x) <= points[i + 1].duty
    ensures points[i + 1].duty < points[i].duty ==>
              points[i + 1].duty <= Interp(points, i, x) <= points[i].duty
  {
    TruncDivWithin(points[i + 1].duty - points[i].duty, x - points[i].temp,
                   points[i + 1].temp - points[i].temp);
  }

  /** The last degree of a segment gets the next point's duty. */
  lemma InterpAtEnd(points: seq<CurvePoint>, i: nat)
    requires i + 1 < |points| && points[i].temp < points[i + 1].temp
    ensures Interp(points, i, points[i + 1].temp) == points[i + 1].duty
  {
    TruncDivExact(points[i + 1].duty - points[i].duty, points[i + 1].temp - points[i].temp);
  }

  /** Pass 2 leaves a degree alone unless some point has that temperature. */
  lemma {:induction false} WritePointsElsewhere(s: seq<int>, points: seq<CurvePoint>, m: nat, x: int)
    requires m <= |points| && InTable(points) && |s| == CurveSize && 0 <= x < CurveSize
    requires forall k :: 0 <= k < m ==> points[k].temp != x
    ensures WritePoints(s, points, m)[x] == s[x]
  {
    if m > 0 {
      WritePointsElsewhere(s, points, m - 1, x);
    }
  }

  /** With increasing temperatures, pass 2 stores every point's duty. */
  lemma {:induction false} WritePointsAt(s: seq<int>, points: seq<CurvePoint>, m: nat, k: nat)
    requires k < m <= |points| && InTable(points) && |s| == CurveSize
    requires StrictlyIncreasing(points)
    ensures WritePoints(s, points, m)[points[k].temp] == points[k].duty
  {
    if k < m - 1 {
      WritePointsAt(s, points, m - 1, k);
      assert points[k].temp < points[m - 1].temp;
    }
  }

  /** Pass 3 leaves a degree alone that no segment covers. */
  lemma {:induction false} InterpolatedUntouched(s: seq<int>, points: seq<CurvePoint>, m: nat, x: int)
    requires m < |points| && InTable(points) && |s| == CurveSize && 0 <= x < CurveSize
    requires forall i :: 0 <= i < m ==> !(points[i].temp < x <= points[i + 1].temp)
    ensures Interpolated(s, points, m)[x] == s[x]
  {
    if m > 0 {
      InterpolatedUntouched(s, points, m - 1, x);
      assert !(points[m - 1].temp < x <= points[m].temp);
    }
  }

  /** With increasing temperatures and the first point stored, pass 3 gives
      every degree of segment `i` its interpolated value. The segment reads
      the table at `t_i`, which the previous segment rewrote; exact arithmetic
      makes that value `d_i` again (InterpAtEnd). */
  lemma {:induction false} InterpolatedInside(s: seq<int>, points: seq<CurvePoint>, m: nat, i: nat, x: int)
    requires m < |points| && InTable(points) && |s| == CurveSize
    requires StrictlyIncreasing(points)
    requires s[points[0].temp] == points[0].duty
    requires i < m && points[i].temp < x <= points[i + 1].temp
    ensures Interpolated(s, points, m)[x] == Interp(points, i, x)
  {
    var prev := Interpolated(s, points, m - 1);
    if i == m - 1 {
      if i == 0 {
        assert prev == s;
      } else {
        InterpolatedInside(s, points, m - 1, i - 1, points[i].temp);
        InterpAtEnd(points, i - 1);
      }
      assert prev[points[i].temp] == points[i].duty;
    } else {
      assert points[i + 1].temp <= points[m - 1].temp;
      InterpolatedInside(s, points, m - 1, i, x);
    }
  }
}
