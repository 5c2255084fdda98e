/**
 The layout of the curve file `fan_curve.txt`: a stream of integers read one
 `fscanf("%d")` at a time into one shared variable. The file itself stays
 out; the model starts from the integers it holds.
 */
module Config {
  import opened FanCurve

  /** The profile fields the file sets, and the calibration points. */
  datatype FanConfig = FanConfig(
    fanStop: bool,
    refreshInterval: int,
    fanHysteresis: int,
    numPoints: int,
    points: seq<CurvePoint>)

  /** The value the shared variable holds after read number `p` (from 0).
      A read past the end of the stream fails and leaves the variable as it
      was, so every such read yields the last integer of the stream, or the
      initial 0 when the stream is empty. */
  function TokenAt(tokens: seq<int>, p: nat): (v: int)
    ensures tokens == [] ==> v == 0
    ensures tokens != [] ==> exists j :: 0 <= j < |tokens| && j <= p && v == tokens[j]
  {
    if p < |tokens| then tokens[p]
    else if |tokens| > 0 then tokens[|tokens| - 1]
    else 0
  }

  /** Number of point pairs the reading loop takes: `numPoints`, or none when
      it is not positive. */
  function PointCount(numPoints: int): (n: nat)
  {
    if numPoints > 0 then numPoints else 0
  }

  /** The configuration the reads produce: `fan_stop` (true iff nonzero, by
      conversion to bool), `refresh_interval`, `fan_hysteresis`, `num_points`,
      then one (temperature, duty) pair per point. */
  function ParseConfig(tokens: seq<int>): (c: FanConfig)
    ensures |c.points| == PointCount(c.numPoints)
    ensures tokens == [] ==> c == FanConfig(false, 0, 0, 0, [])
  {
    var numPoints := TokenAt(tokens, 3);
    FanConfig(
      TokenAt(tokens, 0) != 0,
      TokenAt(tokens, 1),
      TokenAt(tokens, 2),
      numPoints,
      seq(PointCount(numPoints), k requires 0 <= k =>
        CurvePoint(TokenAt(tokens, 4 + 2 * k), TokenAt(tokens, 5 + 2 * k))))
  }

  /** The integers of a curve file for the given points. */
  function PointTokens(points: seq<CurvePoint>): (r: seq<int>)
  {
    if points == [] then []
    else [points[0].temp, points[0].duty] + PointTokens(points[1..])
  }

  /** A curve file that describes `c`, `fan_stop` written as 0 or 1. */
  function ConfigTokens(c: FanConfig): (r: seq<int>)
  {
    [if c.fanStop then 1 else 0, c.refreshInterval, c.fanHysteresis, c.numPoints]
      + PointTokens(c.points)
  }

  /** Point `k` occupies positions `2k` and `2k + 1` of PointTokens. */
  lemma {:induction false} PointTokensAt(points: seq<CurvePoint>, k: nat)
    requires k < |points|
    ensures |PointTokens(points)| == 2 * |points|
    ensures PointTokens(points)[2 * k] == points[k].temp
    ensures PointTokens(points)[2 * k + 1] == points[k].duty
  {
    if k > 0 {
      PointTokensAt(points[1..], k - 1);
    } else if |points| > 1 {
      PointTokensAt(points[1..], 0);
    }
  }

  /** Reading a curve file written from a configuration gives that
      configuration back, whenever its count matches its points. */
  lemma ParseConfigRoundTrip(c: FanConfig)
    requires c.numPoints == |c.points|
    ensures ParseConfig(ConfigTokens(c)) == c
  {
    var tokens := ConfigTokens(c);
    var r := ParseConfig(tokens);
    if |c.points| > 0 {
      PointTokensAt(c.points, 0);
    }
    forall k | 0 <= k < |c.points| ensures r.points[k] == c.points[k] {
      PointTokensAt(c.points, k);
    }
  }

  /** A complete file: the fields come from the first four integers, point
      `k` from positions `4 + 2k` and `5 + 2k`. */
  lemma ParseConfigLayout(tokens: seq<int>)
    requires |tokens| >= 4 && |tokens| >= 4 + 2 * tokens[3]
    ensures ParseConfig(tokens).fanStop <==> tokens[0] != 0
    ensures ParseConfig(tokens).refreshInterval == tokens[1]
    ensures ParseConfig(tokens).fanHysteresis == tokens[2]
    ensures ParseConfig(tokens).numPoints == tokens[3]
    ensures |ParseConfig(tokens).points| == PointCount(tokens[3])
    ensures forall k :: 0 <= k < tokens[3] ==>
              ParseConfig(tokens).points[k] == CurvePoint(tokens[4 + 2 * k], tokens[5 + 2 * k])
  {
  }

  /** A file cut short after `0 2 3`: the count read repeats the hysteresis
      3, and so does every coordinate of the three points. */
  lemma ExampleTruncatedFile()
    ensures ParseConfig([0, 2, 3])
              == FanConfig(false, 2, 3, 3, [CurvePoint(3, 3), CurvePoint(3, 3), CurvePoint(3, 3)])
  {
    var r := ParseConfig([0, 2, 3]);
    assert |r.points| == 3;
  }

  /** One `fscanf("%d", &i)`: the next integer and the advanced cursor, or,
      at the end of the stream, `i` unchanged. */
  function Scan(tokens: seq<int>, pos: nat, i: int): (r: (int, nat))
    ensures pos < r.1 <==> pos < |tokens|
    ensures r.1 <= pos + 1
    ensures r.1 == pos ==> r.0 == i
  {
    if pos < |tokens| then (tokens[pos], pos + 1) else (i, pos)
  }

  /** The cursor after `p` reads: it stops at the end of the stream. */
  function Cursor(tokens: seq<int>, p: nat): (pos: nat)
  {
    if p < |tokens| then p else |tokens|
  }

  /** Scanning once more from the state after `p` reads gives the value of
      read `p`. */
  lemma ScanStep(tokens: seq<int>, p: nat, i: int)
    requires p == 0 ==> i == 0
    requires p > 0 ==> i == TokenAt(tokens, p - 1)
    ensures Scan(tokens, Cursor(tokens, p), i) == (TokenAt(tokens, p), Cursor(tokens, p + 1))
  {
  }

  /** The reads of `read_and_smooth_curve`, in their order, into one reused
      variable as in the source; the result is ParseConfig. */
  method ReadConfig(tokens: seq<int>) returns (c: FanConfig)
    ensures c == ParseConfig(tokens)
  {
    var pos: nat := 0;
    var i := 0;
    var read: (int, nat);
    ScanStep(tokens, 0, i);
    read := Scan(tokens, pos, i);
    i, pos := read.0, read.1;
    var fanStop := i != 0;
    ScanStep(tokens, 1, i);
    read := Scan(tokens, pos, i);
    i, pos := read.0, read.1;
    var refreshInterval := i;
    ScanStep(tokens, 2, i);
    read := Scan(tokens, pos, i);
    i, pos := read.0, read.1;
    var fanHysteresis := i;
    ScanStep(tokens, 3, i);
    read := Scan(tokens, pos, i);
    i, pos := read.0, read.1;
    var numPoints := i;

    var points: seq<CurvePoint> := [];
    var k := 0;
    while k < numPoints
      invariant 0 <= k <= PointCount(numPoints)
      invariant pos == Cursor(tokens, 4 + 2 * k)
      invariant i == TokenAt(tokens, 3 + 2 * k)
      invariant points == seq(k, j requires 0 <= j =>
                  CurvePoint(TokenAt(tokens, 4 + 2 * j), TokenAt(tokens, 5 + 2 * j)))
    {
      ScanStep(tokens, 4 + 2 * k, i);
      read := Scan(tokens, pos, i);
      i, pos := read.0, read.1;
      var temp := i;
      ScanStep(tokens, 5 + 2 * k, i);
      read := Scan(tokens, pos, i);
      i, pos := read.0, read.1;
      var duty := i;
      points := points + [CurvePoint(temp, duty)];
      k := k + 1;
    }
    c := FanConfig(fanStop, refreshInterval, fanHysteresis, numPoints, points);
  }
}
