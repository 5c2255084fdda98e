/**
 The daemon's state and control step: `fan_profile` with the in-place curve
 builder, `gpu_info` with the extrema and the hysteresis gate, and the
 cooler writes. Hardware reads (temperature, current duty, fan count) arrive
 as parameters; `set_fan_duty` appends to a log instead of reaching the
 device.
 */
module Daemon {
  import opened FanCurve
  import opened Config

  /** Initial `min_temp` and `max_temp` set by `init`. */
  const MinSentinel := 1000
  const MaxSentinel := -1

  function Abs(x: int): (r: int)
    ensures 0 <= r && (r == x || r == -x)
  {
    if x < 0 then -x else x
  }

  /** The gate of `update_fan_duty`: act when the temperature has moved at
      least `hysteresis` degrees from the last one acted on. The dead band is
      the open interval of width `hysteresis` on either side of `lastTemp`. */
  function ShouldAct(lastTemp: int, currTemp: int, hysteresis: int): (act: bool)
    ensures !act <==> lastTemp - hysteresis < currTemp < lastTemp + hysteresis
  {
    Abs(lastTemp - currTemp) >= hysteresis
  }

  /** A hysteresis of 0 (or less) opens the gate on every tick, whether or not
      the temperature changed. */
  lemma ZeroHysteresisAlwaysActs(lastTemp: int, currTemp: int, hysteresis: int)
    requires hysteresis <= 0
    ensures ShouldAct(lastTemp, currTemp, hysteresis)
  {
  }

  /** The gate is symmetric: rising and falling by the same amount act alike. */
  lemma ShouldActSymmetric(lastTemp: int, delta: int, hysteresis: int)
    ensures ShouldAct(lastTemp, lastTemp + delta, hysteresis)
              == ShouldAct(lastTemp, lastTemp - delta, hysteresis)
  {
  }

  /** `last_temp` is never set before the first tick, so it is 0: the first
      tick acts only when the reading is at least `hysteresis` away from 0. */
  lemma FirstTickGate(currTemp: int, hysteresis: int)
    ensures ShouldAct(0, currTemp, hysteresis) <==> currTemp >= hysteresis || -currTemp >= hysteresis
  {
  }

  /** Hysteresis 5 around 60: 63 stays in the dead band, 65 and 55 do not. */
  lemma ExampleHysteresis()
    ensures !ShouldAct(60, 63, 5) && ShouldAct(60, 65, 5) && ShouldAct(60, 55, 5)
  {
  }

  /** Running minimum and maximum of the temperatures seen. */
  datatype Extrema = Extrema(min: int, max: int)

  /** One update of `update_info`: `fmax`/`fmin` with the new reading. */
  function Observe(e: Extrema, temp: int): (r: Extrema)
    ensures r.min <= temp <= r.max
    ensures r.min <= e.min && e.max <= r.max
    ensures (r.min == temp || r.min == e.min) && (r.max == temp || r.max == e.max)
  {
    Extrema(if temp < e.min then temp else e.min, if temp > e.max then temp else e.max)
  }

  /** The extrema after a run of readings, one per tick. */
  function ObserveAll(e: Extrema, temps: seq<int>): (r: Extrema)
    ensures r.min <= e.min && e.max <= r.max
    decreases |temps|
  {
    if temps == [] then e else ObserveAll(Observe(e, temps[0]), temps[1..])
  }

  /** After a run of readings the extrema bound every reading and the
      starting values, and each is one of them. */
  lemma {:induction false} ObserveAllBounds(e: Extrema, temps: seq<int>)
    ensures var r := ObserveAll(e, temps);
            r.min <= e.min && e.max <= r.max &&
            (forall t :: t in temps ==> r.min <= t <= r.max) &&
            (r.min == e.min || r.min in temps) && (r.max == e.max || r.max in temps)
    decreases |temps|
  {
    if temps != [] {
      ObserveAllBounds(Observe(e, temps[0]), temps[1..]);
      assert temps == [temps[0]] + temps[1..];
    }
  }

  /** From the sentinels, readings within -1..1000 make both extrema actual
      readings: the minimum and the maximum seen. */
  lemma SentinelsReplaced(temps: seq<int>)
    requires temps != []
    requires forall t :: t in temps ==> MaxSentinel <= t <= MinSentinel
    ensures ObserveAll(Extrema(MinSentinel, MaxSentinel), temps).min in temps
    ensures ObserveAll(Extrema(MinSentinel, MaxSentinel), temps).max in temps
  {
    var e := Extrema(MinSentinel, MaxSentinel);
    var r := ObserveAll(e, temps);
    ObserveAllBounds(e, temps);
    assert temps[0] in temps;
    if r.min == e.min {
      assert r.min <= temps[0];
    }
    if r.max == e.max {
      assert temps[0] <= r.max;
    }
  }

  /** Readings 40, 70, 55, 30 from the sentinels leave 30 and 70. */
  lemma ExampleExtrema()
    ensures ObserveAll(Extrema(MinSentinel, MaxSentinel), [40, 70, 55, 30]) == Extrema(30, 70)
  {
  }

  /** One `set_fan_duty(fan_index, duty)` call. */
  datatype FanWrite = FanWrite(fan: int, duty: int)

  /** The writes of the fan loop: fans 0 to `numFans - 1`, in that order,
      each set to `duty`; none when `numFans` is not positive. */
  function Broadcast(numFans: int, duty: int): (r: seq<FanWrite>)
    ensures r == [] <==> numFans <= 0
    ensures 0 < numFans ==> |r| == numFans
    ensures forall k :: 0 <= k < |r| ==> r[k].fan == k && r[k].duty == duty && k < numFans
  {
    seq(if numFans > 0 then numFans else 0, i => FanWrite(i, duty))
  }

  /** Stand-in for the cooler-level attribute writes: the calls issued so far. */
  class FanBus {
    var writes: seq<FanWrite>

    constructor ()
      ensures writes == []
    {
      writes := [];
    }

    method SetFanDuty(fanIndex: int, duty: int)
      modifies this
      ensures writes == old(writes) + [FanWrite(fanIndex, duty)]
    {
      writes := writes + [FanWrite(fanIndex, duty)];
    }
  }

  /** `fan_profile`: the settings read from the curve file and the per-degree
      duty table. */
  class FanProfile {
    var fanStop: bool
    var refreshInterval: int
    var fanHysteresis: int
    var numPoints: int
    const fanCurve: array<int>

    ghost predicate Valid()
    {
      fanCurve.Length == CurveSize
    }

    /** The global `profile` at program start: zero-initialised. */
    constructor ()
      ensures Valid() && fresh(fanCurve) && fanCurve[..] == StaticTable()
      ensures !fanStop && refreshInterval == 0 && fanHysteresis == 0 && numPoints == 0
    {
      fanStop, refreshInterval, fanHysteresis, numPoints := false, 0, 0, 0;
      fanCurve := new int[CurveSize](_ => 0);
    }

    /** `lookup_new_duty`: the table entry for `temp`. The source has no bounds
        check, so `temp` must index the table. A table of percentages gives a
        percentage. */
    function LookupNewDuty(temp: int): (duty: int)
      reads fanCurve
      requires Valid() && 0 <= temp < CurveSize
      ensures (forall x :: 0 <= x < CurveSize ==> 0 <= fanCurve[x] <= FullDuty) ==> 0 <= duty <= FullDuty
    {
      fanCurve[temp]
    }

    /** `smooth_curve`: the four passes over `fan_curve`, in place. The tail
        loop's last store, to index `CurveSize`, lies outside the table; it is
        not performed and is reported in `overran`. */
    method SmoothCurve(points: seq<CurvePoint>) returns (overran: bool)
      requires Valid() && WellFormed(points) && numPoints == |points|
      modifies fanCurve
      ensures fanCurve[..] == Smoothed(old(fanCurve[..]), fanStop, points)
      ensures overran <==> TailOverruns(points[|points| - 1].temp)
    {
      var maxTemp := points[numPoints - 1].temp;
      var minTemp := points[0].temp;
      var minSpeed := points[0].duty;
      ghost var start := fanCurve[..];

      if !fanStop {
        for i := 0 to minTemp
          invariant forall x :: 0 <= x < CurveSize ==>
                      fanCurve[x] == if x < i then minSpeed else start[x]
        {
          fanCurve[i] := minSpeed;
        }
      }
      assert fanCurve[..] == HoldBelow(start, fanStop, minTemp, minSpeed);
      ghost var held := fanCurve[..];

      for i := 0 to numPoints
        invariant fanCurve[..] == WritePoints(held, points, i)
      {
        var temp := points[i].temp;
        var speed := points[i].duty;
        fanCurve[temp] := speed;
      }
      ghost var written := fanCurve[..];

      for i := 0 to numPoints - 1
        invariant fanCurve[..] == Interpolated(written, points, i)
      {
        FillSegment(points[i], points[i + 1]);
      }
      ghost var interpolated := fanCurve[..];

      overran := false;
      for i := maxTemp + 1 to CurveSize
        invariant forall x :: 0 <= x < CurveSize ==>
                    fanCurve[x] == if maxTemp + 2 <= x <= i then FullDuty else interpolated[x]
        invariant overran <==> i == CurveSize && TailOverruns(maxTemp)
      {
        if i + 1 < CurveSize {
          fanCurve[i + 1] := FullDuty;
        } else {
          overran := true;
        }
      }
      assert fanCurve[..] == TailFilled(interpolated, maxTemp);
    }

    /** One iteration of the interpolation loop of `smooth_curve`: degrees
        `a.temp + 1 .. b.temp` get the entry at `a.temp` plus the truncated
        share of the duty gap. */
    method FillSegment(a: CurvePoint, b: CurvePoint)
      requires Valid() && 0 <= a.temp < CurveSize && b.temp < CurveSize
      modifies fanCurve
      ensures fanCurve[..] == Segment(old(fanCurve[..]), a, b)
    {
      var currTemp := a.temp;
      var nextTemp := b.temp;
      var tempGap := nextTemp - currTemp;
      var speedGap := b.duty - a.duty;
      ghost var before := fanCurve[..];
      var j, k := currTemp, 1;
      while j < nextTemp
        invariant currTemp <= j && (j == currTemp || j <= nextTemp)
        invariant k == j - currTemp + 1
        invariant forall x :: 0 <= x < CurveSize ==>
                    fanCurve[x] == if currTemp < x <= j
                                   then before[currTemp] + TruncDiv(speedGap * (x - currTemp), tempGap)
                                   else before[x]
      {
        fanCurve[j + 1] := fanCurve[currTemp] + TruncDiv(speedGap * k, tempGap);
        j, k := j + 1, k + 1;
      }
    }

    /** `read_and_smooth_curve`: the settings from the curve file, then the
        table built from its points. */
    method ReadAndSmoothCurve(tokens: seq<int>) returns (overran: bool)
      requires Valid() && WellFormed(ParseConfig(tokens).points)
      modifies this, fanCurve
      ensures Valid()
      ensures var c := ParseConfig(tokens);
              fanStop == c.fanStop && refreshInterval == c.refreshInterval &&
              fanHysteresis == c.fanHysteresis && numPoints == c.numPoints &&
              fanCurve[..] == Smoothed(old(fanCurve[..]), c.fanStop, c.points) &&
              (overran <==> TailOverruns(c.points[|c.points| - 1].temp))
    {
      var c := ReadConfig(tokens);
      fanStop := c.fanStop;
      refreshInterval := c.refreshInterval;
      fanHysteresis := c.fanHysteresis;
      numPoints := c.numPoints;
      overran := SmoothCurve(c.points);
    }
  }

  /** `gpu_info`: the readings of the last tick, the last temperature acted on
      and the extrema. The utilisation text is display-only and left out. */
  class GpuInfo {
    var numFans: int
    var currTemp: int
    var lastTemp: int
    var minTemp: int
    var maxTemp: int
    var currDuty: int

    /** The global `gpu` at program start: zero-initialised. */
    constructor ()
      ensures numFans == 0 && currTemp == 0 && lastTemp == 0
      ensures minTemp == 0 && maxTemp == 0 && currDuty == 0
    {
      numFans, currTemp, lastTemp, minTemp, maxTemp, currDuty := 0, 0, 0, 0, 0, 0;
    }

    /** The part of `init` that sets `gpu`: the fan count and the sentinels.
        `last_temp` is not assigned. */
    method Init(fanCount: int)
      modifies this
      ensures numFans == fanCount
      ensures minTemp == MinSentinel && maxTemp == MaxSentinel
      ensures lastTemp == old(lastTemp) && currTemp == old(currTemp) && currDuty == old(currDuty)
    {
      numFans := fanCount;
      minTemp := MinSentinel;
      maxTemp := MaxSentinel;
    }

    /** `update_info` with the temperature and fan-0 duty it reads. */
    method UpdateInfo(temp: int, duty: int)
      modifies this
      ensures currTemp == temp && currDuty == duty
      ensures Extrema(minTemp, maxTemp) == Observe(Extrema(old(minTemp), old(maxTemp)), temp)
      ensures minTemp <= currTemp <= maxTemp
      ensures minTemp <= old(minTemp) && old(maxTemp) <= maxTemp
      ensures numFans == old(numFans) && lastTemp == old(lastTemp)
    {
      currTemp := temp;
      currDuty := duty;
      maxTemp := if currTemp > maxTemp then currTemp else maxTemp;
      minTemp := if currTemp < minTemp then currTemp else minTemp;
    }

    /** `update_fan_duty`: outside the dead band, remember the temperature and
        send its table duty to every fan; inside it, change nothing. */
    method UpdateFanDuty(profile: FanProfile, bus: FanBus)
      requires profile.Valid()
      requires ShouldAct(lastTemp, currTemp, profile.fanHysteresis) ==> 0 <= currTemp < CurveSize
      modifies this`lastTemp, bus
      ensures ShouldAct(old(lastTemp), currTemp, profile.fanHysteresis) ==>
                lastTemp == currTemp &&
                bus.writes == old(bus.writes) + Broadcast(numFans, profile.fanCurve[currTemp])
      ensures !ShouldAct(old(lastTemp), currTemp, profile.fanHysteresis) ==>
                lastTemp == old(lastTemp) && bus.writes == old(bus.writes)
    {
      if Abs(lastTemp - currTemp) >= profile.fanHysteresis {
        lastTemp := currTemp;
        var newDuty := profile.LookupNewDuty(currTemp);
        var i := 0;
        while i < numFans
          invariant 0 <= i && (i <= numFans || i == 0)
          invariant lastTemp == currTemp
          invariant bus.writes == old(bus.writes) + Broadcast(i, newDuty)
        {
          bus.SetFanDuty(i, newDuty);
          i := i + 1;
        }
      }
    }
  }

  /** `init` without the display connection and manual-control switch: read
      and build the curve, then set the fan count and the sentinels. */
  method Init(profile: FanProfile, gpu: GpuInfo, tokens: seq<int>, fanCount: int) returns (overran: bool)
    requires profile.Valid() && WellFormed(ParseConfig(tokens).points)
    modifies profile, profile.fanCurve, gpu
    ensures profile.Valid()
    ensures var c := ParseConfig(tokens);
            profile.fanStop == c.fanStop && profile.refreshInterval == c.refreshInterval &&
            profile.fanHysteresis == c.fanHysteresis && profile.numPoints == c.numPoints &&
            profile.fanCurve[..] == Smoothed(old(profile.fanCurve[..]), c.fanStop, c.points) &&
            (overran <==> TailOverruns(c.points[|c.points| - 1].temp))
    ensures gpu.numFans == fanCount && gpu.lastTemp == old(gpu.lastTemp)
    ensures gpu.minTemp == MinSentinel && gpu.maxTemp == MaxSentinel
    ensures gpu.currTemp == old(gpu.currTemp) && gpu.currDuty == old(gpu.currDuty)
  {
    overran := profile.ReadAndSmoothCurve(tokens);
    gpu.Init(fanCount);
  }

  /** One pass of the main loop with the readings of that tick: update the
      readings and extrema, then the hysteresis step. Rendering, freeing the
      utilisation text and the sleep are left out. */
  method Tick(profile: FanProfile, gpu: GpuInfo, bus: FanBus, temp: int, duty: int)
    requires profile.Valid()
    requires ShouldAct(gpu.lastTemp, temp, profile.fanHysteresis) ==> 0 <= temp < CurveSize
    modifies gpu, bus
    ensures gpu.currTemp == temp && gpu.currDuty == duty && gpu.numFans == old(gpu.numFans)
    ensures Extrema(gpu.minTemp, gpu.maxTemp) == Observe(Extrema(old(gpu.minTemp), old(gpu.maxTemp)), temp)
    ensures ShouldAct(old(gpu.lastTemp), temp, profile.fanHysteresis) ==>
              gpu.lastTemp == temp &&
              bus.writes == old(bus.writes) + Broadcast(gpu.numFans, profile.fanCurve[temp])
    ensures !ShouldAct(old(gpu.lastTemp), temp, profile.fanHysteresis) ==>
              gpu.lastTemp == old(gpu.lastTemp) && bus.writes == old(bus.writes)
  {
    gpu.UpdateInfo(temp, duty);
    gpu.UpdateFanDuty(profile, bus);
  }
}

/** A run of the daemon on the curve (30,20), (50,60), (70,100) with
    hysteresis 5 and two fans. */
module DaemonExample {
  import opened FanCurve
  import opened Config
  import opened CurveProperties
  import opened Daemon

  /** Readings 40, 43, 71, 75, 76 from program start. The first tick acts
      because `last_temp` starts at 0; 43 is inside the dead band; at 71, the
      degree the tail loop skips, both fans are set to 0 and stay there until
      the reading reaches 76. */
  method ExampleRun() returns (writes: seq<FanWrite>, minTemp: int, maxTemp: int)
    ensures writes == [FanWrite(0, 40), FanWrite(1, 40), FanWrite(0, 0), FanWrite(1, 0),
                       FanWrite(0, 100), FanWrite(1, 100)]
    ensures minTemp == 40 && maxTemp == 76
  {
    var tokens := [0, 1, 5, 3, 30, 20, 50, 60, 70, 100];
    var points := [CurvePoint(30, 20), CurvePoint(50, 60), CurvePoint(70, 100)];
    ParseConfigRoundTrip(FanConfig(false, 1, 5, 3, points));
    assert ConfigTokens(FanConfig(false, 1, 5, 3, points)) == tokens;
    ExampleCurve();
    SmoothedTail(StaticTable(), false, points, 76);

    var profile := new FanProfile();
    var gpu := new GpuInfo();
    var bus := new FanBus();
    var overran := Init(profile, gpu, tokens, 2);
    assert profile.fanCurve[..] == Smoothed(StaticTable(), false, points);
    assert profile.fanCurve[40] == 40 && profile.fanCurve[71] == 0 && profile.fanCurve[76] == 100;

    Tick(profile, gpu, bus, 40, 0);
    assert bus.writes == [FanWrite(0, 40), FanWrite(1, 40)];
    Tick(profile, gpu, bus, 43, 40);
    Tick(profile, gpu, bus, 71, 40);
    Tick(profile, gpu, bus, 75, 0);
    Tick(profile, gpu, bus, 76, 0);
    writes, minTemp, maxTemp := bus.writes, gpu.minTemp, gpu.maxTemp;
  }
}
