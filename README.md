# nvidia-linux-fan: fan curve and control step, modelled in Dafny

The daemon polls the GPU temperature, looks up a duty cycle in a per-degree
table (`fan_curve[100]`) built from a few (temperature, duty) calibration
points, and, when the temperature has moved at least `fan_hysteresis`
degrees from the last one acted on, sends that duty to every fan. This
project models the arithmetic and state changes of `main.c` that do this:

- `fan_curve.dfy` (module `FanCurve`): the table and the four passes of
  `smooth_curve` as functions on its contents (`HoldBelow`, `WritePoints`,
  `Segment`/`Interpolated`, `TailFilled`, composed in `Smoothed`), C's
  truncating `(int)` conversion (`TruncDiv`), and lemmas about each pass.
- `curve_properties.dfy` (module `CurveProperties`): what the finished table
  holds degree by degree, plus worked examples.
- `config.dfy` (module `Config`): the integer layout of `fan_curve.txt` and the
  reads of `read_and_smooth_curve`.
- `daemon.dfy` (modules `Daemon`, `DaemonExample`): the globals `profile` and
  `gpu` as classes (`FanProfile` with the in-place `SmoothCurve` over an
  `array<int>`, `GpuInfo` with `UpdateInfo` and `UpdateFanDuty`), a `FanBus`
  whose log stands for the `set_fan_duty` calls, `Init`, one main-loop `Tick`,
  and a worked run.

`FanProfile.SmoothCurve` is proved to leave exactly `Smoothed(old table)`; the
properties of the curve are lemmas about `Smoothed`.

The model follows the code where the code and a clean design differ. These
come out as proved facts:

- The tail loop runs `i` from `max_temp + 1` to 99 and stores at `i + 1`. So,
  with increasing temperatures, the degree just above the last point is never
  written and keeps its previous value, which is 0 from static initialisation
  (`SmoothedSkipsAfterLast`,
  `ExampleCurve`: for the curve (30,20), (50,60), (70,100), degree 71 holds 0
  and degree 72 holds 100).
- The same loop's last store goes to index 100, one past `fan_curve`,
  whenever the last point is at most 98. `SmoothCurve` does not perform it
  and reports it in `overran`.
- `last_temp` is never assigned before the first tick, so it is 0. The first
  tick acts only if the reading is at least `fan_hysteresis` from 0
  (`FirstTickGate`). In `ExampleRun`, a reading of 71 sets both fans to 0,
  and they stay at 0 until the reading reaches 76.
- Interpolated duties are truncated toward zero, not rounded. Falling
  segments therefore differ from rounding down (`ExampleFallingSegment`).
- Points are not validated. Unsorted points produce a table rather than an
  error (`ExampleUnsortedPoints`). Duties are not clamped, and a missing
  integer at the end of the file repeats the last one read
  (`ExampleTruncatedFile`).

## Model

| member | source | states |
|---|---|---|
| `FanCurve.TruncDivBounds` | main.c:146 | `TruncDiv(n, d) * d` is the multiple of `d` closest to `n` on the side of zero, as C's `(int)` conversion gives |
| `FanCurve.TruncDivExact` | main.c:144-146 | in exact arithmetic, `speed_gap * temp_gap / temp_gap` truncates back to `speed_gap` |
| `FanCurve.TruncDivWithin` | main.c:144-146 | a share `k / gap` with `0 <= k <= gap` of a duty gap lies between 0 and the gap, for rising and falling gaps |
| `FanCurve.TruncDiv` | main.c:146 | the `(int)` conversion of a quotient: its contract gives only the sign, non-negative for non-negative operands and non-positive for non-positive ones; `TruncDivBounds` characterises it |
| `FanCurve.TruncDivMono` | main.c:146 | truncation toward zero keeps the order of its operands |
| `FanCurve.HoldBelow` | main.c:125-129 | the first pass; its contract gives only the table length, and `SmoothedLowEnd` states what it writes |
| `FanCurve.WritePoints` | main.c:131-135 | the second pass after `m` iterations; its contract gives only the table length, and `WritePointsAt` and `WritePointsElsewhere` state what it writes |
| `FanCurve.Segment` | main.c:140-147 | one iteration of the interpolation loop; its contract gives only the table length, and `InterpolatedInside` and `InterpolatedUntouched` state what it writes |
| `FanCurve.Interpolated` | main.c:139-148 | the third pass after `m` segments; its contract gives only the table length, and `InterpolatedInside` and `InterpolatedUntouched` state what it writes |
| `FanCurve.TailFilled` | main.c:150-152 | the fourth pass; its contract gives only the table length, and `SmoothedTail` and `SmoothedSkipsAfterLast` state what it writes |
| `FanCurve.Smoothed` | main.c:119-153 | the table `smooth_curve` leaves; its contract gives only the length 100, and the `CurveProperties` lemmas state its contents |
| `FanCurve.InterpMono` | main.c:143-146 | along a segment the interpolated value never falls when the duties rise, and never rises when they fall |
| `FanCurve.InterpBetween` | main.c:139-147 | an interpolated duty lies between the two duties of its segment |
| `FanCurve.InterpAtEnd` | main.c:145-146 | the last degree of a segment gets exactly the next point's duty |
| `FanCurve.WritePointsElsewhere` | main.c:131-135 | the point-writing loop changes no degree that is not some point's temperature |
| `FanCurve.WritePointsAt` | main.c:131-135 | with increasing temperatures, the point-writing loop stores every point's duty at its temperature |
| `FanCurve.InterpolatedUntouched` | main.c:139-148 | the interpolation loops change no degree outside every segment `t_i + 1 .. t_{i+1}` |
| `FanCurve.InterpolatedInside` | main.c:139-148 | with increasing temperatures and the first point's duty already stored, degree `x` of segment `i` gets `d_i + trunc((d_{i+1} - d_i) * (x - t_i) / (t_{i+1} - t_i))`, although each segment reads the table entry the previous segment rewrote |
| `CurveProperties.SmoothedLowEnd` | main.c:121-129 | when no point lies below the first, every degree below the first point's temperature holds the first duty, or, with `fan_stop`, its previous value |
| `CurveProperties.SmoothedKeepsPoints` | main.c:131-147 | with increasing temperatures, every calibration point's degree holds its own duty in the finished table |
| `CurveProperties.SmoothedInterpolates` | main.c:139-147 | with increasing temperatures, inside segment `i` the finished table holds the truncated linear value (in exact arithmetic), between `d_i` and `d_{i+1}` |
| `CurveProperties.SmoothedOnSegment` | main.c:131-147 | with increasing temperatures, every degree of segment `i`, its first one included, holds the interpolated value |
| `CurveProperties.SmoothedMonotoneInSegment` | main.c:131-147 | with increasing temperatures, the finished table is non-decreasing across a rising segment and non-increasing across a falling one, endpoints included |
| `CurveProperties.SmoothedTail` | main.c:150-152 | from `max_temp + 2` up, the table holds 100, whatever the points |
| `CurveProperties.SmoothedSkipsAfterLast` | main.c:139-152 | with increasing temperatures, degree `max_temp + 1` is written by no pass and keeps its previous value |
| `CurveProperties.SmoothedInRange` | main.c:119-153 | in exact arithmetic, sorted points with duties in 0..100 over a table of percentages leave a table of percentages |
| `CurveProperties.ExampleCurve` | main.c:119-153 | (30,20), (50,60), (70,100) over the zero table: 20 at 29, 40 at 40, 80 at 60, the points' own duties, 0 at 71, 100 at 72 and 99 |
| `CurveProperties.ExampleFanStop` | main.c:125-129 | with `fan_stop` the same curve leaves 0 below 30 |
| `CurveProperties.ExampleFallingSegment` | main.c:143-146 | (30,60) to (33,50) gives 57 and 54 by truncation toward zero |
| `CurveProperties.ExampleUnsortedPoints` | main.c:119-153 | (50,10), (40,90) is accepted: 10 at 39 and 41, 90 at 40, 100 from 42 on, including 50 |
| `Config.TokenAt` | main.c:163-178 | the value of read number `p`: 0 for an empty stream, otherwise an integer of the stream at position `p` or before |
| `Config.Scan` | main.c:164-178 | one `fscanf("%d", &i)`: the cursor advances by one exactly when integers remain, and when it stays, `i` is unchanged |
| `Config.ParseConfig` | main.c:163-179 | the configuration the reads produce: one point per count when the count is positive and none otherwise; an empty stream gives an all-zero configuration |
| `Config.ScanStep` | main.c:163-178 | a read past the end of the stream leaves the shared variable unchanged, so it yields the last integer read |
| `Config.ReadConfig` | main.c:163-179 | the reads of `read_and_smooth_curve`, in order, produce `ParseConfig(tokens)` |
| `Config.ParseConfigLayout` | main.c:163-179 | for a complete stream: `fan_stop` is token 0 being nonzero, tokens 1 to 3 are the interval, hysteresis and count, and point `k` is tokens `4 + 2k` and `5 + 2k` |
| `Config.ParseConfigRoundTrip` | main.c:163-179 | reading the integers written from a configuration whose count matches its points gives that configuration back |
| `Config.ExampleTruncatedFile` | main.c:163-179 | the stream `0 2 3` gives count 3 and three points (3,3) |
| `Daemon.Abs` | main.c:220 | `abs`: a non-negative value equal to its argument or its negation |
| `Daemon.ShouldAct` | main.c:220 | the gate is closed exactly when the reading lies strictly within `fan_hysteresis` of `last_temp` |
| `Daemon.ZeroHysteresisAlwaysActs` | main.c:220 | a hysteresis of 0 opens the gate on every tick |
| `Daemon.ShouldActSymmetric` | main.c:220 | rising and falling by the same amount act alike |
| `Daemon.FirstTickGate` | main.c:184-198 | `last_temp` starts at 0, so the first tick acts exactly when the reading is at least `fan_hysteresis` from 0 |
| `Daemon.ExampleHysteresis` | main.c:219-227 | hysteresis 5 from 60: 63 does not act, 65 and 55 do |
| `Daemon.Observe` | main.c:204-205 | the new minimum and maximum bound the reading, never rise or fall respectively, and each is the reading or the old value |
| `Daemon.ObserveAll` | main.c:201-207 | the extrema after one `update_info` per reading: the minimum never rises and the maximum never falls |
| `Daemon.ObserveAllBounds` | main.c:201-207 | over any run of readings the extrema bound every reading and are readings or the starting values |
| `Daemon.SentinelsReplaced` | main.c:194-195 | from the sentinels 1000 and -1, one or more readings in -1..1000 make both extrema actual readings |
| `Daemon.ExampleExtrema` | main.c:194-205 | readings 40, 70, 55, 30 from the sentinels leave minimum 30 and maximum 70 |
| `Daemon.Broadcast` | main.c:223-225 | the fan loop's writes: none when `num_fans` is not positive; otherwise exactly `num_fans` writes, write `k` setting fan `k` to the duty |
| `Daemon.FanBus.SetFanDuty` | main.c:85-94 | one cooler-level write is appended to the log |
| `Daemon.FanProfile.constructor` | main.c:31 | `profile` starts zeroed: `fan_stop` false, every field and table entry 0 |
| `Daemon.FanProfile.LookupNewDuty` | main.c:80-82 | reads the table at `temp`, which must index it; a table of percentages gives a percentage |
| `Daemon.FanProfile.SmoothCurve` | main.c:119-153 | the four in-place passes leave exactly `Smoothed(old table)`; `overran` holds exactly when the tail loop stores past the table, that is, when the last point is at most 98 |
| `Daemon.FanProfile.FillSegment` | main.c:140-147 | one pass of the interpolation loop leaves exactly `Segment(old table, a, b)`: degrees `t_a + 1 .. t_b` get the entry at `t_a` plus the truncated share, every other degree is unchanged |
| `Daemon.FanProfile.ReadAndSmoothCurve` | main.c:155-181 | the profile fields are those of `ParseConfig(tokens)` and the table is `Smoothed` from its points |
| `Daemon.GpuInfo.constructor` | main.c:32 | `gpu` starts zeroed, so `last_temp` is 0 |
| `Daemon.GpuInfo.Init` | main.c:193-195 | sets the fan count and the sentinels 1000 and -1 and leaves `last_temp` alone |
| `Daemon.GpuInfo.UpdateInfo` | main.c:201-207 | stores the readings; afterwards `min_temp <= curr_temp <= max_temp`, the minimum never rises and the maximum never falls |
| `Daemon.GpuInfo.UpdateFanDuty` | main.c:219-227 | outside the dead band, `last_temp` becomes the reading and fans `0 .. num_fans - 1` each get the table duty, in order; inside it, nothing changes |
| `Daemon.Init` | main.c:184-198 | the profile is read and the table built, then the fan count and sentinels are set; `last_temp`, `curr_temp` and `curr_duty` are kept |
| `Daemon.Tick` | main.c:240-245 | one loop pass: readings and extrema updated, then the hysteresis step as in `UpdateFanDuty` |
| `DaemonExample.ExampleRun` | main.c:238-249 | from program start, readings 40, 43, 71, 75, 76 on two fans send 40, then 0 at 71, then 100 at 76, and leave extrema 40 and 76 |

## Left out

- The X11 and NV-CONTROL calls (`XOpenDisplay`, `XNVCTRLQuery*`, `XNVCTRLSetTargetAttribute`, `XCloseDisplay`) are foreign code. Temperature, fan-0 duty and fan count arrive as parameters. `set_fan_duty` appends to `FanBus.writes`. `enable_fan_control` has no modelled effect.
- `display_info` only writes terminal escape sequences.
- The utilisation string (`get_utilization`, the `malloc` in `init`, `cleanup`) is display-only memory handling.
- File handling is not modelled. The model starts from the integers of `fan_curve.txt`. Not modelled: failing to open the file, `exit(-1)`, and text that is not an integer (a matching failure that leaves the variable unchanged, like end of file).
- The endless main loop, `sleep(refresh_interval)` and the `terminate` flag are not modelled. `Tick` is one pass, and `ExampleRun` is a finite prefix.
- FanProfile.SmoothCurve: uses exact rational arithmetic where the source computes `spacing = speed_gap / (double) temp_gap` and then `(int)(spacing * k)`. When the exact share is a whole number, the double product can land just short of it on the side of zero, and the truncation then moves one step toward zero: `(1 / 49.0) * 49` is slightly below 1 and gives 0, and on a falling segment (0,1), (49,0) the share -1 gives 0, so degree 49 gets 1. The next segment inherits that error, because it re-reads `fan_curve[curr_temp]` as its base. For the sorted points (0,0), (49,1), (50,0), with duties in 0..100, degree 49 gets 0 instead of 1, and degree 50 gets 0 + (int)(-1.0) = -1, a duty that `set_fan_duty` would send. So these lemmas hold of the exact computation, not always of the double one: `TruncDivExact`, `InterpAtEnd`, `InterpolatedInside`, `SmoothedKeepsPoints`, `SmoothedInterpolates`, `SmoothedOnSegment`, `SmoothedMonotoneInSegment` and `SmoothedInRange`. `SmoothCurve` is proved equal to `Smoothed`, which uses exact arithmetic in the same way.
- FanProfile.SmoothCurve: the store to index 100 is reported in `overran` rather than performed. What it overwrites beyond `fan_curve` is not modelled.
- FanProfile.SmoothCurve: requires at least one point, and every temperature in 0..99. Otherwise the C code reads or writes outside `fan_points` or `fan_curve`, which is undefined behaviour and not modelled. The same applies to `ReadAndSmoothCurve` and `Init`.
- GpuInfo.UpdateFanDuty: requires a reading in 0..99 whenever the gate opens. `lookup_new_duty` has no bounds check, and reads outside the table are not modelled.
- Integers are unbounded. C `int` overflow (`abs(INT_MIN)`, huge gaps) is not modelled. The `fmax`/`fmin` round trip through `double` is exact for these values and is modelled as integer maximum and minimum.
