/** What processLemiData does to the per-connection clock state for one frame:
    the GPS-state majority window, the GPS/receive-clock delay window with its median
    estimate, and the counter of large time differences. */
module ClockReconciler {
  import opened Bytes
  import opened Wrappers
  import opened FrameLayout
  import Median

  const GpsWindowSize: nat := 10
  const DelayWindowSize: nat := 1000
  /** The estimate is recomputed once more than this many delays are held. */
  const EstimateThreshold: nat := 100
  /** ntp_gps_offset, 2.304 s, in microseconds. */
  const NtpGpsOffset: int := 2_304_000
  /** timethreshold, 3 s, in microseconds. */
  const TimeThreshold: int := 3_000_000
  /** 'A' and 'P' */
  const GpsActive: byte := 65
  const GpsPassive: byte := 80

  /** lst.append(x); lst = lst[-cap:] */
  function Push<T>(w: seq<T>, x: T, cap: nat): (r: seq<T>)
    requires cap > 0
    ensures 0 < |r| <= cap && r[|r| - 1] == x
  {
    var s := w + [x];
    if |s| <= cap then s else s[|s| - cap..]
  }

  /** The last cap entries of h (all of h when it is shorter). */
  function Recent<T>(h: seq<T>, cap: nat): (r: seq<T>)
  {
    if |h| <= cap then h else h[|h| - cap..]
  }

  /** Pushing onto the recent part of a history gives the recent part of the longer history. */
  lemma PushRecent<T>(h: seq<T>, x: T, cap: nat)
    requires cap > 0
    ensures Push(Recent(h, cap), x, cap) == Recent(h + [x], cap)
  {
    if |h| >= cap {
      var w := h[|h| - cap..];
      assert (w + [x])[|w| + 1 - cap..] == (h + [x])[|h| + 1 - cap..];
    }
  }

  /** The earliest candidate whose count in w is largest. */
  function MostFrequent(w: seq<byte>, cands: seq<byte>): (r: byte)
    requires |cands| > 0
    ensures r in cands
    ensures forall c :: c in cands ==> multiset(w)[c] <= multiset(w)[r]
    decreases |cands|
  {
    if |cands| == 1 then cands[0]
    else
      var b := MostFrequent(w, cands[1..]);
      if multiset(w)[cands[0]] >= multiset(w)[b] then cands[0] else b
  }

  /** max(set(w), key=w.count) */
  function Majority(w: seq<byte>): (r: byte)
    requires |w| > 0
    ensures r in w
    ensures forall v :: multiset(w)[v] <= multiset(w)[r]
  {
    MostFrequent(w, w)
  }

  lemma {:induction false} CountsOfTwo(w: seq<byte>, a: byte, b: byte)
    requires a != b
    ensures multiset(w)[a] + multiset(w)[b] <= |w|
    decreases |w|
  {
    if w != [] {
      var init := w[..|w| - 1];
      assert w == init + [w[|w| - 1]];
      CountsOfTwo(init, a, b);
    }
  }

  /** A state held by more than half of the window is the authoritative one (9 'A' and 1 'P' give 'A'). */
  lemma {:induction false} StrictMajorityWins(w: seq<byte>, v: byte)
    requires |w| > 0 && 2 * multiset(w)[v] > |w|
    ensures Majority(w) == v
  {
    var r := Majority(w);
    if r != v {
      CountsOfTwo(w, r, v);
    }
  }

  datatype Clock = Clock(gpsWindow: seq<byte>, gpsState1: byte, gpsState2: byte,
                         delays: seq<nat>, timeDelay: real, timeCount: nat)

  /** The state __init__ sets up. */
  const InitialClock: Clock := Clock([], GpsActive, GpsPassive, [], 0.0, 0)

  /** Both windows bounded, only positive delays stored, a non-negative estimate. */
  predicate ClockInvariant(c: Clock)
  {
    && |c.gpsWindow| <= GpsWindowSize
    && |c.delays| <= DelayWindowSize
    && (forall k :: 0 <= k < |c.delays| ==> c.delays[k] > 0)
    && c.timeDelay >= 0.0
  }

  /** sorted([a, b]), then the later minus the earlier. */
  function Distance(a: int, b: int): (r: nat)
  {
    if a <= b then b - a else a - b
  }

  /** delta - ntp_gps_offset > timethreshold */
  predicate IsAnomaly(delta: int)
  {
    delta - NtpGpsOffset > TimeThreshold
  }

  /** Lines 204-209: push the newest state, take the most frequent one as authoritative,
      report a change against the previous authoritative state, remember the new one. */
  function GpsStep(c: Clock, state: byte): (r: (Clock, Option<byte>))
    ensures r.0.gpsWindow == Push(c.gpsWindow, state, GpsWindowSize)
    ensures r.0.gpsState1 == r.0.gpsState2 && r.0.gpsState1 in r.0.gpsWindow
    ensures forall v :: multiset(r.0.gpsWindow)[v] <= multiset(r.0.gpsWindow)[r.0.gpsState1]
    ensures r.1.Some? <==> r.0.gpsState1 != c.gpsState2
    ensures r.1.Some? ==> r.1.value == state
    ensures r.0.(gpsWindow := c.gpsWindow, gpsState1 := c.gpsState1, gpsState2 := c.gpsState2) == c
  {
    var window := Push(c.gpsWindow, state, GpsWindowSize);
    var state1 := Majority(window);
    (c.(gpsWindow := window, gpsState1 := state1, gpsState2 := state1),
     if state1 != c.gpsState2 then Some(state) else None)
  }

  /** Pushing a positive delay onto a window of positive delays keeps them all positive. */
  lemma PushPositive(w: seq<nat>, x: nat, cap: nat)
    requires cap > 0 && x > 0
    requires forall k :: 0 <= k < |w| ==> w[k] > 0
    ensures forall k :: 0 <= k < |Push(w, x, cap)| ==> Push(w, x, cap)[k] > 0
  {
  }

  /** Lines 213-229: store a non-zero |gps - now|, keep the last 1000, re-estimate once more
      than 100 are held, count or reset the large-difference counter. */
  function DelayStep(c: Clock, gps: int, now: int): (r: Clock)
    ensures ClockInvariant(c) ==> ClockInvariant(r)
    ensures Distance(gps, now) == 0 ==> r.delays == c.delays
    ensures Distance(gps, now) != 0 ==> r.delays == Push(c.delays, Distance(gps, now), DelayWindowSize)
    ensures r.timeDelay != c.timeDelay ==> |r.delays| > EstimateThreshold
    ensures |r.delays| > EstimateThreshold ==> r.timeDelay == Median.MedianOf(r.delays)
    ensures r.timeCount == if IsAnomaly(Distance(gps, now)) then c.timeCount + 1 else 0
    ensures r.(delays := c.delays, timeDelay := c.timeDelay, timeCount := c.timeCount) == c
  {
    var delta := Distance(gps, now);
    var delays := if delta != 0 then Push(c.delays, delta, DelayWindowSize) else c.delays;
    var estimate := if |delays| > EstimateThreshold then Median.MedianOf(delays) else c.timeDelay;
    var count := if IsAnomaly(delta) then c.timeCount + 1 else 0;
    assert ClockInvariant(c) ==> forall k :: 0 <= k < |delays| ==> delays[k] > 0 by {
      if ClockInvariant(c) && delta != 0 {
        PushPositive(c.delays, delta, DelayWindowSize);
      }
    }
    assert |delays| > EstimateThreshold && (forall k :: 0 <= k < |delays| ==> delays[k] > 0) ==> estimate > 0.0 by {
      if |delays| > EstimateThreshold && (forall k :: 0 <= k < |delays| ==> delays[k] > 0) {
        Median.MedianPositive(delays);
      }
    }
    c.(delays := delays, timeDelay := estimate, timeCount := count)
  }

  datatype Observation = Observation(clock: Clock, notice: Option<byte>, samples: Option<seq<Sample>>)

  /** One call of processLemiData on frame f, received at time now. The notice is the
      "GPSSTATE changed" message, which names the newest state. samples is None when
      the date-time is not a valid calendar value: the exception raised there is caught
      only after the GPS window was updated, the delay analysis then fails silently, and
      building the lines raises out of the method. */
  function Observe(c: Clock, f: Frame, now: int): (o: Observation)
    ensures ClockInvariant(c) ==> ClockInvariant(o.clock)
    ensures o.samples.Some? <==> Decodable(f)
    ensures o.samples.Some? ==> o.samples.value == Samples(f, GpsTime(f).value)
  {
    var (c1, notice) := GpsStep(c, f[GpsStateOffset]);
    match GpsTime(f)
    case None => Observation(c1, notice, None)
    case Some(gps) => Observation(DelayStep(c1, gps, now), notice, Some(Samples(f, gps)))
  }

  datatype Run = Run(clock: Clock, notices: seq<byte>, last: Option<seq<Sample>>)

  /** Observe the frames in order; last is the most recent successful decoding. */
  function ObserveAll(c: Clock, fs: seq<Frame>, now: int): (r: Run)
    decreases |fs|, 1
  {
    if fs == [] then Run(c, [], None) else ObserveLast(c, fs, now)
  }

  /** A non-empty run: the frames before the last, then the last one. */
  function ObserveLast(c: Clock, fs: seq<Frame>, now: int): (r: Run)
    requires fs != []
    decreases |fs|, 0
  {
    var r := ObserveAll(c, fs[..|fs| - 1], now);
    var o := Observe(r.clock, fs[|fs| - 1], now);
    Run(o.clock, r.notices + OptionToSeq(o.notice), if o.samples.Some? then o.samples else r.last)
  }

  /** The GPS-state bytes of the frames, in order. */
  function GpsStates(fs: seq<Frame>): (r: seq<byte>)
    decreases |fs|
  {
    if fs == [] then [] else GpsStates(fs[..|fs| - 1]) + [fs[|fs| - 1][GpsStateOffset]]
  }

  /** The non-zero delays of the decodable frames, in order. */
  function DelayHistory(fs: seq<Frame>, now: int): (r: seq<nat>)
    decreases |fs|
  {
    if fs == [] then []
    else
      var f := fs[|fs| - 1];
      var more := if Decodable(f) && Distance(GpsTime(f).value, now) != 0
                  then [Distance(GpsTime(f).value, now)] else [];
      DelayHistory(fs[..|fs| - 1], now) + more
  }

  /** Whether each decodable frame's delay was over the threshold, in order. */
  function Anomalies(fs: seq<Frame>, now: int): (r: seq<bool>)
    decreases |fs|
  {
    if fs == [] then []
    else
      var f := fs[|fs| - 1];
      var more := if Decodable(f) then [IsAnomaly(Distance(GpsTime(f).value, now))] else [];
      Anomalies(fs[..|fs| - 1], now) + more
  }

  lemma ObserveWindows(c: Clock, f: Frame, now: int)
    ensures Observe(c, f, now).clock.gpsWindow == Push(c.gpsWindow, f[GpsStateOffset], GpsWindowSize)
    ensures !Decodable(f) ==> Observe(c, f, now).clock.delays == c.delays
    ensures Decodable(f) && Distance(GpsTime(f).value, now) == 0 ==> Observe(c, f, now).clock.delays == c.delays
    ensures Decodable(f) && Distance(GpsTime(f).value, now) != 0 ==>
      Observe(c, f, now).clock.delays == Push(c.delays, Distance(GpsTime(f).value, now), DelayWindowSize)
  {
  }

  lemma ObserveAllStep(c: Clock, fs: seq<Frame>, now: int)
    requires fs != []
    ensures ObserveAll(c, fs, now).clock == Observe(ObserveAll(c, fs[..|fs| - 1], now).clock, fs[|fs| - 1], now).clock
  {
  }

  lemma GpsWindowStep(prev: Clock, h: seq<byte>, f: Frame, now: int)
    requires prev.gpsWindow == Recent(h, GpsWindowSize)
    ensures Observe(prev, f, now).clock.gpsWindow == Recent(h + [f[GpsStateOffset]], GpsWindowSize)
  {
    ObserveWindows(prev, f, now);
    PushRecent(h, f[GpsStateOffset], GpsWindowSize);
  }

  /** After any run of frames the GPS window is the last ten states of the whole history. */
  lemma {:induction false} GpsWindowIsRecent(c: Clock, fs: seq<Frame>, now: int)
    requires |c.gpsWindow| <= GpsWindowSize
    ensures ObserveAll(c, fs, now).clock.gpsWindow == Recent(c.gpsWindow + GpsStates(fs), GpsWindowSize)
    decreases |fs|
  {
    if fs == [] {
      assert c.gpsWindow + GpsStates(fs) == c.gpsWindow;
    } else {
      var init := fs[..|fs| - 1];
      var f := fs[|fs| - 1];
      var prev := ObserveAll(c, init, now).clock;
      var h := c.gpsWindow + GpsStates(init);
      var x := f[GpsStateOffset];
      assert prev.gpsWindow == Recent(h, GpsWindowSize) by {
        GpsWindowIsRecent(c, init, now);
      }
      assert Observe(prev, f, now).clock.gpsWindow == Recent(h + [x], GpsWindowSize) by {
        GpsWindowStep(prev, h, f, now);
      }
      assert ObserveAll(c, fs, now).clock == Observe(prev, f, now).clock by {
        ObserveAllStep(c, fs, now);
      }
      assert c.gpsWindow + GpsStates(fs) == h + [x] by {
        assert GpsStates(fs) == GpsStates(init) + [x];
      }
    }
  }

  /** After any run of frames the delay window is the last 1000 non-zero delays, in arrival order. */
  lemma {:induction false} DelayWindowIsRecent(c: Clock, fs: seq<Frame>, now: int)
    requires |c.delays| <= DelayWindowSize
    ensures ObserveAll(c, fs, now).clock.delays == Recent(c.delays + DelayHistory(fs, now), DelayWindowSize)
    decreases |fs|
  {
    if fs == [] {
      assert c.delays + DelayHistory(fs, now) == c.delays;
    } else {
      var init := fs[..|fs| - 1];
      var f := fs[|fs| - 1];
      var h := c.delays + DelayHistory(init, now);
      DelayWindowIsRecent(c, init, now);
      ObserveAllStep(c, fs, now);
      ObserveWindows(ObserveAll(c, init, now).clock, f, now);
      if Decodable(f) && Distance(GpsTime(f).value, now) != 0 {
        var d := Distance(GpsTime(f).value, now);
        PushRecent(h, d, DelayWindowSize);
        assert c.delays + DelayHistory(fs, now) == h + [d];
      } else {
        assert c.delays + DelayHistory(fs, now) == h;
      }
    }
  }

  /** The counter after a run of observations, starting from n (the model's counter). */
  function CountAfter(n: nat, obs: seq<bool>): (r: nat)
    decreases |obs|
  {
    if obs == [] then n
    else
      var k := CountAfter(n, obs[..|obs| - 1]);
      if obs[|obs| - 1] then k + 1 else 0
  }

  /** The length of the run of anomalies that ends with the newest observation. */
  function TrailingRun(obs: seq<bool>): (r: nat)
    decreases |obs|
  {
    if obs == [] || !obs[|obs| - 1] then 0 else TrailingRun(obs[..|obs| - 1]) + 1
  }

  lemma ObserveCounter(c: Clock, f: Frame, now: int)
    ensures !Decodable(f) ==> Observe(c, f, now).clock.timeCount == c.timeCount
    ensures Decodable(f) ==>
      Observe(c, f, now).clock.timeCount == (if IsAnomaly(Distance(GpsTime(f).value, now)) then c.timeCount + 1 else 0)
  {
  }

  /** The time counter follows the anomaly history of the decodable frames. */
  lemma {:induction false} TimeCountFollowsAnomalies(c: Clock, fs: seq<Frame>, now: int)
    ensures ObserveAll(c, fs, now).clock.timeCount == CountAfter(c.timeCount, Anomalies(fs, now))
    decreases |fs|
  {
    if fs != [] {
      var init := fs[..|fs| - 1];
      var f := fs[|fs| - 1];
      var prev := ObserveAll(c, init, now).clock;
      TimeCountFollowsAnomalies(c, init, now);
      ObserveAllStep(c, fs, now);
      ObserveCounter(prev, f, now);
      if Decodable(f) {
        var a := IsAnomaly(Distance(GpsTime(f).value, now));
        assert Anomalies(fs, now) == Anomalies(init, now) + [a];
        assert Anomalies(fs, now)[..|Anomalies(fs, now)| - 1] == Anomalies(init, now);
      } else {
        assert Anomalies(fs, now) == Anomalies(init, now);
      }
    }
  }

  /** Started at zero, the counter is the number of consecutive anomalies ending with the newest. */
  lemma {:induction false} CounterIsTrailingRun(obs: seq<bool>)
    ensures CountAfter(0, obs) == TrailingRun(obs)
    decreases |obs|
  {
    if obs != [] {
      CounterIsTrailingRun(obs[..|obs| - 1]);
    }
  }

  /** errorcnt['time'] as the source initialises it: the text '0' until the first
      below-threshold observation stores the integer 0. */
  datatype TimeCounter = TextZero | Count(n: nat)

  /** errorcnt['time'] += 1 on an anomaly (a TypeError on the text, swallowed), = 0 otherwise. */
  function TimeCountAsWritten(c: TimeCounter, anomaly: bool): (r: TimeCounter)
  {
    if !anomaly then Count(0)
    else match c
      case TextZero => TextZero
      case Count(n) => Count(n + 1)
  }

  function AsWrittenAfter(obs: seq<bool>): (r: TimeCounter)
    decreases |obs|
  {
    if obs == [] then TextZero else TimeCountAsWritten(AsWrittenAfter(obs[..|obs| - 1]), obs[|obs| - 1])
  }

  /** As written, the counter stays the text '0' through every anomaly that comes before the first
      below-threshold observation; afterwards it counts the trailing run of anomalies. */
  lemma {:induction false} AsWrittenCounter(obs: seq<bool>)
    ensures AsWrittenAfter(obs) == if false in obs then Count(TrailingRun(obs)) else TextZero
    decreases |obs|
  {
    if obs != [] {
      var init := obs[..|obs| - 1];
      AsWrittenCounter(init);
      assert obs == init + [obs[|obs| - 1]];
      assert (false in obs) == (false in init || !obs[|obs| - 1]);
    }
  }

  /** The input that shows the difference: one anomaly from the initial state. */
  lemma AsWrittenMissesFirstAnomaly()
    ensures AsWrittenAfter([true]) == TextZero
    ensures CountAfter(0, [true]) == 1
  {
    assert [true][..0] == [];
  }
}
