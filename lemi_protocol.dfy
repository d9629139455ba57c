/** The per-connection protocol object: the receive buffer, the clock state and the
    publish counters, updated in place by each call as the serial port delivers bytes. */
module LemiProtocol {
  import opened Bytes
  import opened Wrappers
  import opened FrameLayout
  import opened ClockReconciler
  import opened Framing
  import opened Aggregator
  import Median

  /** sensor[0] + sensor[4:7], with Python's clamping slice. */
  function SolTag(sensorId: seq<byte>): (t: seq<byte>)
    requires |sensorId| >= 1
    ensures 1 <= |t| <= 4 && t[0] == sensorId[0]
    ensures |t| == if |sensorId| >= 7 then 4 else if |sensorId| > 4 then |sensorId| - 3 else 1
    ensures forall k :: 1 <= k < |t| ==> t[k] == sensorId[k + 3]
  {
    [sensorId[0]] + (if |sensorId| <= 4 then [] else sensorId[4..if |sensorId| < 7 then |sensorId| else 7])
  }

  /** "LEMI036_1_0002" gives the start-of-line tag "L036". */
  lemma TagOfLemi036()
    ensures SolTag([76, 69, 77, 73, 48, 51, 54, 95, 49, 95, 48, 48, 48, 50]) == [76, 48, 51, 54]
  {
  }

  /** Lines 236-251: one line per sub-sample, stamped 0.1 s apart from the frame's GPS time. */
  method BuildLines(f: Frame, gps: int) returns (lines: seq<Sample>)
    ensures lines == Samples(f, gps)
  {
    lines := [];
    for i := 0 to SamplesPerFrame
      invariant |lines| == i
      invariant forall j :: 0 <= j < i ==> lines[j] == SampleAt(f, gps, j)
    {
      lines := lines + [SampleAt(f, gps, i)];
    }
  }

  class Protocol {
    /** The start-of-line tag. */
    const tag: seq<byte>
    /** The sensor's stack setting: how many blocks are collected into one data message. */
    const stack: int
    var buffer: seq<byte>
    var gpsStateList: seq<byte>
    var gpsState1: byte
    var gpsState2: byte
    var delayList: seq<nat>
    var timeDelay: real
    var timeCount: nat
    var dataList: seq<Block>
    var dataCount: nat
    var count: nat
    var metaCount: nat

    function ClockView(): (r: Clock)
      reads this`gpsStateList, this`gpsState1, this`gpsState2, this`delayList, this`timeDelay, this`timeCount
    {
      Clock(gpsStateList, gpsState1, gpsState2, delayList, timeDelay, timeCount)
    }

    function AggView(): (r: Agg)
      reads this`dataList, this`dataCount, this`count, this`metaCount
    {
      Agg(dataList, dataCount, count, metaCount)
    }

    predicate Valid()
      reads this
    {
      && 1 <= |tag| <= 4
      && ClockInvariant(ClockView())
      && AggInvariant(AggView(), stack)
    }

    /** __init__ (lines 85-90 and 108-113): empty buffer and windows, no estimate yet,
        the counters at zero and metacnt at 10. */
    constructor (sensorId: seq<byte>, stack: int)
      requires |sensorId| >= 1
      ensures Valid()
      ensures tag == SolTag(sensorId) && this.stack == stack && buffer == []
      ensures ClockView() == InitialClock && AggView() == InitialAgg
    {
      tag := SolTag(sensorId);
      this.stack := stack;
      buffer := [];
      gpsStateList := [];
      gpsState1 := GpsActive;
      gpsState2 := GpsPassive;
      delayList := [];
      timeDelay := 0.0;
      timeCount := 0;
      dataList := [];
      dataCount := 0;
      count := 0;
      metaCount := DefaultMetaCount;
    }

    /** Lines 204-209: push the newest GPS state, keep ten, take the most frequent as authoritative. */
    method UpdateGpsState(state: byte) returns (notice: Option<byte>)
      modifies this`gpsStateList, this`gpsState1, this`gpsState2
      ensures (ClockView(), notice) == GpsStep(old(ClockView()), state)
    {
      var window := gpsStateList + [state];
      if |window| > GpsWindowSize {
        window := window[|window| - GpsWindowSize..];
      }
      assert window == Push(gpsStateList, state, GpsWindowSize);
      var state1 := Majority(window);
      notice := if state1 != gpsState2 then Some(state) else None;
      gpsStateList, gpsState1, gpsState2 := window, state1, state1;
    }

    /** Lines 213-229: record a non-zero GPS/receive-clock difference, keep 1000, re-estimate
        the delay once more than 100 are held, and count consecutive large differences. */
    method AnalyseDelay(gps: int, now: int)
      modifies this`delayList, this`timeDelay, this`timeCount
      ensures ClockView() == DelayStep(old(ClockView()), gps, now)
    {
      var delta := Distance(gps, now);
      var delays := delayList;
      if delta != 0 {
        delays := delays + [delta];
        if |delays| > DelayWindowSize {
          delays := delays[|delays| - DelayWindowSize..];
        }
        assert delays == Push(delayList, delta, DelayWindowSize);
      }
      var estimate := timeDelay;
      if |delays| > EstimateThreshold {
        estimate := Median.MedianOf(delays);
      }
      var anomalies := if IsAnomaly(delta) then timeCount + 1 else 0;
      ghost var expected := DelayStep(ClockView(), gps, now);
      assert expected.delays == delays && expected.timeDelay == estimate && expected.timeCount == anomalies;
      delayList, timeDelay, timeCount := delays, estimate, anomalies;
    }

    /** processLemiData on one 153-byte frame received at now. samples is None when the
        method raises (an invalid date-time); the GPS window is updated either way. */
    method ProcessLemiData(f: Frame, now: int) returns (samples: Option<seq<Sample>>, notice: Option<byte>)
      requires Valid()
      modifies this`gpsStateList, this`gpsState1, this`gpsState2, this`delayList, this`timeDelay, this`timeCount
      ensures Valid()
      ensures var o := Observe(old(ClockView()), f, now);
        ClockView() == o.clock && samples == o.samples && notice == o.notice
    {
      ghost var c0 := ClockView();
      notice := UpdateGpsState(f[GpsStateOffset]);
      ghost var c1 := ClockView();
      assert ClockInvariant(c1);
      var time := GpsTime(f);
      if time.None? {
        samples := None;
        assert Observe(c0, f, now) == Observation(c1, notice, None);
        return;
      }
      AnalyseDelay(time.value, now);
      var lines := BuildLines(f, time.value);
      samples := Some(lines);
      assert Observe(c0, f, now) == Observation(DelayStep(c1, time.value, now), notice, samples);
    }

    /** The publish stage for the last block decoded in a call (lines 366-391), with the block of
        the flushing call kept in the stack it completes. */
    method Publish(block: Block) returns (published: seq<Message>)
      requires Valid()
      modifies this`dataList, this`dataCount, this`count, this`metaCount
      ensures Valid()
      ensures var p := PublishStep(old(AggView()), stack, block, timeDelay);
        AggView() == p.agg && published == p.messages
    {
      ghost var a0 := AggView();
      var sendData := false;
      var lines := block;
      if stack > 1 {
        metaCount := 1;
        dataList := dataList + [block];
        dataCount := dataCount + 1;
        if dataCount >= stack {
          sendData := true;
          lines := Flatten(dataList);
          dataList := [];
          dataCount := 0;
        }
      } else {
        sendData := true;
      }
      published := [];
      if sendData {
        published := [Data(lines)];
        if count == 0 {
          published := published + [Dict(timeDelay), Meta];
        }
        count := count + 1;
        if count >= metaCount {
          count := 0;
        }
      }
      PublishStepInvariant(a0, stack, block, timeDelay);
    }

    /** The clock state, the GPS notices and the last successful block are those of observing
        frames, in order, from clock state c0. */
    ghost predicate Tracks(c0: Clock, frames: seq<Frame>, notices: seq<byte>, last: Option<seq<Sample>>, now: int)
      reads this
    {
      var r := ObserveAll(c0, frames, now);
      ClockView() == r.clock && notices == r.notices && last == r.last
    }

    /** dataarray, head = self.processLemiData(part); WSflag = 2 -- ok is false when the call raised. */
    method DecodeFrame(f: Frame, now: int, ghost c0: Clock, frames: seq<Frame>, notices: seq<byte>,
                       last: Option<seq<Sample>>)
      returns (frames': seq<Frame>, notices': seq<byte>, last': Option<seq<Sample>>, ok: bool)
      requires Valid() && Tracks(c0, frames, notices, last, now)
      modifies this`gpsStateList, this`gpsState1, this`gpsState2, this`delayList, this`timeDelay, this`timeCount
      ensures Valid() && Tracks(c0, frames', notices', last', now)
      ensures frames' == frames + [f] && ok == Decodable(f)
    {
      var samples, notice := ProcessLemiData(f, now);
      frames' := frames + [f];
      notices' := notices + OptionToSeq(notice);
      last' := if samples.Some? then samples else last;
      ok := samples.Some?;
      assert frames'[..|frames'| - 1] == frames;
    }

    /** One pass of the aligned loop: the front slice is decoded when it carries the tag, and
        dropped from the buffer when it decoded. */
    method ReadAlignedFront(now: int, ghost c0: Clock, ghost b0: seq<byte>, ghost parts: nat, ghost left: nat,
                            frames: seq<Frame>, notices: seq<byte>, last: Option<seq<Sample>>)
      returns (frames': seq<Frame>, notices': seq<byte>, last': Option<seq<Sample>>, flag: bool, failed: bool)
      requires left >= 1 && |buffer| == FrameLength * left && |b0| == FrameLength * parts
      requires ConcatFrames(tag, b0, parts, Decodable) == Prepend(frames, ConcatFrames(tag, buffer, left, Decodable))
      requires Valid() && Tracks(c0, frames, notices, last, now)
      modifies this`buffer, this`gpsStateList, this`gpsState1, this`gpsState2, this`delayList, this`timeDelay, this`timeCount
      ensures Valid() && Tracks(c0, frames', notices', last', now)
      ensures !flag && !failed ==>
        && |buffer| == FrameLength * (left - 1)
        && ConcatFrames(tag, b0, parts, Decodable) == Prepend(frames', ConcatFrames(tag, buffer, left - 1, Decodable))
      ensures flag || failed ==>
        var s := ConcatFrames(tag, b0, parts, Decodable);
        frames' == s.handed && flag == s.flag && failed == s.error && (!failed ==> buffer == s.rest)
    {
      frames', notices', last', flag, failed := frames, notices, last, false, false;
      var split: Frame := buffer[..FrameLength];
      if StartsWith(split, tag) {
        var ok;
        frames', notices', last', ok := DecodeFrame(split, now, c0, frames, notices, last);
        if !ok {
          failed := true;
          return;
        }
        ConcatAdvance(tag, buffer, left, frames, Decodable);
        buffer := buffer[FrameLength..];
      } else {
        flag := true;
      }
    }

    /** The loop for a tag-led buffer whose length is a multiple of 153 (lines 316-326). */
    method ReadAligned(now: int)
      returns (frames: seq<Frame>, notices: seq<byte>, last: Option<seq<Sample>>, flag: bool, failed: bool)
      requires Valid() && |buffer| % FrameLength == 0
      modifies this`buffer, this`gpsStateList, this`gpsState1, this`gpsState2, this`delayList, this`timeDelay, this`timeCount
      ensures Valid() && Tracks(old(ClockView()), frames, notices, last, now)
      ensures var s := ConcatFrames(tag, old(buffer), |old(buffer)| / FrameLength, Decodable);
        frames == s.handed && flag == s.flag && failed == s.error && (!failed ==> buffer == s.rest)
    {
      ghost var c0 := ClockView();
      ghost var b0 := buffer;
      frames, notices, last, flag, failed := [], [], None, false, false;
      var parts := |buffer| / FrameLength;
      var i := 0;
      while i < parts
        invariant 0 <= i <= parts
        invariant |b0| == FrameLength * parts
        invariant |buffer| == FrameLength * (parts - i)
        invariant ConcatFrames(tag, b0, parts, Decodable) == Prepend(frames, ConcatFrames(tag, buffer, parts - i, Decodable))
        invariant Valid() && Tracks(c0, frames, notices, last, now)
        invariant !flag && !failed
      {
        frames, notices, last, flag, failed := ReadAlignedFront(now, c0, b0, parts, parts - i, frames, notices, last);
        if flag || failed {
          return;
        }
        i := i + 1;
      }
    }

    /** One pass of the resync loop: search for the tag from offset 6; decode and drop the front
        slice when the tag lies at 153 or beyond, empty the buffer when there is none, and cut the
        buffer at the tag (setting flag) when it lies inside the front slice. */
    method ReadMisalignedFront(now: int, ghost c0: Clock, ghost b0: seq<byte>, ghost parts: nat, ghost left: nat,
                               frames: seq<Frame>, notices: seq<byte>, last: Option<seq<Sample>>)
      returns (frames': seq<Frame>, notices': seq<byte>, last': Option<seq<Sample>>, flag: bool, failed: bool)
      requires left >= 1
      requires ResyncFrames(tag, b0, parts, Decodable) == Prepend(frames, ResyncFrames(tag, buffer, left, Decodable))
      requires Valid() && Tracks(c0, frames, notices, last, now)
      modifies this`buffer, this`gpsStateList, this`gpsState1, this`gpsState2, this`delayList, this`timeDelay, this`timeCount
      ensures Valid() && Tracks(c0, frames', notices', last', now)
      ensures !flag && !failed ==>
        ResyncFrames(tag, b0, parts, Decodable) == Prepend(frames', ResyncFrames(tag, buffer, left - 1, Decodable))
      ensures flag || failed ==>
        var s := ResyncFrames(tag, b0, parts, Decodable);
        frames' == s.handed && flag == s.flag && failed == s.error && (!failed ==> buffer == s.rest)
    {
      frames', notices', last', flag, failed := frames, notices, last, false, false;
      var k := FindFrom(buffer, tag, SearchStart);
      if k >= FrameLength {
        var split: Frame := buffer[..FrameLength];
        var ok;
        frames', notices', last', ok := DecodeFrame(split, now, c0, frames, notices, last);
        if !ok {
          failed := true;
          return;
        }
        ghost var tail := ResyncFrames(tag, buffer[FrameLength..], left - 1, Decodable);
        assert ResyncFrames(tag, buffer, left, Decodable) == Prepend([split], tail);
        PrependTwice(frames, [split], tail);
        buffer := buffer[FrameLength..];
      } else if k == -1 {
        buffer := [];
      } else {
        buffer := buffer[k..];
        flag := true;
      }
    }

    /** The loop for a tag-led buffer of any other length over 153 (lines 328-343). */
    method ReadMisaligned(now: int)
      returns (frames: seq<Frame>, notices: seq<byte>, last: Option<seq<Sample>>, flag: bool, failed: bool)
      requires Valid()
      modifies this`buffer, this`gpsStateList, this`gpsState1, this`gpsState2, this`delayList, this`timeDelay, this`timeCount
      ensures Valid() && Tracks(old(ClockView()), frames, notices, last, now)
      ensures var s := ResyncFrames(tag, old(buffer), |old(buffer)| / FrameLength, Decodable);
        frames == s.handed && flag == s.flag && failed == s.error && (!failed ==> buffer == s.rest)
    {
      ghost var c0 := ClockView();
      ghost var b0 := buffer;
      frames, notices, last, flag, failed := [], [], None, false, false;
      var parts := |buffer| / FrameLength;
      var i := 0;
      while i < parts
        invariant 0 <= i <= parts
        invariant ResyncFrames(tag, b0, parts, Decodable) == Prepend(frames, ResyncFrames(tag, buffer, parts - i, Decodable))
        invariant Valid() && Tracks(c0, frames, notices, last, now)
        invariant !flag && !failed
      {
        frames, notices, last, flag, failed := ReadMisalignedFront(now, c0, b0, parts, parts - i, frames, notices, last);
        if flag || failed {
          return;
        }
        i := i + 1;
      }
    }

    /** Lines 287-363: decode a whole frame, or repair a buffer that grew past one frame.
        flag reports that the chunk is to be discarded, failed that the decoder raised. */
    method Repair(now: int)
      returns (frames: seq<Frame>, notices: seq<byte>, last: Option<seq<Sample>>, flag: bool, failed: bool)
      requires Valid()
      modifies this`buffer, this`gpsStateList, this`gpsState1, this`gpsState2, this`delayList, this`timeDelay, this`timeCount
      ensures Valid() && Tracks(old(ClockView()), frames, notices, last, now)
      ensures Reassemble(tag, old(buffer), Decodable) == Outcome(frames, if failed then [] else buffer, !flag, failed)
    {
      ghost var c0 := ClockView();
      ghost var b0 := buffer;
      flag, failed, last := false, false, None;
      frames, notices := [], [];

      // 1. a whole frame
      if StartsWith(buffer, tag) && |buffer| == FrameLength {
        var current: Frame := buffer;
        buffer := [];
        var ok;
        frames, notices, last, ok := DecodeFrame(current, now, c0, frames, notices, last);
        failed := !ok;
      }

      // 2. too long: repair
      if !failed && |buffer| > FrameLength {
        if StartsWith(buffer, tag) {
          if |buffer| % FrameLength == 0 {
            ConcatShape(tag, buffer, |buffer| / FrameLength, Decodable);
            frames, notices, last, flag, failed := ReadAligned(now);
          } else {
            ResyncShape(tag, buffer, |buffer| / FrameLength, Decodable);
            frames, notices, last, flag, failed := ReadMisaligned(now);
          }
        } else {
          var k := FindFrom(buffer, tag, SearchStart);
          if k == -1 {
            buffer := [];
          } else {
            buffer := buffer[k..];
            flag := true;
          }
        }
      }
    }

    /** dataReceived (lines 287-391): append-or-repair the buffer, decode the frames found, and
        publish the block of the last successful decoding. frames lists the frames handed to the
        decoder, notices the GPS-state change messages, published the messages sent. */
    method DataReceived(chunk: seq<byte>, now: int) returns (frames: seq<Frame>, notices: seq<byte>, published: seq<Message>)
      requires Valid()
      modifies this
      ensures Valid()
      ensures var o := Reassemble(tag, old(buffer), Decodable);
        frames == o.handed && buffer == o.NewBuffer(chunk)
      ensures var r := ObserveAll(old(ClockView()), frames, now);
        && ClockView() == r.clock && notices == r.notices
        && (r.last.None? ==> published == [] && AggView() == old(AggView()))
        && (r.last.Some? ==>
              var p := PublishStep(old(AggView()), stack, r.last.value, r.clock.timeDelay);
              published == p.messages && AggView() == p.agg)
    {
      var last, flag, failed;
      frames, notices, last, flag, failed := Repair(now);
      if failed {
        buffer := [];
      } else if !flag {
        buffer := buffer + chunk;
      }
      published := [];
      if last.Some? {
        published := Publish(last.value);
      }
    }
  }
}
