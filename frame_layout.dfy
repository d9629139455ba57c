/** The fixed binary layout of one LEMI record, struct format "<4cB6B8hb30f3BcB",
    and the decoding of one record into ten time-stamped sub-samples. */
module FrameLayout {
  import opened Bytes
  import opened Wrappers
  import Bcd
  import Calendar

  /** The groups of "<4cB6B8hb30f3BcB", each as (repeat count, width in bytes). */
  const Format: seq<(nat, nat)> := [(4, 1), (1, 1), (6, 1), (8, 2), (1, 1), (30, 4), (3, 1), (1, 1), (1, 1)]

  /** struct.calcsize: the bytes a format occupies. */
  function PackedSize(groups: seq<(nat, nat)>): (r: nat)
  {
    if groups == [] then 0 else groups[0].0 * groups[0].1 + PackedSize(groups[1..])
  }

  /** How many values struct.unpack returns for a format. */
  function ValueCount(groups: seq<(nat, nat)>): (r: nat)
  {
    if groups == [] then 0 else groups[0].0 + ValueCount(groups[1..])
  }

  /** Byte offset of the i-th unpacked value. */
  function ValueOffset(groups: seq<(nat, nat)>, i: nat): (r: nat)
    requires i < ValueCount(groups)
  {
    if i < groups[0].0 then i * groups[0].1
    else groups[0].0 * groups[0].1 + ValueOffset(groups[1..], i - groups[0].0)
  }

  /** Width in bytes of the i-th unpacked value. */
  function ValueWidth(groups: seq<(nat, nat)>, i: nat): (r: nat)
    requires i < ValueCount(groups)
  {
    if i < groups[0].0 then groups[0].1 else ValueWidth(groups[1..], i - groups[0].0)
  }

  const FrameLength: nat := 153

  /** One record as it is cut out of the stream. */
  type Frame = f: seq<byte> | |f| == FrameLength witness seq(FrameLength, i => 0)

  // Indices into the unpacked tuple (data_array) and the byte offsets they occupy.
  const DateIndex: nat := 5          // six BCD bytes: year, month, day, hour, minute, second
  const TempSensorIndex: nat := 11   // int16
  const TempElecIndex: nat := 12     // int16
  const FirstFloatIndex: nat := 20   // thirty float32: x, y, z of ten sub-samples
  const VddIndex: nat := 52          // unsigned byte
  const GpsStateIndex: nat := 53     // one character, 'A' or 'P'

  const DateOffset: nat := 5
  const TempSensorOffset: nat := 11
  const TempElecOffset: nat := 13
  const FloatOffset: nat := 28
  const VddOffset: nat := 150
  const GpsStateOffset: nat := 151

  const SamplesPerFrame: nat := 10
  /** Sub-samples are 0.1 s apart. */
  const SampleSpacing: int := 100_000
  /** The data sheet's correction: the GPS time sent is 300 ms late. */
  const GpsCorrection: int := 300_000

  /** The date bytes the decoder reads are the six B values at tuple indices 5..10. */
  lemma {:induction false} DateOffsetsMatchFormat(k: nat)
    requires k < 6
    ensures DateIndex + k < ValueCount(Format)
    ensures ValueOffset(Format, DateIndex + k) == DateOffset + k && ValueWidth(Format, DateIndex + k) == 1
  {
    var g1 := Format[1..];
    var g2 := g1[1..];
    assert g2 == [(6, 1), (8, 2), (1, 1), (30, 4), (3, 1), (1, 1), (1, 1)];
    assert ValueOffset(Format, DateIndex + k) == 4 + ValueOffset(g1, 1 + k);
    assert ValueOffset(g1, 1 + k) == 1 + ValueOffset(g2, k);
  }

  /** The j-th float the decoder reads is the j-th f value, four bytes at offset 28 + 4j. */
  lemma {:induction false} FloatOffsetsMatchFormat(j: nat)
    requires j < 30
    ensures FirstFloatIndex + j < ValueCount(Format)
    ensures ValueOffset(Format, FirstFloatIndex + j) == FloatOffset + 4 * j
    ensures ValueWidth(Format, FirstFloatIndex + j) == 4
  {
    var g1 := Format[1..];
    var g2 := g1[1..];
    var g3 := g2[1..];
    var g4 := g3[1..];
    var g5 := g4[1..];
    assert g3 == [(8, 2), (1, 1), (30, 4), (3, 1), (1, 1), (1, 1)];
    assert g5 == [(30, 4), (3, 1), (1, 1), (1, 1)];
    assert ValueOffset(Format, FirstFloatIndex + j) == 4 + ValueOffset(g1, 16 + j);
    assert ValueOffset(g1, 16 + j) == 1 + ValueOffset(g2, 15 + j);
    assert ValueOffset(g2, 15 + j) == 6 + ValueOffset(g3, 9 + j);
    assert ValueOffset(g3, 9 + j) == 16 + ValueOffset(g4, 1 + j);
    assert ValueOffset(g4, 1 + j) == 1 + ValueOffset(g5, j);
    assert ValueWidth(Format, FirstFloatIndex + j) == ValueWidth(g1, 16 + j) == ValueWidth(g2, 15 + j);
    assert ValueWidth(g2, 15 + j) == ValueWidth(g3, 9 + j) == ValueWidth(g4, 1 + j) == ValueWidth(g5, j);
  }

  /** struct.calcsize of the format is the frame length, 153. */
  lemma FormatSize()
    ensures PackedSize(Format) == FrameLength
  {
    assert PackedSize([(4, 1), (1, 1), (6, 1), (8, 2), (1, 1), (30, 4), (3, 1), (1, 1), (1, 1)]) == 153;
  }

  /** struct.unpack of a frame gives 55 values. */
  lemma FormatValueCount()
    ensures ValueCount(Format) == 55
  {
    assert ValueCount([(4, 1), (1, 1), (6, 1), (8, 2), (1, 1), (30, 4), (3, 1), (1, 1), (1, 1)]) == 55;
  }

  /** The two temperatures are int16 values at offsets 11 and 13. */
  lemma {:induction false} TemperatureOffsetsMatchFormat()
    ensures TempElecIndex < ValueCount(Format)
    ensures ValueOffset(Format, TempSensorIndex) == TempSensorOffset && ValueWidth(Format, TempSensorIndex) == 2
    ensures ValueOffset(Format, TempElecIndex) == TempElecOffset && ValueWidth(Format, TempElecIndex) == 2
  {
    var g1 := Format[1..];
    var g2 := g1[1..];
    var g3 := g2[1..];
    assert g3 == [(8, 2), (1, 1), (30, 4), (3, 1), (1, 1), (1, 1)];
    assert ValueOffset(Format, TempSensorIndex) == 4 + ValueOffset(g1, 7) == 5 + ValueOffset(g2, 6);
    assert ValueOffset(Format, TempElecIndex) == 4 + ValueOffset(g1, 8) == 5 + ValueOffset(g2, 7);
  }

  /** The supply voltage and the GPS state are the single bytes at offsets 150 and 151. */
  lemma {:induction false} TrailerOffsetsMatchFormat()
    ensures GpsStateIndex < ValueCount(Format)
    ensures ValueOffset(Format, VddIndex) == VddOffset && ValueWidth(Format, VddIndex) == 1
    ensures ValueOffset(Format, GpsStateIndex) == GpsStateOffset && ValueWidth(Format, GpsStateIndex) == 1
  {
    var g1 := Format[1..];
    var g2 := g1[1..];
    var g3 := g2[1..];
    var g4 := g3[1..];
    var g5 := g4[1..];
    var g6 := g5[1..];
    var g7 := g6[1..];
    assert g3 == [(8, 2), (1, 1), (30, 4), (3, 1), (1, 1), (1, 1)];
    assert g6 == [(3, 1), (1, 1), (1, 1)];
    assert g7 == [(1, 1), (1, 1)];
    assert ValueOffset(g6, 2) == 2;
    assert ValueWidth(Format, VddIndex) == ValueWidth(g1, 48) == ValueWidth(g2, 47) == ValueWidth(g3, 41);
    assert ValueWidth(g3, 41) == ValueWidth(g4, 33) == ValueWidth(g5, 32) == ValueWidth(g6, 2) == 1;
    assert ValueOffset(g7, 0) == 0;
    assert ValueWidth(Format, GpsStateIndex) == ValueWidth(g1, 49) == ValueWidth(g2, 48) == ValueWidth(g3, 42);
    assert ValueWidth(g3, 42) == ValueWidth(g4, 34) == ValueWidth(g5, 33) == ValueWidth(g6, 3) == ValueWidth(g7, 0) == 1;
  }

  /** Little-endian two's-complement 16-bit integer (struct code 'h'). */
  function Int16Le(lo: byte, hi: byte): (v: int)
    ensures -32768 <= v < 32768
  {
    var u := lo + 256 * hi;
    if u >= 32768 then u - 65536 else u
  }

  /** The two bytes struct.pack('<h', v) writes. */
  function EncodeInt16Le(v: int): (bs: (byte, byte))
    requires -32768 <= v < 32768
  {
    var u := if v < 0 then v + 65536 else v;
    (u % 256, u / 256)
  }

  lemma Int16RoundTrip(v: int)
    requires -32768 <= v < 32768
    ensures Int16Le(EncodeInt16Le(v).0, EncodeInt16Le(v).1) == v
  {
  }

  lemma Int16RoundTripBytes(lo: byte, hi: byte)
    ensures EncodeInt16Le(Int16Le(lo, hi)) == (lo, hi)
  {
  }

  /** The GPS date-time fields: year 2000 + h2d(byte 5), then h2d of bytes 6 to 10. */
  function DateFields(f: Frame): (r: Calendar.DateTime)
  {
    Calendar.DateTime(2000 + Bcd.H2d(f[DateOffset]), Bcd.H2d(f[DateOffset + 1]), Bcd.H2d(f[DateOffset + 2]),
                      Bcd.H2d(f[DateOffset + 3]), Bcd.H2d(f[DateOffset + 4]), Bcd.H2d(f[DateOffset + 5]))
  }

  /** The frame decodes without an exception exactly when its date-time is a valid calendar value. */
  predicate Decodable(f: Frame)
  {
    Calendar.IsValid(DateFields(f))
  }

  /** The corrected GPS time of the first sub-sample, in microseconds since 2000-01-01. */
  function GpsTime(f: Frame): (r: Option<int>)
  {
    if Decodable(f) then Some(Calendar.ToMicros(DateFields(f)) - GpsCorrection) else None
  }

  /** The raw bytes of float number j (0 .. 29) of the oversampled block. */
  function FloatBytes(f: Frame, j: nat): (r: seq<byte>)
    requires j < 30
  {
    f[FloatOffset + 4 * j..FloatOffset + 4 * j + 4]
  }

  /** One decoded line: the time stamp and the values the record carries.
      Axis values stay the raw float32 bytes: the x1000 / /1000 scaling is an identity on the value. */
  datatype Sample = Sample(time: int, x: seq<byte>, y: seq<byte>, z: seq<byte>,
                           tempSensor: int, tempElec: int, vdd: byte)

  /** Sub-sample i: x, y, z from data_array[20:50:3], [21:50:3], [22:50:3], stamped base + i * 0.1 s. */
  function SampleAt(f: Frame, base: int, i: nat): (r: Sample)
    requires i < SamplesPerFrame
  {
    Sample(base + i * SampleSpacing, FloatBytes(f, 3 * i), FloatBytes(f, 3 * i + 1), FloatBytes(f, 3 * i + 2),
           Int16Le(f[TempSensorOffset], f[TempSensorOffset + 1]), Int16Le(f[TempElecOffset], f[TempElecOffset + 1]),
           f[VddOffset])
  }

  function Samples(f: Frame, base: int): (s: seq<Sample>)
  {
    seq(SamplesPerFrame, i requires 0 <= i < SamplesPerFrame => SampleAt(f, base, i))
  }

  /** A frame whose date bytes are the BCD encodings of a valid date-time decodes, and its sub-sample i
      is stamped at that date-time (year 2000 + yy) minus 300 ms plus i * 100 ms. */
  lemma {:induction false} SampleTimesFromBcd(f: Frame, yy: nat, mo: nat, dd: nat, hh: nat, mi: nat, ss: nat, i: nat)
    requires yy < 100 && mo < 100 && dd < 100 && hh < 100 && mi < 100 && ss < 100 && i < SamplesPerFrame
    requires f[DateOffset] == Bcd.ToBcd(yy) && f[DateOffset + 1] == Bcd.ToBcd(mo) && f[DateOffset + 2] == Bcd.ToBcd(dd)
    requires f[DateOffset + 3] == Bcd.ToBcd(hh) && f[DateOffset + 4] == Bcd.ToBcd(mi) && f[DateOffset + 5] == Bcd.ToBcd(ss)
    requires Calendar.IsValid(Calendar.DateTime(2000 + yy, mo, dd, hh, mi, ss))
    ensures GpsTime(f).Some?
    ensures Samples(f, GpsTime(f).value)[i].time
         == Calendar.ToMicros(Calendar.DateTime(2000 + yy, mo, dd, hh, mi, ss)) - GpsCorrection + i * SampleSpacing
  {
    Bcd.H2dToBcd(yy);
    Bcd.H2dToBcd(mo);
    Bcd.H2dToBcd(dd);
    Bcd.H2dToBcd(hh);
    Bcd.H2dToBcd(mi);
    Bcd.H2dToBcd(ss);
    assert DateFields(f) == Calendar.DateTime(2000 + yy, mo, dd, hh, mi, ss);
  }
}
