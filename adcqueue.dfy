/**
 * The AdcQueue stream (adcqueue.rs): a payload of back-to-back 20-byte
 * samples, each with a 16-bit sequence number, and the check for gaps in
 * that sequence.
 */
module AdcQueue {
  import opened Wrappers
  import opened Bytes
  import opened Errors
  import Packet
  import Attributes

  const SampleSize: nat := 20

  /** `AdcQueueSampleRaw`, field for field. */
  datatype AdcQueueSampleRaw = AdcQueueSampleRaw(
    sequence: u16, marker: u16, vbusUv: int, ibusUa: int, cc1Mv: u16, cc2Mv: u16, reserved: seq<byte>)

  /**
   * The `#[repr(C)]` layout: sequence at 0, marker at 2, vbus at 4 and ibus
   * at 8 (i32), cc1 at 12 and cc2 at 14 (u16), four reserved bytes at 16.
   */
  function ReadSampleRaw(b: seq<byte>): (r: AdcQueueSampleRaw)
    requires |b| == SampleSize
    ensures -0x8000_0000 <= r.vbusUv < 0x8000_0000 && -0x8000_0000 <= r.ibusUa < 0x8000_0000
    ensures |r.reserved| == 4
  {
    AdcQueueSampleRaw(LeU16(b, 0), LeU16(b, 2), LeI32(b, 4), LeI32(b, 8), LeU16(b, 12), LeU16(b, 14), b[16..20])
  }

  /** The bytes of a sample (`IntoBytes::as_bytes`). */
  function SampleRawBytes(r: AdcQueueSampleRaw): (b: seq<byte>)
    requires -0x8000_0000 <= r.vbusUv < 0x8000_0000 && -0x8000_0000 <= r.ibusUa < 0x8000_0000
    requires |r.reserved| == 4
    ensures |b| == SampleSize
  {
    U16Le(r.sequence) + U16Le(r.marker) + I32Le(r.vbusUv) + I32Le(r.ibusUa) + U16Le(r.cc1Mv) + U16Le(r.cc2Mv) + r.reserved
  }

  lemma ReadSampleRawBytes(r: AdcQueueSampleRaw)
    requires -0x8000_0000 <= r.vbusUv < 0x8000_0000 && -0x8000_0000 <= r.ibusUa < 0x8000_0000
    requires |r.reserved| == 4
    ensures ReadSampleRaw(SampleRawBytes(r)) == r
  {
    var b := SampleRawBytes(r);
    assert b[16..20] == r.reserved;
  }

  lemma SampleRawBytesRead(b: seq<byte>)
    requires |b| == SampleSize
    ensures SampleRawBytes(ReadSampleRaw(b)) == b
  {
    U16LeOfRead(b[0..2]);
    U16LeOfRead(b[2..4]);
    I32LeOfRead(b[4..8]);
    I32LeOfRead(b[8..12]);
    U16LeOfRead(b[12..14]);
    U16LeOfRead(b[14..16]);
    assert b == b[0..2] + b[2..4] + b[4..8] + b[8..12] + b[12..14] + b[14..16] + b[16..20];
  }

  /** `AdcQueueSample`: volts, amperes, watts; the sequence number is kept as is. */
  datatype AdcQueueSample = AdcQueueSample(sequence: u16, vbusV: real, ibusA: real, powerW: real, cc1V: real, cc2V: real)

  /**
   * `From<AdcQueueSampleRaw> for AdcQueueSample`: µV and µA to V and A,
   * power as their product, CC millivolts to volts; marker and reserved
   * bytes are dropped.
   */
  function ToSample(raw: AdcQueueSampleRaw): (s: AdcQueueSample)
    ensures s.sequence == raw.sequence
    ensures s.vbusV * 1_000_000.0 == raw.vbusUv as real && s.ibusA * 1_000_000.0 == raw.ibusUa as real
    ensures s.powerW * 1_000_000.0 * 1_000_000.0 == raw.vbusUv as real * raw.ibusUa as real
    ensures s.cc1V * 1_000.0 == raw.cc1Mv as real && s.cc2V * 1_000.0 == raw.cc2Mv as real
  {
    var vbusV := raw.vbusUv as real / 1_000_000.0;
    var ibusA := raw.ibusUa as real / 1_000_000.0;
    AdcQueueSample(raw.sequence, vbusV, ibusA, vbusV * ibusA, raw.cc1Mv as real / 1_000.0, raw.cc2Mv as real / 1_000.0)
  }

  /** Two raw samples that differ only in marker or reserved bytes decode alike. */
  lemma MarkerAndReservedIgnored(a: AdcQueueSampleRaw, b: AdcQueueSampleRaw)
    requires a.sequence == b.sequence && a.vbusUv == b.vbusUv && a.ibusUa == b.ibusUa
    requires a.cc1Mv == b.cc1Mv && a.cc2Mv == b.cc2Mv
    ensures ToSample(a) == ToSample(b)
  {
  }

  function DecodeSample(b: seq<byte>): AdcQueueSample
    requires |b| == SampleSize
  {
    ToSample(ReadSampleRaw(b))
  }

  /** `AdcQueueData`. */
  datatype AdcQueueData = AdcQueueData(samples: seq<AdcQueueSample>)

  /** The samples of a whole payload: sample i is decoded from bytes 20i..20i+20, in order. */
  function Samples(bytes: seq<byte>): (r: seq<AdcQueueSample>)
    requires |bytes| % SampleSize == 0
    ensures |r| == |bytes| / SampleSize
    ensures forall i | 0 <= i < |r| :: r[i] == DecodeSample(bytes[SampleSize * i..SampleSize * i + SampleSize])
    decreases |bytes|
  {
    if |bytes| == 0 then []
    else
      var rest := Samples(bytes[SampleSize..]);
      assert forall i | 1 <= i <= |rest| ::
        bytes[SampleSize..][SampleSize * (i - 1)..SampleSize * (i - 1) + SampleSize] == bytes[SampleSize * i..SampleSize * i + SampleSize];
      [DecodeSample(bytes[..SampleSize])] + rest
  }

  /**
   * `AdcQueueData::from_bytes`: fails iff the length is not a multiple of
   * 20; otherwise decodes the samples one by one in a loop.
   */
  method FromBytes(bytes: seq<byte>) returns (r: Result<AdcQueueData, KmError>)
    ensures r.Err? <==> |bytes| % SampleSize != 0
    ensures r.Err? ==> r.error == InvalidPacket(NotWholeSamples(|bytes|, SampleSize))
    ensures r.Ok? ==> r.value.samples == Samples(bytes)
  {
    if |bytes| % SampleSize != 0 {
      return Err(InvalidPacket(NotWholeSamples(|bytes|, SampleSize)));
    }
    var numSamples := |bytes| / SampleSize;
    var samples: seq<AdcQueueSample> := [];
    for i := 0 to numSamples
      invariant samples == Samples(bytes)[..i]
    {
      var offset := i * SampleSize;
      var sampleRaw := ReadSampleRaw(bytes[offset..offset + SampleSize]);
      samples := samples + [ToSample(sampleRaw)];
    }
    assert samples == Samples(bytes);
    return Ok(AdcQueueData(samples));
  }

  /** `sequence_range`: the first and last sequence numbers, None for no samples. */
  function SequenceRange(d: AdcQueueData): (r: Option<(u16, u16)>)
    ensures r.None? <==> |d.samples| == 0
    ensures r.Some? ==> r.value == (d.samples[0].sequence, d.samples[|d.samples| - 1].sequence)
  {
    if |d.samples| == 0 then None
    else Some((d.samples[0].sequence, d.samples[|d.samples| - 1].sequence))
  }

  /** `u16::wrapping_add(1)`. */
  function NextSequence(s: u16): (n: u16)
    ensures n == (s + 1) % 0x1_0000
  {
    if s == 0xFFFF then 0 else s + 1
  }

  /** Some adjacent pair of samples is not consecutive modulo 2^16. */
  predicate HasGap(samples: seq<AdcQueueSample>)
  {
    exists i | 0 <= i < |samples| - 1 :: samples[i + 1].sequence != NextSequence(samples[i].sequence)
  }

  /**
   * `has_dropped_samples`: false for fewer than two samples, otherwise true
   * iff some window of two has a second sequence number other than the
   * first plus one (wrapping).
   */
  method HasDroppedSamples(d: AdcQueueData) returns (dropped: bool)
    ensures dropped <==> HasGap(d.samples)
    ensures |d.samples| < 2 ==> !dropped
  {
    if |d.samples| < 2 {
      return false;
    }
    var i := 0;
    while i < |d.samples| - 1
      invariant 0 <= i <= |d.samples| - 1
      invariant forall j | 0 <= j < i :: d.samples[j + 1].sequence == NextSequence(d.samples[j].sequence)
    {
      var expectedNext := NextSequence(d.samples[i].sequence);
      if d.samples[i + 1].sequence != expectedNext {
        return true;
      }
      i := i + 1;
    }
    return false;
  }

  /** The two-sample payload of a captured AdcQueue frame (sequence numbers 78 and 79). */
  const CapturedQueuePayload: seq<byte> := [
    0x4e, 0x00, 0x3c, 0x00, 0xa9, 0x8b, 0x4d, 0x00, 0xd2, 0x00, 0x00, 0x00, 0x43, 0x00, 0xa3, 0x0c, 0x00, 0x00, 0x00, 0x00,
    0x4f, 0x00, 0x3c, 0x00, 0xa9, 0x8b, 0x4d, 0x00, 0xd2, 0x00, 0x00, 0x00, 0x43, 0x00, 0xa5, 0x0c, 0x00, 0x00, 0x00, 0x00]

  lemma CapturedSamples()
    ensures DecodeSample(CapturedQueuePayload[0..20]) == AdcQueueSample(78, 5.082025, 0.00021, 5.082025 * 0.00021, 0.067, 3.235)
    ensures DecodeSample(CapturedQueuePayload[20..40]).sequence == 79
  {
    CapturedFirstRaw();
    CapturedSecondSequence();
  }

  /** The integer fields of the first captured sample. */
  lemma CapturedFirstRaw()
    ensures var r := ReadSampleRaw(CapturedQueuePayload[0..20]);
      r.sequence == 78 && r.vbusUv == 5082025 && r.ibusUa == 210 && r.cc1Mv == 67 && r.cc2Mv == 3235
  {
    var c := CapturedQueuePayload[0..20];
    CapturedFirstBus(c);
    CapturedFirstOther(c);
  }

  /** Bus voltage and current of the first captured sample, as unsigned words. */
  lemma CapturedFirstBus(c: seq<byte>)
    requires c == CapturedQueuePayload[0..20]
    ensures LeU32(c, 4) == 5082025 && LeU32(c, 8) == 210
  {
    var b := CapturedQueuePayload;
    assert b[4] == 0xa9 && b[5] == 0x8b && b[6] == 0x4d && b[7] == 0x00;
    assert b[8] == 0xd2 && b[9] == 0x00 && b[10] == 0x00 && b[11] == 0x00;
  }

  /** Sequence number and CC readings of the first captured sample. */
  lemma CapturedFirstOther(c: seq<byte>)
    requires c == CapturedQueuePayload[0..20]
    ensures LeU16(c, 0) == 78 && LeU16(c, 12) == 67 && LeU16(c, 14) == 3235
  {
    var b := CapturedQueuePayload;
    assert b[0] == 0x4e && b[1] == 0x00;
    assert b[12] == 0x43 && b[13] == 0x00 && b[14] == 0xa3 && b[15] == 0x0c;
  }

  /** The sequence number of the second captured sample. */
  lemma CapturedSecondSequence()
    ensures ReadSampleRaw(CapturedQueuePayload[20..40]).sequence == 79
  {
    var b := CapturedQueuePayload;
    assert b[20] == 0x4f; assert b[21] == 0x00;
  }

  /** The captured payload decodes to two consecutive samples; the first is 5.082025 V, 210 µA, CC1 67 mV, CC2 3235 mV. */
  lemma CapturedQueue()
    ensures var s := Samples(CapturedQueuePayload);
      && |s| == 2 && s[0].sequence == 78 && s[1].sequence == 79
      && s[0].vbusV == 5.082025 && s[0].ibusA == 0.00021 && s[0].cc1V == 0.067 && s[0].cc2V == 3.235
      && SequenceRange(AdcQueueData(s)) == Some((78, 79))
      && !HasGap(s)
  {
    var s := Samples(CapturedQueuePayload);
    CapturedSamples();
    assert s[0] == DecodeSample(CapturedQueuePayload[0..20]);
    assert s[1] == DecodeSample(CapturedQueuePayload[20..40]);
  }

  /**
   * The captured AdcQueue frame (header 41 1d 82 30, extended header
   * 02 00 27 05): its one element announces size 20 yet, being a final
   * AdcQueue element, takes both 20-byte samples.
   */
  lemma CapturedQueueFrame()
    ensures var b := [0x41, 0x1d, 0x82, 0x30] + [0x02, 0x00, 0x27, 0x05] + CapturedQueuePayload;
      Packet.ParseFrame(b) == Ok((Packet.Data(b[..4], [Packet.LogicalPacket(Attributes.AdcQueue, false, 39, 20, CapturedQueuePayload)]), []))
  {
    var h: Packet.HeaderBytes := [0x41, 0x1d, 0x82, 0x30];
    var ext: seq<byte> := [0x02, 0x00, 0x27, 0x05];
    var b := h + ext + CapturedQueuePayload;
    assert b[..4] == h;
    assert b == h + ext + CapturedQueuePayload + [];
    var lp := Packet.LogicalPacket(Attributes.AdcQueue, false, 39, 20, CapturedQueuePayload);
    assert Packet.EncodeExtended(Packet.ExtendedOf(lp)) == ext;
    Packet.SingleElementFrame(h, lp, []);
  }

  /** A gap from 10 to 12 is reported as dropped samples. */
  lemma GapDetected()
    ensures var b := U16Le(10) + U16Le(60) + seq(16, _ => 0) + U16Le(12) + U16Le(60) + seq(16, _ => 0);
      |b| == 40 && HasGap(Samples(b))
  {
    var b := U16Le(10) + U16Le(60) + seq(16, _ => 0) + U16Le(12) + U16Le(60) + seq(16, _ => 0);
    var s := Samples(b);
    assert b[0] == 10 && b[1] == 0 && b[20] == 12 && b[21] == 0;
    assert s[0] == DecodeSample(b[0..20]) && s[1] == DecodeSample(b[20..40]);
    assert s[1].sequence != NextSequence(s[0].sequence);
  }
}
