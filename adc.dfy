/**
 * The ADC record of the device (adc.rs): the sample-rate code table, the
 * fixed 44-byte little-endian `AdcDataRaw` layout and its conversion to
 * physical units. Physical values are exact reals: each is the raw integer
 * divided by its unit, where the source computes the same quotient in f64.
 */
module Adc {
  import opened Wrappers
  import opened Bytes
  import Packet

  /** `SampleRate`; the discriminant is the rate code sent on the wire. */
  datatype SampleRate = Sps2 | Sps10 | Sps50 | Sps1000 | Sps10000

  /** `sample_rate as u8`. */
  function Code(r: SampleRate): (c: byte)
    ensures c < 5
  {
    match r
    case Sps2 => 0
    case Sps10 => 1
    case Sps50 => 2
    case Sps1000 => 3
    case Sps10000 => 4
  }

  /** `SampleRate::try_from(u8)`: the codes 0..4 and nothing else. */
  function TryFromCode(c: byte): (r: Option<SampleRate>)
    ensures r.Some? <==> c < 5
    ensures r.Some? ==> Code(r.value) == c
  {
    if c == 0 then Some(Sps2)
    else if c == 1 then Some(Sps10)
    else if c == 2 then Some(Sps50)
    else if c == 3 then Some(Sps1000)
    else if c == 4 then Some(Sps10000)
    else None
  }

  /** `as_hz`. */
  function AsHz(r: SampleRate): (hz: nat)
    ensures 2 <= hz <= 10000
  {
    match r
    case Sps2 => 2
    case Sps10 => 10
    case Sps50 => 50
    case Sps1000 => 1000
    case Sps10000 => 10000
  }

  lemma TryFromCodeOfCode(r: SampleRate)
    ensures TryFromCode(Code(r)) == Some(r)
  {
  }

  /** A higher rate code is a strictly faster rate. */
  lemma AsHzStrictlyIncreasing(a: SampleRate, b: SampleRate)
    ensures Code(a) < Code(b) <==> AsHz(a) < AsHz(b)
    ensures Code(a) == Code(b) <==> a == b
  {
  }

  /** The decoder's reading of a rate byte: unknown codes fall back to 2 SPS. */
  function RateOf(rateRaw: byte): (r: SampleRate)
    ensures rateRaw < 5 ==> Code(r) == rateRaw
    ensures rateRaw >= 5 ==> r == Sps2
  {
    match TryFromCode(rateRaw)
    case Some(r) => r
    case None => Sps2
  }

  const AdcDataRawSize: nat := 44

  /** `AdcDataRaw`, field for field; the i32 and i16 fields hold their signed values. */
  datatype AdcDataRaw = AdcDataRaw(
    vbusUv: int, ibusUa: int, vbusAvgUv: int, ibusAvgUa: int, vbusOriAvgRaw: int, ibusOriAvgRaw: int,
    tempRaw: int,
    vcc1TenthMv: u16, vcc2Raw: u16, vdpMv: u16, vdmMv: u16, internalVddRaw: u16,
    rateRaw: byte, reserved: byte,
    vcc2AvgRaw: u16, vdpAvgMv: u16, vdmAvgMv: u16)

  predicate IsI32(v: int) { -0x8000_0000 <= v < 0x8000_0000 }

  predicate IsI16(v: int) { -0x8000 <= v < 0x8000 }

  /** The values the signed fields can hold. */
  predicate ValidRaw(r: AdcDataRaw)
  {
    && IsI32(r.vbusUv) && IsI32(r.ibusUa) && IsI32(r.vbusAvgUv) && IsI32(r.ibusAvgUa)
    && IsI32(r.vbusOriAvgRaw) && IsI32(r.ibusOriAvgRaw) && IsI16(r.tempRaw)
  }

  /**
   * Reading the `#[repr(C)]`, unaligned `AdcDataRaw` from 44 bytes: six i32
   * at 0..24, the i16 temperature at 24, five u16 at 26..36, the rate and
   * reserved bytes at 36 and 37, three u16 at 38..44.
   */
  function ReadRaw(b: seq<byte>): (r: AdcDataRaw)
    requires |b| == AdcDataRawSize
    ensures ValidRaw(r)
  {
    AdcDataRaw(
      LeI32(b, 0), LeI32(b, 4), LeI32(b, 8), LeI32(b, 12), LeI32(b, 16), LeI32(b, 20),
      LeI16(b, 24),
      LeU16(b, 26), LeU16(b, 28), LeU16(b, 30), LeU16(b, 32), LeU16(b, 34),
      b[36], b[37],
      LeU16(b, 38), LeU16(b, 40), LeU16(b, 42))
  }

  /** The bytes of an `AdcDataRaw` (`IntoBytes::as_bytes`). */
  function RawBytes(r: AdcDataRaw): (b: seq<byte>)
    requires ValidRaw(r)
    ensures |b| == AdcDataRawSize
  {
    I32Le(r.vbusUv) + I32Le(r.ibusUa) + I32Le(r.vbusAvgUv) + I32Le(r.ibusAvgUa)
    + I32Le(r.vbusOriAvgRaw) + I32Le(r.ibusOriAvgRaw)
    + I16Le(r.tempRaw)
    + U16Le(r.vcc1TenthMv) + U16Le(r.vcc2Raw) + U16Le(r.vdpMv) + U16Le(r.vdmMv) + U16Le(r.internalVddRaw)
    + [r.rateRaw, r.reserved]
    + U16Le(r.vcc2AvgRaw) + U16Le(r.vdpAvgMv) + U16Le(r.vdmAvgMv)
  }

  lemma ReadRawBytes(r: AdcDataRaw)
    requires ValidRaw(r)
    ensures ReadRaw(RawBytes(r)) == r
  {
  }

  lemma RawBytesRead(b: seq<byte>)
    requires |b| == AdcDataRawSize
    ensures RawBytes(ReadRaw(b)) == b
  {
    I32LeAt(b, 0); I32LeAt(b, 4); I32LeAt(b, 8); I32LeAt(b, 12); I32LeAt(b, 16); I32LeAt(b, 20);
    I16LeAt(b, 24);
    U16LeAt(b, 26); U16LeAt(b, 28); U16LeAt(b, 30); U16LeAt(b, 32); U16LeAt(b, 34);
    U16LeAt(b, 38); U16LeAt(b, 40); U16LeAt(b, 42);
    assert [b[36], b[37]] == b[36..38];
    JoinSlices(b, 0, 4, 8); JoinSlices(b, 0, 8, 12); JoinSlices(b, 0, 12, 16); JoinSlices(b, 0, 16, 20);
    JoinSlices(b, 0, 20, 24); JoinSlices(b, 0, 24, 26); JoinSlices(b, 0, 26, 28); JoinSlices(b, 0, 28, 30);
    JoinSlices(b, 0, 30, 32); JoinSlices(b, 0, 32, 34); JoinSlices(b, 0, 34, 36); JoinSlices(b, 0, 36, 38);
    JoinSlices(b, 0, 38, 40); JoinSlices(b, 0, 40, 42); JoinSlices(b, 0, 42, 44);
    assert b[0..44] == b;
  }

  /** `AdcDataSimple`: the record in volts, amperes, watts and degrees Celsius. */
  datatype AdcDataSimple = AdcDataSimple(
    vbusV: real, ibusA: real, powerW: real,
    vbusAvgV: real, ibusAvgA: real,
    tempC: real,
    vdpV: real, vdmV: real, vdpAvgV: real, vdmAvgV: real,
    cc1V: real, cc2V: real, cc2AvgV: real,
    internalVddV: real,
    sampleRate: SampleRate)

  /** Micro-units (µV, µA) per unit. */
  const Micro: real := 1_000_000.0
  /** Tenth-millivolt units per volt: instantaneous D+, D-, CC1, CC2 and internal VDD. */
  const TenthMilli: real := 10_000.0
  /** Millivolt units per volt: averaged D+, D- and CC2. */
  const Milli: real := 1_000.0
  /** Temperature register steps per degree Celsius (LSB = 1/128 °C). */
  const TempSteps: real := 128.0

  /**
   * `From<AdcDataRaw> for AdcDataSimple`: each field scaled by its unit,
   * power as the product of bus voltage and current, and the rate byte read
   * through the code table with 2 SPS for an unknown code.
   */
  function ToSimple(raw: AdcDataRaw): (s: AdcDataSimple)
    ensures s.vbusV * Micro == raw.vbusUv as real && s.ibusA * Micro == raw.ibusUa as real
    ensures s.vbusAvgV * Micro == raw.vbusAvgUv as real && s.ibusAvgA * Micro == raw.ibusAvgUa as real
    ensures s.powerW * Micro * Micro == raw.vbusUv as real * raw.ibusUa as real
    ensures s.tempC * TempSteps == raw.tempRaw as real
    ensures s.vdpV * TenthMilli == raw.vdpMv as real && s.vdmV * TenthMilli == raw.vdmMv as real
    ensures s.cc1V * TenthMilli == raw.vcc1TenthMv as real && s.cc2V * TenthMilli == raw.vcc2Raw as real
    ensures s.internalVddV * TenthMilli == raw.internalVddRaw as real
    ensures s.vdpAvgV * Milli == raw.vdpAvgMv as real && s.vdmAvgV * Milli == raw.vdmAvgMv as real
    ensures s.cc2AvgV * Milli == raw.vcc2AvgRaw as real
    ensures s.sampleRate == RateOf(raw.rateRaw)
  {
    var vbusV := raw.vbusUv as real / Micro;
    var ibusA := raw.ibusUa as real / Micro;
    AdcDataSimple(
      vbusV, ibusA, vbusV * ibusA,
      raw.vbusAvgUv as real / Micro, raw.ibusAvgUa as real / Micro,
      raw.tempRaw as real / TempSteps,
      raw.vdpMv as real / TenthMilli, raw.vdmMv as real / TenthMilli,
      raw.vdpAvgMv as real / Milli, raw.vdmAvgMv as real / Milli,
      raw.vcc1TenthMv as real / TenthMilli, raw.vcc2Raw as real / TenthMilli, raw.vcc2AvgRaw as real / Milli,
      raw.internalVddRaw as real / TenthMilli,
      RateOf(raw.rateRaw))
  }

  /** The only integer field of `From<AdcDataSimple> for AdcDataRaw`: `rate_raw = sample_rate as u8`. */
  function RateRawOf(s: AdcDataSimple): byte
  {
    Code(s.sampleRate)
  }

  /** The sample rate survives AdcDataSimple -> AdcDataRaw -> AdcDataSimple, whatever the other fields. */
  lemma SampleRateRoundTrip(s: AdcDataSimple, raw: AdcDataRaw)
    requires raw.rateRaw == RateRawOf(s)
    ensures ToSimple(raw).sampleRate == s.sampleRate
  {
    TryFromCodeOfCode(s.sampleRate);
  }

  /** With a positive bus voltage, power has the sign of the current: it shows the direction of flow. */
  lemma PowerSignFollowsCurrent(raw: AdcDataRaw)
    requires raw.vbusUv > 0
    ensures ToSimple(raw).powerW > 0.0 <==> raw.ibusUa > 0
    ensures ToSimple(raw).powerW < 0.0 <==> raw.ibusUa < 0
    ensures ToSimple(raw).powerW == 0.0 <==> raw.ibusUa == 0
  {
    var s := ToSimple(raw);
    var v := raw.vbusUv as real;
    var i := raw.ibusUa as real;
    assert s.powerW * (Micro * Micro) == v * i;
    if i > 0.0 {
      assert v * i > 0.0;
    } else if i < 0.0 {
      assert v * (-i) > 0.0;
    }
  }

  function Abs(x: real): (a: real)
    ensures a >= 0.0 && (a == x || a == -x)
  {
    if x < 0.0 then -x else x
  }

  /** `current_abs_a`: the magnitude of the current. */
  function CurrentAbsA(s: AdcDataSimple): (a: real)
    ensures a >= 0.0 && (a == s.ibusA || a == -s.ibusA)
  {
    Abs(s.ibusA)
  }

  /** `power_abs_w`: the magnitude of the power. */
  function PowerAbsW(s: AdcDataSimple): (a: real)
    ensures a >= 0.0 && (a == s.powerW || a == -s.powerW)
  {
    Abs(s.powerW)
  }

  /** The magnitudes are |current| and |voltage| * |current|, whatever the direction. */
  lemma MagnitudesOfDecoded(raw: AdcDataRaw)
    ensures CurrentAbsA(ToSimple(raw)) * Micro == Abs(raw.ibusUa as real)
    ensures PowerAbsW(ToSimple(raw)) * Micro * Micro == Abs(raw.vbusUv as real) * Abs(raw.ibusUa as real)
  {
    var s := ToSimple(raw);
    ScaledMagnitudes(s.ibusA, s.powerW, raw.vbusUv as real, raw.ibusUa as real);
  }

  /** Magnitudes of a current and a power given in micro-units of the readings they come from. */
  lemma ScaledMagnitudes(ibusA: real, powerW: real, v: real, i: real)
    requires ibusA * Micro == i && powerW * Micro * Micro == v * i
    ensures Abs(ibusA) * Micro == Abs(i)
    ensures Abs(powerW) * Micro * Micro == Abs(v) * Abs(i)
  {
    AbsOfScaled(ibusA, i, Micro);
    AbsOfScaled(powerW, v * i, Micro * Micro);
    AbsOfProduct(v, i);
  }

  /** Scaling by a positive factor scales the magnitude. */
  lemma AbsOfScaled(x: real, y: real, k: real)
    requires k > 0.0 && x * k == y
    ensures Abs(x) * k == Abs(y)
  {
    if x < 0.0 {
      assert y < 0.0 && (-x) * k == -y;
    } else {
      assert y >= 0.0;
    }
  }

  /** The magnitude of a product is the product of the magnitudes. */
  lemma AbsOfProduct(v: real, i: real)
    ensures Abs(v * i) == Abs(v) * Abs(i)
  {
    if v < 0.0 && i < 0.0 {
      assert v * i == (-v) * (-i);
    } else if v < 0.0 {
      assert -(v * i) == (-v) * i;
    } else if i < 0.0 {
      assert -(v * i) == v * (-i);
    }
  }


  /**
   * The captured 44-byte record: 5.053509 V, -0.09045 A, temperature
   * register 3273 (25.5703125 °C), CC1 register 4234, rate code 0 (2 SPS),
   * and negative power.
   */
  lemma CapturedRecord()
    ensures var raw := ReadRaw(Packet.CapturedAdcPayload);
      && raw.vbusUv == 5053509 && raw.ibusUa == -90450
      && raw.tempRaw == 3273 && raw.vcc1TenthMv == 4234 && raw.vcc2Raw == 14
      && raw.rateRaw == 0 && raw.reserved == 0x80
      && ToSimple(raw).tempC == 25.5703125
      && ToSimple(raw).sampleRate == Sps2
      && ToSimple(raw).powerW < 0.0
      && CurrentAbsA(ToSimple(raw)) == 0.09045
  {
    CapturedBusFields();
    CapturedOtherFields();
    var raw := ReadRaw(Packet.CapturedAdcPayload);
    var s := ToSimple(raw);
    assert s.tempC * TempSteps == 3273.0;
    assert s.ibusA * Micro == -90450.0;
    PowerSignFollowsCurrent(raw);
  }

  /** The bus voltage and current of the captured record, read byte by byte. */
  lemma CapturedBusFields()
    ensures var raw := ReadRaw(Packet.CapturedAdcPayload);
      raw.vbusUv == 5053509 && raw.ibusUa == -90450
  {
    var b := Packet.CapturedAdcPayload;
    assert b[0] == 0x45; assert b[1] == 0x1c; assert b[2] == 0x4d; assert b[3] == 0x00;
    assert LeU32(b, 0) == 5053509;
    assert b[4] == 0xae; assert b[5] == 0x9e; assert b[6] == 0xfe; assert b[7] == 0xff;
    assert LeU32(b, 4) == 0xFFFE_9EAE;
  }

  /** The temperature, CC, rate and reserved bytes of the captured record. */
  lemma CapturedOtherFields()
    ensures var raw := ReadRaw(Packet.CapturedAdcPayload);
      && raw.tempRaw == 3273 && raw.vcc1TenthMv == 4234 && raw.vcc2Raw == 14
      && raw.rateRaw == 0 && raw.reserved == 0x80
  {
    var b := Packet.CapturedAdcPayload;
    assert b[24] == 0xc9; assert b[25] == 0x0c; assert b[26] == 0x8a; assert b[27] == 0x10;
    assert b[28] == 0x0e; assert b[29] == 0x00; assert b[36] == 0x00; assert b[37] == 0x80;
  }
}
