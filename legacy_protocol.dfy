/**
 * The protocol definitions of the top-level crate (src/protocol.rs): the
 * command and attribute code tables, the 4-byte `CommandHeader`, the
 * 52-byte sensor record, the 200-byte device information block and the
 * heuristics `Packet::from_bytes` uses to classify a USB transfer.
 */
module LegacyProtocol {
  import opened Wrappers
  import opened Bytes
  import Adc
  import Auth

  const Vid: u16 := 0x5FC9
  const Pid: u16 := 0x0063
  const EndpointOut: byte := 0x01
  const EndpointIn: byte := 0x81

  datatype Direction = HostToDevice | DeviceToHost

  /** `CommandType`: only these eighteen codes are valid. */
  datatype CommandType =
    | Connect | Disconnect | Accept | Rejected | JumpAprom | JumpDfu | GetData | GetFile | StopStream
    | SetConfig | ResetConfig | GetDeviceInfo | DataResponse | Serial | Authenticate | CommandWithPayload
    | ResponseC4 | Response75

  function CommandCode(c: CommandType): byte
  {
    match c
    case Connect => 0x02
    case Disconnect => 0x03
    case Accept => 0x05
    case Rejected => 0x06
    case JumpAprom => 0x08
    case JumpDfu => 0x09
    case GetData => 0x0C
    case GetFile => 0x0E
    case StopStream => 0x0F
    case SetConfig => 0x10
    case ResetConfig => 0x11
    case GetDeviceInfo => 0x40
    case DataResponse => 0x41
    case Serial => 0x43
    case Authenticate => 0x44
    case CommandWithPayload => 0x4C
    case ResponseC4 => 0xC4
    case Response75 => 0x75
  }

  /** `CommandType::try_from(u8)`: the type whose code is `v`, if there is one. */
  function CommandTypeOf(v: byte): (r: Option<CommandType>)
    ensures r.Some? ==> CommandCode(r.value) == v
    ensures r.None? ==> forall c: CommandType :: CommandCode(c) != v
  {
    if v == 0x02 then Some(Connect)
    else if v == 0x03 then Some(Disconnect)
    else if v == 0x05 then Some(Accept)
    else if v == 0x06 then Some(Rejected)
    else if v == 0x08 then Some(JumpAprom)
    else if v == 0x09 then Some(JumpDfu)
    else if v == 0x0C then Some(GetData)
    else if v == 0x0E then Some(GetFile)
    else if v == 0x0F then Some(StopStream)
    else if v == 0x10 then Some(SetConfig)
    else if v == 0x11 then Some(ResetConfig)
    else if v == 0x40 then Some(GetDeviceInfo)
    else if v == 0x41 then Some(DataResponse)
    else if v == 0x43 then Some(Serial)
    else if v == 0x44 then Some(Authenticate)
    else if v == 0x4C then Some(CommandWithPayload)
    else if v == 0xC4 then Some(ResponseC4)
    else if v == 0x75 then Some(Response75)
    else None
  }

  /** The code table is a bijection between the types and their codes. */
  lemma CommandCodeRoundTrip(c: CommandType)
    ensures CommandTypeOf(CommandCode(c)) == Some(c)
  {
  }

  /** `Attribute`: named values, and any other value kept as `Unknown`. */
  datatype Attribute =
    | NoAttribute | Adc | AdcQueue | AdcQueue10k | Settings | GetDeviceInfoAttr | PdStatus | QcPacket
    | Timestamp | SerialAttr | PollPdEvents | AuthStep | SetDataRecorderMode | GetStartupInfo
    | Unknown(value: u16)

  /** `u16::from(Attribute)`. */
  function AttributeCode(a: Attribute): u16
  {
    match a
    case NoAttribute => 0x0000
    case Adc => 0x0001
    case AdcQueue => 0x0002
    case AdcQueue10k => 0x0004
    case Settings => 0x0008
    case GetDeviceInfoAttr => 0x0010
    case PdStatus => 0x0020
    case QcPacket => 0x0040
    case Timestamp => 0x0080
    case SerialAttr => 0x0180
    case PollPdEvents => 0x2000
    case AuthStep => 0x0101
    case SetDataRecorderMode => 0x0200
    case GetStartupInfo => 0x0400
    case Unknown(v) => v
  }

  predicate IsNamedCode(v: u16)
  {
    v in {0x0000, 0x0001, 0x0002, 0x0004, 0x0008, 0x0010, 0x0020, 0x0040, 0x0080, 0x0180, 0x2000, 0x0101, 0x0200, 0x0400}
  }

  /** `Attribute::try_from(u16)`: never fails; an unnamed value becomes `Unknown`. */
  function AttributeOf(v: u16): (a: Attribute)
    ensures AttributeCode(a) == v
    ensures a.Unknown? <==> !IsNamedCode(v)
  {
    if v == 0x0000 then NoAttribute
    else if v == 0x0001 then Adc
    else if v == 0x0002 then AdcQueue
    else if v == 0x0004 then AdcQueue10k
    else if v == 0x0008 then Settings
    else if v == 0x0010 then GetDeviceInfoAttr
    else if v == 0x0020 then PdStatus
    else if v == 0x0040 then QcPacket
    else if v == 0x0080 then Timestamp
    else if v == 0x0180 then SerialAttr
    else if v == 0x2000 then PollPdEvents
    else if v == 0x0101 then AuthStep
    else if v == 0x0200 then SetDataRecorderMode
    else if v == 0x0400 then GetStartupInfo
    else Attribute.Unknown(v)
  }

  /**
   * Reading an attribute back gives it again, except an `Unknown` built
   * around a named value, which comes back under its name.
   */
  lemma AttributeRoundTrip(a: Attribute)
    ensures AttributeOf(AttributeCode(a)) == a <==> !(a.Unknown? && IsNamedCode(a.value))
  {
  }

  /** The legacy `SampleRate` (speedy tag = code). */
  datatype SampleRate = Sps1 | Sps10 | Sps50 | Sps1000 | Sps10000

  function RateCode(r: SampleRate): byte
  {
    match r
    case Sps1 => 0
    case Sps10 => 1
    case Sps50 => 2
    case Sps1000 => 3
    case Sps10000 => 4
  }

  /** Reading the rate tag: only 0..4 are valid. */
  function RateOf(tag: byte): (r: Option<SampleRate>)
    ensures r.Some? <==> tag < 5
    ensures r.Some? ==> RateCode(r.value) == tag
  {
    if tag == 0 then Some(Sps1)
    else if tag == 1 then Some(Sps10)
    else if tag == 2 then Some(Sps50)
    else if tag == 3 then Some(Sps1000)
    else if tag == 4 then Some(Sps10000)
    else None
  }

  // ---------------------------------------------------------------------
  // Headers and records
  // ---------------------------------------------------------------------

  datatype CommandHeader = CommandHeader(commandType: CommandType, transactionId: byte, attribute: Attribute)

  /** Why a header was refused. */
  datatype HeaderError = HeaderTooShort | InvalidCommandType(value: byte)

  /**
   * `CommandHeader::try_from`: at least four bytes, and byte 0 (all eight
   * bits) must be a command code; byte 1 is the id, bytes 2..3 the
   * attribute.
   */
  function ParseCommandHeader(b: seq<byte>): (r: Result<CommandHeader, HeaderError>)
    ensures |b| < 4 ==> r == Err(HeaderTooShort)
    ensures |b| >= 4 ==> (r.Ok? <==> CommandTypeOf(b[0]).Some?)
    ensures |b| >= 4 && r.Err? ==> r.error == InvalidCommandType(b[0])
    ensures r.Ok? ==> CommandCode(r.value.commandType) == b[0] && r.value.transactionId == b[1]
                      && AttributeCode(r.value.attribute) == LeU16(b, 2)
  {
    if |b| < 4 then Err(HeaderTooShort)
    else match CommandTypeOf(b[0])
      case None => Err(InvalidCommandType(b[0]))
      case Some(c) => Ok(CommandHeader(c, b[1], AttributeOf(LeU16(b, 2))))
  }

  /** The four bytes of a header. */
  function HeaderBytes(h: CommandHeader): (b: seq<byte>)
    ensures |b| == 4
  {
    [CommandCode(h.commandType), h.transactionId] + U16Le(AttributeCode(h.attribute))
  }

  /** Any header with a named (or truly unknown) attribute is read back from its bytes. */
  lemma HeaderRoundTrip(h: CommandHeader)
    requires !(h.attribute.Unknown? && IsNamedCode(h.attribute.value))
    ensures ParseCommandHeader(HeaderBytes(h)) == Ok(h)
  {
    CommandCodeRoundTrip(h.commandType);
    AttributeRoundTrip(h.attribute);
    var b := HeaderBytes(h);
    assert b[2..4] == U16Le(AttributeCode(h.attribute));
    assert LeU16(b, 2) == LeU16(U16Le(AttributeCode(h.attribute)), 0);
  }

  datatype SensorDataHeader = SensorDataHeader(responseType: byte, transactionId: byte, flags: byte, attributeEcho: byte)

  /**
   * `SensorDataPacket`: the 4-byte header, a u32 extended header, then the
   * same 44-byte record as `AdcDataRaw`, whose rate byte is a `SampleRate`
   * tag.
   */
  datatype SensorDataPacket = SensorDataPacket(header: SensorDataHeader, extendedHeader: u32,
                                               data: Adc.AdcDataRaw, rate: SampleRate)

  const SensorDataSize: nat := 52

  /** `SensorDataPacket::read_from_buffer` on 52 bytes: fails only on an invalid rate tag (byte 44). */
  function ReadSensorData(b: seq<byte>): (r: Option<SensorDataPacket>)
    requires |b| == SensorDataSize
    ensures r.Some? <==> b[44] < 5
    ensures r.Some? ==>
      && r.value.header == SensorDataHeader(b[0], b[1], b[2], b[3])
      && r.value.extendedHeader == LeU32(b, 4)
      && r.value.data == Adc.ReadRaw(b[8..])
      && RateCode(r.value.rate) == b[44]
  {
    match RateOf(b[44])
    case None => None
    case Some(rate) =>
      Some(SensorDataPacket(SensorDataHeader(b[0], b[1], b[2], b[3]), LeU32(b, 4), Adc.ReadRaw(b[8..]), rate))
  }

  /** `DeviceInfoBlock`. */
  datatype DeviceInfoBlock = DeviceInfoBlock(firmwareVersion: u32, capabilities: u32, deviceName: seq<byte>,
                                             checksum: u32, rawBytes: seq<byte>)

  const DeviceInfoBlockSize: nat := 200

  /**
   * `DeviceInfoBlock::try_from`: at least 200 bytes; firmware version at
   * 8..12, capabilities at 16..20, the name from 136 up to the first zero
   * before 200, the checksum at 196..200.
   */
  function ParseDeviceInfoBlock(b: seq<byte>): (r: Option<DeviceInfoBlock>)
    ensures r.None? <==> |b| < DeviceInfoBlockSize
    ensures r.Some? ==>
      && r.value.firmwareVersion == LeU32(b, 8) && r.value.capabilities == LeU32(b, 16)
      && r.value.checksum == LeU32(b, 196) && r.value.rawBytes == b
      && |r.value.deviceName| <= 64 && r.value.deviceName == b[136..136 + |r.value.deviceName|]
      && (forall i | 0 <= i < |r.value.deviceName| :: r.value.deviceName[i] != 0)
      && (|r.value.deviceName| == 64 || b[136 + |r.value.deviceName|] == 0)
  {
    if |b| < DeviceInfoBlockSize then None
    else Some(DeviceInfoBlock(LeU32(b, 8), LeU32(b, 16), Auth.UntilNul(b[136..200]), LeU32(b, 196), b))
  }

  /**
   * The name field overlaps the checksum: a name with no zero byte in
   * 136..196 runs into the checksum bytes.
   */
  lemma NameOverlapsChecksum(b: seq<byte>)
    requires |b| >= DeviceInfoBlockSize
    requires forall i | 136 <= i < 200 :: b[i] != 0
    ensures ParseDeviceInfoBlock(b).value.deviceName == b[136..200]
    ensures ParseDeviceInfoBlock(b).value.deviceName[60..] == b[196..200]
  {
  }

  // ---------------------------------------------------------------------
  // Classification
  // ---------------------------------------------------------------------

  datatype AckType = AckAccept | AckRejected

  /** `Packet`. */
  datatype Packet =
    | Command(header: CommandHeader, commandPayload: Option<seq<byte>>)
    | Acknowledge(header: CommandHeader, kind: AckType)
    | SensorData(sensor: SensorDataPacket)
    | DeviceInfo(info: DeviceInfoBlock)
    | GenericResponse(header: CommandHeader, payload: seq<byte>)
    | DataChunk(bytes: seq<byte>)
    | Unknown(bytes: seq<byte>, direction: Direction)

  /** Is this a 52-byte sensor record answering a data request? */
  predicate IsSensorFrame(b: seq<byte>)
  {
    |b| == SensorDataSize && ReadSensorData(b).Some? && ReadSensorData(b).value.header.responseType == CommandCode(DataResponse)
  }

  /**
   * `Packet::from_bytes`. From the host: a command when the header is
   * valid (its payload present iff there is more than the header), else
   * Unknown; the source slices the first four bytes first, which panics on
   * shorter input. From the device: a 52-byte DataResponse with a valid
   * rate is sensor data; else a valid header gives an acknowledgement, a
   * device information block or a generic response; else a non-empty
   * transfer is a data chunk and an empty one Unknown.
   */
  function FromBytes(b: seq<byte>, direction: Direction): (p: Packet)
    requires direction == HostToDevice ==> |b| >= 4
    ensures direction == HostToDevice ==>
      (p.Command? <==> ParseCommandHeader(b).Ok?) && (p.Command? || p == Packet.Unknown(b, HostToDevice))
  {
    if direction == HostToDevice then
      match ParseCommandHeader(b[..4])
      case Ok(header) => Command(header, if |b| > 4 then Some(b[4..]) else None)
      case Err(_) => Packet.Unknown(b, direction)
    else if IsSensorFrame(b) then SensorData(ReadSensorData(b).value)
    else if |b| >= 4 && ParseCommandHeader(b).Ok? then
      var header := ParseCommandHeader(b).value;
      var payload := b[4..];
      match header.commandType
      case Accept => Acknowledge(header, AckAccept)
      case Rejected => Acknowledge(header, AckRejected)
      case DataResponse =>
        if |payload| >= DeviceInfoBlockSize && ParseDeviceInfoBlock(payload).Some? then
          DeviceInfo(ParseDeviceInfoBlock(payload).value)
        else GenericResponse(header, payload)
      case _ => GenericResponse(header, payload)
    else if |b| > 0 then DataChunk(b)
    else Packet.Unknown(b, direction)
  }

  /** Host-to-device traffic: a valid header gives a command whose payload is present iff the transfer is longer than 4 bytes. */
  lemma HostCommand(b: seq<byte>)
    requires |b| >= 4 && CommandTypeOf(b[0]).Some?
    ensures FromBytes(b, HostToDevice) == Command(ParseCommandHeader(b).value, if |b| > 4 then Some(b[4..]) else None)
  {
    assert b[..4][0] == b[0] && b[..4][1] == b[1] && LeU16(b[..4], 2) == LeU16(b, 2);
  }

  /** Device-to-host acknowledgements: Accept and Rejected headers, unless the transfer is a sensor record. */
  lemma DeviceAcknowledge(b: seq<byte>)
    requires |b| >= 4 && !IsSensorFrame(b)
    requires b[0] == CommandCode(Accept) || b[0] == CommandCode(Rejected)
    ensures FromBytes(b, DeviceToHost).Acknowledge?
    ensures FromBytes(b, DeviceToHost).kind == (if b[0] == CommandCode(Accept) then AckAccept else AckRejected)
    ensures FromBytes(b, DeviceToHost).header.transactionId == b[1]
  {
  }

  /** A DataResponse with a payload of 200 bytes or more is always a device information block. */
  lemma LongDataResponseIsDeviceInfo(b: seq<byte>)
    requires |b| >= 4 + DeviceInfoBlockSize && b[0] == CommandCode(DataResponse)
    ensures FromBytes(b, DeviceToHost) == DeviceInfo(ParseDeviceInfoBlock(b[4..]).value)
  {
  }

  /** A 52-byte DataResponse whose rate byte is valid is sensor data. */
  lemma SensorFrame(b: seq<byte>)
    requires |b| == SensorDataSize && b[0] == CommandCode(DataResponse) && b[44] < 5
    ensures FromBytes(b, DeviceToHost) == SensorData(ReadSensorData(b).value)
  {
  }

  /**
   * Device-to-host headers other than Accept and Rejected: a generic
   * response carrying everything after the header, unless the transfer is a
   * sensor record or a DataResponse long enough to hold a device
   * information block.
   */
  lemma DeviceGenericResponse(b: seq<byte>)
    requires |b| >= 4 && !IsSensorFrame(b) && ParseCommandHeader(b).Ok?
    ensures var h := ParseCommandHeader(b).value;
      FromBytes(b, DeviceToHost).GenericResponse? <==>
        && h.commandType != Accept && h.commandType != Rejected
        && !(h.commandType == DataResponse && |b| >= 4 + DeviceInfoBlockSize)
    ensures FromBytes(b, DeviceToHost).GenericResponse? ==>
      FromBytes(b, DeviceToHost) == GenericResponse(ParseCommandHeader(b).value, b[4..])
  {
  }

  /** Device-to-host bytes without a valid header: a data chunk if non-empty, else Unknown. */
  lemma HeaderlessDeviceTraffic(b: seq<byte>)
    requires |b| < 4 || CommandTypeOf(b[0]).None?
    ensures |b| > 0 ==> FromBytes(b, DeviceToHost) == DataChunk(b)
    ensures |b| == 0 ==> FromBytes(b, DeviceToHost) == Packet.Unknown([], DeviceToHost)
  {
  }
}
