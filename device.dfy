/**
 * The device object of km003c-lib (device.rs) without its USB transport:
 * the transaction-id counter, the interface configurations, the connection
 * mode and its queries, and the checks applied to what is sent and received.
 * Received buffers are inputs; the bytes a call would write are its result.
 */
module Device {
  import opened Wrappers
  import opened Bytes
  import opened Errors
  import Packet
  import Auth

  /** USB vendor and product ids of the KM003C. */
  const Vid: u16 := 0x5FC9
  const Pid: u16 := 0x0063

  const InterfaceVendor: byte := 0
  const EndpointOutVendor: byte := 0x01
  const EndpointInVendor: byte := 0x81
  const InterfaceHid: byte := 3
  const EndpointOutHid: byte := 0x05
  const EndpointInHid: byte := 0x85

  datatype TransferType = Bulk | Interrupt

  /** `DeviceConfig`: which interface, endpoints and transfer type to use. */
  datatype DeviceConfig = DeviceConfig(interface: byte, endpointOut: byte, endpointIn: byte,
                                       transferType: TransferType, skipReset: bool)

  predicate IsVendor(c: DeviceConfig) { c.interface == InterfaceVendor }

  predicate IsHid(c: DeviceConfig) { c.interface == InterfaceHid }

  /** `DeviceConfig::vendor()`: interface 0, bulk endpoints 0x01 and 0x81, Full mode. */
  function Vendor(): (c: DeviceConfig)
    ensures c.interface == 0 && c.endpointOut == 0x01 && c.endpointIn == 0x81
    ensures c.transferType == Bulk && !c.skipReset
    ensures IsVendor(c) && !IsHid(c)
  {
    DeviceConfig(InterfaceVendor, EndpointOutVendor, EndpointInVendor, Bulk, false)
  }

  /** `DeviceConfig::hid()`: interface 3, interrupt endpoints 0x05 and 0x85, Basic mode. */
  function Hid(): (c: DeviceConfig)
    ensures c.interface == 3 && c.endpointOut == 0x05 && c.endpointIn == 0x85
    ensures c.transferType == Interrupt && !c.skipReset
    ensures IsHid(c) && !IsVendor(c)
  {
    DeviceConfig(InterfaceHid, EndpointOutHid, EndpointInHid, Interrupt, false)
  }

  /** `DeviceConfig::skip_reset()`: sets the flag and keeps every other field. */
  function SkipReset(c: DeviceConfig): (r: DeviceConfig)
    ensures r.skipReset
    ensures r.interface == c.interface && r.endpointOut == c.endpointOut && r.endpointIn == c.endpointIn
    ensures r.transferType == c.transferType
    ensures IsVendor(r) == IsVendor(c) && IsHid(r) == IsHid(c)
  {
    c.(skipReset := true)
  }

  /** `DeviceState`: what initialisation learnt about the device; it owns its copy of the device information. */
  datatype DeviceState = DeviceState(info: Auth.DeviceInfoValue, hardwareId: Auth.HardwareId, authLevel: byte, adcqueueEnabled: bool)

  /** `DeviceState::is_authenticated`. */
  predicate StateIsAuthenticated(s: DeviceState)
  {
    s.authLevel > 0
  }

  /** `ConnectionMode`: Basic over HID, Full (with the device state) over the vendor interface. */
  datatype ConnectionMode = Basic | Full(state: DeviceState)

  /** A high-level request as `send` dispatches it. */
  datatype Outgoing =
    | MemoryRead(address: u32, size: u32)
    | StreamingAuth(hardwareId: Auth.HardwareId)
      /** Any other request, with the encoding `to_raw_packet` gives it for a transaction id. */
    | Other(encode: byte -> seq<byte>)

  /** The side inputs of a send: the cipher, the checksum, the clock and the random padding. */
  datatype SendContext = SendContext(aes: (Auth.Key, Auth.Block) -> Auth.Block, crc32: seq<byte> -> u32,
                                     timestampMs: nat, padding: seq<byte>)

  predicate ValidContext(ctx: SendContext)
  {
    ctx.timestampMs < 0x1_0000_0000_0000_0000 && |ctx.padding| == 12
  }

  /** `KM003C`: the counter, the configuration and the connection mode. */
  class Km003c {
    var transactionId: byte
    var config: DeviceConfig
    var mode: ConnectionMode

    /** `connect` without the USB steps: counter 0, Basic mode. */
    constructor (config: DeviceConfig)
      ensures transactionId == 0 && mode == Basic && this.config == config
    {
      transactionId := 0;
      this.config := config;
      mode := Basic;
    }

    /** `next_transaction_id`: the current id; the counter moves on by one, wrapping after 255. */
    method NextTransactionId() returns (id: byte)
      modifies this
      ensures id == old(transactionId)
      ensures transactionId == (old(transactionId) + 1) % 256
      ensures mode == old(mode) && config == old(config)
    {
      id := transactionId;
      transactionId := (transactionId + 1) % 256;
    }

    /** `next_tid`: the same counter step, for callers outside the device. */
    method NextTid() returns (id: byte)
      modifies this
      ensures id == old(transactionId)
      ensures transactionId == (old(transactionId) + 1) % 256
      ensures mode == old(mode) && config == old(config)
    {
      id := NextTransactionId();
    }

    /** `set_transaction_id`. */
    method SetTransactionId(id: byte)
      modifies this
      ensures transactionId == id
      ensures mode == old(mode) && config == old(config)
    {
      transactionId := id;
    }

    /**
     * `send` without the write: takes exactly one transaction id and gives
     * the bytes written. MemoryRead and StreamingAuth are laid out by their
     * builders; anything else by its own encoder.
     */
    method Send(packet: Outgoing, ctx: SendContext) returns (id: byte, wire: seq<byte>)
      requires ValidContext(ctx)
      modifies this
      ensures id == old(transactionId) && transactionId == (old(transactionId) + 1) % 256
      ensures mode == old(mode) && config == old(config)
      ensures packet.MemoryRead? ==>
        && |wire| == 36 && wire[..4] == [Auth.MemoryReadType, id, 0x01, 0x01]
        && wire[4..] == Auth.EcbEncrypt32(ctx.aes, Auth.MemoryReadKey,
                                          Auth.MemoryReadPlaintext(ctx.crc32, packet.address, packet.size))
      ensures packet.StreamingAuth? ==>
        && |wire| == 36 && wire[..4] == [Auth.StreamingAuthType, id, 0x00, 0x02]
        && wire[4..] == Auth.EcbEncrypt32(ctx.aes, Auth.StreamingAuthKeyEnc,
                                          Auth.StreamingAuthPlaintext(ctx.timestampMs, packet.hardwareId, ctx.padding))
      ensures packet.Other? ==> wire == packet.encode(id)
    {
      id := NextTransactionId();
      match packet
      case MemoryRead(address, size) =>
        wire := Auth.BuildMemoryReadPacket(ctx.aes, ctx.crc32, address, size, id);
      case StreamingAuth(hardwareId) =>
        wire := Auth.BuildStreamingAuthPacket(ctx.aes, hardwareId, ctx.timestampMs, ctx.padding, id);
      case Other(encode) =>
        wire := encode(id);
    }

    /** `is_full_mode`. */
    predicate IsFullMode()
      reads this
    {
      mode.Full?
    }

    /** `is_basic_mode`. */
    predicate IsBasicMode()
      reads this
    {
      mode.Basic?
    }

    /** `state()`: the device state, present only in Full mode. */
    function State(): (s: Option<DeviceState>)
      reads this
      ensures s.Some? <==> IsFullMode()
      ensures s.Some? ==> mode == Full(s.value)
    {
      match mode
      case Full(state) => Some(state)
      case Basic => None
    }

    /** `is_authenticated`: false in Basic mode. */
    predicate IsAuthenticated()
      reads this
    {
      State().Some? && StateIsAuthenticated(State().value)
    }

    /** `adcqueue_enabled`: false in Basic mode. */
    predicate AdcqueueEnabled()
      reads this
    {
      State().Some? && State().value.adcqueueEnabled
    }

    /**
     * The last step of `run_init`: Full mode with the state built from the
     * authentication result. The state keeps the information's values as
     * they are now; later changes to the `DeviceInfo` object do not reach it.
     */
    method CompleteInit(info: Auth.DeviceInfo, hardwareId: Auth.HardwareId, auth: Auth.StreamingAuthResult)
      modifies this
      ensures mode == Full(DeviceState(info.Value(), hardwareId, auth.authLevel, Auth.AdcqueueEnabled(auth)))
      ensures transactionId == old(transactionId) && config == old(config)
    {
      mode := Full(DeviceState(info.Value(), hardwareId, auth.authLevel, Auth.AdcqueueEnabled(auth)));
    }

    /**
     * The guard of `start_graph_mode` and `stop_graph_mode`: in Basic mode
     * both fail before anything is sent.
     */
    function GraphModeGuard(): (r: Result<(), KmError>)
      reads this
      ensures r.Err? <==> IsBasicMode()
      ensures r.Err? ==> r.error == Protocol(RequiresFullMode)
    {
      if IsBasicMode() then Err(Protocol(RequiresFullMode)) else Ok(())
    }

    /**
     * `start_graph_mode` / `stop_graph_mode` up to the send: in Basic mode an
     * error and no transaction id used; otherwise the request goes out.
     */
    method GraphModeRequest(request: Outgoing, ctx: SendContext) returns (r: Result<seq<byte>, KmError>)
      requires ValidContext(ctx)
      modifies this
      ensures r.Err? <==> old(IsBasicMode())
      ensures r.Err? ==> r.error == Protocol(RequiresFullMode) && transactionId == old(transactionId)
      ensures r.Ok? ==> transactionId == (old(transactionId) + 1) % 256
      ensures mode == old(mode) && config == old(config)
    {
      if IsBasicMode() {
        return Err(Protocol(RequiresFullMode));
      }
      var _, wire := Send(request, ctx);
      return Ok(wire);
    }
  }

  /** Full mode and Basic mode exclude each other; Basic mode is never authenticated nor streaming. */
  lemma ModeQueries(d: Km003c)
    ensures d.IsFullMode() == !d.IsBasicMode()
    ensures d.IsBasicMode() ==> !d.IsAuthenticated() && !d.AdcqueueEnabled()
    ensures d.IsAuthenticated() <==> d.mode.Full? && d.mode.state.authLevel > 0
  {
  }

  /** After initialisation from a parsed StreamingAuth response, being authenticated and streaming coincide. */
  lemma InitFromAuthResponse(aesInv: (Auth.Key, Auth.Block) -> Auth.Block, response: seq<byte>,
                             info: Auth.DeviceInfoValue, hardwareId: Auth.HardwareId)
    requires Auth.ParseStreamingAuthResponse(aesInv, response).Some?
    ensures var auth := Auth.ParseStreamingAuthResponse(aesInv, response).value;
      var s := DeviceState(info, hardwareId, auth.authLevel, Auth.AdcqueueEnabled(auth));
      StateIsAuthenticated(s) == s.adcqueueEnabled == auth.success
  {
  }

  /** The Hardware ID taken from a memory block: its first twelve bytes, or zeros if it is shorter. */
  function HardwareIdFromBlock(data: seq<byte>): (h: Auth.HardwareId)
    ensures |data| >= Auth.HardwareIdSize ==> h.bytes == data[..Auth.HardwareIdSize]
    ensures |data| < Auth.HardwareIdSize ==> forall i | 0 <= i < Auth.HardwareIdSize :: h.bytes[i] == 0
  {
    if |data| >= Auth.HardwareIdSize then Auth.HardwareId(data[..Auth.HardwareIdSize])
    else Auth.HardwareId(seq(Auth.HardwareIdSize, _ => 0))
  }

  /** What `receive` makes of a buffer before the high-level interpretation. */
  datatype Received =
    | AuthResponse(result: Auth.StreamingAuthResult)
    | Frame(packet: Packet.RawPacket)

  /**
   * `receive` on a buffer: an empty one is an error; a StreamingAuth
   * response of 36 bytes or more is decoded as such; anything else goes to
   * `RawPacket::try_from`.
   */
  function Receive(aesInv: (Auth.Key, Auth.Block) -> Auth.Block, rawBytes: seq<byte>): (r: Result<Received, KmError>)
    ensures |rawBytes| == 0 ==> r == Err(Protocol(ReceivedNothing))
    ensures |rawBytes| >= 36 && rawBytes[0] % 0x80 == Auth.StreamingAuthType ==>
      r.Ok? && r.value.AuthResponse? && Some(r.value.result) == Auth.ParseStreamingAuthResponse(aesInv, rawBytes)
    ensures 0 < |rawBytes| && !(|rawBytes| >= 36 && rawBytes[0] % 0x80 == Auth.StreamingAuthType) ==>
      match Packet.Parse(rawBytes)
      case Ok(p) => r == Ok(Frame(p))
      case Err(e) => r == Err(e)
  {
    if |rawBytes| == 0 then Err(Protocol(ReceivedNothing))
    else
      var packetType := rawBytes[0] % 0x80;
      var auth := if packetType == Auth.StreamingAuthType && |rawBytes| >= 36
                  then Auth.ParseStreamingAuthResponse(aesInv, rawBytes) else None;
      if auth.Some? then Ok(AuthResponse(auth.value))
      else
        match Packet.Parse(rawBytes)
        case Ok(p) => Ok(Frame(p))
        case Err(e) => Err(e)
  }

  /**
   * `receive_memory_read_data` on a buffer: it must be a non-empty whole
   * number of AES blocks; the result is its decryption under the MemoryRead
   * key, of the same length.
   */
  method ReceiveMemoryReadData(aesInv: (Auth.Key, Auth.Block) -> Auth.Block, rawBytes: seq<byte>)
    returns (r: Result<seq<byte>, KmError>)
    ensures r.Err? <==> |rawBytes| == 0 || |rawBytes| % 16 != 0
    ensures r.Err? ==> r.error == Protocol(NotWholeAesBlocks(|rawBytes|))
    ensures r.Ok? ==> r.value == Auth.DecryptChunks(aesInv, Auth.MemoryReadKey, rawBytes) && |r.value| == |rawBytes|
  {
    if |rawBytes| == 0 || |rawBytes| % 16 != 0 {
      return Err(Protocol(NotWholeAesBlocks(|rawBytes|)));
    }
    var decrypted := Auth.AesEcbDecryptBlocks(aesInv, rawBytes, Auth.MemoryReadKey);
    return Ok(decrypted);
  }

  /** Two sends in a row use consecutive ids, modulo 256. */
  method TwoSends(d: Km003c, p: Outgoing, q: Outgoing, ctx: SendContext) returns (first: byte, second: byte)
    requires ValidContext(ctx)
    modifies d
    ensures first == old(d.transactionId) && second == (first + 1) % 256
    ensures d.transactionId == (old(d.transactionId) + 2) % 256
  {
    var w1, w2;
    first, w1 := d.Send(p, ctx);
    second, w2 := d.Send(q, ctx);
  }

  /** After `set_transaction_id(i)` the next id handed out is `i`. */
  method SetThenNext(d: Km003c, i: byte) returns (id: byte)
    modifies d
    ensures id == i && d.transactionId == (i + 1) % 256
  {
    d.SetTransactionId(i);
    id := d.NextTid();
  }

  /**
   * The state owns its device information: filling in the calibration
   * fields of the `DeviceInfo` object after initialisation leaves the
   * recorded state as it was.
   */
  method InitThenReparse(d: Km003c, info: Auth.DeviceInfo, hardwareId: Auth.HardwareId,
                         auth: Auth.StreamingAuthResult, calibration: seq<byte>)
    modifies d, info
    ensures d.mode == Full(DeviceState(old(info.Value()), hardwareId, auth.authLevel, Auth.AdcqueueEnabled(auth)))
    ensures |calibration| >= Auth.InfoBlockSize ==> info.serialId == Auth.Trim(Auth.ExtractString(calibration, 0x00, 0x07))
  {
    d.CompleteInit(info, hardwareId, auth);
    info.ParseCalibration(calibration);
  }
}
