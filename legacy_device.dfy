/**
 * The device logic of the top-level crate (src/device.rs) without USB:
 * the transaction-id counter, the command bytes, which response id a
 * transaction waits for, the relevance filter over collected responses and
 * the replayed authentication payloads.
 */
module LegacyDevice {
  import opened Wrappers
  import opened Bytes
  import opened LegacyProtocol

  // The replayed authentication payloads and the recorder-mode payload; the
  // four authentication payloads end in the same 16-byte block.
  const AuthSharedBlock: seq<byte> :=
    [0xd1, 0x8b, 0x53, 0x9a, 0x39, 0xc4, 0x07, 0xd5, 0xc0, 0x63, 0xd9, 0x11, 0x02, 0xe3, 0x6a, 0x9e]
  const AuthPayload1: seq<byte> :=
    [0x33, 0xf8, 0x86, 0x0c, 0x00, 0x54, 0x28, 0x8c, 0xdc, 0x7e, 0x52, 0x72, 0x98, 0x26, 0x87, 0x2d]
    + AuthSharedBlock
  const AuthPayload2: seq<byte> :=
    [0x63, 0x6b, 0xea, 0xf3, 0xf0, 0x85, 0x65, 0x06, 0xee, 0xe9, 0xa2, 0x7e, 0x89, 0x72, 0x2d, 0xcf]
    + AuthSharedBlock
  const AuthPayload3: seq<byte> :=
    [0xc5, 0x11, 0x67, 0xae, 0x61, 0x3a, 0x6d, 0x46, 0xec, 0x84, 0xa6, 0xbd, 0xe8, 0xbd, 0x46, 0x2a]
    + AuthSharedBlock
  const AuthPayload4: seq<byte> :=
    [0x9c, 0x40, 0x9d, 0xeb, 0xc8, 0xdf, 0x53, 0xb8, 0x3b, 0x06, 0x6c, 0x31, 0x52, 0x50, 0xd0, 0x5c]
    + AuthSharedBlock
  const SetRecorderModePayload: seq<byte> := [
    0x4b, 0xe3, 0x63, 0x6c, 0x40, 0xbc, 0x10, 0x29, 0x89, 0x50, 0x96, 0xaa, 0xa3, 0xd2, 0x4f, 0xb7,
    0xf0, 0x9b, 0x3f, 0xfb, 0x91, 0xb6, 0x51, 0xf1, 0x58, 0x2d, 0x0c, 0x27, 0xe4, 0x8d, 0x43, 0xa2]

  /** The four authentication payloads are 32 bytes (two AES blocks) and share their second block. */
  lemma AuthPayloadShapes()
    ensures |AuthPayload1| == |AuthPayload2| == |AuthPayload3| == |AuthPayload4| == 32
    ensures AuthPayload1[16..] == AuthPayload2[16..] == AuthPayload3[16..] == AuthPayload4[16..]
    ensures AuthPayload1[..16] != AuthPayload2[..16] && AuthPayload3[..16] != AuthPayload4[..16]
  {
    assert AuthPayload1[16..] == AuthSharedBlock && AuthPayload2[16..] == AuthSharedBlock;
    assert AuthPayload3[16..] == AuthSharedBlock && AuthPayload4[16..] == AuthSharedBlock;
    assert AuthPayload1[0] != AuthPayload2[0] && AuthPayload3[0] != AuthPayload4[0];
  }

  /** The bytes of a command: type code, id, attribute (little-endian), then the payload if any. */
  function CommandBytes(id: byte, cmd: CommandType, attr: Attribute, payload: Option<seq<byte>>): (b: seq<byte>)
  {
    [CommandCode(cmd), id] + U16Le(AttributeCode(attr)) + (if payload.Some? then payload.value else [])
  }

  /** What the command bytes hold, field by field. */
  lemma CommandBytesLayout(id: byte, cmd: CommandType, attr: Attribute, payload: Option<seq<byte>>)
    ensures var b := CommandBytes(id, cmd, attr, payload);
      && |b| == 4 + (if payload.Some? then |payload.value| else 0)
      && b[0] == CommandCode(cmd) && b[1] == id && LeU16(b, 2) == AttributeCode(attr)
      && b[4..] == (if payload.Some? then payload.value else [])
  {
    var b := CommandBytes(id, cmd, attr, payload);
    assert b[2..4] == U16Le(AttributeCode(attr));
    assert LeU16(b, 2) == LeU16(U16Le(AttributeCode(attr)), 0);
  }

  /**
   * Commands as the device-side parser sees them: `from_bytes` reads back
   * the type, the id and the attribute's value, and a payload exactly when
   * a non-empty one was sent.
   */
  lemma CommandBytesParse(id: byte, cmd: CommandType, attr: Attribute, payload: Option<seq<byte>>)
    ensures var p := FromBytes(CommandBytes(id, cmd, attr, payload), HostToDevice);
      && p.Command?
      && p.header == CommandHeader(cmd, id, AttributeOf(AttributeCode(attr)))
      && (p.commandPayload.Some? <==> payload.Some? && |payload.value| > 0)
      && (p.commandPayload.Some? ==> p.commandPayload.value == payload.value)
  {
    var b := CommandBytes(id, cmd, attr, payload);
    CommandBytesLayout(id, cmd, attr, payload);
    CommandCodeRoundTrip(cmd);
    HostCommand(b);
  }

  /**
   * The special case of `transact_and_discard`: the recorder-mode command
   * is answered with id 0. The test compares the attribute with
   * `Unknown(0x0200)`, so the named `SetDataRecorderMode`, which puts the
   * same bytes on the wire, does not match.
   */
  predicate AnsweredWithIdZero(cmd: CommandType, attr: Attribute)
  {
    cmd == CommandWithPayload && attr == Attribute.Unknown(0x0200)
  }

  /** Two attributes with the same wire value can wait for different response ids. */
  lemma SameBytesDifferentExpectation(id: byte)
    requires id != 0
    ensures CommandBytes(id, CommandWithPayload, Attribute.Unknown(0x0200), Some(SetRecorderModePayload))
         == CommandBytes(id, CommandWithPayload, SetDataRecorderMode, Some(SetRecorderModePayload))
    ensures AnsweredWithIdZero(CommandWithPayload, Attribute.Unknown(0x0200))
    ensures !AnsweredWithIdZero(CommandWithPayload, SetDataRecorderMode)
  {
  }

  /** One startup exchange: command, attribute and optional payload. */
  datatype Step = Step(cmd: CommandType, attr: Attribute, payload: Option<seq<byte>>)

  /** The four replayed steps of `authenticate`. */
  function AuthSteps(): seq<Step>
  {
    [Step(Authenticate, Attribute.Unknown(0x0101), Some(AuthPayload1)),
     Step(Authenticate, Attribute.Unknown(0x0101), Some(AuthPayload2)),
     Step(Authenticate, Attribute.Unknown(0x0101), Some(AuthPayload3)),
     Step(Authenticate, Attribute.Unknown(0x0101), Some(AuthPayload4))]
  }

  /**
   * The exchanges `KM003C::new` performs after claiming the interface:
   * connect, the authentication replay when asked for, the recorder mode,
   * two information requests and a stream stop.
   */
  function StartupSteps(withAuth: bool): seq<Step>
  {
    [Step(Connect, NoAttribute, None)]
    + (if withAuth then AuthSteps() else [])
    + [Step(CommandWithPayload, Attribute.Unknown(0x0200), Some(SetRecorderModePayload)),
       Step(GetData, GetDeviceInfoAttr, None),
       Step(GetData, Attribute.Unknown(0x0400), None),
       Step(StopStream, NoAttribute, None)]
  }

  /**
   * The startup sequence is five exchanges, nine with authentication; it
   * begins with a connect and ends with a stream stop, and exactly one of
   * its exchanges, the recorder mode, waits for response id 0.
   */
  lemma StartupShape(withAuth: bool)
    ensures var s := StartupSteps(withAuth);
      && |s| == (if withAuth then 9 else 5)
      && s[0].cmd == Connect && s[|s| - 1].cmd == StopStream
      && (withAuth ==> s[1..5] == AuthSteps())
      && var k := if withAuth then 5 else 1;
         AnsweredWithIdZero(s[k].cmd, s[k].attr)
         && forall i | 0 <= i < |s| && i != k :: !AnsweredWithIdZero(s[i].cmd, s[i].attr)
  {
  }

  /** `KM003C` of the top-level crate: only its counter is state here. */
  class Km003cLegacy {
    var transactionId: byte

    /** The counter starts at 0; the first id handed out is 1. */
    constructor ()
      ensures transactionId == 0
    {
      transactionId := 0;
    }

    /** `next_id`: increments first (wrapping), then returns the new value. */
    method NextId() returns (id: byte)
      modifies this
      ensures transactionId == (old(transactionId) + 1) % 256
      ensures id == transactionId
    {
      transactionId := (transactionId + 1) % 256;
      id := transactionId;
    }

    /**
     * The sending half of `transact_and_discard`: one id is taken, the
     * command bytes are built with it, and the id to wait for is chosen
     * (0 for the recorder-mode exchange, otherwise the id just taken).
     */
    method TransactRequest(cmd: CommandType, attr: Attribute, payload: Option<seq<byte>>)
      returns (sent: seq<byte>, expectedId: byte)
      modifies this
      ensures transactionId == (old(transactionId) + 1) % 256
      ensures sent == CommandBytes(transactionId, cmd, attr, payload)
      ensures expectedId == (if AnsweredWithIdZero(cmd, attr) then 0 else transactionId)
    {
      var id := NextId();
      sent := BuildCommandBytes(id, cmd, attr, payload);
      expectedId := if AnsweredWithIdZero(cmd, attr) then 0 else id;
    }
    /**
     * A series of `transact_and_discard` calls: each step takes the next id,
     * and waits for that id unless it is the recorder-mode exchange, which
     * waits for 0.
     */
    method RunSteps(steps: seq<Step>) returns (sent: seq<seq<byte>>, expected: seq<byte>)
      modifies this
      ensures |sent| == |expected| == |steps|
      ensures transactionId == (old(transactionId) + |steps|) % 256
      ensures forall i | 0 <= i < |steps| ::
        && sent[i] == CommandBytes((old(transactionId) + i + 1) % 256, steps[i].cmd, steps[i].attr, steps[i].payload)
        && expected[i] == (if AnsweredWithIdZero(steps[i].cmd, steps[i].attr) then 0
                           else (old(transactionId) + i + 1) % 256)
    {
      ghost var start := transactionId;
      sent, expected := [], [];
      var i := 0;
      while i < |steps|
        invariant 0 <= i <= |steps|
        invariant |sent| == |expected| == i
        invariant transactionId == (start + i) % 256
        invariant forall j | 0 <= j < i ::
          && sent[j] == CommandBytes((start + j + 1) % 256, steps[j].cmd, steps[j].attr, steps[j].payload)
          && expected[j] == (if AnsweredWithIdZero(steps[j].cmd, steps[j].attr) then 0 else (start + j + 1) % 256)
      {
        WrapStep(start + i);
        var bytes, id := TransactRequest(steps[i].cmd, steps[i].attr, steps[i].payload);
        assert transactionId == (start + i + 1) % 256;
        sent, expected := sent + [bytes], expected + [id];
        i := i + 1;
      }
    }

    /** The sending side of `KM003C::new` once the interface is claimed. */
    method Startup(withAuth: bool) returns (sent: seq<seq<byte>>, expected: seq<byte>)
      modifies this
      ensures |sent| == |expected| == |StartupSteps(withAuth)|
      ensures transactionId == (old(transactionId) + |StartupSteps(withAuth)|) % 256
      ensures forall i | 0 <= i < |StartupSteps(withAuth)| ::
        var st := StartupSteps(withAuth)[i];
        && sent[i] == CommandBytes((old(transactionId) + i + 1) % 256, st.cmd, st.attr, st.payload)
        && expected[i] == (if AnsweredWithIdZero(st.cmd, st.attr) then 0 else (old(transactionId) + i + 1) % 256)
    {
      sent, expected := RunSteps(StartupSteps(withAuth));
    }

    /**
     * `poll_sensor_data` once the responses are collected: a
     * `GetData`/`AdcQueue` exchange, whose relevant responses are searched
     * for the first sensor record.
     */
    method PollSensorData(responses: seq<Packet>) returns (sent: seq<byte>, r: Option<SensorDataPacket>)
      modifies this
      ensures transactionId == (old(transactionId) + 1) % 256
      ensures sent == CommandBytes(transactionId, GetData, AdcQueue, None)
      ensures r == FirstSensorData(RelevantResponses(responses, transactionId))
    {
      var expectedId;
      sent, expectedId := TransactRequest(GetData, AdcQueue, None);
      r := FirstSensorData(RelevantResponses(responses, expectedId));
    }
  }

  /** Incrementing the wrapped counter is wrapping the incremented count. */
  lemma WrapStep(n: int)
    ensures (n % 256 + 1) % 256 == (n + 1) % 256
  {
  }

  /** `build_command_bytes`: appends type and id, the attribute, then the payload. */
  method BuildCommandBytes(id: byte, cmd: CommandType, attr: Attribute, payload: Option<seq<byte>>)
    returns (command: seq<byte>)
    ensures command == CommandBytes(id, cmd, attr, payload)
    ensures |command| >= 4 && command[1] == id
  {
    command := [];
    command := command + [CommandCode(cmd), id];
    command := command + U16Le(AttributeCode(attr));
    if payload.Some? {
      command := command + payload.value;
    }
  }

  /** The first id after construction is 1, and after 255 the counter wraps to 0. */
  method FirstIds() returns (first: byte, wrapped: byte)
    ensures first == 1 && wrapped == 0
  {
    var d := new Km003cLegacy();
    first := d.NextId();
    d.transactionId := 254;
    var _ := d.NextId();
    wrapped := d.NextId();
  }

  // ---------------------------------------------------------------------
  // Response filtering
  // ---------------------------------------------------------------------

  /**
   * The relevance test of `read_all_responses`: data chunks always; an
   * acknowledgement, generic response or sensor record only with the
   * expected id; nothing else. A sensor record's id is taken to be byte 1
   * of its header, its `transactionId`.
   */
  predicate IsRelevant(p: Packet, expectedId: byte)
  {
    match p
    case DataChunk(_) => true
    case Acknowledge(header, _) => header.transactionId == expectedId
    case GenericResponse(header, _) => header.transactionId == expectedId
    case SensorData(sd) => sd.header.transactionId == expectedId
    case _ => false
  }

  /** `filter(..).collect()` over the collected responses. */
  function RelevantResponses(ps: seq<Packet>, expectedId: byte): (r: seq<Packet>)
    ensures |r| <= |ps|
    ensures forall p | p in r :: p in ps && IsRelevant(p, expectedId)
    ensures forall p | p in ps && IsRelevant(p, expectedId) :: p in r
  {
    if |ps| == 0 then []
    else (if IsRelevant(ps[0], expectedId) then [ps[0]] else []) + RelevantResponses(ps[1..], expectedId)
  }

  /** The filter keeps arrival order: responses read later come after those read earlier. */
  lemma {:induction false} RelevantResponsesAppend(a: seq<Packet>, b: seq<Packet>, expectedId: byte)
    ensures RelevantResponses(a + b, expectedId) == RelevantResponses(a, expectedId) + RelevantResponses(b, expectedId)
  {
    if |a| > 0 {
      assert (a + b)[1..] == a[1..] + b;
      RelevantResponsesAppend(a[1..], b, expectedId);
    } else {
      assert a + b == b;
    }
  }

  /** The first sensor record among the responses, as `poll_sensor_data` returns it. */
  function FirstSensorData(ps: seq<Packet>): (r: Option<SensorDataPacket>)
    ensures r.None? <==> forall i | 0 <= i < |ps| :: !ps[i].SensorData?
    ensures r.Some? ==> exists i | 0 <= i < |ps| :: ps[i] == SensorData(r.value)
                                                     && forall j | 0 <= j < i :: !ps[j].SensorData?
  {
    if |ps| == 0 then None
    else if ps[0].SensorData? then Some(ps[0].sensor)
    else
      var r := FirstSensorData(ps[1..]);
      if r.Some? then
        var i :| 0 <= i < |ps[1..]| && ps[1..][i] == SensorData(r.value) && forall j | 0 <= j < i :: !ps[1..][j].SensorData?;
        assert ps[i + 1] == SensorData(r.value);
        assert forall j | 0 <= j < i + 1 :: !ps[j].SensorData? by {
          forall j | 0 <= j < i + 1 ensures !ps[j].SensorData? {
            if j > 0 {
              assert ps[j] == ps[1..][j - 1];
            }
          }
        }
        r
      else
        assert forall i | 1 <= i < |ps| :: ps[i] == ps[1..][i - 1];
        r
  }

  /** A polled record always carries the id of the poll that asked for it. */
  lemma PolledRecordMatchesId(responses: seq<Packet>, expectedId: byte)
    ensures var r := FirstSensorData(RelevantResponses(responses, expectedId));
      r.Some? ==> r.value.header.transactionId == expectedId && SensorData(r.value) in responses
  {
    var rel := RelevantResponses(responses, expectedId);
    var r := FirstSensorData(rel);
    if r.Some? {
      var i :| 0 <= i < |rel| && rel[i] == SensorData(r.value);
      assert rel[i] in rel;
    }
  }
}
