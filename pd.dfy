/**
 * The PD event stream (pd.rs): records of variable length, each chosen by
 * its first byte, read back to back until one does not fit.
 */
module Pd {
  import opened Wrappers
  import opened Bytes

  datatype PdDirection = SrcToSnk | SnkToSrc | Unknown

  /** `ConnectionEvent`: attach or detach on a CC pin. */
  datatype ConnectionEvent = ConnectionEvent(timestamp: nat, ccPin: byte, action: byte)

  /** `StatusPacket`: the periodic VBUS/IBUS/CC readings. */
  datatype StatusPacket = StatusPacket(timestamp: nat, vbusRaw: u16, ibusRaw: u16, cc1Raw: u16, cc2Raw: u16, typeId: byte)

  /** `WrappedPdMessage`: a USB PD message with the wrapper's direction and timestamp. */
  datatype WrappedPdMessage = WrappedPdMessage(direction: PdDirection, timestamp: nat, pdBytes: seq<byte>, wrapperFlags: byte)

  datatype EventPacket =
    | Connection(connection: ConnectionEvent)
    | Status(status: StatusPacket)
    | PdMessage(message: WrappedPdMessage)

  const ConnectionTag: byte := 0x45
  const ConnectionEventSize: nat := 6
  const StatusPacketSize: nat := 12
  /** The wrapper in front of a PD message: tag, 24-bit timestamp and two more bytes. */
  const PdWrapperSize: nat := 6

  predicate IsPdMessageTag(tag: byte)
  {
    0x80 <= tag <= 0x9F
  }

  /**
   * Number of Data Objects: bits 14..12 of the USB PD message header
   * (section 6.2.1.1 of the USB Power Delivery specification), read as
   * `(header >> 12) & 0x07`.
   */
  function NumDataObjects(pdHeader: u16): (n: nat)
    ensures n < 8
  {
    (pdHeader / 0x1000) % 8
  }

  /** The bytes a wrapped PD message takes: wrapper, 2-byte PD header, four bytes per data object. */
  function PdRecordLength(pdHeader: u16): (len: nat)
    ensures 8 <= len <= 36
  {
    PdWrapperSize + 2 + NumDataObjects(pdHeader) * 4
  }

  function Timestamp(input: seq<byte>): (t: nat)
    requires |input| >= 4
    ensures t < 0x100_0000
  {
    LeU24(input, 1)
  }

  function EventTimestamp(e: EventPacket): nat
  {
    match e
    case Connection(c) => c.timestamp
    case Status(s) => s.timestamp
    case PdMessage(m) => m.timestamp
  }

  /**
   * `parse_event_packet`: the record at the start of `input` and the number
   * of bytes it takes, or None if `input` is empty or too short for it.
   */
  function ParseEventPacket(input: seq<byte>): (r: Option<(EventPacket, nat)>)
    ensures |input| == 0 ==> r.None?
    ensures r.Some? ==> 6 <= r.value.1 <= |input| && EventTimestamp(r.value.0) == LeU24(input, 1)
    ensures r.Some? && r.value.0.PdMessage? ==> r.value.0.message.direction != Unknown
  {
    if |input| == 0 then None
    else
      var first := input[0];
      if first == ConnectionTag then
        if |input| < ConnectionEventSize then None
        else
          var eventData := input[5];
          Some((Connection(ConnectionEvent(Timestamp(input), eventData / 0x10, eventData % 0x10)), ConnectionEventSize))
      else if IsPdMessageTag(first) then
        if |input| < 8 then None
        else
          var direction := if (first / 4) % 2 == 1 then SrcToSnk else SnkToSrc;
          var totalLen := PdRecordLength(LeU16(input, 6));
          if |input| < totalLen then None
          else Some((PdMessage(WrappedPdMessage(direction, Timestamp(input), input[6..totalLen], first)), totalLen))
      else
        if |input| < StatusPacketSize then None
        else
          Some((Status(StatusPacket(Timestamp(input), LeU16(input, 4), LeU16(input, 6), LeU16(input, 8), LeU16(input, 10), first)),
                StatusPacketSize))
  }

  /** A connection event takes exactly 6 bytes; its high nibble is the CC pin and its low nibble the action, byte 4 unused. */
  lemma ConnectionEventLayout(input: seq<byte>)
    requires |input| >= 1 && input[0] == ConnectionTag
    ensures ParseEventPacket(input).Some? <==> |input| >= 6
    ensures ParseEventPacket(input).Some? ==>
      var (e, consumed) := ParseEventPacket(input).value;
      && consumed == 6 && e.Connection?
      && e.connection.ccPin < 16 && e.connection.action < 16
      && e.connection.ccPin * 16 + e.connection.action == input[5]
  {
  }

  /**
   * A wrapped PD message needs 8 bytes to read its header, then takes 8 +
   * 4 * (Number of Data Objects) bytes; its PD bytes are everything after
   * the 6-byte wrapper, and the direction is bit 2 of the tag.
   */
  lemma PdMessageLayout(input: seq<byte>)
    requires |input| >= 1 && IsPdMessageTag(input[0])
    ensures |input| < 8 ==> ParseEventPacket(input).None?
    ensures |input| >= 8 ==>
      var len := 8 + 4 * NumDataObjects(LeU16(input, 6));
      && (ParseEventPacket(input).Some? <==> |input| >= len)
      && (ParseEventPacket(input).Some? ==>
            var (e, consumed) := ParseEventPacket(input).value;
            && consumed == len && e.PdMessage?
            && e.message.pdBytes == input[6..len]
            && |e.message.pdBytes| == 2 + 4 * NumDataObjects(LeU16(e.message.pdBytes, 0))
            && e.message.wrapperFlags == input[0]
            && (e.message.direction == SrcToSnk <==> (input[0] / 4) % 2 == 1))
  {
    if |input| >= 8 {
      var len := 8 + 4 * NumDataObjects(LeU16(input, 6));
      if |input| >= len {
        assert input[6..len][0] == input[6] && input[6..len][1] == input[7];
      }
    }
  }

  /** Any other tag starts a 12-byte status record of four u16 readings at 4, 6, 8 and 10. */
  lemma StatusLayout(input: seq<byte>)
    requires |input| >= 1 && input[0] != ConnectionTag && !IsPdMessageTag(input[0])
    ensures ParseEventPacket(input).Some? <==> |input| >= 12
    ensures ParseEventPacket(input).Some? ==>
      ParseEventPacket(input).value == (Status(StatusPacket(LeU24(input, 1), LeU16(input, 4), LeU16(input, 6),
                                                            LeU16(input, 8), LeU16(input, 10), input[0])), 12)
  {
  }

  /** The records of a stream, from offset 0 until the input ends or a record does not fit. */
  function EventStream(input: seq<byte>): seq<EventPacket>
    decreases |input|
  {
    if |input| == 0 then []
    else
      match ParseEventPacket(input)
      case None => []
      case Some((pkt, consumed)) => [pkt] + EventStream(input[consumed..])
  }

  /** The bytes left over when the stream stops. */
  function StreamRest(input: seq<byte>): (rest: seq<byte>)
    ensures |rest| <= |input| && rest == input[|input| - |rest|..]
    ensures rest == [] || ParseEventPacket(rest).None?
    decreases |input|
  {
    if |input| == 0 then []
    else
      match ParseEventPacket(input)
      case None => input
      case Some((_, consumed)) =>
        var rest := StreamRest(input[consumed..]);
        assert input[consumed..][|input[consumed..]| - |rest|..] == input[|input| - |rest|..];
        rest
  }

  /**
   * `parse_event_stream` as the source runs it: a loop that advances over
   * the input and appends each record, stopping at the first that does not
   * fit and dropping what is left.
   */
  method ParseEventStream(input: seq<byte>) returns (packets: seq<EventPacket>)
    ensures packets == EventStream(input)
  {
    packets := [];
    var remaining := input;
    while |remaining| != 0
      invariant packets + EventStream(remaining) == EventStream(input)
      decreases |remaining|
    {
      var parsed := ParseEventPacket(remaining);
      if parsed.None? {
        break;
      }
      var (pkt, consumed) := parsed.value;
      packets := packets + [pkt];
      remaining := remaining[consumed..];
    }
  }

  /** Every record of the stream takes at least 6 bytes, so there are at most |input| / 6 of them. */
  lemma {:induction false} StreamBounded(input: seq<byte>)
    ensures 6 * |EventStream(input)| + |StreamRest(input)| <= |input|
    decreases |input|
  {
    if |input| != 0 && ParseEventPacket(input).Some? {
      var consumed := ParseEventPacket(input).value.1;
      StreamBounded(input[consumed..]);
    }
  }

  /** Appending bytes after a stream that parsed to the end keeps its records and reads on from there. */
  lemma {:induction false} StreamConcat(a: seq<byte>, b: seq<byte>)
    requires StreamRest(a) == []
    ensures EventStream(a + b) == EventStream(a) + EventStream(b)
    decreases |a|, 1
  {
    if |a| == 0 {
      assert a + b == b;
    } else {
      StreamConcatStep(a, b);
    }
  }

  /** The inductive step of `StreamConcat`: peel the first record off `a`. */
  lemma {:induction false} StreamConcatStep(a: seq<byte>, b: seq<byte>)
    requires |a| != 0 && StreamRest(a) == []
    ensures EventStream(a + b) == EventStream(a) + EventStream(b)
    decreases |a|, 0
  {
    var pkt, tail := StreamSplit(a, b);
    StreamConcat(tail, b);
    ConsAppend(pkt, EventStream(a + b), EventStream(tail + b), EventStream(tail), EventStream(b), EventStream(a));
  }

  /** Reassociating a record in front of two concatenated streams. */
  lemma ConsAppend(x: EventPacket, xsYs: seq<EventPacket>, tailYs: seq<EventPacket>, tail: seq<EventPacket>,
                   ys: seq<EventPacket>, xs: seq<EventPacket>)
    requires xsYs == [x] + tailYs && tailYs == tail + ys && xs == [x] + tail
    ensures xsYs == xs + ys
  {
  }

  /** The first record of a stream that parsed to the end, and what follows it, with or without bytes appended. */
  lemma StreamSplit(a: seq<byte>, b: seq<byte>) returns (pkt: EventPacket, tail: seq<byte>)
    requires |a| != 0 && StreamRest(a) == []
    ensures |tail| < |a| && StreamRest(tail) == []
    ensures EventStream(a) == [pkt] + EventStream(tail)
    ensures EventStream(a + b) == [pkt] + EventStream(tail + b)
  {
    var consumed;
    pkt, consumed := ParseEventPacket(a).value.0, ParseEventPacket(a).value.1;
    tail := a[consumed..];
    ParsePrefixStable(a, b);
    assert (a + b)[consumed..] == tail + b;
    StreamStep(a + b);
    StreamStep(a);
  }

  lemma StreamStep(x: seq<byte>)
    requires ParseEventPacket(x).Some?
    ensures EventStream(x) == [ParseEventPacket(x).value.0] + EventStream(x[ParseEventPacket(x).value.1..])
  {
  }

  /** A record that parses from `a` parses the same from `a` followed by anything. */
  lemma ParsePrefixStable(a: seq<byte>, b: seq<byte>)
    requires ParseEventPacket(a).Some?
    ensures ParseEventPacket(a + b) == ParseEventPacket(a)
  {
    var ab := a + b;
    assert ab[..|a|] == a;
    var consumed := ParseEventPacket(a).value.1;
    assert ab[0] == a[0] && ab[1] == a[1] && ab[2] == a[2] && ab[3] == a[3] && ab[5] == a[5];
    if a[0] != ConnectionTag && |a| >= 12 {
      assert ab[4] == a[4] && ab[6] == a[6] && ab[7] == a[7] && ab[8] == a[8] && ab[9] == a[9];
      assert ab[10] == a[10] && ab[11] == a[11];
    }
    if IsPdMessageTag(a[0]) {
      assert ab[6] == a[6] && ab[7] == a[7];
      assert ab[6..consumed] == a[6..consumed];
    }
  }

  /** A connection event followed by a one-byte fragment: one record, and the fragment is dropped. */
  lemma ConnectionThenFragment()
    ensures EventStream([0x45, 0x10, 0x00, 0x00, 0x00, 0x21, 0x45]) ==
      [Connection(ConnectionEvent(0x10, 2, 1))]
    ensures StreamRest([0x45, 0x10, 0x00, 0x00, 0x00, 0x21, 0x45]) == [0x45]
  {
    var b: seq<byte> := [0x45, 0x10, 0x00, 0x00, 0x00, 0x21, 0x45];
    assert b[6..] == [0x45];
  }
}
