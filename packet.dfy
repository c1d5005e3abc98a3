/**
 * Framing of km003c-lib (packet.rs): the three 32-bit headers, the
 * classification of a received frame into `RawPacket`, the walk over the
 * chain of logical packets inside a PutData frame, and the serialiser.
 *
 * A main header is kept as its four raw bytes, exactly as
 * `CtrlHeader::from_bytes` / `DataHeader::from_bytes` keep them (skipped bits
 * included); its fields are read through the bit layout that
 * `modular_bitfield` gives them, least significant bit first over the
 * little-endian 32-bit word.
 */
module Packet {
  import opened Wrappers
  import opened Bytes
  import opened Errors
  import Attributes

  const MainHeaderSize: nat := 4
  const ExtendedHeaderSize: nat := 4

  // `PacketType` codes; any other 7-bit value is `Unknown(v)`.
  const Sync: nat := 0x01
  const Connect: nat := 0x02
  const Disconnect: nat := 0x03
  const Reset: nat := 0x04
  const Accept: nat := 0x05
  const Rejected: nat := 0x06
  const Finished: nat := 0x07
  const JumpAprom: nat := 0x08
  const JumpDfu: nat := 0x09
  const GetStatus: nat := 0x0A
  const ErrorType: nat := 0x0B
  const GetData: nat := 0x0C
  const GetFile: nat := 0x0D
  const StartGraph: nat := 0x0E
  const StopGraph: nat := 0x0F
  const Unknown26: nat := 26
  const Unknown44: nat := 44
  const Unknown58: nat := 58
  const Head: nat := 64
  const PutData: nat := 65
  const Unknown68: nat := 68
  const Unknown76: nat := 76
  const Unknown117: nat := 117

  /** `PacketType::is_ctrl_type`: control types are those below 0x40. */
  predicate IsCtrlType(t: nat)
  {
    t < 0x40
  }

  type HeaderBytes = h: seq<byte> | |h| == 4 witness [0, 0, 0, 0]

  // The bitfields number bits from the least significant bit of the
  // little-endian 32-bit word, so each field is read from the bytes that
  // hold it.

  /** Bits 0..6 of a CtrlHeader or DataHeader: the low seven bits of byte 0. */
  function PacketTypeOf(h: HeaderBytes): nat
  {
    h[0] % 0x80
  }

  /** Bit 7 of a CtrlHeader or DataHeader: the top bit of byte 0. */
  predicate ReservedFlag(h: HeaderBytes)
  {
    h[0] >= 0x80
  }

  /** Bits 8..15 of a CtrlHeader or DataHeader: byte 1. */
  function Id(h: HeaderBytes): byte
  {
    h[1]
  }

  /** Bits 17..31 of a CtrlHeader (bit 16 is skipped): the u16 of bytes 2..3 without its low bit. */
  function CtrlAttribute(h: HeaderBytes): u16
  {
    LeU16(h, 2) / 2
  }

  /** Bits 22..31 of a DataHeader (bits 16..21 are skipped): the u16 of bytes 2..3 without its low six bits. */
  function ObjCountWords(h: HeaderBytes): nat
  {
    LeU16(h, 2) / 0x40
  }

  /**
   * The four bytes of a CtrlHeader built with `CtrlHeader::new()` and the
   * `with_*` setters; the skipped bit 16 stays 0. The setters panic on
   * out-of-range values, hence the bounds.
   */
  function CtrlHeaderBytes(packetType: nat, reserved: bool, id: byte, attribute: nat): (h: HeaderBytes)
    requires packetType < 0x80 && attribute < 0x8000
    ensures PacketTypeOf(h) == packetType && ReservedFlag(h) == reserved
    ensures Id(h) == id && CtrlAttribute(h) == attribute
    ensures LeU16(h, 2) % 2 == 0
  {
    [packetType + (if reserved then 0x80 else 0), id, (2 * attribute) % 0x100, (2 * attribute) / 0x100]
  }

  /** The fields of an ExtendedHeader: attribute bits 0..14, next bit 15, chunk bits 16..21, size bits 22..31. */
  datatype ExtendedHeader = ExtendedHeader(attribute: nat, next: bool, chunk: nat, size: nat)

  /** The ranges the bitfield setters accept. */
  predicate ValidExtended(e: ExtendedHeader)
  {
    e.attribute < 0x8000 && e.chunk < 0x40 && e.size < 0x400
  }

  /** `ExtendedHeader::from_bytes` followed by its getters. */
  function DecodeExtended(b: seq<byte>): (e: ExtendedHeader)
    requires |b| == 4
    ensures ValidExtended(e)
  {
    ExtendedHeader(LeU16(b, 0) % 0x8000, b[1] >= 0x80, b[2] % 0x40, LeU16(b, 2) / 0x40)
  }

  /** `ExtendedHeader::new().with_attribute(..).with_next(..).with_chunk(..).with_size(..).into_bytes()`. */
  function EncodeExtended(e: ExtendedHeader): (b: seq<byte>)
    requires ValidExtended(e)
    ensures |b| == 4
  {
    [e.attribute % 0x100, e.attribute / 0x100 + (if e.next then 0x80 else 0),
     e.chunk + 0x40 * (e.size % 4), e.size / 4]
  }

  lemma DecodeEncodeExtended(e: ExtendedHeader)
    requires ValidExtended(e)
    ensures DecodeExtended(EncodeExtended(e)) == e
  {
    var b := EncodeExtended(e);
    assert LeU16(b, 0) == e.attribute + (if e.next then 0x8000 else 0);
    assert LeU16(b, 2) == e.chunk + 0x40 * e.size;
  }

  lemma EncodeDecodeExtended(b: seq<byte>)
    requires |b| == 4
    ensures EncodeExtended(DecodeExtended(b)) == b
  {
    var e := DecodeExtended(b);
    assert e.attribute == b[0] as int + 0x100 * (b[1] as int % 0x80);
    assert e.size == b[2] as int / 0x40 + 4 * b[3] as int;
  }

  /** One element of a PutData chain. */
  datatype LogicalPacket = LogicalPacket(attribute: u16, next: bool, chunk: byte, size: u16, payload: seq<byte>)

  datatype RawPacket =
    | Ctrl(header: HeaderBytes, payload: seq<byte>)
    | SimpleData(header: HeaderBytes, payload: seq<byte>)
    | Data(header: HeaderBytes, logicalPackets: seq<LogicalPacket>)

  /** A parsed chain and the bytes after its final logical packet. */
  datatype Chain = Chain(packets: seq<LogicalPacket>, rest: seq<byte>)

  /** The element's header fields fit their bitfields. */
  predicate WellFormedLogical(lp: LogicalPacket)
  {
    lp.attribute < 0x8000 && lp.chunk < 0x40 && lp.size < 0x400
  }

  predicate AllWellFormed(lps: seq<LogicalPacket>)
  {
    forall i | 0 <= i < |lps| :: WellFormedLogical(lps[i])
  }

  /** The one element whose payload is everything left, whatever its size says. */
  predicate TakesRest(lp: LogicalPacket)
  {
    !lp.next && lp.attribute == Attributes.AdcQueue
  }

  /**
   * The shape every successfully parsed chain has: non-empty, `next` set on
   * every element but the last, each payload exactly `size` bytes except
   * that of a final AdcQueue element.
   */
  predicate Chained(lps: seq<LogicalPacket>)
  {
    && |lps| >= 1
    && AllWellFormed(lps)
    && (forall i | 0 <= i < |lps| :: lps[i].next == (i < |lps| - 1))
    && (forall i | 0 <= i < |lps| :: lps[i].size == |lps[i].payload| || TakesRest(lps[i]))
  }

  function ExtendedOf(lp: LogicalPacket): ExtendedHeader
  {
    ExtendedHeader(lp.attribute, lp.next, lp.chunk, lp.size)
  }

  /**
   * One turn of the loop of `RawPacket::try_from`: read a 4-byte extended
   * header, then take `size` bytes, or everything left for a final AdcQueue
   * element. It fails exactly when the extended header is cut short or
   * fewer than `size` bytes remain for an element that does not take the
   * rest.
   */
  function ReadElement(payload: seq<byte>): (r: Result<(LogicalPacket, seq<byte>), KmError>)
    ensures |payload| < ExtendedHeaderSize ==> r == Err(InvalidPacket(ExtendedHeaderTooShort(|payload|)))
    ensures |payload| >= ExtendedHeaderSize ==>
      var e := DecodeExtended(payload[..4]);
      && (r.Err? <==> !(!e.next && e.attribute == Attributes.AdcQueue) && |payload| - 4 < e.size)
      && (r.Err? ==> r.error == InvalidPacket(PayloadTooShort(e.size, |payload| - 4)))
      && (r.Ok? ==> ExtendedOf(r.value.0) == e)
    ensures r.Ok? ==> var (lp, rest) := r.value;
      && WellFormedLogical(lp)
      && (lp.size == |lp.payload| || TakesRest(lp))
      && (TakesRest(lp) ==> rest == [])
      && EncodeExtended(ExtendedOf(lp)) + lp.payload + rest == payload
  {
    if |payload| < ExtendedHeaderSize then
      Err(InvalidPacket(ExtendedHeaderTooShort(|payload|)))
    else
      var ext := DecodeExtended(payload[..4]);
      EncodeDecodeExtended(payload[..4]);
      var body := payload[4..];
      assert payload == payload[..4] + body;
      if !ext.next && ext.attribute == Attributes.AdcQueue then
        Ok((LogicalPacket(ext.attribute, false, ext.chunk, ext.size, body), []))
      else if |body| < ext.size then
        Err(InvalidPacket(PayloadTooShort(ext.size, |body|)))
      else
        assert body == body[..ext.size] + body[ext.size..];
        Ok((LogicalPacket(ext.attribute, ext.next, ext.chunk, ext.size, body[..ext.size]), body[ext.size..]))
  }

  /** Reading an element back from its own bytes. */
  lemma ReadElementOfBytes(lp: LogicalPacket, rest: seq<byte>)
    requires WellFormedLogical(lp)
    requires if TakesRest(lp) then rest == [] else lp.size == |lp.payload|
    ensures ReadElement(EncodeExtended(ExtendedOf(lp)) + lp.payload + rest) == Ok((lp, rest))
  {
    var b := EncodeExtended(ExtendedOf(lp)) + lp.payload + rest;
    DecodeEncodeExtended(ExtendedOf(lp));
    assert b[..4] == EncodeExtended(ExtendedOf(lp));
    assert b[4..] == lp.payload + rest;
    assert DecodeExtended(b[..4]) == ExtendedOf(lp);
    if TakesRest(lp) {
      assert b[4..] == lp.payload;
    } else {
      assert (lp.payload + rest)[..lp.size] == lp.payload;
      assert (lp.payload + rest)[lp.size..] == rest;
    }
  }

  /** Prefixes already-parsed packets to the result of parsing the rest. */
  function Continue(done: seq<LogicalPacket>, r: Result<Chain, KmError>): Result<Chain, KmError>
  {
    match r
    case Err(e) => Err(e)
    case Ok(c) => Ok(Chain(done + c.packets, c.rest))
  }

  lemma ContinueNothing(r: Result<Chain, KmError>)
    ensures Continue([], r) == r
  {
    if r.Ok? {
      assert [] + r.value.packets == r.value.packets;
    }
  }

  lemma ContinueAppend(done: seq<LogicalPacket>, more: seq<LogicalPacket>, r: Result<Chain, KmError>)
    ensures Continue(done, Continue(more, r)) == Continue(done + more, r)
  {
    if r.Ok? {
      assert done + (more + r.value.packets) == (done + more) + r.value.packets;
    }
  }

  /** The chain walk of `RawPacket::try_from`: read elements until one has its `next` bit clear. */
  function ParseChain(payload: seq<byte>): (r: Result<Chain, KmError>)
    ensures r.Ok? ==> Chained(r.value.packets)
    ensures r.Ok? && TakesRest(r.value.packets[|r.value.packets| - 1]) ==> r.value.rest == []
    decreases |payload|
  {
    match ReadElement(payload)
    case Err(e) => Err(e)
    case Ok((lp, rest)) =>
      if !lp.next then
        Ok(Chain([lp], rest))
      else
        var tail := ParseChain(rest);
        if tail.Ok? then
          var lps := tail.value.packets;
          assert forall i | 1 <= i < |[lp] + lps| :: ([lp] + lps)[i] == lps[i - 1];
          Continue([lp], tail)
        else
          Continue([lp], tail)
  }

  /**
   * `TryFrom<Bytes> for RawPacket`, with the bytes it silently drops: the
   * whole payload of a PutData frame whose object count is 0, or the bytes
   * after the final logical packet of a chain.
   */
  function ParseFrame(bytes: seq<byte>): Result<(RawPacket, seq<byte>), KmError>
  {
    if |bytes| < MainHeaderSize then
      Err(InvalidPacket(TooShortForHeader(|bytes|)))
    else
      var header: HeaderBytes := bytes[..4];
      var payload := bytes[4..];
      if IsCtrlType(bytes[0] % 0x80) then
        Ok((Ctrl(header, payload), []))
      else if PacketTypeOf(header) != PutData then
        Ok((SimpleData(header, payload), []))
      else if ObjCountWords(header) == 0 || |payload| == 0 then
        Ok((Data(header, []), payload))
      else if |payload| < ExtendedHeaderSize then
        Ok((SimpleData(header, payload), []))
      else
        match ParseChain(payload)
        case Err(e) => Err(e)
        case Ok(c) => Ok((Data(header, c.packets), c.rest))
  }

  /** `RawPacket::try_from`. */
  function Parse(bytes: seq<byte>): Result<RawPacket, KmError>
  {
    match ParseFrame(bytes)
    case Err(e) => Err(e)
    case Ok(pd) => Ok(pd.0)
  }

  /** `RawPacket::try_from` as the source runs it: a loop over the shrinking PutData payload. */
  method TryFrom(bytes: seq<byte>) returns (r: Result<RawPacket, KmError>)
    ensures r == Parse(bytes)
  {
    if |bytes| < MainHeaderSize {
      return Err(InvalidPacket(TooShortForHeader(|bytes|)));
    }
    var packageTypeByte := bytes[0] % 0x80;
    var isCtrlPacket := IsCtrlType(packageTypeByte);
    var header: HeaderBytes := bytes[..4];
    var payload := bytes[4..];
    if isCtrlPacket {
      return Ok(Ctrl(header, payload));
    }
    if PacketTypeOf(header) != PutData {
      return Ok(SimpleData(header, payload));
    }
    if ObjCountWords(header) == 0 || |payload| == 0 {
      return Ok(Data(header, []));
    }
    if |payload| < ExtendedHeaderSize {
      return Ok(SimpleData(header, payload));
    }
    var logicalPackets: seq<LogicalPacket> := [];
    ContinueNothing(ParseChain(payload));
    while true
      invariant ParseChain(bytes[4..]) == Continue(logicalPackets, ParseChain(payload))
      decreases |payload|
    {
      if |payload| < ExtendedHeaderSize {
        return Err(InvalidPacket(ExtendedHeaderTooShort(|payload|)));
      }
      var ext := DecodeExtended(payload[..4]);
      var payloadSize := ext.size;
      var hasNext := ext.next;
      var attribute := ext.attribute;
      var remaining := payload[4..];
      var logicalPayload;
      if !hasNext && attribute == Attributes.AdcQueue {
        logicalPayload := remaining;
        remaining := [];
      } else {
        if |remaining| < payloadSize {
          return Err(InvalidPacket(PayloadTooShort(payloadSize, |remaining|)));
        }
        logicalPayload := remaining[..payloadSize];
        remaining := remaining[payloadSize..];
      }
      var lp := LogicalPacket(attribute, hasNext, ext.chunk, ext.size, logicalPayload);
      assert ReadElement(payload) == Ok((lp, remaining));
      ContinueAppend(logicalPackets, [lp], ParseChain(remaining));
      logicalPackets := logicalPackets + [lp];
      payload := remaining;
      if !hasNext {
        break;
      }
    }
    return Ok(Data(header, logicalPackets));
  }

  /** What the serialiser accepts without panicking: every chain element's fields fit their bitfield. */
  predicate Serializable(p: RawPacket)
  {
    p.Data? ==> AllWellFormed(p.logicalPackets)
  }

  /** The concatenated (extended header ++ payload) of each chain element. */
  function ChainBytes(lps: seq<LogicalPacket>): seq<byte>
    requires AllWellFormed(lps)
  {
    if |lps| == 0 then []
    else
      assert WellFormedLogical(lps[0]);
      assert AllWellFormed(lps[1..]) by {
        assert forall i | 0 <= i < |lps| - 1 :: lps[1..][i] == lps[i + 1];
      }
      EncodeExtended(ExtendedOf(lps[0])) + lps[0].payload + ChainBytes(lps[1..])
  }

  /** `From<RawPacket> for Bytes`: the header bytes followed by the payload. */
  function Serialize(p: RawPacket): (b: seq<byte>)
    requires Serializable(p)
    ensures |b| >= MainHeaderSize && b[..4] == p.header
  {
    match p
    case Ctrl(h, payload) => h + payload
    case SimpleData(h, payload) => h + payload
    case Data(h, lps) => h + ChainBytes(lps)
  }

  /** `From<RawPacket> for Bytes` as the source runs it: extending `full_payload` element by element. */
  method IntoBytes(p: RawPacket) returns (message: seq<byte>)
    requires Serializable(p)
    ensures message == Serialize(p)
  {
    var payload: seq<byte>;
    match p {
      case Ctrl(_, pl) => payload := pl;
      case SimpleData(_, pl) => payload := pl;
      case Data(_, lps) =>
        var fullPayload: seq<byte> := [];
        var i := 0;
        while i < |lps|
          invariant 0 <= i <= |lps|
          invariant AllWellFormed(lps[i..])
          invariant fullPayload + ChainBytes(lps[i..]) == ChainBytes(lps)
        {
          assert lps[i..][1..] == lps[i + 1..];
          assert lps[i..][0] == lps[i];
          var ext := EncodeExtended(ExtendedOf(lps[i]));
          fullPayload := fullPayload + ext;
          fullPayload := fullPayload + lps[i].payload;
          i := i + 1;
        }
        payload := fullPayload;
    }
    message := p.header + payload;
  }

  /** The packets that parse back from their own serialisation: each variant as `try_from` would classify it. */
  predicate Reparses(p: RawPacket)
  {
    match p
    case Ctrl(h, _) => IsCtrlType(PacketTypeOf(h))
    case SimpleData(h, payload) =>
      !IsCtrlType(PacketTypeOf(h))
      && (PacketTypeOf(h) == PutData ==> ObjCountWords(h) != 0 && 0 < |payload| < ExtendedHeaderSize)
    case Data(h, lps) =>
      PacketTypeOf(h) == PutData && (lps != [] ==> ObjCountWords(h) != 0 && Chained(lps))
  }

  lemma {:induction false} ParseChainBytes(lps: seq<LogicalPacket>)
    requires Chained(lps)
    ensures ParseChain(ChainBytes(lps)) == Ok(Chain(lps, []))
    decreases |lps|
  {
    var lp := lps[0];
    var tail := lps[1..];
    assert WellFormedLogical(lp) && (lp.size == |lp.payload| || TakesRest(lp));
    if |lps| == 1 {
      assert !lp.next;
      assert ChainBytes(tail) == [];
      ReadElementOfBytes(lp, []);
      assert ChainBytes(lps) == EncodeExtended(ExtendedOf(lp)) + lp.payload + [];
      assert [lp] == lps;
    } else {
      assert forall i | 0 <= i < |tail| :: tail[i] == lps[i + 1];
      assert lp.next && !TakesRest(lp);
      ParseChainBytes(tail);
      ReadElementOfBytes(lp, ChainBytes(tail));
      assert [lp] + tail == lps;
    }
  }

  /** Parsing the serialisation of a packet gives the packet back. */
  lemma ParseSerialize(p: RawPacket)
    requires Reparses(p) && Serializable(p)
    ensures Parse(Serialize(p)) == Ok(p)
  {
    var b := Serialize(p);
    assert b[..4] == p.header;
    if p.Data? && p.logicalPackets != [] {
      ParseChainBytes(p.logicalPackets);
      assert b[4..] == ChainBytes(p.logicalPackets);
    } else {
      assert b[4..] == (if p.Data? then [] else p.payload);
    }
  }

  /** Serialising a parsed chain gives back the bytes it was read from, up to the dropped rest. */
  lemma {:induction false} ChainBytesOfParse(payload: seq<byte>)
    requires ParseChain(payload).Ok?
    ensures AllWellFormed(ParseChain(payload).value.packets)
    ensures ChainBytes(ParseChain(payload).value.packets) + ParseChain(payload).value.rest == payload
    decreases |payload|
  {
    var c := ParseChain(payload).value;
    var head, rest := ChainParseStep(payload);
    if c.packets[0].next {
      ChainBytesOfParse(rest);
    }
    JoinBytes(ChainBytes(c.packets), head, ChainBytes(c.packets[1..]), c.rest, rest, payload);
  }

  /** One turn of the chain loop, seen from its result: the first element's bytes, then the rest it read on from. */
  lemma ChainParseStep(payload: seq<byte>) returns (head: seq<byte>, rest: seq<byte>)
    requires ParseChain(payload).Ok?
    ensures var c := ParseChain(payload).value;
      && AllWellFormed(c.packets) && AllWellFormed(c.packets[1..])
      && head + rest == payload && |rest| < |payload|
      && ChainBytes(c.packets) == head + ChainBytes(c.packets[1..])
      && (c.packets[0].next ==>
            ParseChain(rest).Ok? && c.packets[1..] == ParseChain(rest).value.packets && c.rest == ParseChain(rest).value.rest)
      && (!c.packets[0].next ==> c.packets[1..] == [] && c.rest == rest)
  {
    var c := ParseChain(payload).value;
    var lp;
    lp, rest := ReadElement(payload).value.0, ReadElement(payload).value.1;
    head := EncodeExtended(ExtendedOf(lp)) + lp.payload;
    assert c.packets[0] == lp;
    if lp.next {
      assert c.packets[1..] == ParseChain(rest).value.packets;
    } else {
      assert c.packets[1..] == [];
    }
  }

  /** Reassembling a payload from the first element's bytes and the bytes of the rest of the chain. */
  lemma JoinBytes(whole: seq<byte>, head: seq<byte>, more: seq<byte>, dropped: seq<byte>, rest: seq<byte>,
                  payload: seq<byte>)
    requires whole == head + more && more + dropped == rest && head + rest == payload
    ensures whole + dropped == payload
  {
  }

  /**
   * Serialising a parsed frame gives the frame back, except for the bytes
   * `try_from` drops; a frame with nothing dropped round-trips exactly.
   */
  lemma SerializeParse(bytes: seq<byte>)
    requires ParseFrame(bytes).Ok?
    ensures Serializable(ParseFrame(bytes).value.0)
    ensures Serialize(ParseFrame(bytes).value.0) + ParseFrame(bytes).value.1 == bytes
  {
    var header := bytes[..4];
    var payload := bytes[4..];
    assert bytes == header + payload;
    if !IsCtrlType(bytes[0] % 0x80) && PacketTypeOf(header) == PutData
      && ObjCountWords(header) != 0 && |payload| >= ExtendedHeaderSize {
      ChainBytesOfParse(payload);
    }
  }

  /**
   * Bytes are dropped only from a PutData frame: its whole payload when
   * the object count is 0, or what follows a final element that does not
   * take the rest.
   */
  lemma DroppedOnlyAfterData(bytes: seq<byte>)
    requires ParseFrame(bytes).Ok? && ParseFrame(bytes).value.1 != []
    ensures ParseFrame(bytes).value.0.Data?
    ensures var lps := ParseFrame(bytes).value.0.logicalPackets;
      lps == [] || !TakesRest(lps[|lps| - 1])
  {
  }

  /** A PutData frame carrying one final element parses to that element, and what follows it is dropped. */
  lemma SingleElementFrame(h: HeaderBytes, lp: LogicalPacket, rest: seq<byte>)
    requires PacketTypeOf(h) == PutData && ObjCountWords(h) != 0
    requires WellFormedLogical(lp) && !lp.next
    requires if TakesRest(lp) then rest == [] else lp.size == |lp.payload|
    ensures ParseFrame(h + EncodeExtended(ExtendedOf(lp)) + lp.payload + rest) == Ok((Data(h, [lp]), rest))
    ensures Serialize(Data(h, [lp])) == h + EncodeExtended(ExtendedOf(lp)) + lp.payload
  {
    var ext := EncodeExtended(ExtendedOf(lp));
    var b := h + ext + lp.payload + rest;
    assert b[..4] == h && b[4..] == ext + lp.payload + rest;
    ReadElementOfBytes(lp, rest);
    assert ChainBytes([lp]) == ext + lp.payload + ChainBytes([]);
  }

  /**
   * A PutData frame whose single Adc element announces size 0 and is
   * followed by one more byte: the byte is dropped, so serialising the
   * parse gives a shorter frame.
   */
  lemma TrailingByteDropped()
    ensures var b: seq<byte> := [0x41, 0x00, 0x40, 0x00, 0x01, 0x00, 0x00, 0x00, 0xAA];
      && ParseFrame(b) == Ok((Data(b[..4], [LogicalPacket(Attributes.Adc, false, 0, 0, [])]), [0xAA]))
      && Serialize(Parse(b).value) == b[..8]
  {
    var h: HeaderBytes := [0x41, 0x00, 0x40, 0x00];
    var ext: seq<byte> := [0x01, 0x00, 0x00, 0x00];
    var b: seq<byte> := [0x41, 0x00, 0x40, 0x00, 0x01, 0x00, 0x00, 0x00, 0xAA];
    var lp := LogicalPacket(Attributes.Adc, false, 0, 0, []);
    TrailingFrameSplit(h, ext, b);
    TrailingFrameFields(h, ext, lp);
    SingleElementFrame(h, lp, [0xAA]);
  }

  /** The header and extended header of that frame, decoded. */
  lemma TrailingFrameFields(h: HeaderBytes, ext: seq<byte>, lp: LogicalPacket)
    requires h == [0x41, 0x00, 0x40, 0x00] && ext == [0x01, 0x00, 0x00, 0x00]
    requires lp == LogicalPacket(Attributes.Adc, false, 0, 0, [])
    ensures PacketTypeOf(h) == PutData && ObjCountWords(h) == 1
    ensures WellFormedLogical(lp) && !TakesRest(lp) && EncodeExtended(ExtendedOf(lp)) == ext
  {
  }

  /** How the frame of `TrailingByteDropped` splits into header, extended header and the extra byte. */
  lemma TrailingFrameSplit(h: seq<byte>, ext: seq<byte>, b: seq<byte>)
    requires h == [0x41, 0x00, 0x40, 0x00] && ext == [0x01, 0x00, 0x00, 0x00]
    requires b == [0x41, 0x00, 0x40, 0x00, 0x01, 0x00, 0x00, 0x00, 0xAA]
    ensures b == h + ext + [] + [0xAA] && b[..4] == h && b[..8] == h + ext + []
  {
  }

  /** Fewer than four bytes are refused and nothing is parsed. */
  lemma ShortFrameRejected(bytes: seq<byte>)
    requires |bytes| < MainHeaderSize
    ensures Parse(bytes) == Err(InvalidPacket(TooShortForHeader(|bytes|)))
  {
  }

  /**
   * Classification: a control type gives Ctrl and any type other than
   * PutData gives SimpleData, both keeping every byte after the header;
   * PutData with a zero object count or no payload gives an empty Data, and
   * PutData with 1..3 payload bytes gives SimpleData.
   */
  lemma Classification(bytes: seq<byte>)
    requires |bytes| >= MainHeaderSize
    ensures var h: HeaderBytes := bytes[..4];
      && (IsCtrlType(bytes[0] % 0x80) ==> Parse(bytes) == Ok(Ctrl(h, bytes[4..])))
      && (!IsCtrlType(bytes[0] % 0x80) && bytes[0] % 0x80 != PutData ==> Parse(bytes) == Ok(SimpleData(h, bytes[4..])))
      && (bytes[0] % 0x80 == PutData && (LeU16(bytes, 2) / 0x40 == 0 || |bytes| == 4) ==> Parse(bytes) == Ok(Data(h, [])))
      && (bytes[0] % 0x80 == PutData && LeU16(bytes, 2) / 0x40 != 0 && 4 < |bytes| < 8 ==> Parse(bytes) == Ok(SimpleData(h, bytes[4..])))
  {
    var h: HeaderBytes := bytes[..4];
    assert LeU16(h, 2) == LeU16(bytes, 2);
  }

  function PacketId(p: RawPacket): byte { Id(p.header) }

  function PacketType(p: RawPacket): nat { PacketTypeOf(p.header) }

  /** `get_attribute`: the attribute of a control packet. */
  function GetAttribute(p: RawPacket): (a: Option<u16>)
    ensures a.Some? <==> p.Ctrl?
  {
    if p.Ctrl? then Some(CtrlAttribute(p.header)) else None
  }

  /** `get_attribute_set`: the attribute of a control packet as a request mask. */
  function GetAttributeSet(p: RawPacket): (s: Option<Attributes.AttributeSet>)
    ensures s.Some? <==> p.Ctrl?
    ensures s.Some? ==> Attributes.Raw(s.value) == GetAttribute(p).value
  {
    if p.Ctrl? then Some(Attributes.FromRaw(CtrlAttribute(p.header))) else None
  }

  /** `logical_packets`: the chain of a Data packet. */
  function LogicalPackets(p: RawPacket): (lps: Option<seq<LogicalPacket>>)
    ensures lps.Some? <==> p.Data?
  {
    if p.Data? then Some(p.logicalPackets) else None
  }

  /** `is_empty_response`: a Data packet with no logical packets. */
  predicate IsEmptyResponse(p: RawPacket)
  {
    p.Data? && |p.logicalPackets| == 0
  }

  /** A parsed frame is an empty response iff it is PutData with a zero object count or no payload. */
  lemma EmptyResponseIff(bytes: seq<byte>)
    requires Parse(bytes).Ok?
    ensures IsEmptyResponse(Parse(bytes).value) <==>
      bytes[0] % 0x80 == PutData && (LeU16(bytes, 2) / 0x40 == 0 || |bytes| == 4)
  {
    var h: HeaderBytes := bytes[..4];
    assert LeU16(h, 2) == LeU16(bytes, 2);
  }

  /** The accessors of a parsed control frame read the header bytes. */
  lemma CtrlAccessors(bytes: seq<byte>)
    requires |bytes| >= MainHeaderSize && IsCtrlType(bytes[0] % 0x80)
    ensures Parse(bytes).Ok? && Parse(bytes).value.Ctrl?
    ensures PacketType(Parse(bytes).value) == bytes[0] % 0x80
    ensures PacketId(Parse(bytes).value) == bytes[1]
    ensures GetAttribute(Parse(bytes).value) == Some(LeU16(bytes, 2) / 2)
    ensures LogicalPackets(Parse(bytes).value) == None
  {
    var h: HeaderBytes := bytes[..4];
    assert LeU16(h, 2) == LeU16(bytes, 2);
  }

  /** The attributes of a chain, in order. */
  function Attrs(lps: seq<LogicalPacket>): (r: seq<u16>)
    ensures |r| == |lps| && forall i | 0 <= i < |lps| :: r[i] == lps[i].attribute
  {
    if |lps| == 0 then [] else [lps[0].attribute] + Attrs(lps[1..])
  }

  /**
   * `validate_correlation`: Ok iff every logical packet's attribute is in
   * the request mask (always Ok for non-Data packets); the error lists the
   * mask's attributes and all the response's attributes.
   */
  method ValidateCorrelation(p: RawPacket, requestMask: u16) returns (r: Result<(), KmError>)
    ensures r.Ok? <==> (p.Data? ==> forall i | 0 <= i < |p.logicalPackets| ::
                          Attributes.Contains(Attributes.FromRaw(requestMask), p.logicalPackets[i].attribute))
    ensures r.Err? ==> r.error == AttributeMismatch(Attributes.Iter(Attributes.FromRaw(requestMask)), Attrs(p.logicalPackets))
  {
    if !p.Data? {
      return Ok(());
    }
    var requestSet := Attributes.FromRaw(requestMask);
    var lps := p.logicalPackets;
    var i := 0;
    while i < |lps|
      invariant 0 <= i <= |lps|
      invariant forall j | 0 <= j < i :: Attributes.Contains(requestSet, lps[j].attribute)
    {
      if !Attributes.Contains(requestSet, lps[i].attribute) {
        return Err(AttributeMismatch(Attributes.Iter(requestSet), Attrs(lps)));
      }
      i := i + 1;
    }
    return Ok(());
  }

  /** The example Ctrl frame: Connect with id 1 and no attribute. */
  lemma ConnectFrame()
    ensures CtrlHeaderBytes(Connect, false, 1, 0) == [0x02, 0x01, 0x00, 0x00]
    ensures Parse([0x02, 0x01, 0x00, 0x00]) == Ok(Ctrl([0x02, 0x01, 0x00, 0x00], []))
  {
    var b: seq<byte> := [0x02, 0x01, 0x00, 0x00];
    assert b[..4] == b && b[4..] == [];
  }

  /** The 44-byte Adc payload of a frame captured from a device. */
  const CapturedAdcPayload: seq<byte> := [
    0x45, 0x1c, 0x4d, 0x00, 0xae, 0x9e, 0xfe, 0xff, 0xdb, 0x1c, 0x4d, 0x00, 0x23, 0x9f, 0xfe, 0xff,
    0xe1, 0x1c, 0x4d, 0x00, 0x81, 0x9f, 0xfe, 0xff, 0xc9, 0x0c, 0x8a, 0x10, 0x0e, 0x00, 0x00, 0x00,
    0x00, 0x00, 0x78, 0x7e, 0x00, 0x80, 0x02, 0x00, 0x00, 0x00, 0x00, 0x00]

  /**
   * The captured ADC response (header 41 00 80 02, extended header
   * 01 00 00 0b): one Adc element of 44 bytes, nothing dropped, and it
   * round-trips byte for byte.
   */
  lemma RealAdcResponse()
    ensures var b := [0x41, 0x00, 0x80, 0x02] + [0x01, 0x00, 0x00, 0x0b] + CapturedAdcPayload;
      && |b| == 52
      && ObjCountWords(b[..4]) == 10
      && ParseFrame(b) == Ok((Data(b[..4], [LogicalPacket(Attributes.Adc, false, 0, 44, CapturedAdcPayload)]), []))
      && Serialize(Parse(b).value) == b
  {
    var h: HeaderBytes := [0x41, 0x00, 0x80, 0x02];
    var ext: seq<byte> := [0x01, 0x00, 0x00, 0x0b];
    var b := h + ext + CapturedAdcPayload;
    assert b[..4] == h;
    assert b == h + ext + CapturedAdcPayload + [];
    var lp := LogicalPacket(Attributes.Adc, false, 0, 44, CapturedAdcPayload);
    assert EncodeExtended(ExtendedOf(lp)) == ext;
    SingleElementFrame(h, lp, []);
  }
}
