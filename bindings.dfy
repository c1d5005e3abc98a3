/**
 * The integer logic of the Python bindings (python.rs): the 4-byte command
 * builder, the size check on a raw ADC record, the list of sample rates and
 * the exported constants. PyO3 registration is not modelled.
 */
module Bindings {
  import opened Wrappers
  import opened Bytes
  import Packet
  import Attributes
  import Adc
  import Device

  // Exported command codes (`CMD_*`).
  const CmdSync: byte := Packet.Sync
  const CmdConnect: byte := Packet.Connect
  const CmdDisconnect: byte := Packet.Disconnect
  const CmdAccept: byte := Packet.Accept
  const CmdReject: byte := Packet.Rejected
  const CmdGetData: byte := Packet.GetData
  const CmdStartGraph: byte := Packet.StartGraph
  const CmdStopGraph: byte := Packet.StopGraph

  // Exported attribute codes (`ATT_*`).
  const AttAdc: u16 := Attributes.Adc
  const AttAdcQueue: u16 := Attributes.AdcQueue
  const AttAdcQueue10k: u16 := Attributes.AdcQueue10k
  const AttSettings: u16 := Attributes.Settings
  const AttPdPacket: u16 := Attributes.PdPacket

  // Exported USB ids.
  const ExportedVid: u16 := Device.Vid
  const ExportedPid: u16 := Device.Pid

  /** The exported values: command codes 1, 2, 3, 5, 6, 12, 14, 15, one-bit attribute codes 1..16, and the USB ids. */
  lemma ExportedConstants()
    ensures [CmdSync, CmdConnect, CmdDisconnect, CmdAccept, CmdReject, CmdGetData, CmdStartGraph, CmdStopGraph]
         == [1, 2, 3, 5, 6, 12, 14, 15]
    ensures [AttAdc, AttAdcQueue, AttAdcQueue10k, AttSettings, AttPdPacket] == [1, 2, 4, 8, 16]
    ensures ExportedVid == 0x5FC9 && ExportedPid == 0x0063
  {
  }

  /**
   * `create_packet`: a CtrlHeader with the given type, reserved bit clear,
   * the transaction id and `data` as attribute. The bitfield setters panic
   * on a type of 0x80 or more and on data of 0x8000 or more.
   */
  function CreatePacket(packetType: byte, transactionId: byte, data: u16): (b: seq<byte>)
    requires packetType < 0x80 && data < 0x8000
    ensures |b| == 4
    ensures b[0] == packetType && b[1] == transactionId
    ensures b[2] as int + 0x100 * b[3] as int == 2 * data
  {
    Packet.CtrlHeaderBytes(packetType, false, transactionId, data)
  }

  /** The header fields read back from `create_packet`'s bytes are the ones it was given. */
  lemma CreatePacketFields(packetType: byte, transactionId: byte, data: u16)
    requires packetType < 0x80 && data < 0x8000
    ensures var h: Packet.HeaderBytes := CreatePacket(packetType, transactionId, data);
      && Packet.PacketTypeOf(h) == packetType && !Packet.ReservedFlag(h)
      && Packet.Id(h) == transactionId && Packet.CtrlAttribute(h) == data
  {
  }

  /**
   * For a control type, `RawPacket::try_from` on `create_packet`'s bytes
   * gives a Ctrl packet with the same type, id and attribute and no payload.
   */
  lemma CreatePacketParses(packetType: byte, transactionId: byte, data: u16)
    requires packetType < 0x40 && data < 0x8000
    ensures var b := CreatePacket(packetType, transactionId, data);
      && Packet.Parse(b).Ok? && Packet.Parse(b).value.Ctrl?
      && Packet.Parse(b).value.payload == []
      && Packet.PacketType(Packet.Parse(b).value) == packetType
      && Packet.PacketId(Packet.Parse(b).value) == transactionId
      && Packet.GetAttribute(Packet.Parse(b).value) == Some(data)
  {
    var b := CreatePacket(packetType, transactionId, data);
    Packet.CtrlAccessors(b);
    Packet.Classification(b);
    assert b[..4] == b && b[4..] == [];
  }

  /** GetData for ADC with transaction id 0 is `0c 00 02 00`. */
  lemma GetDataAdcBytes()
    ensures CreatePacket(CmdGetData, 0, AttAdc) == [0x0c, 0x00, 0x02, 0x00]
  {
  }

  /** The Python `ValueError` of `parse_raw_adc_data`: the expected and the actual size. */
  datatype SizeError = InvalidAdcSize(expected: nat, got: nat)

  /**
   * `parse_raw_adc_data`: exactly `size_of::<AdcDataRaw>()` bytes (44) are
   * read as the record and converted; any other length is an error.
   */
  function ParseRawAdcData(data: seq<byte>): (r: Result<Adc.AdcDataSimple, SizeError>)
    ensures r.Err? <==> |data| != Adc.AdcDataRawSize
    ensures r.Err? ==> r.error == InvalidAdcSize(Adc.AdcDataRawSize, |data|)
    ensures r.Ok? ==> r.value == Adc.ToSimple(Adc.ReadRaw(data))
  {
    if |data| != Adc.AdcDataRawSize then Err(InvalidAdcSize(Adc.AdcDataRawSize, |data|))
    else Ok(Adc.ToSimple(Adc.ReadRaw(data)))
  }

  /** The bytes of any record parse back to its conversion. */
  lemma ParseRawAdcDataOfBytes(raw: Adc.AdcDataRaw)
    requires Adc.ValidRaw(raw)
    ensures ParseRawAdcData(Adc.RawBytes(raw)) == Ok(Adc.ToSimple(raw))
  {
    Adc.ReadRawBytes(raw);
  }

  /**
   * `get_sample_rates`: the five rates in code order. The source names the
   * first one `Sps1`; the only rate with code 0 is 2 SPS.
   */
  function GetSampleRates(): (rates: seq<Adc.SampleRate>)
    ensures |rates| == 5
    ensures forall i | 0 <= i < 5 :: Adc.Code(rates[i]) == i
    ensures forall i, j | 0 <= i < j < 5 :: Adc.AsHz(rates[i]) < Adc.AsHz(rates[j])
    ensures Adc.AsHz(rates[0]) == 2 && Adc.AsHz(rates[4]) == 10000
  {
    [Adc.Sps2, Adc.Sps10, Adc.Sps50, Adc.Sps1000, Adc.Sps10000]
  }

  /** The rate list holds every rate exactly once. */
  lemma SampleRatesComplete(r: Adc.SampleRate)
    ensures exists i | 0 <= i < 5 :: GetSampleRates()[i] == r
    ensures forall i, j | 0 <= i < j < 5 :: GetSampleRates()[i] != GetSampleRates()[j]
  {
    assert GetSampleRates()[Adc.Code(r)] == r;
  }
}
