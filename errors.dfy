/**
 * The error values of km003c-lib (`KMError`) that the modelled operations
 * can return. Message strings are replaced by the numbers they report.
 */
module Errors {
  import opened Bytes

  /** Why a frame was refused by `RawPacket::try_from`. */
  datatype PacketFault =
    | TooShortForHeader(got: nat)
    | ExtendedHeaderTooShort(got: nat)
    | PayloadTooShort(expected: nat, got: nat)
    | NotWholeSamples(got: nat, sampleSize: nat)

  /** The `KMError::Protocol` conditions raised by the device layer. */
  datatype ProtocolFault =
    | ReceivedNothing
    | RequiresFullMode
    | NotWholeAesBlocks(got: nat)

  datatype KmError =
    | InvalidPacket(fault: PacketFault)
    | Protocol(reason: ProtocolFault)
    | AttributeMismatch(expected: seq<u16>, actual: seq<u16>)
}
