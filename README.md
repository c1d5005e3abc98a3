# km003c codec and device state, in Dafny

A model of the protocol core of the ChargerLAB POWER-Z KM003C USB meter
library. It covers the Rust crate `km003c-lib` and the older top-level crate
that predates it.

- **Packet framing** (`packet.rs`). There are three bit-packed 32-bit headers.
  - `RawPacket::try_from` classifies a frame. For a PutData frame it walks
    the chain of logical packets.
  - `From<RawPacket> for Bytes` is the serialiser.
  - `AttributeSet` is a u16 bitmask.
  - `validate_correlation` and the packet accessors are also modelled.
- **ADC records** (`adc.rs`, `adcqueue.rs`).
  - The 44-byte `AdcDataRaw` layout, the five sample-rate codes, and the
    physical-unit conversion.
  - The AdcQueue payload splits into 20-byte samples with sequence-gap
    detection.
- **PD event stream** (`pd.rs`). Connection, wrapped PD message and status
  records are dispatched on a tag byte. The stream parser keeps the longest
  run of records it can parse.
- **Authentication helpers** (`auth.rs`).
  - Null-terminated string extraction and the three `DeviceInfo` block
    parsers.
  - The Hardware ID accessors.
  - The MemoryRead and StreamingAuth request layouts.
  - The StreamingAuth response decoder.
  - The length behaviour of the ECB decryption helpers.
- **Device state** (`device.rs`).
  - The transaction-id counter and `DeviceConfig`.
  - The Basic/Full connection mode and its queries.
  - The pure guards on `send`, `receive`, `receive_memory_read_data` and the
    graph-mode requests.
- **Python bindings** (`python.rs`): `create_packet`, `parse_raw_adc_data`,
  `get_sample_rates` and the exported constant values.
- **Capture collection** (`capture.rs`): `add`, `get_session`,
  `session_ids`, `len`, `is_empty` and the counts in `statistics`.
- **Legacy crate** (`src/protocol.rs`, `src/device.rs`).
  - The command-header parser and the packet classifier.
  - The 200-byte device-info block.
  - The command builder and its id counter.
  - The startup sequence with its one response-id exception.
  - The filter that keeps only the responses relevant to a request.

## How it is modelled

- **Bytes, integers and headers.**
  - Bytes are integers in 0..255.
  - Every fixed-width integer field is read and written as explicit
    little-endian arithmetic.
  - Signed fields use two's complement, written out.
  - Header bit fields are decoded with `/` and `%` on powers of two, in the
    LSB-first order `modular_bitfield` uses.
  - A header is kept as its four raw bytes, so reserved bits survive a round
    trip, as they do in the source.
- **Floats.** The scaled outputs are exact reals. Each contract states the
  divisor relation, for example `vbusV * 1e6 == vbus_uv`.
- **Parameters instead of hidden inputs.**
  - AES-128 (the forward and the inverse block function) and CRC-32 are
    parameters of the functions that use them. Nothing is assumed about them
    except, in the round-trip lemmas, that the inverse undoes the forward
    function.
  - The StreamingAuth timestamp and random padding are parameters.
  - So are the buffers a USB read would have returned.
- **Where the code works in place, so does the model.**
  - The device, the legacy device, `DeviceInfo` and the capture collection
    are classes whose methods update their fields.
  - `decrypt_memory_read_response` and `aes_ecb_decrypt_blocks` decrypt an
    `array` chunk by chunk.
  - The chain parser, the serialiser, `from_bytes`, `has_dropped_samples`,
    `parse_event_stream` and `build_command_bytes` are loops. Each is proved
    against a specification function, and the properties are proved about
    that function.

Where the repository's prose documentation and its code disagree, the model
follows the code:
- The temperature is `temp_raw / 128` (`adc.rs`), not hundredths of a
  degree.
- An ADC `rate_raw` outside 0..4 decodes to the 2 Hz rate; it is not an
  error.
- `parse_raw_adc_data` requires exactly 44 bytes, although its doc-comment
  says 64.

## Model

| member | source | states |
|---|---|---|
| Packet.CtrlHeaderBytes | km003c-lib/src/packet.rs:9-22 | a control header built from type, reserved flag, id and attribute decodes back to each of them; bit 16 (the unused bit) is zero |
| Packet.DecodeExtended | km003c-lib/src/packet.rs:38-45 | any 4 bytes decode to an extended header whose attribute, chunk and size fit their 15, 6 and 10 bits |
| Packet.EncodeExtended | km003c-lib/src/packet.rs:38-45 | an extended header with in-range fields packs into exactly 4 bytes |
| Packet.DecodeEncodeExtended | km003c-lib/src/packet.rs:38-45 | packing then unpacking an extended header gives it back |
| Packet.EncodeDecodeExtended | km003c-lib/src/packet.rs:38-45 | unpacking then packing any 4 bytes gives them back (the layout uses all 32 bits) |
| Packet.ReadElement | km003c-lib/src/packet.rs:411-467 | one step of the chain loop: fewer than 4 bytes is ExtendedHeaderTooShort; fewer than `size` payload bytes is PayloadTooShort with both numbers, unless this is a final AdcQueue packet; on success the header, payload and rest concatenate back to the input, and a final AdcQueue packet takes everything |
| Packet.ReadElementOfBytes | km003c-lib/src/packet.rs:411-467 | reading the encoding of a well-formed logical packet followed by any rest returns that packet and that rest |
| Packet.ParseChain | km003c-lib/src/packet.rs:411-467 | a successful chain is non-empty, has `next` set on every packet but the last and clear on the last, has every payload exactly `size` bytes except a final AdcQueue one, and leaves nothing over after a final AdcQueue packet |
| Packet.TryFrom | km003c-lib/src/packet.rs:353-486 | the loop that pushes logical packets over a shrinking buffer computes exactly the specification parse |
| Packet.Serialize | km003c-lib/src/packet.rs:553-587 | the output starts with the 4 header bytes |
| Packet.IntoBytes | km003c-lib/src/packet.rs:553-587 | the loop that extends the message packet by packet computes exactly the specification serialiser |
| Packet.ParseChainBytes | km003c-lib/src/packet.rs:411-467 | the concatenated encoding of a properly chained packet list parses back to that list with nothing left over |
| Packet.ParseSerialize | km003c-lib/src/packet.rs:553-587 | parse(serialise(p)) == p for every frame the parser could have produced: a control type for Ctrl, a non-control type for SimpleData (1 to 3 payload bytes when PutData), and for Data a properly chained list under a non-zero word count |
| Packet.ChainBytesOfParse | km003c-lib/src/packet.rs:411-467 | a successful chain parse re-serialises, followed by its leftover, to the original payload |
| Packet.SerializeParse | km003c-lib/src/packet.rs:553-587 | serialising a parsed frame and appending the dropped bytes gives the input back, so serialise(parse(b)) == b exactly when nothing was dropped |
| Packet.DroppedOnlyAfterData | km003c-lib/src/packet.rs:436-466 | bytes are dropped only from a PutData frame, and only after a final packet that is not AdcQueue |
| Packet.SingleElementFrame | km003c-lib/src/packet.rs:411-467 | a PutData header with one final logical packet parses to that packet and serialises back to header, extended header and payload |
| Packet.TrailingByteDropped | km003c-lib/src/packet.rs:436-466 | a concrete frame whose trailing byte after a final ADC packet is discarded, so its re-serialisation is one byte shorter |
| Packet.ShortFrameRejected | km003c-lib/src/packet.rs:355-361 | every input shorter than 4 bytes fails with InvalidPacket carrying its length |
| Packet.Classification | km003c-lib/src/packet.rs:363-406 | a type below 0x40 gives Ctrl and any type other than 0x41 gives SimpleData, both with all bytes after the header; PutData with zero words or no remainder gives an empty Data; PutData with 1 to 3 remaining bytes gives SimpleData |
| Packet.GetAttribute | km003c-lib/src/packet.rs:296-301 | an attribute exists exactly for Ctrl packets |
| Packet.GetAttributeSet | km003c-lib/src/packet.rs:304-309 | an attribute set exists exactly for Ctrl packets, and its mask is the attribute |
| Packet.LogicalPackets | km003c-lib/src/packet.rs:312-317 | logical packets exist exactly for Data packets |
| Packet.EmptyResponseIff | km003c-lib/src/packet.rs:345-347 | a parsed frame is an empty response iff it is PutData with zero obj_count_words or no bytes after the header |
| Packet.CtrlAccessors | km003c-lib/src/packet.rs:279-301 | for a control frame, type is byte0 & 0x7F, id is byte1, attribute is the LE u16 of bytes 2..3 shifted right by one, and there are no logical packets |
| Packet.Attrs | km003c-lib/src/packet.rs:323-342 | the attribute list has one entry per logical packet, in order |
| Packet.ValidateCorrelation | km003c-lib/src/packet.rs:323-342 | Ok iff every logical packet's attribute is in the request mask, so always Ok for non-Data packets; the error carries the mask's attributes and the packets' attributes |
| Packet.ConnectFrame | km003c-lib/tests/roundtrip.rs:10 | Connect with id 1 encodes as `02 01 00 00` and parses back to a Ctrl frame with an empty payload |
| Packet.RealAdcResponse | km003c-lib/tests/common/mod.rs:28-32 | the captured 52-byte ADC response has obj_count_words 10 and one final ADC packet of size 44, and re-serialises to itself |
| Attributes.Empty | km003c-lib/src/packet.rs:147-149 | the empty set contains no attribute |
| Attributes.With | km003c-lib/src/packet.rs:174-178 | each bit of the result is set iff it is set in the set or in the attribute |
| Attributes.Without | km003c-lib/src/packet.rs:201-206 | each bit of the result is set iff it is set in the set and clear in the attribute |
| Attributes.FromAttributes | km003c-lib/src/packet.rs:159-172 | a bit is set iff some listed attribute has it |
| Attributes.IterSpec | km003c-lib/src/packet.rs:208-234 | iteration yields exactly the one-bit values of the set bits, in strictly ascending order, each contained in the set, and `len` is their number |
| Attributes.EmptyIffNoBits | km003c-lib/src/packet.rs:228-234 | `is_empty` iff iteration yields nothing, iff `len` is 0 |
| Attributes.ContainsWith | km003c-lib/src/packet.rs:174-183 | after `with(a)`, `contains(b)` holds iff it held before or a and b share a bit |
| Attributes.ContainsWithout | km003c-lib/src/packet.rs:180-206 | after `without(a)`, a is not contained, and membership of any b disjoint from a is unchanged |
| Attributes.FromAttributesContains | km003c-lib/src/packet.rs:159-199 | the set built from a list contains b iff some listed attribute shares a bit with b, and it contains all of each listed non-zero attribute |
| Attributes.AdcAndPdPacketMask | km003c-lib/tests/new_api.rs:135-152 | mask 0x11 contains Adc and PdPacket but not AdcQueue, and iterates as [Adc, PdPacket] with length 2 |
| Adc.Code | km003c-lib/src/adc.rs:10-26 | each rate's discriminant is below 5 |
| Adc.TryFromCode | km003c-lib/src/adc.rs:10-26 | a code converts to a rate iff it is below 5, and the rate's discriminant is that code |
| Adc.AsHz | km003c-lib/src/adc.rs:30-38 | every rate lies between 2 and 10000 Hz |
| Adc.TryFromCodeOfCode | km003c-lib/src/adc.rs:10-26 | converting a rate's discriminant back gives the rate |
| Adc.AsHzStrictlyIncreasing | km003c-lib/src/adc.rs:14-38 | `as_hz` is strictly increasing in the code, so distinct rates have distinct codes and frequencies |
| Adc.RateOf | km003c-lib/src/adc.rs:156-157 | codes 0..4 give the rate with that code; any other byte gives Sps2 instead of failing |
| Adc.ReadRaw | km003c-lib/src/adc.rs:63-84 | 44 bytes decode to six i32, one i16, eight u16 and two u8 fields in their ranges |
| Adc.RawBytes | km003c-lib/src/adc.rs:63-84 | a record with in-range fields encodes to exactly 44 bytes |
| Adc.ReadRawBytes | km003c-lib/src/adc.rs:63-84 | decoding an encoded record gives it back |
| Adc.RawBytesRead | km003c-lib/src/adc.rs:63-84 | encoding a decoded 44-byte record gives the bytes back, so every offset is used exactly once |
| Adc.ToSimple | km003c-lib/src/adc.rs:126-177 | each output is its raw field over the right divisor: 1e6 for voltages and currents, 128 for temperature, 10000 for instantaneous D+/D-/CC/VDD, 1000 for averaged D+/D-/CC2; power is the product of voltage and current; the rate comes from `rate_raw` |
| Adc.SampleRateRoundTrip | km003c-lib/src/adc.rs:156-195 | the sample rate survives AdcDataSimple to AdcDataRaw to AdcDataSimple |
| Adc.PowerSignFollowsCurrent | km003c-lib/src/adc.rs:89-131 | with positive VBUS, power is positive, negative or zero exactly when the current is |
| Adc.CurrentAbsA | km003c-lib/src/adc.rs:207-209 | the result is non-negative and is the current or its negation |
| Adc.PowerAbsW | km003c-lib/src/adc.rs:212-214 | the result is non-negative and is the power or its negation |
| Adc.MagnitudesOfDecoded | km003c-lib/src/adc.rs:207-214 | for a decoded record, the absolute current and power are the magnitudes of the raw current and of the raw product, scaled |
| Adc.CapturedRecord | km003c-lib/tests/adc_tests.rs:104-157 | the captured record has VBUS 5053509 uV, IBUS -90450 uA, temperature 3273 (25.5703125 C), code 0 (Sps2), negative power and an absolute current of 0.09045 A |
| AdcQueue.ReadSampleRaw | km003c-lib/src/adcqueue.rs:22-37 | 20 bytes decode to a sample with i32 VBUS and IBUS and 4 reserved bytes |
| AdcQueue.SampleRawBytes | km003c-lib/src/adcqueue.rs:22-37 | a sample with in-range fields encodes to exactly 20 bytes |
| AdcQueue.ReadSampleRawBytes | km003c-lib/src/adcqueue.rs:22-37 | decoding an encoded sample gives it back |
| AdcQueue.SampleRawBytesRead | km003c-lib/src/adcqueue.rs:22-37 | encoding a decoded sample gives its 20 bytes back |
| AdcQueue.ToSample | km003c-lib/src/adcqueue.rs:51-66 | the sequence is copied; voltages and currents are uV and uA over 1e6; power is their product; CC values are mV over 1000 |
| AdcQueue.MarkerAndReservedIgnored | km003c-lib/src/adcqueue.rs:51-66 | samples that differ only in marker and reserved bytes convert to the same value |
| AdcQueue.Samples | km003c-lib/src/adcqueue.rs:88-99 | a whole-sample payload has len/20 samples, and sample i is decoded from bytes 20i..20i+20 |
| AdcQueue.FromBytes | km003c-lib/src/adcqueue.rs:77-100 | fails iff the length is not a multiple of 20, with the length in the error; otherwise the push loop yields exactly the decoded samples in order (none for empty input) |
| AdcQueue.SequenceRange | km003c-lib/src/adcqueue.rs:103-112 | None iff there are no samples; otherwise the first and last sequence numbers |
| AdcQueue.NextSequence | km003c-lib/src/adcqueue.rs:115-127 | the successor of a sequence number wraps modulo 65536 |
| AdcQueue.HasDroppedSamples | km003c-lib/src/adcqueue.rs:115-127 | the early-return loop over adjacent pairs answers true iff some pair is not consecutive modulo 65536, so false for fewer than two samples |
| AdcQueue.CapturedSamples | km003c-lib/tests/adcqueue_tests.rs:5-63 | the captured first sample is sequence 78, 5.082025 V, 0.00021 A, CC1 0.067 V, CC2 3.235 V; the second is sequence 79 |
| AdcQueue.CapturedQueue | km003c-lib/tests/adcqueue_tests.rs:5-63 | the captured 40-byte payload is two consecutive samples with range (78, 79) and no gap |
| AdcQueue.CapturedQueueFrame | km003c-lib/tests/adcqueue_tests.rs:5-63 | the captured PutData frame parses to one final AdcQueue packet of size 20 and chunk 39 that carries the whole payload |
| AdcQueue.GapDetected | km003c-lib/tests/adcqueue_tests.rs:65-82 | sequences 10 then 12 are reported as a gap |
| Pd.NumDataObjects | km003c-lib/src/pd.rs:75-102 | the data-object count (bits 14..12 of the PD header) is below 8 |
| Pd.PdRecordLength | km003c-lib/src/pd.rs:75-102 | a wrapped PD record is between 8 and 36 bytes long |
| Pd.Timestamp | km003c-lib/src/pd.rs:55-124 | the 24-bit little-endian timestamp is below 2^24 |
| Pd.ParseEventPacket | km003c-lib/src/pd.rs:55-124 | empty input gives None; a parsed record consumes between 6 bytes and the input length and carries bytes 1..3 as its timestamp; a PD message's direction is never Unknown |
| Pd.ConnectionEventLayout | km003c-lib/src/pd.rs:60-74 | tag 0x45 parses iff 6 bytes are there, consumes 6, and splits byte 5 into cc_pin (high nibble) and action (low nibble), both below 16 |
| Pd.PdMessageLayout | km003c-lib/src/pd.rs:75-102 | tags 0x80..0x9F need 8 + 4·NDO bytes and consume exactly that; pd_bytes are bytes 6 to that length; direction is SrcToSnk iff tag bit 2 is set |
| Pd.StatusLayout | km003c-lib/src/pd.rs:103-123 | any other tag needs 12 bytes and gives a status record of four LE u16 values at 4, 6, 8, 10, with type_id byte 0 |
| Pd.StreamRest | km003c-lib/src/pd.rs:127-138 | the leftover is a suffix of the input that is empty or does not parse |
| Pd.ParseEventStream | km003c-lib/src/pd.rs:127-138 | the loop that advances the input and pushes records computes exactly the specification stream |
| Pd.StreamBounded | km003c-lib/src/pd.rs:127-138 | six bytes per record plus the leftover never exceed the input length |
| Pd.StreamConcat | km003c-lib/src/pd.rs:127-138 | a fully consumed prefix streams independently of what follows |
| Pd.StreamStep | km003c-lib/src/pd.rs:127-138 | a stream whose first record parses is that record followed by the stream of the rest |
| Pd.ParsePrefixStable | km003c-lib/src/pd.rs:55-124 | appending bytes never changes a record that already parses |
| Pd.ConnectionThenFragment | km003c-lib/src/pd.rs:127-138 | a connection event followed by one stray byte yields that one event and drops the byte |
| Auth.KeyOf | km003c-lib/src/auth.rs:28-34 | the 16-character ASCII keys become their byte values |
| Auth.ExtractString | km003c-lib/src/auth.rs:166-174 | empty when start is past the data, end is past the data, or start is not before end; otherwise the bytes from start up to, not including, the first zero before end |
| Auth.Trim | km003c-lib/src/auth.rs:157-162 | the result is a slice of the input with only whitespace before and after it, and itself neither starts nor ends with whitespace; an input with none at either end is returned unchanged |
| Auth.DeviceInfo.constructor | km003c-lib/src/auth.rs:101-116 | every field starts empty |
| Auth.DeviceInfo.ParseDeviceInfo | km003c-lib/src/auth.rs:126-132 | under 64 bytes nothing changes; otherwise model, hw_version and mfg_date come from 0x10..0x1C, 0x1C..0x28 and 0x28..0x40; no other field changes |
| Auth.DeviceInfo.ParseFirmwareInfo | km003c-lib/src/auth.rs:141-150 | under 64 bytes, or with magic 0xFFFFFFFF, nothing changes; otherwise fw_version and fw_date come from 0x1C..0x28 and 0x28..0x34; no other field changes |
| Auth.DeviceInfo.ParseCalibration | km003c-lib/src/auth.rs:157-162 | under 64 bytes nothing changes; otherwise serial_id is 0x00..0x07 trimmed and uuid is 0x07..0x27; no other field changes |
| Auth.DeviceInfoFieldBounds | km003c-lib/src/auth.rs:126-162 | every parsed field is no longer than its byte range |
| Auth.SerialPrefix | km003c-lib/src/auth.rs:73-80 | Some iff the first six bytes are all ASCII alphanumeric, and then it is those six bytes |
| Auth.DeviceId | km003c-lib/src/auth.rs:83-85 | the id's low byte is byte 8 and its high byte is byte 9 |
| Auth.ExampleHardwareId | km003c-lib/src/auth.rs:486-498 | the sample Hardware ID has serial prefix "071KBP" and device id 2577 |
| Auth.EcbEncrypt32 | km003c-lib/src/auth.rs:395-406 | 32 bytes encrypt block by block into 32 bytes |
| Auth.DecryptChunks | km003c-lib/src/auth.rs:411-427 | decryption preserves the length |
| Auth.DecryptChunksLayout | km003c-lib/src/auth.rs:411-427 | every whole 16-byte chunk is decrypted in place, and a trailing partial chunk is copied unchanged |
| Auth.DecryptChunkAt | km003c-lib/src/auth.rs:411-427 | the chunk at any 16-aligned offset is decrypted if whole and kept if partial |
| Auth.DecryptEncrypt32 | km003c-lib/src/auth.rs:395-441 | when the inverse block function undoes the forward one, decrypting an encrypted 32-byte plaintext gives it back |
| Auth.DecryptChunksInPlace | km003c-lib/src/auth.rs:459-473 | the in-place loop over `chunks_mut(16)` leaves the array equal to the chunk-wise decryption of its old contents |
| Auth.DecryptMemoryReadResponse | km003c-lib/src/auth.rs:411-427 | None iff fewer than 16 bytes; otherwise a same-length output with whole chunks decrypted under the MemoryRead key |
| Auth.AesEcbDecryptBlocks | km003c-lib/src/auth.rs:459-473 | for whole-block input (the source asserts it), the output is the chunk-wise decryption |
| Auth.EcbDecrypt32 | km003c-lib/src/auth.rs:430-441 | decrypting 32 bytes equals the chunk-wise decryption |
| Auth.MemoryReadPlaintext | km003c-lib/src/auth.rs:223-244 | the MemoryRead plaintext is 32 bytes |
| Auth.MemoryReadPlaintextLayout | km003c-lib/src/auth.rs:223-244 | address at 0..4, size at 4..8, 0xFFFFFFFF at 8..12, the CRC of bytes 0..12 at 12..16, and 0xFF in 16..32 |
| Auth.BuildMemoryReadPayload | km003c-lib/src/auth.rs:223-244 | filling the 0xFF buffer field by field and encrypting gives the encryption of that plaintext under the MemoryRead key |
| Auth.BuildMemoryReadPacket | km003c-lib/src/auth.rs:255-267 | 36 bytes: `44 tid 01 01` followed by the encrypted plaintext |
| Auth.MemoryReadRecoverable | km003c-lib/src/auth.rs:223-244 | the device side recovers address, size and a matching checksum from the request |
| Auth.StreamingAuthPlaintext | km003c-lib/src/auth.rs:276-296 | 32 bytes with the Hardware ID at 8..20 and the padding at 20..32 |
| Auth.BuildStreamingAuthPayload | km003c-lib/src/auth.rs:276-296 | the payload is that plaintext encrypted under the StreamingAuth key |
| Auth.BuildStreamingAuthPacket | km003c-lib/src/auth.rs:317-329 | 36 bytes: `4C tid 00 02` followed by the encrypted plaintext |
| Auth.StreamingAuthCarriesHardwareId | km003c-lib/src/auth.rs:276-296 | decrypting the payload recovers the timestamp (LE u64 at 0..8) and the Hardware ID |
| Auth.ParseStreamingAuthResponse | km003c-lib/src/auth.rs:338-367 | None iff shorter than 36 bytes or type not 0x4C; otherwise attribute is LE bytes 2..3, success is attribute bit 1 (equal to `adcqueue_enabled`), auth_level is 1 on success and 0 otherwise, and the payload is bytes 4..36 decrypted |
| Auth.AuthenticatedIffSuccess | km003c-lib/src/auth.rs:178-212 | for a parsed response, `is_authenticated` (success and AdcQueue enabled) equals success |
| Auth.AuthAttributeValues | km003c-lib/src/auth.rs:338-367 | attribute 0x0201 means failure, and 0x0203 means success at auth level 1 |
| Auth.ParseStreamingAuthResponsePayload | km003c-lib/src/auth.rs:376-392 | None iff fewer than 32 bytes; otherwise always success with attribute 0x0203 and auth level 1 |
| Device.Vendor | km003c-lib/src/device.rs:216-224 | interface 0, endpoints 0x01/0x81, Bulk, no skip_reset; vendor and not HID |
| Device.Hid | km003c-lib/src/device.rs:241-249 | interface 3, endpoints 0x05/0x85, Interrupt, no skip_reset; HID and not vendor |
| Device.SkipReset | km003c-lib/src/device.rs:255-258 | sets skip_reset and changes no other field or predicate |
| Device.Km003c.constructor | km003c-lib/src/device.rs:402-409 | a connected device starts with transaction id 0 in Basic mode |
| Device.Km003c.NextTransactionId | km003c-lib/src/device.rs:416-420 | returns the current id and advances the counter modulo 256; nothing else changes |
| Device.Km003c.NextTid | km003c-lib/src/device.rs:423-425 | same as `next_transaction_id` |
| Device.Km003c.SetTransactionId | km003c-lib/src/device.rs:428-430 | sets the counter and changes nothing else |
| Device.Km003c.Send | km003c-lib/src/device.rs:433-454 | every send uses exactly one id; MemoryRead and StreamingAuth go out as their 36-byte requests with that id |
| Device.Km003c.State | km003c-lib/src/device.rs:851-856 | a state exists iff the mode is Full, and then it is that mode's state |
| Device.Km003c.CompleteInit | km003c-lib/src/device.rs:815-824 | the mode becomes Full with the info's current values, the Hardware ID, the response's auth level and `adcqueue_enabled`; the counter is unchanged |
| Device.Km003c.GraphModeGuard | km003c-lib/src/device.rs:962-967 | fails iff the mode is Basic, with the full-mode-required error |
| Device.Km003c.GraphModeRequest | km003c-lib/src/device.rs:962-992 | start or stop graph mode fails in Basic mode without using an id; in Full mode it uses exactly one |
| Device.ModeQueries | km003c-lib/src/device.rs:838-870 | Full iff not Basic; Basic means neither authenticated nor AdcQueue-enabled; authenticated iff Full with auth_level > 0 |
| Device.InitFromAuthResponse | km003c-lib/src/device.rs:815-824 | the stored state is authenticated and AdcQueue-enabled exactly when the response reports success |
| Device.HardwareIdFromBlock | km003c-lib/src/device.rs:787-796 | a long enough block gives its first 12 bytes; a short one leaves the Hardware ID all zero |
| Device.Receive | km003c-lib/src/device.rs:524-547 | an empty buffer is an error; a buffer of 36 or more bytes of type 0x4C is a StreamingAuth response; anything else is the frame parse, with its error |
| Device.ReceiveMemoryReadData | km003c-lib/src/device.rs:558-573 | fails iff empty or not whole 16-byte blocks; otherwise the same-length chunk-wise decryption |
| Device.TwoSends | km003c-lib/src/device.rs:433-454 | two sends use consecutive ids and advance the counter by two |
| Device.SetThenNext | km003c-lib/src/device.rs:423-430 | after `set_transaction_id(i)`, `next_tid` returns i |
| Device.InitThenReparse | km003c-lib/src/device.rs:815-824 | the stored state owns its device information: changing the `DeviceInfo` object afterwards leaves the recorded state as it was |
| Bindings.ExportedConstants | km003c-lib/src/python.rs:233-251 | CMD_* are 1, 2, 3, 5, 6, 12, 14, 15; ATT_* are 1, 2, 4, 8, 16; VID 0x5FC9 and PID 0x0063 |
| Bindings.CreatePacket | km003c-lib/src/python.rs:190-200 | 4 bytes: type, id, then the data shifted left by one as LE u16 |
| Bindings.CreatePacketFields | km003c-lib/src/python.rs:190-200 | the header decodes to the given type, id and attribute with the reserved bit clear |
| Bindings.CreatePacketParses | km003c-lib/src/python.rs:190-200 | for a control type the bytes parse to Ctrl with the same type, id and attribute and an empty payload |
| Bindings.GetDataAdcBytes | km003c-lib/tests/adc_tests.rs:83 | `create_packet(12, 0, 1)` is `0c 00 02 00` |
| Bindings.ParseRawAdcData | km003c-lib/src/python.rs:47-60 | fails iff the length is not 44, reporting both lengths; otherwise decodes the record |
| Bindings.ParseRawAdcDataOfBytes | km003c-lib/src/python.rs:47-60 | the bytes of any record parse to its conversion |
| Bindings.GetSampleRates | km003c-lib/src/python.rs:156-164 | five rates with codes 0..4, strictly ascending in Hz, from 2 Hz to 10000 Hz |
| Bindings.SampleRatesComplete | km003c-lib/src/python.rs:156-164 | every rate is listed exactly once |
| Capture.DirectionText | km003c-lib/src/capture.rs:13-20 | "H->D" for host-to-device and "D->H" for device-to-host |
| Capture.DirectionTextInjective | km003c-lib/src/capture.rs:13-20 | the two directions print differently |
| Capture.HexString | km003c-lib/src/capture.rs:54-56 | two characters per byte, each one of `0-9a-f`, the pair's values giving the byte back (high nibble first) |
| Capture.HexStringInjective | km003c-lib/src/capture.rs:54-56 | distinct byte strings have distinct hex strings |
| Capture.SessionIdSet | km003c-lib/src/capture.rs:89-94 | the id set holds exactly the session ids of the captures |
| Capture.Insert | km003c-lib/src/capture.rs:89-94 | inserting into a strictly sorted list keeps it strictly sorted and adds exactly that id |
| Capture.StrictlySortedUnique | km003c-lib/src/capture.rs:89-94 | two strictly sorted lists with the same elements are equal, so the sorted, deduplicated id list is unique |
| Capture.SessionOf | km003c-lib/src/capture.rs:81-86 | the selection holds exactly the captures with that session id |
| Capture.SessionOfAppend | km003c-lib/src/capture.rs:81-86 | selection distributes over concatenation, so insertion order is kept |
| Capture.CountDirection | km003c-lib/src/capture.rs:134-145 | a direction count never exceeds the number of captures |
| Capture.DirectionCountsPartition | km003c-lib/src/capture.rs:134-145 | the host-to-device and device-to-host counts add up to the total |
| Capture.DistinctCardinality | km003c-lib/src/capture.rs:113-149 | a strictly sorted list has as many distinct ids as entries |
| Capture.CaptureCollection.constructor | km003c-lib/src/capture.rs:66-68 | a new collection is empty |
| Capture.CaptureCollection.Add | km003c-lib/src/capture.rs:71-73 | the capture goes last, earlier captures are unchanged, and the length grows by one |
| Capture.CaptureCollection.Len | km003c-lib/src/capture.rs:103-105 | the number of captures |
| Capture.CaptureCollection.IsEmpty | km003c-lib/src/capture.rs:108-110 | empty iff the length is 0 |
| Capture.CaptureCollection.GetSession | km003c-lib/src/capture.rs:81-86 | the captures of that session, in insertion order |
| Capture.CaptureCollection.SessionIds | km003c-lib/src/capture.rs:89-94 | strictly ascending, so without duplicates, with the same ids as the captures |
| Capture.CaptureCollection.GetStatistics | km003c-lib/src/capture.rs:113-149 | total is the length and session count is the number of distinct ids; direction counts exist iff non-empty and add up to the total |
| Capture.AddThenGetSession | km003c-lib/src/capture.rs:71-86 | after adding, a session's captures are the old ones plus the new one if it belongs to that session |
| LegacyProtocol.CommandTypeOf | src/protocol.rs:334-355 | a byte converts to a command type iff some listed type has that code, and then it is that type |
| LegacyProtocol.CommandCodeRoundTrip | src/protocol.rs:334-355 | converting a command type's code gives the type back |
| LegacyProtocol.AttributeOf | src/protocol.rs:360-381 | the attribute's code is the input, and it is Unknown iff the code is not a named one |
| LegacyProtocol.AttributeRoundTrip | src/protocol.rs:360-381 | an attribute survives code and back iff it is not an Unknown that wraps a named code |
| LegacyProtocol.RateOf | src/protocol.rs:385-397 | a tag is a sample rate iff it is below 5, and the rate's code is the tag |
| LegacyProtocol.ParseCommandHeader | src/protocol.rs:156-181 | fails under 4 bytes; otherwise succeeds iff byte 0, unmasked, is a listed command code; id is byte 1 and attribute is LE bytes 2..3 |
| LegacyProtocol.HeaderBytes | src/protocol.rs:156-181 | a header is 4 bytes |
| LegacyProtocol.HeaderRoundTrip | src/protocol.rs:156-181 | a header whose attribute is in canonical form parses back from its bytes |
| LegacyProtocol.ReadSensorData | src/protocol.rs:192-221 | a 52-byte frame is sensor data iff byte 44 is a rate code; the header is bytes 0..3, the extended header is LE bytes 4..8, and the ADC record is bytes 8..52 |
| LegacyProtocol.ParseDeviceInfoBlock | src/protocol.rs:296-329 | None iff under 200 bytes; firmware at 8, capabilities at 16 and checksum at 196 (LE u32); the name is the bytes from 136 up to the first zero, at most 64 |
| LegacyProtocol.NameOverlapsChecksum | src/protocol.rs:309-318 | a name with no zero runs to byte 200, so its last four bytes are the checksum |
| LegacyProtocol.FromBytes | src/protocol.rs:77-142 | host traffic is a Command iff the header parses, and Unknown otherwise |
| LegacyProtocol.HostCommand | src/protocol.rs:79-86 | a host command's payload is present iff there are more than 4 bytes |
| LegacyProtocol.DeviceAcknowledge | src/protocol.rs:100-132 | device Accept or Rejected headers give an Acknowledge of the matching kind with byte 1 as its id |
| LegacyProtocol.LongDataResponseIsDeviceInfo | src/protocol.rs:118-124 | a DataResponse with at least 200 payload bytes is always DeviceInfo |
| LegacyProtocol.SensorFrame | src/protocol.rs:91-97 | a 52-byte DataResponse with a valid rate byte is SensorData |
| LegacyProtocol.DeviceGenericResponse | src/protocol.rs:99-131 | with a valid header and not a sensor record, device bytes are a GenericResponse of that header and the bytes after it exactly when the type is neither Accept nor Rejected and it is not a DataResponse carrying 200 bytes or more |
| LegacyProtocol.HeaderlessDeviceTraffic | src/protocol.rs:136-141 | device bytes with no valid header are a DataChunk when non-empty and Unknown when empty |
| LegacyDevice.AuthPayloadShapes | src/device.rs:13-28 | the four auth payloads are 32 bytes each, share their last 16 bytes and differ in their first 16 |
| LegacyDevice.CommandBytesLayout | src/device.rs:160-173 | length 4 plus the payload; byte 0 is the command, byte 1 the id, LE bytes 2..3 the attribute, then the payload |
| LegacyDevice.CommandBytesParse | src/device.rs:160-173 | the command bytes classify back as that Command, with a payload iff a non-empty one was given |
| LegacyDevice.SameBytesDifferentExpectation | src/device.rs:214-223 | `Unknown(0x0200)` and `SetDataRecorderMode` put the same bytes on the wire, but only the former expects response id 0 |
| LegacyDevice.StartupShape | src/device.rs:72-101 | 9 steps with authentication or 5 without; Connect first, StopStream last; the four auth steps follow Connect; exactly one step expects id 0 |
| LegacyDevice.Km003cLegacy.constructor | src/device.rs:68 | the counter starts at 0 |
| LegacyDevice.Km003cLegacy.NextId | src/device.rs:155-158 | increments modulo 256, then returns the new value |
| LegacyDevice.Km003cLegacy.TransactRequest | src/device.rs:195-226 | uses one new id for the command bytes, and expects that id back except for the recorder-mode command, which expects 0 |
| LegacyDevice.Km003cLegacy.RunSteps | src/device.rs:72-101 | step i is sent with id old+i+1 (mod 256) and expects that id or 0; the counter advances by the step count |
| LegacyDevice.Km003cLegacy.Startup | src/device.rs:46-105 | the startup sequence sends each step with the next id, and the counter advances by 9 or 5 |
| LegacyDevice.Km003cLegacy.PollSensorData | src/device.rs:139-153 | sends GetData/AdcQueue with a new id and returns the first SensorData among the responses relevant to that id |
| LegacyDevice.BuildCommandBytes | src/device.rs:160-173 | the appending builder yields the command bytes, at least 4 long, with the id at byte 1 |
| LegacyDevice.FirstIds | src/device.rs:155-158 | the first id from a fresh counter is 1, and 255 wraps to 0 |
| LegacyDevice.RelevantResponses | src/device.rs:261-276 | exactly the relevant responses are kept: every DataChunk, and Acknowledge, GenericResponse or SensorData carrying the expected id |
| LegacyDevice.RelevantResponsesAppend | src/device.rs:228-293 | filtering distributes over concatenation, so the order of arrival is kept |
| LegacyDevice.FirstSensorData | src/device.rs:144-148 | None iff no SensorData; otherwise the earliest SensorData |
| LegacyDevice.PolledRecordMatchesId | src/device.rs:139-153 | a polled record carries the expected transaction id and was among the responses |

## Left out

- USB transport and async I/O are not modelled: endpoint setup, timeouts, sleeps, retries, `connect`, `send_raw`, `receive_raw`, and the read sequence of `run_init` (km003c-lib/src/device.rs:322-827) and of the legacy `new`, `send_bytes` and `read_all_responses`. Received buffers are inputs. Of `run_init`, only its Hardware ID copy and its final state assignment are modelled.
- AES-128 and CRC-32 are parameters. Only lengths, layouts and the round trip under an inverse are modelled.
- The StreamingAuth timestamp and random padding come from the clock and a random generator; they are parameters.
- Adc.ToSimple: exact real division, not IEEE-754 double rounding.
- AdcQueue.ToSample: exact real division, not IEEE-754 double rounding.
- The f64 conversion from AdcDataSimple to AdcDataRaw (km003c-lib/src/adc.rs:179-203) is modelled only for its integer rate field, because its float-to-int casts are lossy.
- All Display and formatting code is left out, except `UsbDirection` and `hex_string`.
- Capture.CaptureCollection.GetStatistics: the f64 time range is left out; only the integer counts are modelled.
- Auth.ExtractString: returns the raw bytes; the lossy UTF-8 decoding to `String` is not modelled.
- Auth.Trim: trims ASCII whitespace only, not the other Unicode whitespace `str::trim` removes.
- The `usbpd` crate's PD message decoding is not modelled; `pd_bytes` are kept as bytes.
- Device.Km003c.Send: the ordinary packet path goes through `message.rs`, which does not build against `packet.rs`. Its encoding is a parameter; only the id it consumes is stated.
- Device.Receive: stops at the RawPacket frame; the conversion to the high-level `Packet` (in `message.rs`) is not part of this model.
- The `RATE_*` Python constants and the sample-rate argument of `start_graph_mode` name `GraphSampleRate`, which no shown module defines; they are not modelled.
- Bindings.GetSampleRates: the source lists `SampleRate::Sps1`, which `adc.rs` does not define; it is modelled as code 0 (Sps2, 2 Hz). The Python test expects 1 Hz first (test_bindings.py:21). That disagreement stays open.
- The legacy `SampleRate` names code 0 `Sps1` ("1 SPS"); the model keeps only the codes.
- `DeviceState::model()` and `firmware_version()` are plain field reads and are left out.
- Python module registration and the PyO3 conversion impls are not modelled.
- The legacy `PdPacket` is left out; it is marked unused in the source.
- `analysis.rs`, the CLIs, the GUI and the examples are left out.
- `message.rs` and the tests written against old APIs are left out, because they do not match `packet.rs`.
- LegacyDevice.IsRelevant: the source compares `sd.header.to_le_bytes().get(1)` with the expected id (src/device.rs:270), but `SensorDataHeader` (src/protocol.rs:190-197) defines no `to_le_bytes`, so that line does not resolve as written. The model reads byte 1 of the header, its `transactionId`.
- LegacyProtocol.ParseDeviceInfoBlock: the device name is kept as raw bytes; the lossy UTF-8 decoding to `String` (src/protocol.rs:313-315) is not modelled.
- LegacyDevice.Km003cLegacy.PollSensorData: the responses are an input list; reading them from the device is not modelled.
- LegacyProtocol.FromBytes: host-to-device input must be at least 4 bytes, because the source's slice would panic on shorter input.
- Bindings.CreatePacket: requires type < 0x80 and data < 0x8000, the ranges outside which the source's bitfield setters reject the value.
