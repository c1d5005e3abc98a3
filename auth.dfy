/**
 * The authentication helpers of km003c-lib (auth.rs): the info blocks read
 * from device memory, the Hardware ID, the MemoryRead and StreamingAuth
 * request layouts and the StreamingAuth response.
 *
 * AES-128 and CRC-32 are not modelled: every operation that uses them takes
 * the block cipher (`(key, block) -> block`) or the checksum
 * (`bytes -> u32`) as a parameter, so what is proved holds for any cipher
 * and any checksum; where a property needs decryption to undo encryption
 * it says so in its precondition.
 */
module Auth {
  import opened Wrappers
  import opened Bytes

  type Block = b: seq<byte> | |b| == 16 witness seq(16, _ => 0)
  type Key = k: seq<byte> | |k| == 16 witness seq(16, _ => 0)

  /** The ASCII bytes of a 16-character key. */
  function KeyOf(s: string): (k: Key)
    requires |s| == 16 && forall i | 0 <= i < 16 :: s[i] as int < 0x80
    ensures forall i | 0 <= i < 16 :: k[i] == s[i] as int
  {
    seq(16, i requires 0 <= i < 16 => s[i] as int)
  }

  /** StreamingAuth encryption key (host to device). */
  const StreamingAuthKeyEnc: Key := KeyOf("Fa0b4tA25f4R038a")
  /** StreamingAuth decryption key (device to host). */
  const StreamingAuthKeyDec: Key := KeyOf("FX0b4tA25f4R038a")
  /** MemoryRead key. */
  const MemoryReadKey: Key := KeyOf("Lh2yfB7n6X7d9a5Z")

  const HardwareIdAddress: u32 := 0x4001_0450
  const HardwareIdSize: nat := 12
  const DeviceInfoAddress: u32 := 0x0000_0420
  const FirmwareInfoAddress: u32 := 0x0000_4420
  const CalibrationAddress: u32 := 0x0300_0C00
  const InfoBlockSize: nat := 64

  const MemoryReadType: byte := 0x44
  const StreamingAuthType: byte := 0x4C

  // ---------------------------------------------------------------------
  // Null-terminated fields
  // ---------------------------------------------------------------------

  /** The bytes of `s` before its first zero byte (all of `s` if it has none). */
  function UntilNul(s: seq<byte>): (r: seq<byte>)
    ensures |r| <= |s| && r == s[..|r|]
    ensures forall i | 0 <= i < |r| :: r[i] != 0
    ensures |r| == |s| || s[|r|] == 0
  {
    if |s| == 0 || s[0] == 0 then []
    else [s[0]] + UntilNul(s[1..])
  }

  /**
   * `extract_string`: empty when the range [start, end) is empty or does
   * not fit in `data`; otherwise the bytes of the range up to the first
   * zero.
   */
  function ExtractString(data: seq<byte>, start: nat, end: nat): (r: seq<byte>)
    ensures start >= |data| || end > |data| || start >= end ==> r == []
    ensures start < end <= |data| ==>
      && start + |r| <= end
      && r == data[start..start + |r|]
      && (forall i | 0 <= i < |r| :: r[i] != 0)
      && (start + |r| == end || data[start + |r|] == 0)
  {
    if start >= |data| || end > |data| || start >= end then []
    else UntilNul(data[start..end])
  }

  /** ASCII whitespace as `str::trim` sees it in these one-byte fields. */
  predicate IsWhitespace(b: byte)
  {
    b == 0x20 || 0x09 <= b <= 0x0D
  }

  /** Neither the first nor the last byte is whitespace. */
  predicate NoWhitespaceAtEnds(r: seq<byte>)
  {
    |r| == 0 || (!IsWhitespace(r[0]) && !IsWhitespace(r[|r| - 1]))
  }

  /**
   * `r` is `s` with everything before `a` and from `b` on cut off, all of
   * it whitespace.
   */
  predicate TrimmedAt(s: seq<byte>, r: seq<byte>, a: nat, b: nat)
  {
    && a <= b <= |s|
    && r == s[a..b]
    && (forall i | 0 <= i < a :: IsWhitespace(s[i]))
    && (forall i | b <= i < |s| :: IsWhitespace(s[i]))
  }

  /** Where the run of whitespace starting at `k` ends. */
  function WhitespaceEnd(s: seq<byte>, k: nat): (e: nat)
    requires k <= |s|
    ensures k <= e <= |s|
    ensures forall i | k <= i < e :: IsWhitespace(s[i])
    ensures e == |s| || !IsWhitespace(s[e])
    decreases |s| - k
  {
    if k == |s| || !IsWhitespace(s[k]) then k else WhitespaceEnd(s, k + 1)
  }

  /** Where the run of whitespace ending at `k` starts, looking no further back than `lo`. */
  function WhitespaceStart(s: seq<byte>, lo: nat, k: nat): (b: nat)
    requires lo <= k <= |s|
    ensures lo <= b <= k
    ensures forall i | b <= i < k :: IsWhitespace(s[i])
    ensures b == lo || !IsWhitespace(s[b - 1])
    decreases k
  {
    if k == lo || !IsWhitespace(s[k - 1]) then k else WhitespaceStart(s, lo, k - 1)
  }

  /**
   * `str::trim`: the field with its leading and trailing whitespace cut
   * off, and nothing else; what is left neither starts nor ends with
   * whitespace.
   */
  function Trim(s: seq<byte>): (r: seq<byte>)
    ensures exists a: nat, b: nat :: TrimmedAt(s, r, a, b)
    ensures |r| <= |s|
    ensures NoWhitespaceAtEnds(r)
    ensures |s| > 0 && NoWhitespaceAtEnds(s) ==> r == s
  {
    var a := WhitespaceEnd(s, 0);
    var b := WhitespaceStart(s, a, |s|);
    assert TrimmedAt(s, s[a..b], a, b);
    s[a..b]
  }

  // ---------------------------------------------------------------------
  // DeviceInfo
  // ---------------------------------------------------------------------

  /**
   * `DeviceInfo`: the strings read from the three 64-byte info blocks; each
   * `parse_*` method sets its own fields and leaves the others alone.
   */
  /** The contents of a `DeviceInfo` as a value, the way `DeviceState` owns it. */
  datatype DeviceInfoValue = DeviceInfoValue(model: seq<byte>, hwVersion: seq<byte>, mfgDate: seq<byte>,
                                             fwVersion: seq<byte>, fwDate: seq<byte>,
                                             serialId: seq<byte>, uuid: seq<byte>)

  class DeviceInfo {
    var model: seq<byte>
    var hwVersion: seq<byte>
    var mfgDate: seq<byte>
    var fwVersion: seq<byte>
    var fwDate: seq<byte>
    var serialId: seq<byte>
    var uuid: seq<byte>

    /** The current field values, detached from this object. */
    function Value(): DeviceInfoValue
      reads this
    {
      DeviceInfoValue(model, hwVersion, mfgDate, fwVersion, fwDate, serialId, uuid)
    }

    /** `DeviceInfo::default()`: every field empty. */
    constructor ()
      ensures model == [] && hwVersion == [] && mfgDate == [] && fwVersion == [] && fwDate == []
      ensures serialId == [] && uuid == []
    {
      model, hwVersion, mfgDate := [], [], [];
      fwVersion, fwDate := [], [];
      serialId, uuid := [], [];
    }

    /** `parse_device_info`: model at 0x10..0x1C, hardware version at 0x1C..0x28, date at 0x28..0x40. */
    method ParseDeviceInfo(data: seq<byte>)
      modifies this
      ensures |data| < InfoBlockSize ==> model == old(model) && hwVersion == old(hwVersion) && mfgDate == old(mfgDate)
      ensures |data| >= InfoBlockSize ==>
        model == ExtractString(data, 0x10, 0x1C) && hwVersion == ExtractString(data, 0x1C, 0x28)
        && mfgDate == ExtractString(data, 0x28, 0x40)
      ensures fwVersion == old(fwVersion) && fwDate == old(fwDate) && serialId == old(serialId) && uuid == old(uuid)
    {
      if |data| >= InfoBlockSize {
        model := ExtractString(data, 0x10, 0x1C);
        hwVersion := ExtractString(data, 0x1C, 0x28);
        mfgDate := ExtractString(data, 0x28, 0x40);
      }
    }

    /**
     * `parse_firmware_info`: firmware version at 0x1C..0x28 and date at
     * 0x28..0x34, unless the block is short or its magic word is all ones.
     */
    method ParseFirmwareInfo(data: seq<byte>)
      modifies this
      ensures |data| < InfoBlockSize || LeU32(data, 0) == 0xFFFF_FFFF ==>
        fwVersion == old(fwVersion) && fwDate == old(fwDate)
      ensures |data| >= InfoBlockSize && LeU32(data, 0) != 0xFFFF_FFFF ==>
        fwVersion == ExtractString(data, 0x1C, 0x28) && fwDate == ExtractString(data, 0x28, 0x34)
      ensures model == old(model) && hwVersion == old(hwVersion) && mfgDate == old(mfgDate)
      ensures serialId == old(serialId) && uuid == old(uuid)
    {
      if |data| >= InfoBlockSize {
        var magic := LeU32(data, 0);
        if magic != 0xFFFF_FFFF {
          fwVersion := ExtractString(data, 0x1C, 0x28);
          fwDate := ExtractString(data, 0x28, 0x34);
        }
      }
    }

    /** `parse_calibration`: the serial id at 0..7, trimmed, and the UUID at 7..0x27. */
    method ParseCalibration(data: seq<byte>)
      modifies this
      ensures |data| < InfoBlockSize ==> serialId == old(serialId) && uuid == old(uuid)
      ensures |data| >= InfoBlockSize ==>
        serialId == Trim(ExtractString(data, 0x00, 0x07)) && uuid == ExtractString(data, 0x07, 0x27)
      ensures model == old(model) && hwVersion == old(hwVersion) && mfgDate == old(mfgDate)
      ensures fwVersion == old(fwVersion) && fwDate == old(fwDate)
    {
      if |data| >= InfoBlockSize {
        serialId := Trim(ExtractString(data, 0x00, 0x07));
        uuid := ExtractString(data, 0x07, 0x27);
      }
    }
  }

  /** The fields read from a full block are bounded by their ranges: at most 12, 12 and 24 bytes. */
  lemma DeviceInfoFieldBounds(data: seq<byte>)
    requires |data| >= InfoBlockSize
    ensures |ExtractString(data, 0x10, 0x1C)| <= 12 && |ExtractString(data, 0x1C, 0x28)| <= 12
    ensures |ExtractString(data, 0x28, 0x40)| <= 24 && |ExtractString(data, 0x28, 0x34)| <= 12
    ensures |Trim(ExtractString(data, 0x00, 0x07))| <= 7 && |ExtractString(data, 0x07, 0x27)| <= 32
  {
  }

  // ---------------------------------------------------------------------
  // HardwareId
  // ---------------------------------------------------------------------

  type HardwareIdBytes = b: seq<byte> | |b| == HardwareIdSize witness seq(12, _ => 0)

  /** `HardwareId`: twelve bytes, serial prefix at 0..6 and device id at 8..10. */
  datatype HardwareId = HardwareId(bytes: HardwareIdBytes)

  /** `u8::is_ascii_alphanumeric`. */
  predicate IsAsciiAlphanumeric(b: byte)
  {
    ('0' as int <= b <= '9' as int) || ('A' as int <= b <= 'Z' as int) || ('a' as int <= b <= 'z' as int)
  }

  /** `serial_prefix`: the first six bytes when they are all ASCII letters or digits. */
  function SerialPrefix(h: HardwareId): (r: Option<seq<byte>>)
    ensures r.Some? <==> forall i | 0 <= i < 6 :: IsAsciiAlphanumeric(h.bytes[i])
    ensures r.Some? ==> r.value == h.bytes[..6]
  {
    if forall i | 0 <= i < 6 :: IsAsciiAlphanumeric(h.bytes[i]) then Some(h.bytes[..6]) else None
  }

  /** `device_id`: bytes 8 and 9, little-endian. */
  function DeviceId(h: HardwareId): (id: u16)
    ensures id % 0x100 == h.bytes[8] && id / 0x100 == h.bytes[9]
  {
    LeU16(h.bytes, 8)
  }

  /** The example id: prefix "071KBP", separator 0d ff, device id 2577, padding ff ff. */
  lemma ExampleHardwareId()
    ensures var h := HardwareId([0x30, 0x37, 0x31, 0x4b, 0x42, 0x50, 0x0d, 0xff, 0x11, 0x0a, 0xff, 0xff]);
      SerialPrefix(h) == Some([0x30, 0x37, 0x31, 0x4b, 0x42, 0x50]) && DeviceId(h) == 2577
  {
    var h := HardwareId([0x30, 0x37, 0x31, 0x4b, 0x42, 0x50, 0x0d, 0xff, 0x11, 0x0a, 0xff, 0xff]);
    assert h.bytes[..6] == [0x30, 0x37, 0x31, 0x4b, 0x42, 0x50];
    assert "071KBP" == ['0', '7', '1', 'K', 'B', 'P'];
  }

  // ---------------------------------------------------------------------
  // Block cipher helpers
  // ---------------------------------------------------------------------

  /** `aes_ecb_encrypt`: the two 16-byte halves of a 32-byte buffer, each through the cipher. */
  function EcbEncrypt32(aes: (Key, Block) -> Block, key: Key, plaintext: seq<byte>): (c: seq<byte>)
    requires |plaintext| == 32
    ensures |c| == 32
    ensures c[..16] == aes(key, plaintext[..16]) && c[16..] == aes(key, plaintext[16..])
  {
    aes(key, plaintext[..16]) + aes(key, plaintext[16..])
  }

  /**
   * Chunk-wise decryption as `decrypt_memory_read_response` does it: every
   * whole 16-byte chunk through the cipher, a shorter final chunk kept as is.
   */
  function DecryptChunks(aesInv: (Key, Block) -> Block, key: Key, c: seq<byte>): (p: seq<byte>)
    ensures |p| == |c|
    decreases |c|
  {
    if |c| < 16 then c else aesInv(key, c[..16]) + DecryptChunks(aesInv, key, c[16..])
  }

  /** Chunk i of the output is chunk i of the input through the cipher; the partial tail is copied. */
  lemma {:induction false} DecryptChunksLayout(aesInv: (Key, Block) -> Block, key: Key, c: seq<byte>)
    ensures forall i | 0 <= i < |c| / 16 :: DecryptChunks(aesInv, key, c)[16 * i..16 * i + 16] == aesInv(key, c[16 * i..16 * i + 16])
    ensures DecryptChunks(aesInv, key, c)[16 * (|c| / 16)..] == c[16 * (|c| / 16)..]
    decreases |c|
  {
    if |c| >= 16 {
      var rest := c[16..];
      DecryptChunksLayout(aesInv, key, rest);
      var p := DecryptChunks(aesInv, key, c);
      var pr := DecryptChunks(aesInv, key, rest);
      assert p == aesInv(key, c[..16]) + pr;
      forall i | 0 <= i < |c| / 16
        ensures p[16 * i..16 * i + 16] == aesInv(key, c[16 * i..16 * i + 16])
      {
        if i > 0 {
          assert p[16 * i..16 * i + 16] == pr[16 * (i - 1)..16 * (i - 1) + 16];
          assert c[16 * i..16 * i + 16] == rest[16 * (i - 1)..16 * (i - 1) + 16];
        }
      }
      assert p[16 * (|c| / 16)..] == pr[16 * (|rest| / 16)..];
      assert c[16 * (|c| / 16)..] == rest[16 * (|rest| / 16)..];
    }
  }

  /** One chunk of `DecryptChunksLayout`, and its partial tail, for use in loops. */
  lemma DecryptChunkAt(aesInv: (Key, Block) -> Block, key: Key, c: seq<byte>, off: nat)
    requires off % 16 == 0
    ensures off + 16 <= |c| ==> DecryptChunks(aesInv, key, c)[off..off + 16] == aesInv(key, c[off..off + 16])
    ensures off <= |c| < off + 16 ==> DecryptChunks(aesInv, key, c)[off..] == c[off..]
  {
    DecryptChunksLayout(aesInv, key, c);
    var i := off / 16;
    assert off == 16 * i;
    if off <= |c| < off + 16 {
      assert i == |c| / 16;
    }
  }

  /** With a cipher whose inverse undoes it, decrypting an ECB-encrypted 32-byte buffer gives it back. */
  lemma DecryptEncrypt32(aes: (Key, Block) -> Block, aesInv: (Key, Block) -> Block, key: Key, plaintext: seq<byte>)
    requires |plaintext| == 32
    requires forall b: Block :: aesInv(key, aes(key, b)) == b
    ensures DecryptChunks(aesInv, key, EcbEncrypt32(aes, key, plaintext)) == plaintext
  {
    var c := EcbEncrypt32(aes, key, plaintext);
    assert c[16..][..16] == c[16..];
    assert DecryptChunks(aesInv, key, c[16..][16..]) == [];
    assert plaintext == plaintext[..16] + plaintext[16..];
  }

  /** `copy_from_slice` into `a[off..off + |src|]`. */
  method CopyInto(a: array<byte>, off: nat, src: seq<byte>)
    requires off + |src| <= a.Length
    modifies a
    ensures a[..] == old(a[..off]) + src + old(a[off + |src|..])
  {
    for j := 0 to |src|
      invariant a[..] == old(a[..off]) + src[..j] + old(a[off + j..])
    {
      a[off + j] := src[j];
    }
  }

  /** The first `off` bytes of `buf` are those of `p`, the rest those of `c`. */
  predicate DoneUpTo(buf: seq<byte>, p: seq<byte>, c: seq<byte>, off: nat)
  {
    off <= |p| && off <= |c| && buf == p[..off] + c[off..]
  }

  /** In a buffer whose first `off` bytes are done, the next chunk is still the original one. */
  lemma SplicedChunk(buf: seq<byte>, p: seq<byte>, c: seq<byte>, off: nat)
    requires off + 16 <= |c| && DoneUpTo(buf, p, c, off)
    ensures |buf| == |c| && buf[off..off + 16] == c[off..off + 16]
  {
    assert |p[..off]| == off;
    forall i | off <= i < off + 16
      ensures buf[i] == c[i]
    {
      assert buf[i] == c[off..][i - off];
    }
  }

  /** Writing the chunk at `off` of `p` into such a buffer moves the boundary 16 bytes on. */
  lemma SpliceChunk(before: seq<byte>, after: seq<byte>, p: seq<byte>, c: seq<byte>, off: nat, plain: seq<byte>)
    requires |plain| == 16 && off + 16 <= |p| && off + 16 <= |c|
    requires DoneUpTo(before, p, c, off)
    requires after == before[..off] + plain + before[off + 16..]
    requires p[off..off + 16] == plain
    ensures DoneUpTo(after, p, c, off + 16)
  {
    assert before[..off] == p[..off];
    assert before[off + 16..] == c[off + 16..];
    assert p[..off + 16] == p[..off] + plain;
  }

  /** Once the rest of `c` is the rest of `p`, the buffer is `p`. */
  lemma SpliceTail(buf: seq<byte>, p: seq<byte>, c: seq<byte>, off: nat)
    requires DoneUpTo(buf, p, c, off) && |p| == |c|
    requires p[off..] == c[off..]
    ensures buf == p
  {
    assert p == p[..off] + p[off..];
  }

  /**
   * `chunks_mut(16)` with every whole chunk decrypted in place; a shorter
   * final chunk is left untouched.
   */
  method DecryptChunksInPlace(aesInv: (Key, Block) -> Block, key: Key, a: array<byte>)
    modifies a
    ensures a[..] == DecryptChunks(aesInv, key, old(a[..]))
  {
    ghost var c := a[..];
    ghost var p := DecryptChunks(aesInv, key, c);
    var off := 0;
    ghost var chunks := 0;
    while off + 16 <= a.Length
      invariant 0 <= off <= a.Length && off == 16 * chunks
      invariant DoneUpTo(a[..], p, c, off)
      decreases a.Length - off
    {
      ghost var before := a[..];
      SplicedChunk(before, p, c, off);
      var plain := aesInv(key, a[off..off + 16]);
      DecryptChunkAt(aesInv, key, c, off);
      CopyInto(a, off, plain);
      SpliceChunk(before, a[..], p, c, off, plain);
      off, chunks := off + 16, chunks + 1;
    }
    DecryptChunkAt(aesInv, key, c, off);
    SpliceTail(a[..], p, c, off);
  }

  /** `decrypt_memory_read_response`: None below 16 bytes, else the chunk-wise decryption under the MemoryRead key. */
  method DecryptMemoryReadResponse(aesInv: (Key, Block) -> Block, ciphertext: seq<byte>) returns (r: Option<seq<byte>>)
    ensures r.None? <==> |ciphertext| < 16
    ensures r.Some? ==> r.value == DecryptChunks(aesInv, MemoryReadKey, ciphertext)
  {
    if |ciphertext| < 16 {
      return None;
    }
    var output := new byte[|ciphertext|](i requires 0 <= i < |ciphertext| => ciphertext[i]);
    assert output[..] == ciphertext;
    DecryptChunksInPlace(aesInv, MemoryReadKey, output);
    return Some(output[..]);
  }

  /** `aes_ecb_decrypt_blocks`: the input must be whole blocks (the source asserts it). */
  method AesEcbDecryptBlocks(aesInv: (Key, Block) -> Block, ciphertext: seq<byte>, key: Key) returns (output: seq<byte>)
    requires |ciphertext| % 16 == 0
    ensures output == DecryptChunks(aesInv, key, ciphertext)
  {
    var buffer := new byte[|ciphertext|](i requires 0 <= i < |ciphertext| => ciphertext[i]);
    assert buffer[..] == ciphertext;
    DecryptChunksInPlace(aesInv, key, buffer);
    output := buffer[..];
  }

  // ---------------------------------------------------------------------
  // MemoryRead request
  // ---------------------------------------------------------------------

  /**
   * The 32-byte MemoryRead plaintext: address and size (little-endian), an
   * all-ones word, the checksum of those twelve bytes, then sixteen 0xFF.
   */
  function MemoryReadPlaintext(crc32: seq<byte> -> u32, address: u32, size: u32): (p: seq<byte>)
    ensures |p| == 32
  {
    var head := U32Le(address) + U32Le(size) + U32Le(0xFFFF_FFFF);
    head + U32Le(crc32(head)) + seq(16, _ => 0xFF)
  }

  /** The plaintext layout read back field by field. */
  lemma MemoryReadPlaintextLayout(crc32: seq<byte> -> u32, address: u32, size: u32)
    ensures var p := MemoryReadPlaintext(crc32, address, size);
      && LeU32(p, 0) == address && LeU32(p, 4) == size && LeU32(p, 8) == 0xFFFF_FFFF
      && LeU32(p, 12) == crc32(p[..12])
      && forall i | 16 <= i < 32 :: p[i] == 0xFF
  {
    var p := MemoryReadPlaintext(crc32, address, size);
    var head := U32Le(address) + U32Le(size) + U32Le(0xFFFF_FFFF);
    assert p[..12] == head;
    assert p[0..4] == U32Le(address) && p[4..8] == U32Le(size);
    assert p[8..12] == U32Le(0xFFFF_FFFF) && p[12..16] == U32Le(crc32(head));
  }

  /** `build_memory_read_payload`: fills a 0xFF-initialised buffer, then encrypts it under the MemoryRead key. */
  method BuildMemoryReadPayload(aes: (Key, Block) -> Block, crc32: seq<byte> -> u32, address: u32, size: u32)
    returns (ciphertext: seq<byte>)
    ensures ciphertext == EcbEncrypt32(aes, MemoryReadKey, MemoryReadPlaintext(crc32, address, size))
  {
    var plaintext := new byte[32](_ => 0xFF);
    ghost var fill: seq<byte> := seq(16, _ => 0xFF);
    assert plaintext[..] == fill + fill;
    CopyInto(plaintext, 0, U32Le(address));
    assert plaintext[..] == U32Le(address) + fill[4..] + fill;
    CopyInto(plaintext, 4, U32Le(size));
    assert plaintext[..] == U32Le(address) + U32Le(size) + fill[8..] + fill;
    CopyInto(plaintext, 8, U32Le(0xFFFF_FFFF));
    var head := plaintext[0..12];
    assert plaintext[..] == head + fill[12..] + fill;
    assert head == U32Le(address) + U32Le(size) + U32Le(0xFFFF_FFFF);
    var crc := crc32(head);
    CopyInto(plaintext, 12, U32Le(crc));
    assert plaintext[..] == head + U32Le(crc) + fill;
    ciphertext := EcbEncrypt32(aes, MemoryReadKey, plaintext[..]);
  }

  /** `build_memory_read_packet`: header 44, tid, 01 01 (attribute 0x0101), then the 32-byte ciphertext. */
  method BuildMemoryReadPacket(aes: (Key, Block) -> Block, crc32: seq<byte> -> u32, address: u32, size: u32, tid: byte)
    returns (packet: seq<byte>)
    ensures |packet| == 36 && packet[..4] == [MemoryReadType, tid, 0x01, 0x01]
    ensures packet[4..] == EcbEncrypt32(aes, MemoryReadKey, MemoryReadPlaintext(crc32, address, size))
  {
    var ciphertext := BuildMemoryReadPayload(aes, crc32, address, size);
    packet := [];
    packet := packet + [MemoryReadType];
    packet := packet + [tid];
    packet := packet + [0x01];
    packet := packet + [0x01];
    packet := packet + ciphertext;
  }

  /**
   * What the device recovers from a MemoryRead request when the decryption
   * undoes the encryption: the requested address and size and a checksum
   * that matches the first twelve bytes.
   */
  lemma MemoryReadRecoverable(aes: (Key, Block) -> Block, aesInv: (Key, Block) -> Block, crc32: seq<byte> -> u32,
                              address: u32, size: u32)
    requires forall b: Block :: aesInv(MemoryReadKey, aes(MemoryReadKey, b)) == b
    ensures var p := DecryptChunks(aesInv, MemoryReadKey, EcbEncrypt32(aes, MemoryReadKey, MemoryReadPlaintext(crc32, address, size)));
      && |p| == 32 && LeU32(p, 0) == address && LeU32(p, 4) == size && LeU32(p, 12) == crc32(p[..12])
  {
    DecryptEncrypt32(aes, aesInv, MemoryReadKey, MemoryReadPlaintext(crc32, address, size));
    MemoryReadPlaintextLayout(crc32, address, size);
  }

  // ---------------------------------------------------------------------
  // StreamingAuth request and response
  // ---------------------------------------------------------------------

  /** `u64::to_le_bytes`. */
  function U64Le(v: nat): (r: seq<byte>)
    requires v < 0x1_0000_0000_0000_0000
    ensures |r| == 8 && LeU32(r, 0) + 0x1_0000_0000 * LeU32(r, 4) == v
  {
    U32Le(v % 0x1_0000_0000) + U32Le(v / 0x1_0000_0000)
  }

  /**
   * The 32-byte StreamingAuth plaintext: the millisecond timestamp
   * (little-endian u64), the Hardware ID, twelve bytes of padding. The clock
   * and the random padding are parameters here.
   */
  function StreamingAuthPlaintext(timestampMs: nat, h: HardwareId, padding: seq<byte>): (p: seq<byte>)
    requires timestampMs < 0x1_0000_0000_0000_0000 && |padding| == 12
    ensures |p| == 32 && p[8..20] == h.bytes && p[20..] == padding
  {
    U64Le(timestampMs) + h.bytes + padding
  }

  /** `build_streaming_auth_payload`: the plaintext built in a zeroed buffer, encrypted under the StreamingAuth key. */
  method BuildStreamingAuthPayload(aes: (Key, Block) -> Block, h: HardwareId, timestampMs: nat, padding: seq<byte>)
    returns (ciphertext: seq<byte>)
    requires timestampMs < 0x1_0000_0000_0000_0000 && |padding| == 12
    ensures ciphertext == EcbEncrypt32(aes, StreamingAuthKeyEnc, StreamingAuthPlaintext(timestampMs, h, padding))
  {
    var plaintext := new byte[32](_ => 0);
    CopyInto(plaintext, 0, U64Le(timestampMs));
    CopyInto(plaintext, 8, h.bytes);
    CopyInto(plaintext, 20, padding);
    assert plaintext[..] == StreamingAuthPlaintext(timestampMs, h, padding);
    ciphertext := EcbEncrypt32(aes, StreamingAuthKeyEnc, plaintext[..]);
  }

  /** `build_streaming_auth_packet`: header 4c, tid, 00 02 (attribute 0x0200), then the 32-byte ciphertext. */
  method BuildStreamingAuthPacket(aes: (Key, Block) -> Block, h: HardwareId, timestampMs: nat, padding: seq<byte>, tid: byte)
    returns (packet: seq<byte>)
    requires timestampMs < 0x1_0000_0000_0000_0000 && |padding| == 12
    ensures |packet| == 36 && packet[..4] == [StreamingAuthType, tid, 0x00, 0x02]
    ensures packet[4..] == EcbEncrypt32(aes, StreamingAuthKeyEnc, StreamingAuthPlaintext(timestampMs, h, padding))
  {
    var ciphertext := BuildStreamingAuthPayload(aes, h, timestampMs, padding);
    packet := [StreamingAuthType, tid, 0x00, 0x02] + ciphertext;
  }

  /** With a matching inverse cipher the Hardware ID is read back from bytes 8..20 of a StreamingAuth request. */
  lemma StreamingAuthCarriesHardwareId(aes: (Key, Block) -> Block, aesInv: (Key, Block) -> Block, h: HardwareId,
                                       timestampMs: nat, padding: seq<byte>)
    requires timestampMs < 0x1_0000_0000_0000_0000 && |padding| == 12
    requires forall b: Block :: aesInv(StreamingAuthKeyEnc, aes(StreamingAuthKeyEnc, b)) == b
    ensures var p := DecryptChunks(aesInv, StreamingAuthKeyEnc,
                                   EcbEncrypt32(aes, StreamingAuthKeyEnc, StreamingAuthPlaintext(timestampMs, h, padding)));
      p[8..20] == h.bytes && LeU32(p, 0) + 0x1_0000_0000 * LeU32(p, 4) == timestampMs
  {
    DecryptEncrypt32(aes, aesInv, StreamingAuthKeyEnc, StreamingAuthPlaintext(timestampMs, h, padding));
    var p := StreamingAuthPlaintext(timestampMs, h, padding);
    assert p[..8] == U64Le(timestampMs);
  }

  /** `StreamingAuthResult`. */
  datatype StreamingAuthResult = StreamingAuthResult(success: bool, attribute: u16, authLevel: byte, decryptedPayload: seq<byte>)

  /** `adcqueue_enabled`: bit 1 of the response attribute. */
  predicate AdcqueueEnabled(r: StreamingAuthResult)
  {
    (r.attribute / 2) % 2 == 1
  }

  /** `InitResult::is_authenticated` on its authentication result. */
  predicate IsAuthenticated(r: StreamingAuthResult)
  {
    r.success && AdcqueueEnabled(r)
  }

  /**
   * `parse_streaming_auth_response`: None below 36 bytes or when the type
   * (low seven bits of byte 0) is not StreamingAuth; otherwise the header
   * attribute, success as its bit 1, level 1 or 0 accordingly, and the
   * decrypted payload of bytes 4..36.
   */
  function ParseStreamingAuthResponse(aesInv: (Key, Block) -> Block, response: seq<byte>): (r: Option<StreamingAuthResult>)
    ensures r.None? <==> |response| < 36 || response[0] % 0x80 != StreamingAuthType
    ensures r.Some? ==>
      && r.value.attribute == LeU16(response, 2)
      && r.value.success == AdcqueueEnabled(r.value)
      && r.value.authLevel == (if r.value.success then 1 else 0)
      && r.value.decryptedPayload == DecryptChunks(aesInv, StreamingAuthKeyDec, response[4..36])
  {
    if |response| < 36 then None
    else if response[0] % 0x80 != StreamingAuthType then None
    else
      var attribute := LeU16(response, 2);
      var encrypted := response[4..36];
      var decrypted := EcbDecrypt32(aesInv, StreamingAuthKeyDec, encrypted);
      var success := (attribute / 2) % 2 == 1;
      Some(StreamingAuthResult(success, attribute, if success then 1 else 0, decrypted))
  }

  /** For a parsed response, being authenticated is the same as success. */
  lemma AuthenticatedIffSuccess(aesInv: (Key, Block) -> Block, response: seq<byte>)
    requires ParseStreamingAuthResponse(aesInv, response).Some?
    ensures IsAuthenticated(ParseStreamingAuthResponse(aesInv, response).value) ==
      ParseStreamingAuthResponse(aesInv, response).value.success
  {
  }

  /** The two attribute values the device answers with: 0x0201 refused, 0x0203 granted. */
  lemma AuthAttributeValues(aesInv: (Key, Block) -> Block, response: seq<byte>)
    requires |response| >= 36 && response[0] % 0x80 == StreamingAuthType
    ensures response[2] == 0x01 && response[3] == 0x02 ==> !ParseStreamingAuthResponse(aesInv, response).value.success
    ensures response[2] == 0x03 && response[3] == 0x02 ==>
      ParseStreamingAuthResponse(aesInv, response).value.success && ParseStreamingAuthResponse(aesInv, response).value.authLevel == 1
  {
  }

  /**
   * `parse_streaming_auth_response_payload`: None below 32 bytes; otherwise
   * success with attribute 0x0203 and level 1, whatever the payload says.
   */
  function ParseStreamingAuthResponsePayload(aesInv: (Key, Block) -> Block, payload: seq<byte>): (r: Option<StreamingAuthResult>)
    ensures r.None? <==> |payload| < 32
    ensures r.Some? ==> r.value.success && r.value.attribute == 0x0203 && r.value.authLevel == 1 && IsAuthenticated(r.value)
    ensures r.Some? ==> r.value.decryptedPayload == EcbDecrypt32(aesInv, StreamingAuthKeyDec, payload[..32])
  {
    if |payload| < 32 then None
    else Some(StreamingAuthResult(true, 0x0203, 1, EcbDecrypt32(aesInv, StreamingAuthKeyDec, payload[..32])))
  }

  /** `aes_ecb_decrypt`: both 16-byte halves through the inverse cipher. */
  function EcbDecrypt32(aesInv: (Key, Block) -> Block, key: Key, c: seq<byte>): (p: seq<byte>)
    requires |c| == 32
    ensures p == DecryptChunks(aesInv, key, c)
  {
    assert c[16..][..16] == c[16..];
    assert DecryptChunks(aesInv, key, c[16..][16..]) == [];
    aesInv(key, c[..16]) + aesInv(key, c[16..])
  }
}
