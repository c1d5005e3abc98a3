/**
 * Bytes and the little-endian integer reads and writes shared by every
 * codec of the device: u8/u16/u32 as bounded integers, i16/i32 as two's
 * complement reinterpretations of the unsigned reads.
 */
module Bytes {
  type byte = x: int | 0 <= x < 0x100
  type u16 = x: int | 0 <= x < 0x1_0000
  type u32 = x: int | 0 <= x < 0x1_0000_0000

  /** `u16::from_le_bytes` of s[off..off + 2]. */
  function LeU16(s: seq<byte>, off: nat): u16
    requires off + 2 <= |s|
  {
    s[off] as int + 0x100 * s[off + 1] as int
  }

  /** The three bytes s[off..off + 3] read as a little-endian 24-bit value. */
  function LeU24(s: seq<byte>, off: nat): (v: nat)
    requires off + 3 <= |s|
    ensures v < 0x100_0000
  {
    s[off] as int + 0x100 * (s[off + 1] as int + 0x100 * s[off + 2] as int)
  }

  /** `u32::from_le_bytes` of s[off..off + 4]. */
  function LeU32(s: seq<byte>, off: nat): u32
    requires off + 4 <= |s|
  {
    s[off] as int + 0x100 * (s[off + 1] as int + 0x100 * (s[off + 2] as int + 0x100 * s[off + 3] as int))
  }

  /** Two's complement reading of a 16-bit pattern (`as i16`). */
  function AsI16(u: u16): (v: int)
    ensures -0x8000 <= v < 0x8000
    ensures v % 0x1_0000 == u
  {
    if u < 0x8000 then u else u - 0x1_0000
  }

  /** Two's complement reading of a 32-bit pattern (`as i32`). */
  function AsI32(u: u32): (v: int)
    ensures -0x8000_0000 <= v < 0x8000_0000
    ensures v % 0x1_0000_0000 == u
  {
    if u < 0x8000_0000 then u else u - 0x1_0000_0000
  }

  /** `i16::from_le_bytes` of s[off..off + 2]. */
  function LeI16(s: seq<byte>, off: nat): int
    requires off + 2 <= |s|
  {
    AsI16(LeU16(s, off))
  }

  /** `i32::from_le_bytes` of s[off..off + 4]. */
  function LeI32(s: seq<byte>, off: nat): int
    requires off + 4 <= |s|
  {
    AsI32(LeU32(s, off))
  }

  /** `u16::to_le_bytes`: the inverse of LeU16. */
  function U16Le(v: u16): (r: seq<byte>)
    ensures |r| == 2 && LeU16(r, 0) == v
  {
    [v % 0x100, v / 0x100]
  }

  /** `u32::to_le_bytes`: the inverse of LeU32. */
  function U32Le(v: u32): (r: seq<byte>)
    ensures |r| == 4 && LeU32(r, 0) == v
  {
    [v % 0x100, (v / 0x100) % 0x100, (v / 0x1_0000) % 0x100, v / 0x100_0000]
  }

  /** Writing back what was read gives the same two bytes. */
  lemma U16LeOfRead(s: seq<byte>)
    requires |s| == 2
    ensures U16Le(LeU16(s, 0)) == s
  {
  }

  /** Writing back what was read gives the same four bytes. */
  lemma U32LeOfRead(s: seq<byte>)
    requires |s| == 4
    ensures U32Le(LeU32(s, 0)) == s
  {
    var hi := s[1] as int + 0x100 * (s[2] as int + 0x100 * s[3] as int);
    ByteSplit(s[0], hi);
    ByteSplit(s[1], s[2] as int + 0x100 * s[3] as int);
    ByteSplit(s[2], s[3]);
  }

  /** The 16-bit pattern of an i16 (`as u16`). */
  function FromI16(v: int): (u: u16)
    requires -0x8000 <= v < 0x8000
    ensures AsI16(u) == v
  {
    if v < 0 then v + 0x1_0000 else v
  }

  /** The 32-bit pattern of an i32 (`as u32`). */
  function FromI32(v: int): (u: u32)
    requires -0x8000_0000 <= v < 0x8000_0000
    ensures AsI32(u) == v
  {
    if v < 0 then v + 0x1_0000_0000 else v
  }

  /** `i16::to_le_bytes`: the inverse of LeI16. */
  function I16Le(v: int): (r: seq<byte>)
    requires -0x8000 <= v < 0x8000
    ensures |r| == 2 && LeI16(r, 0) == v
  {
    U16Le(FromI16(v))
  }

  /** `i32::to_le_bytes`: the inverse of LeI32. */
  function I32Le(v: int): (r: seq<byte>)
    requires -0x8000_0000 <= v < 0x8000_0000
    ensures |r| == 4 && LeI32(r, 0) == v
  {
    U32Le(FromI32(v))
  }

  lemma I16LeOfRead(s: seq<byte>)
    requires |s| == 2
    ensures I16Le(LeI16(s, 0)) == s
  {
    U16LeOfRead(s);
  }

  lemma I32LeOfRead(s: seq<byte>)
    requires |s| == 4
    ensures I32Le(LeI32(s, 0)) == s
  {
    U32LeOfRead(s);
  }

  /** Writing back the u16 read at `off` gives those two bytes. */
  lemma U16LeAt(s: seq<byte>, off: nat)
    requires off + 2 <= |s|
    ensures U16Le(LeU16(s, off)) == s[off..off + 2]
  {
    U16LeOfRead(s[off..off + 2]);
  }

  /** Writing back the i16 read at `off` gives those two bytes. */
  lemma I16LeAt(s: seq<byte>, off: nat)
    requires off + 2 <= |s|
    ensures I16Le(LeI16(s, off)) == s[off..off + 2]
  {
    I16LeOfRead(s[off..off + 2]);
  }

  /** Writing back the i32 read at `off` gives those four bytes. */
  lemma I32LeAt(s: seq<byte>, off: nat)
    requires off + 4 <= |s|
    ensures I32Le(LeI32(s, off)) == s[off..off + 4]
  {
    assert LeI32(s[off..off + 4], 0) == LeI32(s, off);
    I32LeOfRead(s[off..off + 4]);
  }

  /** Adjacent slices join. */
  lemma JoinSlices(s: seq<byte>, i: nat, j: nat, k: nat)
    requires i <= j <= k <= |s|
    ensures s[i..j] + s[j..k] == s[i..k]
  {
  }

  /** Dividing off the low byte of a little-endian number. */
  lemma ByteSplit(lo: byte, hi: nat)
    ensures (lo + 0x100 * hi) % 0x100 == lo && (lo + 0x100 * hi) / 0x100 == hi
  {
  }
}
