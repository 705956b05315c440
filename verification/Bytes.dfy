/** Bytes and the little-endian and big-endian integers of the wire formats. */
module Bytes {
  type byte = b: int | 0 <= b < 256

  const U16_SIZE: nat := 0x1_0000
  const U32_SIZE: nat := 0x1_0000_0000
  const U64_SIZE: nat := 0x1_0000_0000_0000_0000

  type u32 = n: nat | n < U32_SIZE
  type u64 = n: nat | n < U64_SIZE

  /** u64 addition, wrapping. */
  function WrappingAdd(a: u64, b: u64): (r: u64) {
    if a + b < U64_SIZE then a + b else a + b - U64_SIZE
  }

  function LE16(b: seq<byte>, off: nat): (r: nat)
    requires off + 2 <= |b|
    ensures r < U16_SIZE
  {
    b[off] as nat + 0x100 * b[off + 1] as nat
  }

  function LE32(b: seq<byte>, off: nat): (r: nat)
    requires off + 4 <= |b|
    ensures r < U32_SIZE
  {
    LE16(b, off) + 0x1_0000 * LE16(b, off + 2)
  }

  function LE64(b: seq<byte>, off: nat): (r: nat)
    requires off + 8 <= |b|
    ensures r < U64_SIZE
  {
    LE32(b, off) + 0x1_0000_0000 * LE32(b, off + 4)
  }

  function BE16(b: seq<byte>, off: nat): (r: nat)
    requires off + 2 <= |b|
    ensures r < U16_SIZE
  {
    0x100 * b[off] as nat + b[off + 1] as nat
  }

  function BE32(b: seq<byte>, off: nat): (r: nat)
    requires off + 4 <= |b|
    ensures r < U32_SIZE
  {
    0x1_0000 * BE16(b, off) + BE16(b, off + 2)
  }

  /** The two big-endian bytes of a u16, after the cast that drops higher bits. */
  function ToBE16(v: nat): (r: seq<byte>)
    ensures |r| == 2 && BE16(r, 0) == v % U16_SIZE
  {
    [(v / 0x100) % 0x100, v % 0x100]
  }

  function ToLE16(v: nat): (r: seq<byte>)
    requires v < U16_SIZE
    ensures |r| == 2 && LE16(r, 0) == v
  {
    [v % 0x100, v / 0x100]
  }

  function ToLE32(v: u32): (r: seq<byte>)
    ensures |r| == 4 && LE32(r, 0) == v
  {
    ToLE16(v % 0x1_0000) + ToLE16(v / 0x1_0000)
  }

  function ToLE64(v: u64): (r: seq<byte>)
    ensures |r| == 8 && LE64(r, 0) == v
  {
    ToLE32(v % 0x1_0000_0000) + ToLE32(v / 0x1_0000_0000)
  }

  /** `v & 0xF0`. */
  function HighNibble(v: byte): (r: byte) {
    v - v % 16
  }

  function Flatten(chunks: seq<seq<byte>>): (r: seq<byte>) {
    if chunks == [] then [] else Flatten(chunks[..|chunks| - 1]) + chunks[|chunks| - 1]
  }
}
