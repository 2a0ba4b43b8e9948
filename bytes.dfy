/** Bytes, and the little-endian integers read out of them. */
module Bytes {
  newtype byte = x: int | 0 <= x < 256

  /** `struct.unpack('<H', ...)`: an unsigned 16-bit little-endian integer. */
  function U16LE(data: seq<byte>, i: nat): (r: nat)
    requires i + 2 <= |data|
    ensures r < 0x1_0000
  {
    data[i] as nat + 0x100 * data[i + 1] as nat
  }

  /** `struct.unpack('<I', ...)`: an unsigned 32-bit little-endian integer. */
  function U32LE(data: seq<byte>, i: nat): (r: nat)
    requires i + 4 <= |data|
    ensures r < 0x1_0000_0000
  {
    U16LE(data, i) + 0x1_0000 * U16LE(data, i + 2)
  }
}
