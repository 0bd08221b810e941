/**
 * Byte-level vocabulary of the CTMP wire format: the unsigned integer widths
 * the relay computes with, the protocol constants and big-endian 16-bit words.
 */
module Bytes {

  newtype u8 = x: int | 0 <= x < 0x100
  newtype u16 = x: int | 0 <= x < 0x1_0000
  newtype u32 = x: int | 0 <= x < 0x1_0000_0000

  /** Size of the fixed frame header: magic, options, length (2), checksum (2), padding (2). */
  const HEADER_LEN: nat := 8
  /** Value every padding byte must hold. */
  const PAD: u8 := 0x00
  /** Upper bound on a declared payload length (the length field is 16 bits, so it never binds). */
  const MAX_PAYLOAD_SIZE: nat := 65536
  /** Sentinel that must open every header; also substituted for the checksum field when summing. */
  const MAGIC_BYTE: u8 := 0xCC
  /** Bit of the options byte that marks a frame as sensitive. */
  const SENSITIVE_MASK: bv8 := 0x40

  /** The 16-bit word whose high byte is `hi` and low byte is `lo` (network byte order). */
  function BigEndian16(hi: u8, lo: u8): u16
  {
    (hi as int * 0x100 + lo as int) as u16
  }

  /** The two bytes can be read back from the word: high byte first. */
  lemma BigEndian16Bytes(hi: u8, lo: u8)
    ensures BigEndian16(hi, lo) as int / 0x100 == hi as int
    ensures BigEndian16(hi, lo) as int % 0x100 == lo as int
  {
  }
}
