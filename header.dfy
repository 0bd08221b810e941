/**
 * Validation of the 8-byte CTMP header: the guards applied, in order, before a
 * payload is read.
 */
module Header {
  import opened Bytes
  import opened Wrappers

  /** Why a header was refused; one case per guard, in the order the guards run. */
  datatype HeaderError =
    | BadMagic                 // byte 0 is not the sentinel
    | BadPadding               // bytes 6..8 are not both zero
    | ChecksumFieldNotZero     // a non-sensitive header carries a nonzero checksum field
    | BadLength(length: nat)   // declared length is zero or above the maximum

  /** What a valid header tells the reader: how many payload bytes follow, and whether to check them. */
  datatype HeaderInfo = HeaderInfo(length: u16, sensitive: bool)

  /** The SENSITIVE bit of the options byte. */
  predicate IsSensitive(options: u8)
  {
    (options as int / 0x40) % 2 == 1
  }

  /** The payload length declared in bytes 2..4, big-endian. */
  function DeclaredLength(header: seq<u8>): (n: nat)
    requires |header| >= 4
    ensures n == header[2] as nat * 256 + header[3] as nat
    ensures n < 0x1_0000
  {
    BigEndian16(header[2], header[3]) as nat
  }

  /**
   * Reference description of an acceptable header, field by field: the right
   * sentinel, zero padding, a zero checksum field unless the frame is sensitive,
   * and a nonzero length. No upper bound on the length appears: a 16-bit field
   * cannot exceed the maximum.
   */
  predicate WellFormed(header: seq<u8>)
    requires |header| >= HEADER_LEN
  {
    && header[0] == MAGIC_BYTE
    && header[6] == PAD && header[7] == PAD
    && (IsSensitive(header[1]) || (header[4] == 0 && header[5] == 0))
    && (header[2] != 0 || header[3] != 0)
  }

  /**
   * Accepts or refuses a header, returning its declared length and whether it
   * is sensitive. The guards run in a fixed order, so the error reported is
   * that of the first guard that fails: the magic byte is examined first, then
   * the padding, then the checksum field of a non-sensitive frame; only a zero
   * length is ever refused on length grounds. A header is accepted exactly
   * when it is well formed, and then its length and sensitivity are those
   * declared in bytes 1..4.
   */
  function ValidateHeader(header: seq<u8>): (r: Result<HeaderInfo, HeaderError>)
    requires |header| >= HEADER_LEN
    ensures header[0] != MAGIC_BYTE ==> r == Err(BadMagic)
    ensures header[0] == MAGIC_BYTE && (header[6] != PAD || header[7] != PAD) ==> r == Err(BadPadding)
    ensures header[0] == MAGIC_BYTE && header[6] == PAD && header[7] == PAD
            && !IsSensitive(header[1]) && (header[4] != 0 || header[5] != 0)
            ==> r == Err(ChecksumFieldNotZero)
    ensures r.Err? && r.error.BadLength? ==> r.error.length == 0
    ensures r.Ok? <==> WellFormed(header)
    ensures r.Ok? ==> && r.value.length as int == header[2] as int * 256 + header[3] as int
                      && r.value.length > 0
                      && r.value.sensitive == IsSensitive(header[1])
  {
    if header[0] != MAGIC_BYTE then Err(BadMagic)
    else
      var sensitive := IsSensitive(header[1]);
      var length := DeclaredLength(header);
      if header[6] != PAD || header[7] != PAD then Err(BadPadding)
      else if !sensitive && (header[4] != 0x00 || header[5] != 0x00) then Err(ChecksumFieldNotZero)
      else if length == 0 || length > MAX_PAYLOAD_SIZE then Err(BadLength(length))
      else Ok(HeaderInfo(length as u16, sensitive))
  }

  /** The SENSITIVE test reads bit 6 of the options byte and nothing else. */
  lemma SensitiveIsMaskBit(options: u8)
    ensures IsSensitive(options) <==> (options as bv8) & SENSITIVE_MASK != 0
  {
  }
}
