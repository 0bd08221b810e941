/**
 * The CTMP checksum: a 16-bit one's-complement style sum over the header (with
 * its checksum field replaced by the sentinel) and the payload, folded once
 * and complemented.
 */
module Checksum {
  import opened Bytes

  /**
   * Sum of the big-endian 16-bit words of `s`, taken two bytes at a time from
   * the front; an odd final byte is the high byte of a word whose low byte is zero.
   */
  function WordSum(s: seq<u8>): nat
    decreases |s|
  {
    if |s| == 0 then 0
    else if |s| == 1 then BigEndian16(s[0], 0) as nat
    else BigEndian16(s[0], s[1]) as nat + WordSum(s[2..])
  }

  /** Number of 16-bit words (chunks of at most two bytes) in `n` bytes. */
  function WordCount(n: nat): nat
  {
    (n + 1) / 2
  }

  /**
   * Largest number of words whose sum always fits the 32-bit accumulator:
   * 65537 * 0xFFFF == 0xFFFF_FFFF.
   */
  const MAX_WORDS: nat := 65537

  /** The header as it is summed: the two checksum bytes read as the sentinel. */
  function MaskChecksumField(header: seq<u8>): (h: seq<u8>)
    requires |header| >= 6
    ensures |h| == |header| && h[4] == MAGIC_BYTE && h[5] == MAGIC_BYTE
    ensures forall i :: 0 <= i < |h| && i != 4 && i != 5 ==> h[i] == header[i]
  {
    header[4 := MAGIC_BYTE][5 := MAGIC_BYTE]
  }

  /** One fold of the carry into the low 16 bits, truncated to 16 bits. */
  function FoldOnce(sum: nat): u16
  {
    ((sum % 0x1_0000 + sum / 0x1_0000) % 0x1_0000) as u16
  }

  /** Bitwise NOT of a 16-bit word. */
  function Complement(w: u16): u16
  {
    0xFFFF - w
  }

  /** The checksum a frame with this header and payload is expected to carry. */
  function ChecksumOf(header: seq<u8>, payload: seq<u8>): u16
    requires |header| >= 6
  {
    Complement(FoldOnce(WordSum(MaskChecksumField(header)) + WordSum(payload)))
  }

  /** Summing a concatenation whose first part has even length sums the parts. */
  lemma {:induction false} WordSumAppend(a: seq<u8>, b: seq<u8>)
    requires |a| % 2 == 0
    ensures WordSum(a + b) == WordSum(a) + WordSum(b)
    decreases |a|
  {
    if |a| == 0 {
      assert a + b == b;
    } else {
      assert (a + b)[2..] == a[2..] + b;
      WordSumAppend(a[2..], b);
    }
  }

  /** An odd final byte `b` contributes `b * 256` to the sum. */
  lemma OddTailIsHighByte(s: seq<u8>, b: u8)
    requires |s| % 2 == 0
    ensures WordSum(s + [b]) == WordSum(s) + b as nat * 256
  {
    WordSumAppend(s, [b]);
  }

  /** Each word is at most 0xFFFF, so the sum is bounded by the number of words. */
  lemma {:induction false} WordSumBound(s: seq<u8>)
    ensures WordSum(s) <= WordCount(|s|) * 0xFFFF
    decreases |s|
  {
    if |s| >= 2 {
      WordSumBound(s[2..]);
    }
  }

  /**
   * A frame as the transmitter reads it (an 8-byte header, a payload of at most
   * 65535 bytes) stays within MAX_WORDS words, so its sum never reaches 2^32.
   */
  lemma FrameSumFitsAccumulator(header: seq<u8>, payload: seq<u8>)
    requires |header| == HEADER_LEN && |payload| < 0x1_0000
    ensures WordCount(|header|) + WordCount(|payload|) <= MAX_WORDS
    ensures WordSum(MaskChecksumField(header)) + WordSum(payload) < 0x1_0000_0000
  {
    WordSumBound(MaskChecksumField(header));
    WordSumBound(payload);
  }

  /** The checksum does not depend on what the header's checksum field held. */
  lemma ChecksumIgnoresChecksumField(h1: seq<u8>, h2: seq<u8>, payload: seq<u8>)
    requires |h1| == |h2| >= 6
    requires forall i :: 0 <= i < |h1| && i != 4 && i != 5 ==> h1[i] == h2[i]
    ensures ChecksumOf(h1, payload) == ChecksumOf(h2, payload)
  {
    assert MaskChecksumField(h1) == MaskChecksumField(h2);
  }

  /**
   * Adds the words of `s` to the accumulator, chunk by chunk; the precondition
   * is enough, whatever the bytes, to keep the 32-bit additions from overflowing.
   */
  method AddWords(s: seq<u8>, sum: u32) returns (total: u32)
    requires sum as int + WordCount(|s|) * 0xFFFF < 0x1_0000_0000
    ensures total as int == sum as int + WordSum(s)
  {
    total := sum;
    var i := 0;
    while i < |s|
      invariant 0 <= i <= |s|
      invariant i % 2 == 0 || i == |s|
      invariant total as int == sum as int + WordSum(s[..i])
      invariant total as int <= sum as int + WordCount(i) * 0xFFFF
    {
      var chunk := if i + 2 <= |s| then s[i..i + 2] else s[i..];
      var val := if |chunk| == 2 then BigEndian16(chunk[0], chunk[1])
                 else BigEndian16(chunk[0], 0);
      total := total + val as u32;
      assert s[..i + |chunk|] == s[..i] + chunk;
      WordSumAppend(s[..i], chunk);
      i := i + |chunk|;
    }
    assert s[..i] == s;
  }

  /**
   * Computes the checksum of a frame: sums the masked header and the payload
   * into a 32-bit accumulator, folds the carry once, truncates and complements.
   */
  method VerifyChecksum(header: seq<u8>, payload: seq<u8>) returns (c: u16)
    requires |header| >= 6
    requires WordCount(|header|) + WordCount(|payload|) <= MAX_WORDS
    ensures c == ChecksumOf(header, payload)
  {
    var checksumHeader := header[4 := MAGIC_BYTE][5 := MAGIC_BYTE];
    var sum: u32 := 0;
    sum := AddWords(checksumHeader, sum);
    WordSumBound(checksumHeader);
    sum := AddWords(payload, sum);
    sum := (sum % 0x1_0000) + (sum / 0x1_0000);
    var folded := (sum % 0x1_0000) as u16;
    c := 0xFFFF - folded;
  }

  /**
   * The single fold keeps the sum modulo 0xFFFF, as one's-complement addition
   * does, except that a carry produced by the fold itself is discarded.
   */
  lemma FoldOnceModulo(sum: nat)
    requires sum < 0x1_0000_0000
    ensures var t := sum % 0x1_0000 + sum / 0x1_0000;
            (FoldOnce(sum) as int + (if t >= 0x1_0000 then 1 else 0)) % 0xFFFF == sum % 0xFFFF
  {
  }
}
