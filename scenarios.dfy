/**
 * Concrete runs of the relay on small streams: a plain frame, the same frame
 * marked sensitive with a correct checksum, and with a wrong one.
 */
module Scenarios {
  import opened Bytes
  import opened Wrappers
  import opened Header
  import opened Checksum
  import opened Relay
  import opened Transmitter

  /** The payload "hello". */
  const HELLO: seq<u8> := [0x68, 0x65, 0x6c, 0x6c, 0x6f]

  /** A non-sensitive header announcing 5 payload bytes. */
  const PLAIN_HEADER: seq<u8> := [0xCC, 0x00, 0x00, 0x05, 0x00, 0x00, 0x00, 0x00]

  /** The sensitive header for "hello", carrying its correct checksum 0x231B. */
  const SENSITIVE_HEADER: seq<u8> := [0xCC, 0x40, 0x00, 0x05, 0x23, 0x1B, 0x00, 0x00]

  /** The sensitive header for "hello" with the checksum field forced to 0xFFFF. */
  const CORRUPT_HEADER: seq<u8> := [0xCC, 0x40, 0x00, 0x05, 0xFF, 0xFF, 0x00, 0x00]

  /**
   * The checksum of the sensitive "hello" frame is 0x231B, both with checksum
   * field 0x231B and with 0xFFFF (`HelloChecksumAnyField` covers every field
   * value): the masked header sums to 0xCC40 + 0x0005 + 0xCCCC and the payload
   * to 0x6865 + 0x6C6C + 0x6F00.
   */
  lemma HelloChecksum()
    ensures ChecksumOf(SENSITIVE_HEADER, HELLO) == 0x231B
    ensures ChecksumOf(CORRUPT_HEADER, HELLO) == 0x231B
  {
    var masked: seq<u8> := [0xCC, 0x40, 0x00, 0x05, 0xCC, 0xCC, 0x00, 0x00];
    assert MaskChecksumField(SENSITIVE_HEADER) == masked;
    assert WordSum(masked) == 0xCC40 + 0x0005 + 0xCCCC;
    assert WordSum(HELLO) == 0x6865 + 0x6C6C + 0x6F00;
    var sum := WordSum(MaskChecksumField(SENSITIVE_HEADER)) + WordSum(HELLO);
    assert sum == 0x2DCE2;
    assert FoldOnce(sum) == 0xDCE4 by {
      assert sum % 0x1_0000 == 0xDCE2 && sum / 0x1_0000 == 2;
    }
    assert ChecksumOf(SENSITIVE_HEADER, HELLO) == Complement(0xDCE4);
    ChecksumIgnoresChecksumField(SENSITIVE_HEADER, CORRUPT_HEADER, HELLO);
  }

  /**
   * Any sensitive "hello" header that agrees with `SENSITIVE_HEADER` outside
   * the checksum field, whatever that field holds, gives the checksum 0x231B.
   */
  lemma HelloChecksumAnyField(header: seq<u8>)
    requires |header| == HEADER_LEN
    requires forall i :: 0 <= i < HEADER_LEN && i != 4 && i != 5 ==> header[i] == SENSITIVE_HEADER[i]
    ensures ChecksumOf(header, HELLO) == 0x231B
  {
    HelloChecksum();
    ChecksumIgnoresChecksumField(SENSITIVE_HEADER, header, HELLO);
  }

  /**
   * A stream holding one frame under `header` with payload "hello" is read as
   * exactly that frame, after which the stream ends.
   */
  lemma OneFrameRun(header: seq<u8>)
    requires header == PLAIN_HEADER || header == SENSITIVE_HEADER || header == CORRUPT_HEADER
    ensures Run(header + HELLO) == Session([Frame(header, HELLO)], ShortHeader)
  {
    var stream := header + HELLO;
    assert stream[0..HEADER_LEN] == header;
    assert stream[HEADER_LEN..HEADER_LEN + 5] == HELLO;
    assert NextFrame(stream, 0) == Ok(Frame(header, HELLO));
    assert NextFrame(stream, 13) == Err(ShortHeader);
    assert RunFrom(stream, 13) == Session([], ShortHeader);
    assert [Frame(header, HELLO)] + [] == [Frame(header, HELLO)];
  }

  /** Broadcasting one frame to two destinations while no write fails reaches both, in order. */
  lemma OneBroadcastToTwo(a: SocketId, b: SocketId, wire: seq<u8>)
    ensures Fanout([a, b], [wire], []) == FanoutState([a, b], [Write(a, wire, true), Write(b, wire, true)])
  {
    assert [wire][..0] == [];
    assert [a, b][..1] == [a] && [a][..0] == [];
    assert Kept([a], {}) == [a];
    assert Attempts([a], wire, {}) == [Write(a, wire, true)];
  }

  /** The plain "hello" frame is forwarded. */
  lemma PlainHelloForwarded()
    ensures Forwarded(Run(PLAIN_HEADER + HELLO).frames) == [PLAIN_HEADER + HELLO]
  {
    OneFrameRun(PLAIN_HEADER);
    assert !IsSensitive(PLAIN_HEADER[1]);
    assert ChecksumAccepted(Frame(PLAIN_HEADER, HELLO));
    assert Relayed(Frame(PLAIN_HEADER, HELLO)) == [PLAIN_HEADER + HELLO];
    ForwardedCons(Frame(PLAIN_HEADER, HELLO), []);
    assert [Frame(PLAIN_HEADER, HELLO)] + [] == [Frame(PLAIN_HEADER, HELLO)];
  }

  /** The sensitive "hello" frame carrying its correct checksum passes the check. */
  lemma SignedHelloAccepted()
    ensures ChecksumAccepted(Frame(SENSITIVE_HEADER, HELLO))
  {
    HelloChecksum();
    assert BigEndian16(SENSITIVE_HEADER[4], SENSITIVE_HEADER[5]) == 0x231B;
  }

  /** The sensitive "hello" frame with its checksum field forced to 0xFFFF fails the check. */
  lemma CorruptHelloRejected()
    ensures !ChecksumAccepted(Frame(CORRUPT_HEADER, HELLO))
  {
    assert IsSensitive(CORRUPT_HEADER[1]);
    HelloChecksum();
    assert BigEndian16(CORRUPT_HEADER[4], CORRUPT_HEADER[5]) == 0xFFFF;
  }

  /** The sensitive "hello" frame carrying its correct checksum is forwarded. */
  lemma SignedHelloForwarded()
    ensures Forwarded(Run(SENSITIVE_HEADER + HELLO).frames) == [SENSITIVE_HEADER + HELLO]
  {
    OneFrameRun(SENSITIVE_HEADER);
    SignedHelloAccepted();
    assert Relayed(Frame(SENSITIVE_HEADER, HELLO)) == [SENSITIVE_HEADER + HELLO];
    ForwardedCons(Frame(SENSITIVE_HEADER, HELLO), []);
    assert [Frame(SENSITIVE_HEADER, HELLO)] + [] == [Frame(SENSITIVE_HEADER, HELLO)];
  }

  /** The sensitive "hello" frame with its checksum field forced to 0xFFFF is dropped. */
  lemma CorruptHelloDropped()
    ensures Forwarded(Run(CORRUPT_HEADER + HELLO).frames) == []
  {
    OneFrameRun(CORRUPT_HEADER);
    CorruptHelloRejected();
    assert Relayed(Frame(CORRUPT_HEADER, HELLO)) == [];
    ForwardedCons(Frame(CORRUPT_HEADER, HELLO), []);
    assert [Frame(CORRUPT_HEADER, HELLO)] + [] == [Frame(CORRUPT_HEADER, HELLO)];
  }

  /**
   * The plain "hello" frame reaches both of two connected destinations,
   * identical to the 13 bytes sent, and both stay connected; so does the
   * correctly signed sensitive frame; the corrupted one reaches neither.
   */
  lemma HelloScenarios(a: SocketId, b: SocketId)
    ensures Fanout([a, b], Forwarded(Run(PLAIN_HEADER + HELLO).frames), [])
            == FanoutState([a, b], [Write(a, PLAIN_HEADER + HELLO, true), Write(b, PLAIN_HEADER + HELLO, true)])
    ensures Fanout([a, b], Forwarded(Run(SENSITIVE_HEADER + HELLO).frames), [])
            == FanoutState([a, b], [Write(a, SENSITIVE_HEADER + HELLO, true), Write(b, SENSITIVE_HEADER + HELLO, true)])
    ensures Fanout([a, b], Forwarded(Run(CORRUPT_HEADER + HELLO).frames), []) == FanoutState([a, b], [])
  {
    PlainHelloForwarded();
    SignedHelloForwarded();
    CorruptHelloDropped();
    OneBroadcastToTwo(a, b, PLAIN_HEADER + HELLO);
    OneBroadcastToTwo(a, b, SENSITIVE_HEADER + HELLO);
  }
}
