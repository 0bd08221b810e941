# CTMP relay core, modelled in Dafny

This project models the relay logic of `src/lib.rs` in the coretech-wirestorm
CTMP relay. One source client sends CTMP frames. Every connected destination
receives each accepted frame unmodified. A CTMP frame is an 8-byte header
followed by a payload. The header holds:

- byte 0: the magic byte `0xCC`;
- byte 1: an options byte whose bit `0x40` marks the frame SENSITIVE;
- bytes 2..4: the payload length, big-endian;
- bytes 4..6: a checksum;
- bytes 6..8: zero padding.

The model covers these parts of the source:

- **Protocol constants** (`Bytes`): header length 8, padding byte `0x00`,
  maximum payload size 65536, magic byte `0xCC`, and the SENSITIVE mask `0x40`.
- **`validate_header`** (`Header.ValidateHeader`): the guards in their source
  order, returning the declared length and the SENSITIVE flag, or the first
  guard that failed.
- **`verify_checksum`** (`Checksum`):
  - `ChecksumOf` is the reference definition.
  - `VerifyChecksum` is the imperative computation. Two chunked loops feed a
    32-bit accumulator, the carry is folded once, the result is truncated to
    16 bits and complemented.
- **`Destinations::new` / `Destinations::add`** (`Relay.Destinations`): the
  receiver list is a class whose `seq` field is extended in place.
  Its invariant `Valid` says no socket is listed twice, as each entry is a
  distinct connection. `Add`, `BroadcastMessage` and `HandleTransmitter` keep
  it; `Add` keeps it when the client is not yet listed, which holds for every
  freshly accepted connection.
- **`broadcast_message`** (`Relay.BroadcastMessage`): the `retain_mut` loop.
  - It writes `header ++ payload` to every receiver, in order, and keeps
    exactly those whose write succeeded.
  - Each write is recorded in a `Network` log.
  - Which writes fail is a parameter: a set of sockets whose write fails.
- **`handle_transmitter`** (`Transmitter.HandleTransmitter`): the frame loop
  over the source's byte stream.
  - It reads a header, validates it and reads the payload.
  - It drops a sensitive frame whose checksum does not match, and broadcasts
    every other frame.
  - It stops for good at the first short read or invalid header.
  - At the end it clears the active-source slot.

The loop is proved against pure specifications:

- `Run(stream)` gives the frames read and the reason reading stopped.
- `Forwarded(frames)` gives the frames that pass the checksum gate.
- `Fanout(receivers, frames, schedule)` gives the receivers and write log
  after broadcasting those frames one after another. The schedule says which
  writes fail in the `k`-th broadcast.

The lemmas state what these mean for the source's behaviour:

- frames are consumed back to back from the stream, unmodified and in order;
- reading stops exactly at the first frame that cannot be read whole;
- a mismatched sensitive frame is skipped on its own;
- each destination receives a prefix of the forwarded frames, in order and
  unmodified;
- a destination stays connected exactly when every write to it succeeded.

The model states these facts about the code's behaviour, which a reader of the
CTMP wire format might not expect:

- A bad magic byte ends the connection's loop. There is no resynchronisation.
- Non-zero padding is rejected rather than ignored.
- A non-sensitive header with a non-zero checksum field is rejected.
- A zero length is rejected. The `> 65536` length guard can never fire,
  because the length is read from 16 bits.
- The checksum covers the header and the payload. The header's checksum
  bytes are replaced by `0xCC`, not by zero.
- The carry is folded exactly once, not until no carry remains, and the
  result is truncated to 16 bits.

## Model

| member | source | states |
|---|---|---|
| Bytes.BigEndian16Bytes | src/lib.rs:233 | `from_be_bytes` puts the first byte high: both bytes can be read back from the 16-bit word |
| Header.DeclaredLength | src/lib.rs:233 | the declared length is `header[2]*256 + header[3]` and is below 65536 |
| Header.ValidateHeader | src/lib.rs:223-250 | bad magic gives `BadMagic` whatever else the header holds; otherwise bad padding gives `BadPadding`; otherwise a non-sensitive header with a non-zero checksum field gives `ChecksumFieldNotZero`; a length error only ever reports length 0; a header is accepted if and only if it is well formed field by field; on acceptance the length is the big-endian bytes 2..4, it is non-zero, and the flag is the SENSITIVE bit |
| Header.SensitiveIsMaskBit | src/lib.rs:232 | the SENSITIVE test holds exactly when `options & 0x40 != 0` |
| Checksum.MaskChecksumField | src/lib.rs:284-286 | the copy summed has the same length, bytes 4 and 5 set to `0xCC` and every other byte unchanged |
| Checksum.WordSumAppend | src/lib.rs:290-308 | chunking into 2-byte words distributes over a concatenation whose first part has even length |
| Checksum.OddTailIsHighByte | src/lib.rs:292-296 | an odd trailing byte `b` contributes `b*256` |
| Checksum.WordSumBound | src/lib.rs:297 | each chunk adds at most 0xFFFF, so the sum is bounded by the number of chunks times 0xFFFF |
| Checksum.FrameSumFitsAccumulator | src/lib.rs:288-308 | with an 8-byte header and a payload below 65536 bytes, the word count stays within the no-overflow bound and the `u32` sum stays below 2^32 |
| Checksum.ChecksumIgnoresChecksumField | src/lib.rs:284-286 | the checksum does not depend on the header's bytes 4 and 5 |
| Checksum.AddWords | src/lib.rs:291-298 | the chunk loop adds exactly the big-endian word sum to the accumulator, with no `u32` overflow on any step |
| Checksum.VerifyChecksum | src/lib.rs:281-315 | the computed checksum equals the complement of the once-folded, truncated sum of the masked header and the payload |
| Checksum.FoldOnceModulo | src/lib.rs:310-314 | the single fold preserves the sum modulo 0xFFFF, except for the one carry the fold itself may produce, which is discarded |
| Relay.Destinations.constructor | src/lib.rs:46-50 | a new receiver list is empty, hence free of duplicates (`Valid`) |
| Relay.Destinations.Add | src/lib.rs:56-65 | the client is appended at the end; existing entries keep their places and order; appending a client not yet listed keeps the list free of duplicates |
| Relay.BroadcastMessage | src/lib.rs:260-269 | the new list is the old list filtered to the receivers whose write succeeded; the log gains one write of `header ++ payload` per old receiver, in list order; a list free of duplicates stays so |
| Relay.KeptIsSubsequence | src/lib.rs:268 | the kept receivers are an order-preserving subsequence of the old list |
| Relay.KeptMultiplicity | src/lib.rs:268 | a receiver whose write succeeded keeps its multiplicity, one whose write failed disappears; it is kept if and only if it was present and its write succeeded |
| Relay.KeptAllSucceed | src/lib.rs:268 | when every write succeeds the list is unchanged |
| Relay.KeptNoDuplicates | src/lib.rs:268 | distinct receivers stay distinct |
| Relay.AttemptsAt | src/lib.rs:261-268 | one write per receiver, in list order, each carrying the whole frame, successful exactly when that socket's write does not fail |
| Relay.WritesToAttempts | src/lib.rs:268 | in one broadcast a receiver listed once is written exactly once, and a socket not listed is not written |
| Relay.FanoutSnoc | src/lib.rs:369 | unfolding step of `Fanout`: broadcasting one more frame continues from the state the earlier broadcasts left |
| Relay.FanoutReceivers | src/lib.rs:268 | after any number of broadcasts the receivers are distinct and were all present at the start |
| Relay.DeliveryStep | src/lib.rs:268 | one more broadcast keeps what a destination received a prefix of the frames; it stays connected exactly when it has received every frame successfully |
| Relay.FanoutDelivery | src/lib.rs:268 | across broadcasts, each destination receives a prefix of the frames, in order and unmodified; only its last write can have failed; it is still connected if and only if all frames reached it |
| Transmitter.NextFrame | src/lib.rs:338-355 | a frame read has an 8-byte header and lies entirely within the stream |
| Transmitter.NextFrameIsStreamBytes | src/lib.rs:338-355 | a frame read is well formed, and its header and payload are the stream's bytes at that offset, unmodified |
| Transmitter.RunFromAt | src/lib.rs:338-355 | unfolding step of `RunFrom`: a complete frame at an offset is the next frame read, reading goes on right after its payload, and the stop reason is the one found further on |
| Transmitter.ForwardedNext | src/lib.rs:357-369 | unfolding step of `Forwarded` over `RunFrom`: what is forwarded from an offset is the frame read there, if it passes the gate, followed by what is forwarded from right after it |
| Transmitter.RunFromTilesStream | src/lib.rs:335-370 | the frames read lie back to back from the starting offset, in stream order, each exactly as received |
| Transmitter.RunFromStopsAfterFrames | src/lib.rs:338-355 | the offset right after the frames read lies within the stream, and reading there stops at once, for the same reason the whole run stopped |
| Transmitter.RunFromWellFormed | src/lib.rs:343-355 | every frame read passed header validation and carries exactly its declared payload length |
| Transmitter.RunFromStops | src/lib.rs:338-355 | unfolding step of `RunFrom`: a short header, an invalid header or a short payload ends reading, with that reason |
| Transmitter.GateAcceptsOnlyItsChecksum | src/lib.rs:357-363 | the checksum gate `ChecksumAccepted` passes a sensitive frame, whatever its checksum field holds, exactly when that field equals the checksum computed from the frame's other bytes, so exactly one field value passes |
| Transmitter.MismatchedFrameSkipped | src/lib.rs:357-366 | a sensitive frame whose computed checksum differs from its checksum field is dropped, and the frames after it are still forwarded |
| Transmitter.ServeForwards | src/lib.rs:357-369 | unfolding step of `Serve`: a frame that passes the gate is broadcast with the next failure set, and the loop goes on with the frames read after it |
| Transmitter.ServeDrops | src/lib.rs:360-366 | unfolding step of `Serve`: a frame that fails the gate leaves receivers, log and broadcast count unchanged, and the loop goes on with the frames read after it |
| Transmitter.ServeContinuesFanout | src/lib.rs:335-370 | after any broadcasts already made, serving further frames continues them with exactly those of the frames that pass the gate, in order |
| Transmitter.ServeIsFanout | src/lib.rs:335-370 | the whole loop ends in the state reached by broadcasting, one after another, exactly the frames read that pass the checksum gate |
| Transmitter.HandleTransmitter | src/lib.rs:327-378 | the receiver list and write log end as if exactly the forwarded frames had been broadcast in stream order; the active-source slot ends empty; a receiver list free of duplicates stays so |
| Scenarios.HelloChecksum | src/lib.rs:281-315 | the sensitive "hello" frame's checksum is 0x231B, both with checksum field 0x231B and with 0xFFFF |
| Scenarios.HelloChecksumAnyField | src/lib.rs:281-315 | every sensitive "hello" header that differs from the signed one only in its checksum field gives the checksum 0x231B, whatever that field holds |
| Scenarios.OneFrameRun | src/lib.rs:335-355 | a stream holding one 13-byte "hello" frame is read as exactly that frame, then reading stops at the end of the stream |
| Scenarios.SignedHelloAccepted | src/lib.rs:357-367 | the sensitive "hello" frame with checksum field 0x231B passes the gate |
| Scenarios.CorruptHelloRejected | src/lib.rs:357-366 | the same frame with checksum field 0xFFFF fails the gate |
| Scenarios.OneBroadcastToTwo | src/lib.rs:260-269 | with two destinations and no failing write, both receive the frame, a then b, and both stay connected |
| Scenarios.PlainHelloForwarded | src/lib.rs:335-370 | the plain "hello" frame is forwarded unmodified |
| Scenarios.SignedHelloForwarded | src/lib.rs:335-370 | the correctly signed sensitive "hello" frame is forwarded unmodified |
| Scenarios.CorruptHelloDropped | src/lib.rs:360-366 | the sensitive "hello" frame with checksum field 0xFFFF is not forwarded |
| Scenarios.HelloScenarios | src/lib.rs:327-378 | with two destinations connected, the plain and the correctly signed frame reach both as the identical 13 bytes and both stay connected; the corrupted frame reaches neither |

## Left out

- `ThreadPool`, `Worker` and `Drop for ThreadPool` (src/lib.rs:89-211): thread creation, the job channel and joining are concurrency plumbing with no relay logic.
- `src/main.rs` is not part of this model: it is an unrelated example HTTP server.
- Mutex locking, poison handling and `clone_inner`: the shared list and the active-source slot are plain class fields, and each lock is taken to succeed. The lock-failure path of `Destinations::add` (log and return) is therefore not modelled.
- Transmitter.HandleTransmitter: assumes no destination is added during the session. The list is shared through `Arc<Mutex<…>>` (src/lib.rs:329, 369), so in the source another thread may add a destination between two broadcasts; the final receivers and log are stated only for a session without such interleaving.
- Real sockets:
  - The source connection is the finite byte sequence it delivers, consumed from the front.
  - A destination is an opaque id.
  - Whether a write succeeds is given by a per-broadcast set of failing sockets.
  - Partial writes, blocking and timeouts are not modelled.
- `println!`/`eprintln!` diagnostics are left out. Header errors are an enumeration instead of message strings.
- Bitwise operators are modelled arithmetically:
  - `& 0xFFFF` as `% 0x10000`;
  - `>> 16` as `/ 0x10000`;
  - `!` on a `u16` as `0xFFFF -`;
  - the `0x40` test is written with division. `Header.SensitiveIsMaskBit` proves it equal to the bit-vector mask.
- Checksum.VerifyChecksum: requires at most 65537 words in total. That bound keeps the `u32` accumulator from overflowing whatever the bytes are. Beyond it the sum can exceed 2^32 - 1 (for example 65538 words of 0xFFFF); the source then panics in a debug build and wraps in a release build, and neither is modelled. Longer inputs whose sum stays smaller run normally in the source, but the precondition excludes them too. Every frame the transmitter checks lies within the bound (`Checksum.FrameSumFitsAccumulator`).
- Header.ValidateHeader and Checksum.VerifyChecksum require headers of at least 8 and 6 bytes. On a shorter slice, `validate_header` (src/lib.rs:228-229) returns the magic-byte error if byte 0 is wrong and panics otherwise (including on an empty slice); `verify_checksum` panics. Neither case is modelled, because their only caller (src/lib.rs:343, 362) always passes the 8-byte header buffer.
