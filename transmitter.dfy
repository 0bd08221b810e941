/**
 * The source connection's frame loop: read a header, validate it, read the
 * payload, drop a sensitive frame whose checksum does not match, broadcast
 * every other frame unmodified, and stop for good at the first short read or
 * invalid header. The socket is the finite byte sequence it delivers, read
 * from the front.
 */
module Transmitter {
  import opened Bytes
  import opened Wrappers
  import opened Header
  import opened Checksum
  import opened Relay

  /** A frame as read from the source: its 8 header bytes and its payload. */
  datatype Frame = Frame(header: seq<u8>, payload: seq<u8>)

  /** The bytes of a frame on the wire, and as broadcast. */
  function Wire(f: Frame): seq<u8>
  {
    f.header + f.payload
  }

  /** Why the loop ended. */
  datatype StopReason =
    | ShortHeader                        // fewer than 8 bytes were left
    | InvalidHeader(error: HeaderError)  // the header failed validation
    | ShortPayload                       // fewer bytes followed the header than it declared

  /** The frames the loop read completely, in stream order, and why it stopped. */
  datatype Session = Session(frames: seq<Frame>, stop: StopReason)

  /** A header that validates, followed by exactly the payload it declares. */
  predicate WellFormedFrame(f: Frame)
  {
    && |f.header| == HEADER_LEN
    && ValidateHeader(f.header).Ok?
    && |f.payload| == ValidateHeader(f.header).value.length as int
  }

  /**
   * The checksum gate: a frame passes when it is not sensitive, or when the
   * checksum computed over it equals the big-endian value of header bytes 4..6.
   */
  predicate ChecksumAccepted(f: Frame)
    requires |f.header| == HEADER_LEN
  {
    !IsSensitive(f.header[1]) || ChecksumOf(f.header, f.payload) == BigEndian16(f.header[4], f.header[5])
  }

  /**
   * The gate decides on a sensitive frame by its checksum field alone: whatever
   * is written in bytes 4..6, the frame passes exactly when that field holds the
   * checksum computed from the frame's other bytes. So exactly one field value
   * passes, the one a sender signing the frame writes there.
   */
  lemma GateAcceptsOnlyItsChecksum(f: Frame, hi: u8, lo: u8)
    requires |f.header| == HEADER_LEN && IsSensitive(f.header[1])
    ensures ChecksumAccepted(Frame(f.header[4 := hi][5 := lo], f.payload))
            <==> BigEndian16(hi, lo) == ChecksumOf(f.header, f.payload)
  {
    var signed := f.header[4 := hi][5 := lo];
    assert signed[1] == f.header[1] && signed[4] == hi && signed[5] == lo;
    ChecksumIgnoresChecksumField(f.header, signed, f.payload);
  }

  /**
   * One pass of the loop's reading half at byte offset `pos`: the 8-byte
   * header, its validation, then the declared number of payload bytes.
   */
  function NextFrame(stream: seq<u8>, pos: nat): (r: Result<Frame, StopReason>)
    requires pos <= |stream|
    ensures r.Ok? ==> |r.value.header| == HEADER_LEN && pos + HEADER_LEN + |r.value.payload| <= |stream|
  {
    if |stream| - pos < HEADER_LEN then Err(ShortHeader)
    else
      var header := stream[pos..pos + HEADER_LEN];
      match ValidateHeader(header)
      case Err(e) => Err(InvalidHeader(e))
      case Ok(info) =>
        var end := pos + HEADER_LEN + info.length as int;
        if |stream| < end then Err(ShortPayload)
        else Ok(Frame(header, stream[pos + HEADER_LEN..end]))
  }

  /** The frames the loop reads from byte offset `pos` onwards, and why it stops. */
  function RunFrom(stream: seq<u8>, pos: nat): (r: Session)
    requires pos <= |stream|
    ensures forall i :: 0 <= i < |r.frames| ==> |r.frames[i].header| == HEADER_LEN
    decreases |stream| - pos
  {
    match NextFrame(stream, pos)
    case Err(stop) => Session([], stop)
    case Ok(f) =>
      var rest := RunFrom(stream, pos + HEADER_LEN + |f.payload|);
      Session([f] + rest.frames, rest.stop)
  }

  /** The loop of the source connection, run over the whole stream. */
  function Run(stream: seq<u8>): (r: Session)
    ensures forall i :: 0 <= i < |r.frames| ==> |r.frames[i].header| == HEADER_LEN
  {
    RunFrom(stream, 0)
  }

  /** What the loop broadcasts for one frame it has read: the frame itself, or nothing. */
  function Relayed(f: Frame): seq<seq<u8>>
    requires |f.header| == HEADER_LEN
  {
    if ChecksumAccepted(f) then [Wire(f)] else []
  }

  /** The wire bytes of the frames that pass the checksum gate, in order: what is broadcast. */
  function Forwarded(frames: seq<Frame>): seq<seq<u8>>
    requires forall i :: 0 <= i < |frames| ==> |frames[i].header| == HEADER_LEN
    decreases |frames|
  {
    if frames == [] then [] else Relayed(frames[0]) + Forwarded(frames[1..])
  }

  /** The wire bytes of `frames`, concatenated in order. */
  function Concat(frames: seq<Frame>): seq<u8>
    decreases |frames|
  {
    if frames == [] then [] else Wire(frames[0]) + Concat(frames[1..])
  }

  /**
   * The loop's broadcasting half over the frames it reads, given the receivers
   * and write log so far and the number of broadcasts so far: the receivers
   * and write log it leaves behind.
   */
  function Serve(frames: seq<Frame>, st: FanoutState, k: nat, schedule: seq<set<SocketId>>): FanoutState
    requires forall i :: 0 <= i < |frames| ==> |frames[i].header| == HEADER_LEN
    decreases |frames|
  {
    if frames == [] then st
    else if ChecksumAccepted(frames[0]) then Serve(frames[1..], Broadcast(st, Wire(frames[0]), FailedAt(schedule, k)), k + 1, schedule)
    else Serve(frames[1..], st, k, schedule)
  }

  /** The slot holding the currently connected source, if any. */
  class ActiveSource {
    var current: Option<SocketId>

    constructor (source: Option<SocketId>)
      ensures current == source
    {
      current := source;
    }
  }

  /** The state reached by the broadcasts `st` records, after a write log `log` that came first. */
  function After(log: seq<Write>, st: FanoutState): FanoutState
  {
    FanoutState(st.receivers, log + st.log)
  }

  /** The frames read from `pos`: the complete frame found there, then those read from `next`, right after it. */
  lemma RunFromAt(stream: seq<u8>, pos: nat, next: nat, f: Frame)
    requires pos <= |stream| && NextFrame(stream, pos) == Ok(f)
    requires next == pos + HEADER_LEN + |f.payload|
    ensures next <= |stream| && RunFrom(stream, pos).frames == [f] + RunFrom(stream, next).frames
    ensures RunFrom(stream, pos).stop == RunFrom(stream, next).stop
  {
  }

  /** A frame that passes the gate is broadcast, and the loop goes on with the frames after it. */
  lemma ServeForwards(f: Frame, rest: seq<Frame>, st: FanoutState, k: nat, schedule: seq<set<SocketId>>)
    requires |f.header| == HEADER_LEN && ChecksumAccepted(f)
    requires forall i :: 0 <= i < |rest| ==> |rest[i].header| == HEADER_LEN
    ensures Serve([f] + rest, st, k, schedule) == Serve(rest, Broadcast(st, Wire(f), FailedAt(schedule, k)), k + 1, schedule)
  {
    assert ([f] + rest)[0] == f && ([f] + rest)[1..] == rest;
  }

  /** A frame that fails the gate is dropped, and the loop goes on with the frames after it. */
  lemma ServeDrops(f: Frame, rest: seq<Frame>, st: FanoutState, k: nat, schedule: seq<set<SocketId>>)
    requires |f.header| == HEADER_LEN && !ChecksumAccepted(f)
    requires forall i :: 0 <= i < |rest| ==> |rest[i].header| == HEADER_LEN
    ensures Serve([f] + rest, st, k, schedule) == Serve(rest, st, k, schedule)
  {
    assert ([f] + rest)[0] == f && ([f] + rest)[1..] == rest;
  }

  lemma ForwardedCons(f: Frame, rest: seq<Frame>)
    requires |f.header| == HEADER_LEN
    requires forall i :: 0 <= i < |rest| ==> |rest[i].header| == HEADER_LEN
    ensures Forwarded([f] + rest) == Relayed(f) + Forwarded(rest)
  {
    assert ([f] + rest)[1..] == rest;
  }

  /** The frames forwarded from offset `pos`: the next frame if it passes the gate, then those after it at `next`. */
  lemma ForwardedNext(stream: seq<u8>, pos: nat, next: nat, f: Frame)
    requires pos <= |stream| && NextFrame(stream, pos) == Ok(f)
    requires next == pos + HEADER_LEN + |f.payload|
    ensures next <= |stream|
    ensures Forwarded(RunFrom(stream, pos).frames) == Relayed(f) + Forwarded(RunFrom(stream, next).frames)
  {
    RunFromAt(stream, pos, next, f);
    ForwardedCons(f, RunFrom(stream, next).frames);
  }

  /**
   * A frame read at offset `pos` is well formed, and its wire bytes are the
   * stream's bytes from `pos` on, unmodified.
   */
  lemma NextFrameIsStreamBytes(stream: seq<u8>, pos: nat)
    requires pos <= |stream| && NextFrame(stream, pos).Ok?
    ensures WellFormedFrame(NextFrame(stream, pos).value)
    ensures pos + |Wire(NextFrame(stream, pos).value)| <= |stream|
    ensures stream[pos..pos + |Wire(NextFrame(stream, pos).value)|] == Wire(NextFrame(stream, pos).value)
  {
    var f := NextFrame(stream, pos).value;
    var end := pos + HEADER_LEN + |f.payload|;
    assert stream[pos..end] == stream[pos..pos + HEADER_LEN] + stream[pos + HEADER_LEN..end];
  }

  /** Two pieces lying back to back in `s` form their concatenation there. */
  lemma SliceConcat<T>(s: seq<T>, i: nat, j: nat, a: seq<T>, b: seq<T>, ab: seq<T>)
    requires i <= j && j + |b| <= |s| && |a| == j - i
    requires s[i..j] == a && s[j..j + |b|] == b && ab == a + b
    ensures i + |ab| == j + |b| <= |s| && s[i..i + |ab|] == ab
  {
    assert s[i..i + |ab|] == s[i..j] + s[j..j + |b|];
  }

  lemma OffsetAfter<T>(i: nat, j: nat, a: seq<T>, b: seq<T>, ab: seq<T>)
    requires i <= j && |a| == j - i && ab == a + b
    ensures i + |ab| == j + |b|
  {
  }

  /** When no complete frame can be read at `pos`, the loop reads nothing more and stops for that reason. */
  lemma RunFromStops(stream: seq<u8>, pos: nat)
    requires pos <= |stream| && NextFrame(stream, pos).Err?
    ensures RunFrom(stream, pos) == Session([], NextFrame(stream, pos).error)
  {
  }

  lemma ConcatFrames(frames: seq<Frame>, f: Frame, rest: seq<Frame>)
    requires frames == [f] + rest
    ensures Concat(frames) == Wire(f) + Concat(rest)
  {
    assert frames[1..] == rest;
  }

  /**
   * The frames read from offset `pos` lie back to back in the stream, each
   * exactly as it arrived.
   */
  lemma {:induction false} RunFromTilesStream(stream: seq<u8>, pos: nat)
    requires pos <= |stream|
    ensures pos + |Concat(RunFrom(stream, pos).frames)| <= |stream|
    ensures stream[pos..pos + |Concat(RunFrom(stream, pos).frames)|] == Concat(RunFrom(stream, pos).frames)
    decreases |stream| - pos
  {
    match NextFrame(stream, pos)
    case Err(stop) =>
      assert RunFrom(stream, pos).frames == [];
    case Ok(f) =>
      var next := pos + HEADER_LEN + |f.payload|;
      RunFromTilesStream(stream, next);
      NextFrameIsStreamBytes(stream, pos);
      RunFromAt(stream, pos, next, f);
      ConcatFrames(RunFrom(stream, pos).frames, f, RunFrom(stream, next).frames);
      SliceConcat(stream, pos, next, Wire(f), Concat(RunFrom(stream, next).frames), Concat(RunFrom(stream, pos).frames));
  }

  /** The offset after the frames read from `pos` is the offset after those read from the next frame on. */
  lemma EndAfterNext(stream: seq<u8>, pos: nat, next: nat, f: Frame)
    requires pos <= |stream| && NextFrame(stream, pos) == Ok(f)
    requires next == pos + HEADER_LEN + |f.payload|
    ensures next <= |stream|
    ensures pos + |Concat(RunFrom(stream, pos).frames)| == next + |Concat(RunFrom(stream, next).frames)|
    ensures RunFrom(stream, pos).stop == RunFrom(stream, next).stop
  {
    RunFromAt(stream, pos, next, f);
    ConcatFrames(RunFrom(stream, pos).frames, f, RunFrom(stream, next).frames);
    OffsetAfter(pos, next, Wire(f), Concat(RunFrom(stream, next).frames), Concat(RunFrom(stream, pos).frames));
  }

  /**
   * The loop stops for good, for the reason found there, at the offset `end`
   * right after the frames it read from `pos`.
   */
  lemma {:induction false} RunFromStopsAfterFrames(stream: seq<u8>, pos: nat, end: nat)
    requires pos <= |stream|
    requires end == pos + |Concat(RunFrom(stream, pos).frames)|
    ensures end <= |stream| && RunFrom(stream, end) == Session([], RunFrom(stream, pos).stop)
    decreases |stream| - pos
  {
    match NextFrame(stream, pos)
    case Err(stop) =>
      RunFromStops(stream, pos);
      assert Concat(RunFrom(stream, pos).frames) == [];
    case Ok(f) =>
      var next := pos + HEADER_LEN + |f.payload|;
      EndAfterNext(stream, pos, next, f);
      RunFromStopsAfterFrames(stream, next, end);
  }

  /** Every frame the loop reads is well formed. */
  lemma {:induction false} RunFromWellFormed(stream: seq<u8>, pos: nat)
    requires pos <= |stream|
    ensures forall i :: 0 <= i < |RunFrom(stream, pos).frames| ==> WellFormedFrame(RunFrom(stream, pos).frames[i])
    decreases |stream| - pos
  {
    match NextFrame(stream, pos)
    case Err(stop) =>
      assert RunFrom(stream, pos) == Session([], stop);
    case Ok(f) =>
      var next := pos + HEADER_LEN + |f.payload|;
      RunFromWellFormed(stream, next);
      NextFrameIsStreamBytes(stream, pos);
      RunFromAt(stream, pos, next, f);
  }

  /**
   * A sensitive frame whose checksum field disagrees with its computed checksum
   * is dropped on its own: what is forwarded from it on is what is forwarded
   * from the next frame on.
   */
  lemma MismatchedFrameSkipped(stream: seq<u8>, pos: nat, next: nat, f: Frame)
    requires pos <= |stream| && NextFrame(stream, pos) == Ok(f)
    requires next == pos + HEADER_LEN + |f.payload|
    requires IsSensitive(f.header[1]) && ChecksumOf(f.header, f.payload) != BigEndian16(f.header[4], f.header[5])
    ensures next <= |stream|
    ensures Forwarded(RunFrom(stream, pos).frames) == Forwarded(RunFrom(stream, next).frames)
  {
    assert !ChecksumAccepted(f);
    ForwardedNext(stream, pos, next, f);
    var rest := Forwarded(RunFrom(stream, next).frames);
    assert Relayed(f) + rest == rest;
  }

  lemma BroadcastAfterFanout(rs: seq<SocketId>, log: seq<Write>, prefix: seq<seq<u8>>, frame: seq<u8>,
                             schedule: seq<set<SocketId>>)
    ensures Broadcast(After(log, Fanout(rs, prefix, schedule)), frame, FailedAt(schedule, |prefix|))
            == After(log, Fanout(rs, prefix + [frame], schedule))
  {
    FanoutSnoc(rs, prefix, frame, schedule);
    var before := Fanout(rs, prefix, schedule);
    assert (log + before.log) + Attempts(before.receivers, frame, FailedAt(schedule, |prefix|))
        == log + (before.log + Attempts(before.receivers, frame, FailedAt(schedule, |prefix|)));
  }

  lemma AppendAssociative<T>(a: seq<T>, b: seq<T>, c: seq<T>, bc: seq<T>)
    requires bc == b + c
    ensures (a + b) + c == a + bc
  {
  }

  /** A forwarded frame, in terms of the broadcasts made so far: it becomes the next one. */
  lemma ServeStepForwarded(f: Frame, rest: seq<Frame>, rs: seq<SocketId>, log: seq<Write>,
                           prefix: seq<seq<u8>>, schedule: seq<set<SocketId>>)
    requires |f.header| == HEADER_LEN && ChecksumAccepted(f)
    requires forall i :: 0 <= i < |rest| ==> |rest[i].header| == HEADER_LEN
    ensures Serve([f] + rest, After(log, Fanout(rs, prefix, schedule)), |prefix|, schedule)
            == Serve(rest, After(log, Fanout(rs, prefix + [Wire(f)], schedule)), |prefix| + 1, schedule)
  {
    ServeForwards(f, rest, After(log, Fanout(rs, prefix, schedule)), |prefix|, schedule);
    BroadcastAfterFanout(rs, log, prefix, Wire(f), schedule);
  }

  /**
   * Serving `frames` continues the broadcasts already made: after the frames
   * `prefix` were forwarded, the loop ends where forwarding `prefix` followed
   * by the frames of `frames` that pass the gate would end.
   */
  lemma {:induction false} ServeContinuesFanout(frames: seq<Frame>, rs: seq<SocketId>, log: seq<Write>,
                                                prefix: seq<seq<u8>>, schedule: seq<set<SocketId>>)
    requires forall i :: 0 <= i < |frames| ==> |frames[i].header| == HEADER_LEN
    ensures Serve(frames, After(log, Fanout(rs, prefix, schedule)), |prefix|, schedule)
            == After(log, Fanout(rs, prefix + Forwarded(frames), schedule))
    decreases |frames|
  {
    if frames == [] {
      assert prefix + Forwarded(frames) == prefix;
    } else {
      var f, rest := frames[0], frames[1..];
      assert frames == [f] + rest;
      ForwardedCons(f, rest);
      if ChecksumAccepted(f) {
        ServeStepForwarded(f, rest, rs, log, prefix, schedule);
        ServeContinuesFanout(rest, rs, log, prefix + [Wire(f)], schedule);
        assert Relayed(f) == [Wire(f)];
        AppendAssociative(prefix, [Wire(f)], Forwarded(rest), Forwarded(frames));
      } else {
        ServeDrops(f, rest, After(log, Fanout(rs, prefix, schedule)), |prefix|, schedule);
        ServeContinuesFanout(rest, rs, log, prefix, schedule);
        assert Relayed(f) == [];
        assert Forwarded(frames) == Forwarded(rest);
      }
    }
  }

  /**
   * The whole loop, from an empty history: the receivers and write log it
   * leaves are those of broadcasting, one after another, exactly the frames
   * read that pass the checksum gate.
   */
  lemma ServeIsFanout(stream: seq<u8>, rs: seq<SocketId>, log: seq<Write>, schedule: seq<set<SocketId>>)
    ensures Serve(Run(stream).frames, FanoutState(rs, log), 0, schedule)
            == After(log, Fanout(rs, Forwarded(Run(stream).frames), schedule))
  {
    ServeContinuesFanout(Run(stream).frames, rs, log, [], schedule);
    assert [] + Forwarded(Run(stream).frames) == Forwarded(Run(stream).frames);
    assert log + [] == log;
  }

  /**
   * Serves one source connection until its stream ends or goes bad. The `k`-th
   * frame forwarded is broadcast with the writes to `FailedAt(schedule, k)`
   * failing. The destination list and the write log end up as if exactly the
   * frames read that pass the checksum gate had been broadcast one after
   * another, and the source slot is emptied.
   */
  method HandleTransmitter(stream: seq<u8>, dests: Destinations, active: ActiveSource,
                           net: Network, schedule: seq<set<SocketId>>)
    modifies dests, active, net
    ensures active.current == None
    ensures dests.receivers == Fanout(old(dests.receivers), Forwarded(Run(stream).frames), schedule).receivers
    ensures net.log == old(net.log) + Fanout(old(dests.receivers), Forwarded(Run(stream).frames), schedule).log
    ensures old(dests.Valid()) ==> dests.Valid()
  {
    ServeIsFanout(stream, dests.receivers, net.log, schedule);
    ghost var target := Serve(Run(stream).frames, FanoutState(dests.receivers, net.log), 0, schedule);
    var pos := 0;
    var broadcasts := 0;
    while true
      invariant pos <= |stream|
      invariant Serve(RunFrom(stream, pos).frames, FanoutState(dests.receivers, net.log), broadcasts, schedule) == target
      invariant old(dests.Valid()) ==> dests.Valid()
      decreases |stream| - pos
    {
      ghost var st := FanoutState(dests.receivers, net.log);
      if |stream| - pos < HEADER_LEN {
        RunFromStops(stream, pos);
        break;
      }
      var header := stream[pos..pos + HEADER_LEN];
      var validated := ValidateHeader(header);
      if validated.Err? {
        RunFromStops(stream, pos);
        break;
      }
      var length := validated.value.length as int;
      if |stream| - (pos + HEADER_LEN) < length {
        RunFromStops(stream, pos);
        break;
      }
      var payload := stream[pos + HEADER_LEN..pos + HEADER_LEN + length];
      ghost var f := Frame(header, payload);
      assert NextFrame(stream, pos) == Ok(f);
      ghost var here := pos;
      pos := pos + HEADER_LEN + length;
      RunFromAt(stream, here, pos, f);
      ghost var rest := RunFrom(stream, pos).frames;

      var checksumInMsg := BigEndian16(header[4], header[5]);
      if validated.value.sensitive {
        FrameSumFitsAccumulator(header, payload);
        var checksumComputed := VerifyChecksum(header, payload);
        if checksumComputed != checksumInMsg {
          assert !ChecksumAccepted(f);
          ServeDrops(f, rest, st, broadcasts, schedule);
          continue;
        }
      }
      assert ChecksumAccepted(f);
      ServeForwards(f, rest, st, broadcasts, schedule);

      BroadcastMessage(header, payload, dests, net, FailedAt(schedule, broadcasts));
      assert FanoutState(dests.receivers, net.log) == Broadcast(st, Wire(f), FailedAt(schedule, broadcasts));
      broadcasts := broadcasts + 1;
    }
    active.current := None;
  }
}
