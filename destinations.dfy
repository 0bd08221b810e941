/**
 * The destination list and the broadcast of one frame to it. A socket is an
 * opaque id. Which writes fail is given by the caller as a set of sockets per
 * broadcast (the writes to every other socket succeed), and every attempt is
 * recorded in a Network log.
 */
module Relay {
  import opened Bytes

  /** A connected socket, identified opaquely. */
  type SocketId = nat

  /** One attempted `write_all` of `bytes` to `dest`, and whether it succeeded. */
  datatype Write = Write(dest: SocketId, bytes: seq<u8>, ok: bool)

  /** The outside world as the relay sees it: every write attempt made so far, in order. */
  class Network {
    var log: seq<Write>

    constructor ()
      ensures log == []
    {
      log := [];
    }
  }

  /** The shared, ordered list of connected receiver clients. */
  class Destinations {
    var receivers: seq<SocketId>

    /** No socket is listed twice: each entry is a distinct connection moved into the list. */
    predicate Valid()
      reads this
    {
      NoDuplicates(receivers)
    }

    /** An empty list of receivers. */
    constructor ()
      ensures receivers == [] && Valid()
    {
      receivers := [];
    }

    /**
     * Appends a client; the clients already present keep their places. A
     * client not yet listed keeps the list free of duplicates.
     */
    method Add(client: SocketId)
      modifies this
      ensures receivers == old(receivers) + [client]
      ensures |receivers| == |old(receivers)| + 1
      ensures forall i :: 0 <= i < |old(receivers)| ==> receivers[i] == old(receivers)[i]
      ensures old(Valid()) && client !in old(receivers) ==> Valid()
    {
      receivers := receivers + [client];
    }
  }

  predicate NoDuplicates(rs: seq<SocketId>)
  {
    forall i, j :: 0 <= i < j < |rs| ==> rs[i] != rs[j]
  }

  /** `a` is `b` with some elements removed, the rest in their original order. */
  predicate IsSubsequence(a: seq<SocketId>, b: seq<SocketId>)
    decreases |b|
  {
    if a == [] then true
    else if b == [] then false
    else if a[|a| - 1] == b[|b| - 1] then IsSubsequence(a[..|a| - 1], b[..|b| - 1])
    else IsSubsequence(a, b[..|b| - 1])
  }

  /** The receivers `retain_mut` keeps: those whose write succeeded, in order. */
  function Kept(rs: seq<SocketId>, failed: set<SocketId>): seq<SocketId>
    decreases |rs|
  {
    if rs == [] then []
    else Kept(rs[..|rs| - 1], failed) + (if rs[|rs| - 1] !in failed then [rs[|rs| - 1]] else [])
  }

  /** The write attempts of one broadcast: each receiver in order gets `frame`. */
  function Attempts(rs: seq<SocketId>, frame: seq<u8>, failed: set<SocketId>): seq<Write>
    decreases |rs|
  {
    if rs == [] then []
    else Attempts(rs[..|rs| - 1], frame, failed) + [Write(rs[|rs| - 1], frame, rs[|rs| - 1] !in failed)]
  }

  /** The attempts in `log` that were made on socket `d`, in order. */
  function WritesTo(log: seq<Write>, d: SocketId): (ws: seq<Write>)
    ensures forall i :: 0 <= i < |ws| ==> ws[i].dest == d
    decreases |log|
  {
    if log == [] then []
    else WritesTo(log[..|log| - 1], d) + (if log[|log| - 1].dest == d then [log[|log| - 1]] else [])
  }

  /** The kept receivers are an order-preserving subsequence of the old list. */
  lemma {:induction false} KeptIsSubsequence(rs: seq<SocketId>, failed: set<SocketId>)
    ensures IsSubsequence(Kept(rs, failed), rs)
    decreases |rs|
  {
    if rs != [] {
      var init, last := rs[..|rs| - 1], rs[|rs| - 1];
      KeptIsSubsequence(init, failed);
      if last !in failed {
        assert Kept(rs, failed)[..|Kept(rs, failed)| - 1] == Kept(init, failed);
      } else {
        assert Kept(rs, failed) == Kept(init, failed);
        SubsequenceOfPrefix(Kept(init, failed), init, last);
        assert init + [last] == rs;
      }
    }
  }

  lemma {:induction false} SubsequenceOfPrefix(a: seq<SocketId>, b: seq<SocketId>, x: SocketId)
    requires IsSubsequence(a, b)
    ensures IsSubsequence(a, b + [x])
    decreases |b|, 1
  {
    if a != [] {
      assert (b + [x])[..|b|] == b;
      if a[|a| - 1] == x {
        SubsequenceDropLast(a, b);
      }
    }
  }

  lemma {:induction false} SubsequenceDropLast(a: seq<SocketId>, b: seq<SocketId>)
    requires a != [] && IsSubsequence(a, b)
    ensures IsSubsequence(a[..|a| - 1], b)
    decreases |b|, 0
  {
    if b != [] {
      if a[|a| - 1] == b[|b| - 1] {
        SubsequenceOfPrefix(a[..|a| - 1], b[..|b| - 1], b[|b| - 1]);
        assert b[..|b| - 1] + [b[|b| - 1]] == b;
      } else {
        SubsequenceDropLast(a, b[..|b| - 1]);
        SubsequenceOfPrefix(a[..|a| - 1], b[..|b| - 1], b[|b| - 1]);
        assert b[..|b| - 1] + [b[|b| - 1]] == b;
      }
    }
  }

  /**
   * A receiver stays exactly as often as it was present if its write succeeded,
   * and disappears if it failed: the filter keeps all and only the successes.
   */
  lemma {:induction false} KeptMultiplicity(rs: seq<SocketId>, failed: set<SocketId>, d: SocketId)
    ensures multiset(Kept(rs, failed))[d] == if d !in failed then multiset(rs)[d] else 0
    ensures d in Kept(rs, failed) <==> d in rs && d !in failed
    decreases |rs|
  {
    if rs != [] {
      var init, last := rs[..|rs| - 1], rs[|rs| - 1];
      KeptMultiplicity(init, failed, d);
      assert rs == init + [last];
      assert multiset(rs) == multiset(init) + multiset{last};
    }
  }

  /** A broadcast in which every write succeeds keeps the list unchanged. */
  lemma {:induction false} KeptAllSucceed(rs: seq<SocketId>, failed: set<SocketId>)
    requires forall i :: 0 <= i < |rs| ==> rs[i] !in failed
    ensures Kept(rs, failed) == rs
    decreases |rs|
  {
    if rs != [] {
      KeptAllSucceed(rs[..|rs| - 1], failed);
    }
  }

  /** Distinct receivers remain distinct after a broadcast. */
  lemma {:induction false} KeptNoDuplicates(rs: seq<SocketId>, failed: set<SocketId>)
    requires NoDuplicates(rs)
    ensures NoDuplicates(Kept(rs, failed))
    decreases |rs|
  {
    if rs != [] {
      var init, last := rs[..|rs| - 1], rs[|rs| - 1];
      KeptNoDuplicates(init, failed);
      KeptMultiplicity(init, failed, last);
      assert last !in init;
    }
  }

  /** One attempt per receiver, in list order, each carrying the whole frame. */
  lemma {:induction false} AttemptsAt(rs: seq<SocketId>, frame: seq<u8>, failed: set<SocketId>)
    ensures |Attempts(rs, frame, failed)| == |rs|
    ensures forall i :: 0 <= i < |rs| ==> Attempts(rs, frame, failed)[i] == Write(rs[i], frame, rs[i] !in failed)
    decreases |rs|
  {
    if rs != [] {
      AttemptsAt(rs[..|rs| - 1], frame, failed);
    }
  }

  lemma {:induction false} WritesToAppend(a: seq<Write>, b: seq<Write>, d: SocketId)
    ensures WritesTo(a + b, d) == WritesTo(a, d) + WritesTo(b, d)
    decreases |b|
  {
    if b == [] {
      assert a + b == a;
    } else {
      assert (a + b)[..|a + b| - 1] == a + b[..|b| - 1];
      WritesToAppend(a, b[..|b| - 1], d);
    }
  }

  /** In one broadcast, a receiver listed once is written to exactly once; others not at all. */
  lemma {:induction false} WritesToAttempts(rs: seq<SocketId>, frame: seq<u8>, failed: set<SocketId>, d: SocketId)
    requires NoDuplicates(rs)
    ensures WritesTo(Attempts(rs, frame, failed), d) == if d in rs then [Write(d, frame, d !in failed)] else []
    decreases |rs|
  {
    if rs != [] {
      var init, last := rs[..|rs| - 1], rs[|rs| - 1];
      WritesToAttempts(init, frame, failed, d);
      var a := Attempts(rs, frame, failed);
      assert a[..|a| - 1] == Attempts(init, frame, failed);
      assert rs == init + [last];
    }
  }

  /**
   * Broadcasts one frame: every receiver, in order, is written the frame
   * `header ++ payload`; those whose write failed are dropped from the list.
   */
  method BroadcastMessage(header: seq<u8>, payload: seq<u8>, dests: Destinations, net: Network,
                          failed: set<SocketId>)
    modifies dests, net
    ensures dests.receivers == Kept(old(dests.receivers), failed)
    ensures net.log == old(net.log) + Attempts(old(dests.receivers), header + payload, failed)
    ensures old(dests.Valid()) ==> dests.Valid()
  {
    var frame := header + payload;
    var receivers := dests.receivers;
    var kept: seq<SocketId> := [];
    var i := 0;
    while i < |receivers|
      invariant 0 <= i <= |receivers|
      invariant kept == Kept(receivers[..i], failed)
      invariant net.log == old(net.log) + Attempts(receivers[..i], frame, failed)
    {
      var d := receivers[i];
      var written := d !in failed;
      net.log := net.log + [Write(d, frame, written)];
      if written {
        kept := kept + [d];
      }
      assert receivers[..i + 1][..i] == receivers[..i];
      i := i + 1;
    }
    assert receivers[..i] == receivers;
    if NoDuplicates(receivers) {
      KeptNoDuplicates(receivers, failed);
    }
    dests.receivers := kept;
  }

  /** Receivers and write log after broadcasting several frames. */
  datatype FanoutState = FanoutState(receivers: seq<SocketId>, log: seq<Write>)

  /**
   * The sockets whose write fails during the `k`-th broadcast, by the
   * schedule `schedule`; broadcasts past its end fail nowhere.
   */
  function FailedAt(schedule: seq<set<SocketId>>, k: nat): set<SocketId>
  {
    if k < |schedule| then schedule[k] else {}
  }

  /** The state after one more broadcast of `frame` in which the writes to `failed` fail. */
  function Broadcast(st: FanoutState, frame: seq<u8>, failed: set<SocketId>): FanoutState
  {
    FanoutState(Kept(st.receivers, failed), st.log + Attempts(st.receivers, frame, failed))
  }

  /**
   * Broadcasting `frames` one after another, starting from receivers `rs` and
   * an empty log; `FailedAt(schedule, k)` says whose writes fail in the `k`-th
   * broadcast.
   */
  function Fanout(rs: seq<SocketId>, frames: seq<seq<u8>>, schedule: seq<set<SocketId>>): FanoutState
    decreases |frames|
  {
    if frames == [] then FanoutState(rs, [])
    else
      var k := |frames| - 1;
      Broadcast(Fanout(rs, frames[..k], schedule), frames[k], FailedAt(schedule, k))
  }

  /** Broadcasting one more frame continues from the state the earlier frames left. */
  lemma FanoutSnoc(rs: seq<SocketId>, frames: seq<seq<u8>>, frame: seq<u8>, schedule: seq<set<SocketId>>)
    ensures Fanout(rs, frames + [frame], schedule)
            == Broadcast(Fanout(rs, frames, schedule), frame, FailedAt(schedule, |frames|))
  {
    assert (frames + [frame])[..|frames|] == frames;
  }

  /** The receivers left after several broadcasts are distinct and were there at the start. */
  lemma {:induction false} FanoutReceivers(rs: seq<SocketId>, frames: seq<seq<u8>>, schedule: seq<set<SocketId>>)
    requires NoDuplicates(rs)
    ensures NoDuplicates(Fanout(rs, frames, schedule).receivers)
    ensures forall d :: d in Fanout(rs, frames, schedule).receivers ==> d in rs
    decreases |frames|
  {
    if frames != [] {
      var k := |frames| - 1;
      var prev := Fanout(rs, frames[..k], schedule);
      FanoutReceivers(rs, frames[..k], schedule);
      KeptNoDuplicates(prev.receivers, FailedAt(schedule, k));
      forall d | d in Fanout(rs, frames, schedule).receivers
        ensures d in rs
      {
        KeptMultiplicity(prev.receivers, FailedAt(schedule, k), d);
      }
    }
  }

  /**
   * The writes `w` made to one destination are the first `|w|` broadcast
   * frames, in order and unmodified, and only the last of them can have failed.
   */
  predicate DeliveredPrefix(w: seq<Write>, frames: seq<seq<u8>>)
  {
    && |w| <= |frames|
    && (forall i :: 0 <= i < |w| ==> w[i].bytes == frames[i])
    && (forall i :: 0 <= i < |w| - 1 ==> w[i].ok)
  }

  /** The destination was written every frame and every write succeeded. */
  predicate DeliveredAll(w: seq<Write>, frames: seq<seq<u8>>)
  {
    |w| == |frames| && forall i :: 0 <= i < |w| ==> w[i].ok
  }

  /** A destination written the newest frame: its deliveries grow by that one write. */
  lemma DeliveryExtends(w: seq<Write>, frames: seq<seq<u8>>, x: Write)
    requires frames != [] && x.bytes == frames[|frames| - 1]
    requires DeliveredPrefix(w, frames[..|frames| - 1]) && DeliveredAll(w, frames[..|frames| - 1])
    ensures DeliveredPrefix(w + [x], frames)
    ensures x.ok <==> DeliveredAll(w + [x], frames)
  {
    var k := |frames| - 1;
    forall i | 0 <= i < |w| + 1
      ensures (w + [x])[i].bytes == frames[i]
    {
      if i < k {
        assert (w + [x])[i] == w[i] && frames[..k][i] == frames[i];
      }
    }
  }

  /** A destination not written the newest frame: its deliveries stay as they were, and are no longer complete. */
  lemma DeliveryStalls(w: seq<Write>, frames: seq<seq<u8>>)
    requires frames != []
    requires DeliveredPrefix(w, frames[..|frames| - 1])
    ensures DeliveredPrefix(w, frames)
    ensures !DeliveredAll(w, frames)
  {
    var k := |frames| - 1;
    forall i | 0 <= i < |w|
      ensures w[i].bytes == frames[i]
    {
      assert frames[..k][i] == frames[i];
    }
  }

  /** One more broadcast keeps a destination's deliveries a prefix of the frames. */
  lemma DeliveryStep(receivers: seq<SocketId>, log: seq<Write>, frames: seq<seq<u8>>,
                     failed: set<SocketId>, d: SocketId)
    requires frames != [] && NoDuplicates(receivers)
    requires DeliveredPrefix(WritesTo(log, d), frames[..|frames| - 1])
    requires d in receivers <==> DeliveredAll(WritesTo(log, d), frames[..|frames| - 1])
    ensures DeliveredPrefix(WritesTo(log + Attempts(receivers, frames[|frames| - 1], failed), d), frames)
    ensures d in Kept(receivers, failed)
            <==> DeliveredAll(WritesTo(log + Attempts(receivers, frames[|frames| - 1], failed), d), frames)
  {
    var k := |frames| - 1;
    WritesToAppend(log, Attempts(receivers, frames[k], failed), d);
    WritesToAttempts(receivers, frames[k], failed, d);
    KeptMultiplicity(receivers, failed, d);
    if d in receivers {
      DeliveryExtends(WritesTo(log, d), frames, Write(d, frames[k], d !in failed));
    } else {
      assert WritesTo(log, d) + [] == WritesTo(log, d);
      DeliveryStalls(WritesTo(log, d), frames);
    }
  }

  /**
   * What one destination sees across several broadcasts: the frames it was
   * written are a prefix of the broadcast frames, in order and unmodified;
   * only its last write can have failed; and it is still connected exactly
   * when it was written every frame and every write succeeded.
   */
  lemma {:induction false} FanoutDelivery(rs: seq<SocketId>, frames: seq<seq<u8>>,
                                          schedule: seq<set<SocketId>>, d: SocketId)
    requires NoDuplicates(rs) && d in rs
    ensures DeliveredPrefix(WritesTo(Fanout(rs, frames, schedule).log, d), frames)
    ensures d in Fanout(rs, frames, schedule).receivers
            <==> DeliveredAll(WritesTo(Fanout(rs, frames, schedule).log, d), frames)
    decreases |frames|
  {
    if frames != [] {
      var k := |frames| - 1;
      var prev := Fanout(rs, frames[..k], schedule);
      FanoutDelivery(rs, frames[..k], schedule, d);
      FanoutReceivers(rs, frames[..k], schedule);
      DeliveryStep(prev.receivers, prev.log, frames, FailedAt(schedule, k), d);
    }
  }
}
