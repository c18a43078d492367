/** What one call of Send amounts to (seichannel/transport.go): all fragments once per attempt,
    until the select brings the right CRC or the transport is seen closed, there or between two
    fragments, and no more often than the configured number of attempts. */
module SeiRetries {
  import opened Bytes
  import opened SeiFrames
  import opened SeiReassembly
  import opened SeiArq
  import opened SeiTransport

  /** The frames of fragments j to k of a message. */
  function Stretch(c: Config, sn: uint32, data: bytes, j: nat, k: nat): seq<Frame>
    requires c.Valid() && k <= |Fragments(data, c.size)|
    decreases k - j
  {
    if j >= k then [] else [FragmentFrame(sn, data, j, c.size, c.crc32)] + Stretch(c, sn, data, j + 1, k)
  }

  predicate Decides(c: Config, data: bytes, wake: Wake) {
    wake == GotAck(c.crc32(data)) || wake.CloseSeen? || wake.EnqueueFails?
  }

  /** The fragments queued in an attempt that ends like this. */
  function Round(c: Config, sn: uint32, data: bytes, wake: Wake): seq<Frame>
    requires c.Valid()
  {
    var count := |Fragments(data, c.size)|;
    Stretch(c, sn, data, 0, if wake.EnqueueFails? then Min(wake.at, count) else count)
  }

  /** And in all attempts, up to the first that decides. */
  function Rounds(c: Config, sn: uint32, data: bytes, wakes: seq<Wake>): seq<Frame>
    requires c.Valid()
  {
    if wakes == [] then []
    else
      Round(c, sn, data, wakes[0]) + if Decides(c, data, wakes[0]) then [] else Rounds(c, sn, data, wakes[1..])
  }

  function Verdict(c: Config, data: bytes, wakes: seq<Wake>): Outcome {
    if wakes == [] then TimedOut
    else if Decides(c, data, wakes[0]) then (if wakes[0].GotAck? then Acked else Closed)
    else Verdict(c, data, wakes[1..])
  }

  /** Queueing goes through all fragments that are left, or through the next k. */
  lemma {:induction false} QueueAllIs(c: Config, s: Sender, attempt: nat, j: nat)
    requires c.Valid() && Busy(s) && s.phase == Sending(attempt, j) && j < |Fragments(Current(s), c.size)|
    ensures QueueAll(c, s) ==
      s.(phase := Waiting(attempt),
         outbound := s.outbound + Stretch(c, s.nextSeq, Current(s), j, |Fragments(Current(s), c.size)|))
    decreases |Fragments(Current(s), c.size)| - j
  {
    hide FragmentFrame, Fragments;
    var count := |Fragments(Current(s), c.size)|;
    var f := FragmentFrame(s.nextSeq, Current(s), j, c.size, c.crc32);
    var t := QueueFragment(c, s, false);
    Assoc(s.outbound, [f], Stretch(c, s.nextSeq, Current(s), j + 1, count));
    if j + 1 < count {
      QueueAllIs(c, t, attempt, j + 1);
    } else {
      assert QueueAll(c, t) == t;
    }
  }

  lemma {:induction false} QueueSomeIs(c: Config, s: Sender, attempt: nat, j: nat, k: nat)
    requires c.Valid() && Busy(s) && s.phase == Sending(attempt, j) && j < |Fragments(Current(s), c.size)|
    ensures var count := |Fragments(Current(s), c.size)|;
      QueueSome(c, s, k) ==
        s.(phase := if j + k < count then Sending(attempt, j + k) else Waiting(attempt),
           outbound := s.outbound + Stretch(c, s.nextSeq, Current(s), j, Min(j + k, count)))
    decreases k
  {
    hide FragmentFrame, Fragments;
    var count := |Fragments(Current(s), c.size)|;
    if k == 0 {
      assert s.outbound + [] == s.outbound;
    } else {
      var f := FragmentFrame(s.nextSeq, Current(s), j, c.size, c.crc32);
      var t := QueueFragment(c, s, false);
      Assoc(s.outbound, [f], Stretch(c, s.nextSeq, Current(s), j + 1, Min(j + k, count)));
      if j + 1 < count {
        QueueSomeIs(c, t, attempt, j + 1, k - 1);
      } else {
        assert QueueSome(c, t, k - 1) == t;
      }
    }
  }

  /** A sender at the start of an attempt of the call for `data`. */
  ghost predicate Starting(c: Config, s: Sender, data: bytes, attempt: nat) {
    && Busy(s) && s.phase == Sending(attempt, 0) && Current(s) == data
    && s.nextSeq in s.waiters && s.waiters[s.nextSeq].None?
  }

  /** One attempt: the fragments are queued as far as that goes, and then it decides or not. */
  lemma OneAttempt(c: Config, s: Sender, data: bytes, attempt: nat, wake: Wake)
    requires c.Valid() && Starting(c, s, data, attempt)
    ensures var q := s.(phase := Waiting(attempt), outbound := s.outbound + Round(c, s.nextSeq, data, wake));
      Attempt(c, s, wake) ==
        if Decides(c, data, wake) then Finish(q, if wake.GotAck? then Acked else Closed) else NextAttempt(c, q)
  {
    hide Stretch, Fragments;
    if wake.EnqueueFails? {
      QueueSomeIs(c, s, attempt, 0, wake.at);
    } else {
      QueueAllIs(c, s, attempt, 0);
      if wake.GotAck? {
        var sn := s.nextSeq;
        assert s.waiters[sn := Some(wake.crc)][sn := None] == s.waiters;
      }
    }
  }

  lemma {:induction false} AttemptsRun(c: Config, s: Sender, data: bytes, attempt: nat, wakes: seq<Wake>)
    requires c.Valid() && Starting(c, s, data, attempt) && attempt + |wakes| == c.attempts && wakes != []
    ensures Attempts(c, s, wakes) ==
      Finish(s.(outbound := s.outbound + Rounds(c, s.nextSeq, data, wakes)), Verdict(c, data, wakes))
    decreases |wakes|
  {
    hide Round, Attempt, Fragments;
    var round := Round(c, s.nextSeq, data, wakes[0]);
    OneAttempt(c, s, data, attempt, wakes[0]);
    AttemptsNext(c, s, wakes);
    if Decides(c, data, wakes[0]) || |wakes| == 1 {
      assert round + [] == round;
      assert |wakes| == 1 ==> wakes[1..] == [];
    } else {
      var t := s.(phase := Sending(attempt + 1, 0), outbound := s.outbound + round);
      AttemptsRun(c, t, data, attempt + 1, wakes[1..]);
      Assoc(s.outbound, round, Rounds(c, s.nextSeq, data, wakes[1..]));
    }
  }

  /** Send, however its attempts end. It returns nil exactly if the right CRC is the first that
      decides, ErrTransportClosed exactly if a close is, and times out exactly if none does; and
      it has queued all fragments once for every attempt up to there, but for those behind the
      one whose enqueueing failed. Nothing else about the sender changes. */
  lemma SendRetransmits(c: Config, s: Sender, data: bytes, wakes: seq<Wake>)
    requires c.Valid() && s.phase.Idle? && s.waiters == map[] && |wakes| == c.attempts
    ensures var sn := (s.nextSeq + 1) % U32;
      SendRun(c, s, data, wakes) == s.(
        nextSeq := sn, sent := s.sent + [data], outcomes := s.outcomes + [Verdict(c, data, wakes)],
        outbound := s.outbound + Rounds(c, sn, data, wakes))
  {
    hide Attempts, Rounds, Verdict;
    var b := Begin(s, data);
    AttemptsRun(c, b, data, 0, wakes);
    assert b.waiters - {b.nextSeq} == map[];
    var verdict := Verdict(c, data, wakes);
    assert (s.outcomes + [InProgress])[|s.outcomes| := verdict] == s.outcomes + [verdict];
  }
}
