/** A Send whose ack, or whose fragments, have been lost is not lost itself: from wherever a run
    has come to, one attempt over links that lose nothing brings the ack (seichannel's
    transport.go; videochannel runs the same code). And a Send on a transport that is closed
    ends at once. */
module SeiRecovery {
  import opened Bytes
  import opened SeiFrames
  import opened SeiReassembly
  import opened SeiArq
  import opened SeiProgress
  import opened SeiRetries
  import opened SeiTransport

  // Going on from a state

  /** Clearing the links: writing what is queued and losing what is under way. */
  predicate Clearing(a: Action) { a.WriteSample? || a.Lose? }

  /** A round in which nothing is lost and no timer fires. */
  predicate Lossless(a: Action) { a.Queue? || a.WriteSample? || a.Arrive? || a.WakeByAck? }

  predicate AllClear(events: seq<Event>) { forall k :: 0 <= k < |events| ==> Clearing(events[k].action) }

  predicate AllLossless(events: seq<Event>) { forall k :: 0 <= k < |events| ==> Lossless(events[k].action) }

  predicate Kind(clear: bool, events: seq<Event>) { if clear then AllClear(events) else AllLossless(events) }

  ghost predicate Reaches<T>(c: Config, w: Wire<T>, o: Net<T>, events: seq<Event>, n: Net<T>, clear: bool)
    requires c.Valid()
  {
    StepAll(c, w, o, events) == n && Kind(clear, events)
  }

  lemma {:induction false} StepAllAppend<T>(c: Config, w: Wire<T>, o: Net<T>, events: seq<Event>, more: seq<Event>)
    requires c.Valid()
    ensures StepAll(c, w, o, events + more) == StepAll(c, w, StepAll(c, w, o, events), more)
    decreases |events|
  {
    hide Step;
    if events == [] {
      assert events + more == more;
    } else {
      assert (events + more)[0] == events[0] && (events + more)[1..] == events[1..] + more;
      StepAllAppend(c, w, Step(c, w, o, events[0]), events[1..], more);
    }
  }

  lemma One<T>(c: Config, w: Wire<T>, n: Net<T>, e: Event)
    requires c.Valid()
    ensures StepAll(c, w, n, [e]) == Step(c, w, n, e)
  {
    hide Step;
    assert [e][1..] == [];
  }

  lemma On<T>(c: Config, w: Wire<T>, o: Net<T>, events: seq<Event>, n: Net<T>, clear: bool, left: bool, a: Action)
    returns (more: seq<Event>, m: Net<T>)
    requires c.Valid() && Reaches(c, w, o, events, n, clear) && if clear then Clearing(a) else Lossless(a)
    ensures Reaches(c, w, o, more, m, clear) && m == Step(c, w, n, Event(left, a))
  {
    hide Step;
    more, m := events + [Event(left, a)], Step(c, w, n, Event(left, a));
    StepAllAppend(c, w, o, events, [Event(left, a)]);
    One(c, w, n, Event(left, a));
  }

  lemma {:induction false} RunsOn<T>(c: Config, w: Wire<T>, events: seq<Event>, more: seq<Event>)
    requires c.Valid()
    ensures Run(c, w, events + more) == StepAll(c, w, Run(c, w, events), more)
    decreases |more|
  {
    hide Step;
    if more == [] {
      assert events + more == events;
    } else {
      var before, e := more[..|more| - 1], more[|more| - 1];
      RunsOn(c, w, events, before);
      assert events + more == events + before + [e] && before + [e] == more;
      assert (events + before + [e])[..|events + before|] == events + before;
      StepAllAppend(c, w, Run(c, w, events), before, [e]);
      One(c, w, StepAll(c, w, Run(c, w, events), before), e);
    }
  }

  // Clearing the queues and the links

  function View<T>(n: Net<T>, left: bool): Net<T> { if left then n else n.Flip() }

  function Emptied(e: Endpoint): Endpoint {
    e.(tx := e.tx.(outbound := []), rx := e.rx.(outboundAck := []))
  }

  lemma {:induction false} WriteOut<T>(c: Config, w: Wire<T>, o: Net<T>, before: seq<Event>, n: Net<T>, left: bool)
    returns (events: seq<Event>, m: Net<T>)
    requires c.Valid() && Reaches(c, w, o, before, n, true)
    ensures Reaches(c, w, o, events, m, true)
    ensures View(m, left) == View(n, left).(left := Emptied(View(n, left).left), toRight := View(m, left).toRight)
    decreases var e := View(n, left).left; |e.rx.outboundAck| + |e.tx.outbound|
  {
    hide Reaches;
    var e := View(n, left).left;
    if e.rx.outboundAck == [] && e.tx.outbound == [] {
      events, m := before, n;
    } else {
      events, m := On(c, w, o, before, n, true, left, WriteSample);
      events, m := WriteOut(c, w, o, events, m, left);
    }
  }

  lemma {:induction false} LoseAll<T>(c: Config, w: Wire<T>, o: Net<T>, before: seq<Event>, n: Net<T>, left: bool)
    returns (events: seq<Event>, m: Net<T>)
    requires c.Valid() && Reaches(c, w, o, before, n, true)
    ensures Reaches(c, w, o, events, m, true) && View(m, left) == View(n, left).(toRight := [])
    decreases |View(n, left).toRight|
  {
    hide Reaches;
    if View(n, left).toRight == [] {
      events, m := before, n;
    } else {
      events, m := On(c, w, o, before, n, true, left, Lose(0));
      events, m := LoseAll(c, w, o, events, m, left);
    }
  }

  lemma Cleared<T>(c: Config, w: Wire<T>, n: Net<T>) returns (events: seq<Event>, m: Net<T>)
    requires c.Valid()
    ensures Reaches(c, w, n, events, m, true) && m == Net(Emptied(n.left), Emptied(n.right), [], [])
  {
    hide Reaches;
    events, m := Nothing(c, w, n, true);
    events, m := WriteOut(c, w, n, events, m, true);
    events, m := WriteOut(c, w, n, events, m, false);
    events, m := LoseAll(c, w, n, events, m, true);
    events, m := LoseAll(c, w, n, events, m, false);
  }

  lemma Nothing<T>(c: Config, w: Wire<T>, n: Net<T>, clear: bool) returns (events: seq<Event>, m: Net<T>)
    requires c.Valid()
    ensures Reaches(c, w, n, events, m, clear) && m == n
  {
    events, m := [], n;
  }

  // The invariant of SeiArq goes on holding

  lemma {:induction false} ReachKeeps<T(!new)>(c: Config, w: Wire<T>, n: Net<T>, events: seq<Event>)
    requires c.Valid() && Faithful(w, c.size) && NetInv(c, w, n) && InRange(n)
    requires forall k :: 0 <= k < |events| ==> !events[k].action.CallSend?
    ensures NetInv(c, w, StepAll(c, w, n, events)) && InRange(StepAll(c, w, n, events))
    decreases |events|
  {
    hide NetInv, StepLeft, Faithful;
    if events != [] {
      StepKept(c, w, n, events[0]);
      ReachKeeps(c, w, Step(c, w, n, events[0]), events[1..]);
    }
  }

  lemma StepKept<T(!new)>(c: Config, w: Wire<T>, n: Net<T>, e: Event)
    requires c.Valid() && Faithful(w, c.size) && NetInv(c, w, n) && InRange(n) && !e.action.CallSend?
    ensures NetInv(c, w, Step(c, w, n, e)) && InRange(Step(c, w, n, e))
  {
    hide Direction, StepLeft, Faithful;
    var m := View(n, e.left);
    SendsNothing(c, w, m, e.action);
    StepLeftKeeps(c, w, m, e.action);
  }

  lemma SendsNothing<T>(c: Config, w: Wire<T>, n: Net<T>, a: Action)
    requires c.Valid() && !a.CallSend?
    ensures var m := StepLeft(c, w, n, a); m.left.tx.sent == n.left.tx.sent && m.right.tx.sent == n.right.tx.sent
  {
    hide HandleFrames, Fragments;
    if a.Arrive? && n.toLeft != [] {
      HandlingSendsNothing(c, n.left, w.get(n.toLeft[0]));
    }
  }

  // One round of fragments

  lemma {:induction false} QueueRound<T>(c: Config, w: Wire<T>, o: Net<T>, before: seq<Event>, n: Net<T>)
    returns (events: seq<Event>, m: Net<T>)
    requires c.Valid() && Reaches(c, w, o, before, n, false) && !n.left.closed
    ensures Reaches(c, w, o, events, m, false) && m == n.(left := n.left.(tx := QueueAll(c, n.left.tx)))
    decreases if CanQueue(c, n.left.tx) then |Fragments(Current(n.left.tx), c.size)| - n.left.tx.phase.next else -1
  {
    hide Reaches, Fragments, FragmentFrame;
    if CanQueue(c, n.left.tx) {
      events, m := On(c, w, o, before, n, false, true, Queue);
      events, m := QueueRound(c, w, o, events, m);
    } else {
      events, m := before, n;
    }
  }

  /** One frame is written on the left and handled on the right. */
  lemma FrameCrosses<T(!new)>(c: Config, w: Wire<T>, o: Net<T>, before: seq<Event>, n: Net<T>, f: Frame,
                              rest: seq<Frame>)
    returns (events: seq<Event>, m: Net<T>)
    requires c.Valid() && Faithful(w, c.size) && Reaches(c, w, o, before, n, false)
    requires f.Data? && Carriable(f, c.size) && n.left.tx.outbound == [f] + rest
    requires n.left.rx.outboundAck == [] && n.toRight == []
    ensures Reaches(c, w, o, events, m, false)
    ensures m == n.(left := n.left.(tx := n.left.tx.(outbound := rest)),
                    right := n.right.(rx := Accept(c, n.right.rx, f, n.right.closed)))
  {
    hide Reaches, Accept;
    assert n.left.tx.outbound[1..] == rest;
    events, m := On(c, w, o, before, n, false, true, WriteSample);
    assert w.get(w.put(Some(f))) == [f];
    assert n.toRight + [w.put(Some(f))] == [w.put(Some(f))];
    OneHandled(c, n.right, f);
    events, m := On(c, w, o, events, m, false, false, Arrive);
  }

  /** The inlet has had the fragments before j of a round: it knows the message, and has acked
      it, or it holds these fragments and perhaps others, but not all. */
  ghost predicate Halfway(c: Config, x: Inlet, sn: uint32, data: bytes, j: nat)
    requires c.Valid()
  {
    && (forall k :: 0 <= k < |x.outboundAck| ==> x.outboundAck[k] == Ack(sn, c.crc32(data)))
    && if sn in x.recv.delivered && x.recv.delivered[sn] == c.crc32(data) then j > 0 ==> x.outboundAck != []
       else exists have :: Holding(c, x, sn, data, j, have)
  }

  ghost predicate Holding(c: Config, x: Inlet, sn: uint32, data: bytes, j: nat, have: set<nat>)
    requires c.Valid()
  {
    && Collects(x.recv, sn, data, c.size, c.crc32, have) && Indices(j) <= have
    && (j > 0 ==> have != Indices(|Fragments(data, c.size)|))
  }

  lemma AcceptOn(c: Config, x: Inlet, sn: uint32, data: bytes, j: nat)
    requires c.Valid() && Fits(data, c.size) && j < |Fragments(data, c.size)| && Halfway(c, x, sn, data, j)
    ensures Halfway(c, Accept(c, x, FragmentFrame(sn, data, j, c.size, c.crc32), false), sn, data, j + 1)
  {
    hide HandleData, FragmentFrame, Holding, Fits, Fragments, Accept;
    var f := FragmentFrame(sn, data, j, c.size, c.crc32);
    FrameFacts(c, sn, data, j);
    if Delivered(x.recv, f) {
      AcceptKnown(c, x, f);
    } else {
      var have :| Holding(c, x, sn, data, j, have);
      AcceptMore(c, x, f, sn, data, j, have);
    }
  }

  lemma AcceptKnown(c: Config, x: Inlet, f: Frame)
    requires f.Data? && Delivered(x.recv, f)
    ensures Accept(c, x, f, false) == x.(outboundAck := x.outboundAck + [Ack(f.sn, f.crc)])
  {
    hide HandleData;
    KnownAgain(x.recv, f, c.crc32);
  }

  lemma AcceptMore(c: Config, x: Inlet, f: Frame, sn: uint32, data: bytes, j: nat, have: set<nat>)
    requires c.Valid() && Fits(data, c.size) && j < |Fragments(data, c.size)| && !Delivered(x.recv, f)
    requires f.sn == sn && f.crc == c.crc32(data) && Genuine(f, data, j, c.size, c.crc32)
    requires Holding(c, x, sn, data, j, have)
    ensures var y := Accept(c, x, f, false);
      if have + {j} == Indices(|Fragments(data, c.size)|) then
        && y.outboundAck == x.outboundAck + [Ack(sn, f.crc)]
        && sn in y.recv.delivered && y.recv.delivered[sn] == f.crc
      else
        && y.outboundAck == x.outboundAck && y.recv.delivered == x.recv.delivered
        && Holding(c, y, sn, data, j + 1, have + {j})
  {
    hide HandleData, Holds, Fits, Fragments, Genuine;
    HandleGenuine(x.recv, f, data, j, c.size, c.crc32, have);
    LastIndex(j, |Fragments(data, c.size)|);
  }

  lemma AllHad(c: Config, x: Inlet, sn: uint32, data: bytes)
    requires c.Valid() && Halfway(c, x, sn, data, |Fragments(data, c.size)|)
    ensures x.outboundAck != [] && x.outboundAck[0] == Ack(sn, c.crc32(data))
  {
    hide Fragments, Holds;
    var m := |Fragments(data, c.size)|;
    FragmentsExist(data, c.size);
    if !(sn in x.recv.delivered && x.recv.delivered[sn] == c.crc32(data)) {
      var have :| Holding(c, x, sn, data, m, have);
      WithinIndices(c, x, sn, data, have);
      assert false;
    }
  }

  lemma WithinIndices(c: Config, x: Inlet, sn: uint32, data: bytes, have: set<nat>)
    requires c.Valid() && Collects(x.recv, sn, data, c.size, c.crc32, have)
    ensures have <= Indices(|Fragments(data, c.size)|)
  {
    hide Fragments;
  }

  lemma {:induction false} RoundCrosses<T(!new)>(c: Config, w: Wire<T>, o: Net<T>, before: seq<Event>, n: Net<T>,
                                                   sn: uint32, data: bytes, j: nat)
    returns (events: seq<Event>, m: Net<T>)
    requires c.Valid() && Faithful(w, c.size) && Reaches(c, w, o, before, n, false)
    requires Fits(data, c.size) && j <= |Fragments(data, c.size)|
    requires n.left.tx.outbound == Stretch(c, sn, data, j, |Fragments(data, c.size)|)
    requires Halfway(c, n.right.rx, sn, data, j)
    requires n.left.rx.outboundAck == [] && !n.right.closed && n.toRight == []
    ensures Reaches(c, w, o, events, m, false) && Halfway(c, m.right.rx, sn, data, |Fragments(data, c.size)|)
    ensures m == n.(left := n.left.(tx := n.left.tx.(outbound := [])), right := n.right.(rx := m.right.rx))
    decreases |Fragments(data, c.size)| - j
  {
    hide Reaches, Faithful, Accept, FragmentFrame, Halfway, Fits, Fragments;
    var count := |Fragments(data, c.size)|;
    if j == count {
      events, m := before, n;
    } else {
      var f := FragmentFrame(sn, data, j, c.size, c.crc32);
      FrameFacts(c, sn, data, j);
      AcceptOn(c, n.right.rx, sn, data, j);
      events, m := FrameCrosses(c, w, o, before, n, f, Stretch(c, sn, data, j + 1, count));
      events, m := RoundCrosses(c, w, o, events, m, sn, data, j + 1);
    }
  }

  // The ack back

  lemma AckTaken<T(!new)>(c: Config, w: Wire<T>, o: Net<T>, before: seq<Event>, n: Net<T>, data: bytes)
    returns (events: seq<Event>, m: Net<T>)
    requires c.Valid() && Faithful(w, c.size) && Reaches(c, w, o, before, n, false)
    requires Awaiting(n.left.tx) && Current(n.left.tx) == data && n.toLeft == []
    requires n.left.tx.waiters[n.left.tx.nextSeq] in {None, Some(c.crc32(data))}
    requires n.right.rx.outboundAck != [] && n.right.rx.outboundAck[0] == Ack(n.left.tx.nextSeq, c.crc32(data))
    ensures Reaches(c, w, o, events, m, false) && m.left.tx.phase.Idle? && m.left.tx.sent == n.left.tx.sent
    ensures m.left.tx.outcomes == n.left.tx.outcomes[|n.left.tx.outcomes| - 1 := Acked]
  {
    hide Reaches, Faithful;
    var ack := n.right.rx.outboundAck[0];
    events, m := AckArrives(c, w, o, before, n, ack);
    events, m := On(c, w, o, events, m, false, true, WakeByAck);
  }

  lemma AckArrives<T(!new)>(c: Config, w: Wire<T>, o: Net<T>, before: seq<Event>, n: Net<T>, ack: Frame)
    returns (events: seq<Event>, m: Net<T>)
    requires c.Valid() && Faithful(w, c.size) && Reaches(c, w, o, before, n, false)
    requires ack.Ack? && n.right.rx.outboundAck != [] && n.right.rx.outboundAck[0] == ack && n.toLeft == []
    ensures Reaches(c, w, o, events, m, false)
    ensures m.left == n.left.(tx := ResolveAck(n.left.tx, ack.sn, ack.crc))
  {
    hide Reaches, ResolveAck;
    events, m := On(c, w, o, before, n, false, false, WriteSample);
    assert w.get(w.put(Some(ack))) == [ack];
    assert [] + [w.put(Some(ack))] == [w.put(Some(ack))];
    OneHandled(c, n.left, ack);
    events, m := On(c, w, o, events, m, false, true, Arrive);
  }

  // Recovery

  /** Send waits, has attempts left, and its side of the invariant holds over empty links. */
  ghost predicate Stalled<T>(c: Config, w: Wire<T>, n: Net<T>)
    requires c.Valid()
  {
    && n == Net(Emptied(n.left), Emptied(n.right), [], []) && NetInv(c, w, n)
    && n.left.tx.phase.Waiting? && n.left.tx.phase.attempt + 1 < c.attempts && !n.left.closed && !n.right.closed
  }

  lemma StalledFacts<T>(c: Config, w: Wire<T>, n: Net<T>)
    requires c.Valid() && Stalled(c, w, n)
    ensures var s := n.left.tx;
      && Awaiting(s) && Fits(Current(s), c.size) && s.nextSeq == |s.sent|
      && s.waiters[s.nextSeq] in {None, Some(c.crc32(Current(s)))}
      && Halfway(c, n.right.rx, s.nextSeq, Current(s), 0)
  {
    hide AllGenuine, InOrder, NoneBefore, AcksOk, Holds, Fits, HandedOk, OnlyAcks;
    var s, x := n.left.tx, n.right.rx;
    assert Direction(c, s, [], x, []);
    if s.waiters[s.nextSeq].Some? {
      assert Confirms(c, s.sent, x.handed, s.nextSeq, s.waiters[s.nextSeq].value);
    }
    StartsHalfway(c, s, x);
  }

  lemma StartsHalfway(c: Config, s: Sender, x: Inlet)
    requires c.Valid() && PartialOk(c, s.sent, x) && x.outboundAck == [] && Busy(s) && s.nextSeq == |s.sent|
    ensures Halfway(c, x, s.nextSeq, Current(s), 0)
  {
    hide Holds;
    var have: set<nat> := {};
    if s.nextSeq in x.recv.inbound {
      assert Partly(c, x.recv.inbound[s.nextSeq], s.sent[s.nextSeq - 1]);
      have :| Holds(x.recv.inbound[s.nextSeq], Current(s), c.size, c.crc32, have);
    }
    assert Holding(c, x, s.nextSeq, Current(s), 0, have);
  }

  lemma OneRound<T(!new)>(c: Config, w: Wire<T>, n: Net<T>) returns (events: seq<Event>, m: Net<T>)
    requires c.Valid() && Faithful(w, c.size) && Stalled(c, w, n)
    ensures Reaches(c, w, Step(c, w, n, Event(true, WakeByTimer)), events, m, false)
    ensures m.left.tx.phase.Idle? && m.left.tx.sent == n.left.tx.sent
    ensures m.left.tx.outcomes == n.left.tx.outcomes[|n.left.tx.outcomes| - 1 := Acked]
  {
    hide Reaches, Faithful, Halfway, Fits, Fragments, QueueAll, Stretch, NetInv;
    StalledFacts(c, w, n);
    var sn, data := n.left.tx.nextSeq, Current(n.left.tx);
    var o := Step(c, w, n, Event(true, WakeByTimer));
    events, m := Nothing(c, w, o, false);
    FragmentsExist(data, c.size);
    QueueAllIs(c, o.left.tx, n.left.tx.phase.attempt + 1, 0);
    var round := Stretch(c, sn, data, 0, |Fragments(data, c.size)|);
    assert [] + round == round;
    events, m := QueueRound(c, w, o, events, m);
    events, m := RoundCrosses(c, w, o, events, m, sn, data, 0);
    AllHad(c, m.right.rx, sn, data);
    events, m := AckTaken(c, w, o, events, m, data);
  }

  /** After any run, whatever was lost in it and whether or not the message has been handed up
      already: a Send that waits and may try again gets its ack once its timer fires and nothing
      is lost from then on. All that was queued or under way before may be lost first. */
  lemma {:induction false} SendRecovers<T(!new)>(c: Config, w: Wire<T>, events: seq<Event>)
    returns (clearing: seq<Event>, round: seq<Event>)
    requires c.Valid() && Faithful(w, c.size) && AllSendsFit(c, events) && InRange(Run(c, w, events))
    requires var n := Run(c, w, events);
      && n.left.tx.phase.Waiting? && n.left.tx.phase.attempt + 1 < c.attempts && !n.left.closed && !n.right.closed
    ensures AllClear(clearing) && AllLossless(round)
    ensures var n, m := Run(c, w, events), Run(c, w, events + clearing + [Event(true, WakeByTimer)] + round);
      && m.left.tx.phase.Idle? && m.left.tx.sent == n.left.tx.sent && n.left.tx.outcomes != []
      && m.left.tx.outcomes == n.left.tx.outcomes[|n.left.tx.outcomes| - 1 := Acked]
  {
    hide Run, NetInv, Faithful, StepAll, AllSendsFit, Step;
    var n := Run(c, w, events);
    var timer := Event(true, WakeByTimer);
    RunKeeps(c, w, events);
    var m, z;
    clearing, m := Cleared(c, w, n);
    ReachKeeps(c, w, n, clearing);
    round, z := OneRound(c, w, m);
    RunsOn(c, w, events, clearing);
    RunsOn(c, w, events + clearing, [timer]);
    One(c, w, m, timer);
    RunsOn(c, w, events + clearing + [timer], round);
    StalledFacts(c, w, m);
  }

  // Closing

  /** Once an endpoint is closed it queues nothing more, neither fragments nor acks: its queues
      only ever lose their heads to the writer. */
  lemma ClosedQueuesNothing<T>(c: Config, w: Wire<T>, n: Net<T>, a: Action)
    requires c.Valid() && n.left.closed
    ensures var e, f := n.left, StepLeft(c, w, n, a).left;
      && f.closed
      && (f.tx.outbound == e.tx.outbound || (e.tx.outbound != [] && f.tx.outbound == e.tx.outbound[1..]))
      && (f.rx.outboundAck == e.rx.outboundAck
          || (e.rx.outboundAck != [] && f.rx.outboundAck == e.rx.outboundAck[1..]))
  {
    hide HandleFrames, Fragments;
    if a.Arrive? && n.toLeft != [] {
      ClosedHandles(c, n.left, w.get(n.toLeft[0]));
    }
  }

  lemma {:induction false} ClosedHandles(c: Config, e: Endpoint, frames: seq<Frame>)
    requires e.closed
    ensures var f := HandleFrames(c, e, frames);
      f.closed && f.tx.outbound == e.tx.outbound && f.rx.outboundAck == e.rx.outboundAck
    decreases |frames|
  {
    hide HandleData;
    if frames != [] {
      ClosedHandles(c, HandleFrame(c, e, frames[0]), frames[1..]);
    }
  }

  /** But it goes on receiving: what is handed up and remembered is the same, only the ack is not
      sent. */
  lemma ClosedStillReceives(c: Config, x: Inlet, f: Frame)
    requires f.Data?
    ensures Accept(c, x, f, true) == Accept(c, x, f, false).(outboundAck := x.outboundAck)
    ensures HandleData(x.recv, f, c.crc32).data.Some? ==>
      Accept(c, x, f, true).received == x.received + [HandleData(x.recv, f, c.crc32).data.value]
  {
    hide HandleData;
  }

  /** After any run, Close ends a Send under way at its next step, in the select or at the next
      fragment, with ErrTransportClosed and without queueing anything. */
  lemma {:induction false} CloseEndsSend<T(!new)>(c: Config, w: Wire<T>, events: seq<Event>)
    requires c.Valid() && Faithful(w, c.size) && AllSendsFit(c, events) && InRange(Run(c, w, events))
    requires !Run(c, w, events).left.tx.phase.Idle?
    ensures var n := Run(c, w, events);
      var next := if n.left.tx.phase.Waiting? then WakeByClose else Queue;
      var m := Run(c, w, events + [Event(true, Shut)] + [Event(true, next)]);
      && m.left.closed && m.left.tx.phase.Idle? && m.left.tx.sent == n.left.tx.sent && n.left.tx.outcomes != []
      && m.left.tx.outcomes == n.left.tx.outcomes[|n.left.tx.outcomes| - 1 := Closed]
      && m.left.tx.outbound == n.left.tx.outbound
  {
    hide Run, NetInv, Faithful, AllSendsFit, Fragments;
    var n := Run(c, w, events);
    var wake := Event(true, if n.left.tx.phase.Waiting? then WakeByClose else Queue);
    RunKeeps(c, w, events);
    BusyFacts(c, w, n);
    RunsOn(c, w, events, [Event(true, Shut)]);
    One(c, w, n, Event(true, Shut));
    RunsOn(c, w, events + [Event(true, Shut)], [wake]);
    One(c, w, Run(c, w, events + [Event(true, Shut)]), wake);
  }

  lemma BusyFacts<T>(c: Config, w: Wire<T>, n: Net<T>)
    requires c.Valid() && NetInv(c, w, n) && !n.left.tx.phase.Idle?
    ensures Busy(n.left.tx) && (n.left.tx.phase.Sending? ==> CanQueue(c, n.left.tx))
  {
    hide AllGenuine, InOrder, NoneBefore, AcksOk, Fits, HandedOk, CacheOk, PartialOk, WaitersOk, Fragments;
    assert SenderOk(c, n.left.tx);
  }
}
