/** The runs of SeiArq are not empty promises: when nothing is lost and no timer fires early,
    every message sent is handed up and acked at the first attempt, in order, however many
    there are and over any faithful medium. */
module SeiProgress {
  import opened Bytes
  import opened SeiFrames
  import opened SeiReassembly
  import opened SeiArq

  /** One more event after a run. */
  lemma Then<T(!new)>(c: Config, w: Wire<T>, events: seq<Event>, n: Net<T>, left: bool, a: Action)
    returns (more: seq<Event>, m: Net<T>)
    requires c.Valid() && Run(c, w, events) == n && AllSendsFit(c, events) && SendsFit(c, a)
    ensures AllSendsFit(c, more) && Run(c, w, more) == m == Step(c, w, n, Event(left, a))
  {
    var e := Event(left, a);
    more, m := events + [e], Step(c, w, n, e);
    assert more[..|events|] == events;
  }

  /** The fragments of a message from the j-th on. */
  function FramesFrom(c: Config, sn: uint32, data: bytes, j: nat): seq<Frame>
    requires c.Valid() && j <= |Fragments(data, c.size)|
    decreases |Fragments(data, c.size)| - j
  {
    if j == |Fragments(data, c.size)| then []
    else [FragmentFrame(sn, data, j, c.size, c.crc32)] + FramesFrom(c, sn, data, j + 1)
  }

  function FramesUpTo(c: Config, sn: uint32, data: bytes, j: nat): seq<Frame>
    requires c.Valid() && j <= |Fragments(data, c.size)|
  {
    if j == 0 then [] else FramesUpTo(c, sn, data, j - 1) + [FragmentFrame(sn, data, j - 1, c.size, c.crc32)]
  }

  lemma {:induction false} UpToIsFrom(c: Config, sn: uint32, data: bytes, j: nat)
    requires c.Valid() && j <= |Fragments(data, c.size)|
    ensures FramesUpTo(c, sn, data, j) + FramesFrom(c, sn, data, j) == FramesFrom(c, sn, data, 0)
  {
    hide FragmentFrame;
    if j == 0 {
      assert [] + FramesFrom(c, sn, data, 0) == FramesFrom(c, sn, data, 0);
    } else {
      UpToIsFrom(c, sn, data, j - 1);
      Assoc(FramesUpTo(c, sn, data, j - 1), [FragmentFrame(sn, data, j - 1, c.size, c.crc32)],
            FramesFrom(c, sn, data, j));
    }
  }

  // Queueing

  /** The sender in its first attempt at `data`, with the fragments before j queued. */
  function Queueing(c: Config, idle: Sender, data: bytes, j: nat): Sender
    requires c.Valid() && idle.phase.Idle? && j < |Fragments(data, c.size)|
  {
    Begin(idle, data).(phase := Sending(0, j), outbound := FramesUpTo(c, Begin(idle, data).nextSeq, data, j))
  }

  function Queued(c: Config, idle: Sender, data: bytes): Sender
    requires c.Valid() && idle.phase.Idle?
  {
    Begin(idle, data).(phase := Waiting(0), outbound := FramesFrom(c, Begin(idle, data).nextSeq, data, 0))
  }

  lemma QueueOne(c: Config, idle: Sender, data: bytes, j: nat)
    requires c.Valid() && idle.phase.Idle? && j < |Fragments(data, c.size)|
    ensures var s := Queueing(c, idle, data, j);
      CanQueue(c, s) && QueueFragment(c, s, false) ==
        if j + 1 < |Fragments(data, c.size)| then Queueing(c, idle, data, j + 1) else Queued(c, idle, data)
  {
    hide FragmentFrame, Fragments;
    var s := Queueing(c, idle, data, j);
    assert Current(s) == data;
    if j + 1 == |Fragments(data, c.size)| {
      UpToIsFrom(c, s.nextSeq, data, j + 1);
      var all := FramesUpTo(c, s.nextSeq, data, j + 1);
      assert all + [] == all;
    }
  }

  lemma {:induction false} QueueFragments<T(!new)>(c: Config, w: Wire<T>, events: seq<Event>, n: Net<T>,
                                                     idle: Sender, data: bytes, j: nat)
    returns (more: seq<Event>, m: Net<T>)
    requires c.Valid() && idle.phase.Idle? && j < |Fragments(data, c.size)|
    requires Run(c, w, events) == n && AllSendsFit(c, events)
    requires n.left.tx == Queueing(c, idle, data, j) && !n.left.closed
    ensures Run(c, w, more) == m && AllSendsFit(c, more) && m == n.(left := n.left.(tx := Queued(c, idle, data)))
    decreases |Fragments(data, c.size)| - j
  {
    hide Queueing, Queued, Fragments, Run, AllSendsFit;
    QueueOne(c, idle, data, j);
    more, m := Then(c, w, events, n, true, Queue);
    if j + 1 < |Fragments(data, c.size)| {
      more, m := QueueFragments(c, w, more, m, idle, data, j + 1);
    }
  }

  // One frame across

  /** The head of the left queue is written, and arrives. */
  lemma Cross<T(!new)>(c: Config, w: Wire<T>, events: seq<Event>, n: Net<T>, f: Frame, rest: seq<Frame>)
    returns (more: seq<Event>, m: Net<T>)
    requires c.Valid() && Faithful(w, c.size) && Run(c, w, events) == n && AllSendsFit(c, events)
    requires f.Data? && Carriable(f, c.size) && n.left.tx.outbound == [f] + rest
    requires n.left.rx.outboundAck == [] && !n.left.closed && n.toRight == []
    ensures Run(c, w, more) == m && AllSendsFit(c, more)
    ensures m == n.(left := n.left.(tx := n.left.tx.(outbound := rest)),
                    right := n.right.(rx := Accept(c, n.right.rx, f, n.right.closed)))
  {
    hide Run, AllSendsFit, Accept;
    assert n.left.tx.outbound[1..] == rest;
    more, m := Then(c, w, events, n, true, WriteSample);
    assert w.get(w.put(Some(f))) == [f];
    assert n.toRight + [w.put(Some(f))] == [w.put(Some(f))];
    OneHandled(c, n.right, f);
    more, m := Then(c, w, more, m, false, Arrive);
  }

  lemma OneHandled(c: Config, e: Endpoint, f: Frame)
    ensures HandleFrames(c, e, [f]) == HandleFrame(c, e, f)
  {
    assert [f][1..] == [];
  }

  // All fragments across

  lemma FrameFacts(c: Config, sn: uint32, data: bytes, j: nat)
    requires c.Valid() && Fits(data, c.size) && j < |Fragments(data, c.size)|
    ensures var f := FragmentFrame(sn, data, j, c.size, c.crc32);
      f.sn == sn && f.crc == c.crc32(data) && Genuine(f, data, j, c.size, c.crc32) && Carriable(f, c.size)
  {
    FragmentsJoin(data, c.size);
  }

  lemma LastIndex(j: nat, m: nat)
    requires j < m
    ensures Indices(j) + {j} == Indices(j + 1) && (Indices(j + 1) == Indices(m) <==> j + 1 == m)
  {
    assert |Indices(j + 1)| == j + 1 && |Indices(m)| == m;
  }

  /** The inlet holds the first j fragments of message sn and nothing of any other. */
  ghost predicate Collecting(c: Config, x: Inlet, sn: uint32, data: bytes, j: nat)
    requires c.Valid()
  {
    && sn !in x.recv.delivered && x.recv.inbound.Keys <= {sn}
    && Collects(x.recv, sn, data, c.size, c.crc32, Indices(j))
  }

  function HandedUp(c: Config, x: Inlet, sn: uint32, data: bytes): Inlet {
    Inlet(Receiver(map[], Remember(x.recv.delivered, sn, c.crc32(data))),
          x.outboundAck + [Ack(sn, c.crc32(data))], x.received + [data], x.handed + [sn])
  }

  /** A fragment that is not the last is kept; the last one hands the message up. */
  lemma AcceptNext(c: Config, x: Inlet, sn: uint32, data: bytes, j: nat)
    requires c.Valid() && Fits(data, c.size) && j < |Fragments(data, c.size)| && Collecting(c, x, sn, data, j)
    ensures var y := Accept(c, x, FragmentFrame(sn, data, j, c.size, c.crc32), false);
      if j + 1 < |Fragments(data, c.size)| then
        y == x.(recv := y.recv) && y.recv.delivered == x.recv.delivered && Collecting(c, y, sn, data, j + 1)
      else y == HandedUp(c, x, sn, data)
  {
    hide HandleData, FragmentFrame, Holds, Fits, Fragments, Remember;
    var f := FragmentFrame(sn, data, j, c.size, c.crc32);
    FrameFacts(c, sn, data, j);
    LastIndex(j, |Fragments(data, c.size)|);
    HandleGenuine(x.recv, f, data, j, c.size, c.crc32, Indices(j));
    if j + 1 == |Fragments(data, c.size)| {
      assert x.recv.inbound - {sn} == map[];
    }
  }

  lemma {:induction false} CrossAll<T(!new)>(c: Config, w: Wire<T>, events: seq<Event>, n: Net<T>,
                                               sn: uint32, data: bytes, j: nat)
    returns (more: seq<Event>, m: Net<T>)
    requires c.Valid() && Faithful(w, c.size) && Run(c, w, events) == n && AllSendsFit(c, events)
    requires Fits(data, c.size) && j < |Fragments(data, c.size)|
    requires n.left.tx.outbound == FramesFrom(c, sn, data, j) && Collecting(c, n.right.rx, sn, data, j)
    requires n.left.rx.outboundAck == [] && !n.left.closed && !n.right.closed && n.toRight == []
    ensures Run(c, w, more) == m && AllSendsFit(c, more)
    ensures m == n.(left := n.left.(tx := n.left.tx.(outbound := [])),
                    right := n.right.(rx := HandedUp(c, n.right.rx, sn, data)))
    decreases |Fragments(data, c.size)| - j
  {
    hide Run, AllSendsFit, Faithful, Accept, FragmentFrame, Collecting, HandedUp, Fits, Fragments;
    var f, x := FragmentFrame(sn, data, j, c.size, c.crc32), n.right.rx;
    FrameFacts(c, sn, data, j);
    AcceptNext(c, x, sn, data, j);
    more, m := Cross(c, w, events, n, f, FramesFrom(c, sn, data, j + 1));
    if j + 1 < |Fragments(data, c.size)| {
      HandedUpSame(c, x, m.right.rx, sn, data);
      more, m := CrossAll(c, w, more, m, sn, data, j + 1);
    }
  }

  lemma HandedUpSame(c: Config, x: Inlet, y: Inlet, sn: uint32, data: bytes)
    requires y == x.(recv := y.recv) && y.recv.delivered == x.recv.delivered
    ensures HandedUp(c, y, sn, data) == HandedUp(c, x, sn, data)
  {
  }

  // One message

  /** Both ends at rest: nothing queued or under way, and what was sent has all been handed up
      and acked. */
  ghost predicate AtRest<T>(n: Net<T>, msgs: seq<bytes>) {
    var s, x := n.left.tx, n.right.rx;
    && n.toRight == [] && n.toLeft == [] && !n.left.closed && !n.right.closed
    && s.phase.Idle? && s.waiters == map[] && s.outbound == [] && s.nextSeq == |s.sent| && s.sent == msgs
    && |s.outcomes| == |msgs| && (forall k :: 0 <= k < |msgs| ==> s.outcomes[k] == Acked)
    && n.left.rx.outboundAck == [] && n.right.tx.outbound == []
    && x.received == msgs && x.outboundAck == [] && x.recv.inbound == map[]
    && forall sn: uint32 :: sn in x.recv.delivered ==> sn <= |msgs|
  }

  lemma CollectsNothing(c: Config, x: Inlet, sn: uint32, data: bytes)
    requires c.Valid() && x.recv.inbound == map[] && sn !in x.recv.delivered
    ensures Collecting(c, x, sn, data, 0)
  {
  }

  lemma RememberBounded(delivered: map<uint32, uint32>, sn: uint32, crc: uint32)
    requires forall k: uint32 :: k in delivered ==> k <= sn
    ensures forall k: uint32 :: k in Remember(delivered, sn, crc) ==> k <= sn
  {
  }

  lemma SendAtRest<T(!new)>(c: Config, w: Wire<T>, events: seq<Event>, n: Net<T>, msgs: seq<bytes>, data: bytes)
    returns (more: seq<Event>, m: Net<T>)
    requires c.Valid() && Faithful(w, c.size) && Run(c, w, events) == n && AllSendsFit(c, events)
    requires AtRest(n, msgs) && Fits(data, c.size) && |msgs| < U32 - 1
    ensures Run(c, w, more) == m && AllSendsFit(c, more) && Sent(c, n, m, data)
  {
    hide Run, AllSendsFit, Faithful, Fits, Fragments, Queued, Collecting, HandedUp;
    var idle := n.left.tx;
    more, m := Then(c, w, events, n, true, CallSend(data));
    assert m.left.tx == Queueing(c, idle, data, 0);
    more, m := QueueFragments(c, w, more, m, idle, data, 0);
    QueuedIs(c, idle, data);
    CollectsNothing(c, n.right.rx, |msgs| + 1, data);
    more, m := CrossAll(c, w, more, m, |msgs| + 1, data, 0);
  }

  /** The message is with the receiver, and its ack is queued there. */
  ghost predicate Sent<T>(c: Config, n: Net<T>, m: Net<T>, data: bytes)
    requires n.left.tx.phase.Idle?
  {
    var tx := Begin(n.left.tx, data).(phase := Waiting(0), outbound := []);
    m == n.(left := n.left.(tx := tx), right := n.right.(rx := HandedUp(c, n.right.rx, tx.nextSeq, data)))
  }

  lemma QueuedIs(c: Config, idle: Sender, data: bytes)
    requires c.Valid() && idle.phase.Idle?
    ensures Queued(c, idle, data).(outbound := []) == Begin(idle, data).(phase := Waiting(0), outbound := [])
    ensures Queued(c, idle, data).outbound == FramesFrom(c, Begin(idle, data).nextSeq, data, 0)
  {
  }

  /** The ack is written on the right and arrives on the left. */
  lemma AckCrosses<T(!new)>(c: Config, w: Wire<T>, events: seq<Event>, m: Net<T>, ack: Frame)
    returns (more: seq<Event>, z: Net<T>)
    requires c.Valid() && Faithful(w, c.size) && Run(c, w, events) == m && AllSendsFit(c, events)
    requires ack.Ack? && m.right.rx.outboundAck == [ack] && !m.right.closed && m.toLeft == []
    ensures Run(c, w, more) == z && AllSendsFit(c, more)
    ensures z == m.(left := m.left.(tx := ResolveAck(m.left.tx, ack.sn, ack.crc)),
                    right := m.right.(rx := m.right.rx.(outboundAck := [])))
  {
    hide Run, AllSendsFit, ResolveAck;
    assert [ack][1..] == [];
    more, z := Then(c, w, events, m, false, WriteSample);
    assert w.get(w.put(Some(ack))) == [ack];
    assert [] + [w.put(Some(ack))] == [w.put(Some(ack))];
    OneHandled(c, m.left, ack);
    more, z := Then(c, w, more, z, true, Arrive);
  }

  lemma AckBack<T(!new)>(c: Config, w: Wire<T>, events: seq<Event>, n: Net<T>, m: Net<T>, msgs: seq<bytes>, data: bytes)
    returns (more: seq<Event>, z: Net<T>)
    requires c.Valid() && Faithful(w, c.size) && Run(c, w, events) == m && AllSendsFit(c, events)
    requires AtRest(n, msgs) && |msgs| < U32 - 1 && Sent(c, n, m, data)
    ensures Run(c, w, more) == z && AllSendsFit(c, more) && AtRest(z, msgs + [data])
  {
    hide Run, AllSendsFit, Faithful, Remember;
    var sn, crc := (|msgs| + 1) as uint32, c.crc32(data);
    var ack := Ack(sn, crc);
    assert [] + [ack] == [ack];
    RememberBounded(n.right.rx.recv.delivered, sn, crc);
    more, z := AckCrosses(c, w, events, m, ack);
    assert z.left.tx.waiters == map[sn := Some(crc)];
    more, z := Then(c, w, more, z, true, WakeByAck);
    assert z.left.tx.waiters == map[];
  }

  /** For every list of messages that fit there is a run that hands up exactly these, in
      order, and in which every Send returns nil. */
  lemma {:induction false} EverythingCanBeDelivered<T(!new)>(c: Config, w: Wire<T>, msgs: seq<bytes>)
    returns (events: seq<Event>, n: Net<T>)
    requires c.Valid() && Faithful(w, c.size) && |msgs| < U32 - 1
    requires forall k :: 0 <= k < |msgs| ==> Fits(msgs[k], c.size)
    ensures AllSendsFit(c, events) && Run(c, w, events) == n
    ensures n.left.tx.sent == msgs == n.right.rx.received
    ensures n.left.tx.outcomes == seq(|msgs|, _ => Acked)
    ensures AtRest(n, msgs)
    decreases |msgs|
  {
    hide Fits, Faithful, Sent;
    if msgs == [] {
      events, n := [], Net(START, START, [], []);
    } else {
      var before, data := msgs[..|msgs| - 1], msgs[|msgs| - 1];
      var m;
      events, n := EverythingCanBeDelivered(c, w, before);
      events, m := SendAtRest(c, w, events, n, before, data);
      events, n := AckBack(c, w, events, n, m, before, data);
      assert before + [data] == msgs;
    }
  }
}
