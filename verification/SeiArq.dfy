/** The stop-and-wait protocol of seichannel/transport.go (videochannel runs the same code
    with 20 attempts): two endpoints, each sending and receiving, joined by two FIFO links
    that may lose anything. A run is any list of events; every choice of the scheduler, the
    timers and the network is an event. Queue capacities only delay a goroutine, so the
    queues here are unbounded. */
module SeiArq {
  import opened Bytes
  import opened SeiFrames
  import opened SeiReassembly

  datatype Config = Config(size: nat, attempts: nat, crc32: Checksum)
  {
    predicate Valid() { size > 0 && attempts > 0 }
  }

  datatype Outcome = InProgress | Acked | TimedOut | Closed

  /** Where the goroutine inside Send stands: queueing fragment `next` of an attempt, or in
      the select that waits for the ack. */
  datatype Phase = Idle | Sending(attempt: nat, next: nat) | Waiting(attempt: nat)

  /** The sending half. `sent` and `outcomes` record the calls of Send and their results. */
  datatype Sender = Sender(
    nextSeq: uint32, phase: Phase, waiters: map<uint32, Option<uint32>>, outbound: seq<Frame>,
    sent: seq<bytes>, outcomes: seq<Outcome>)

  /** The receiving half. `received` records the calls of onData, `handed` their numbers. */
  datatype Inlet = Inlet(recv: Receiver, outboundAck: seq<Frame>, received: seq<bytes>, handed: seq<uint32>)

  datatype Endpoint = Endpoint(tx: Sender, rx: Inlet, closed: bool)

  const START := Endpoint(Sender(0, Idle, map[], [], [], []), Inlet(EMPTY, [], [], []), false)

  // The steps of Send

  function Begin(s: Sender, data: bytes): Sender
    requires s.phase.Idle?
  {
    var sn := (s.nextSeq + 1) % U32;
    s.(nextSeq := sn, phase := Sending(0, 0), waiters := s.waiters[sn := None],
       sent := s.sent + [data], outcomes := s.outcomes + [InProgress])
  }

  predicate Busy(s: Sender) {
    !s.phase.Idle? && s.sent != [] && s.outcomes != []
  }

  function Finish(s: Sender, outcome: Outcome): Sender
    requires Busy(s)
  {
    s.(phase := Idle, waiters := s.waiters - {s.nextSeq}, outcomes := s.outcomes[|s.outcomes| - 1 := outcome])
  }

  function Current(s: Sender): bytes
    requires Busy(s)
  {
    s.sent[|s.sent| - 1]
  }

  predicate CanQueue(c: Config, s: Sender)
    requires c.Valid()
  {
    Busy(s) && s.phase.Sending? && s.phase.next < |Fragments(Current(s), c.size)|
  }

  function QueueFragment(c: Config, s: Sender, closed: bool): Sender
    requires c.Valid() && CanQueue(c, s)
  {
    var Sending(attempt, next) := s.phase;
    if closed then Finish(s, Closed)
    else
      s.(outbound := s.outbound + [FragmentFrame(s.nextSeq, Current(s), next, c.size, c.crc32)],
         phase := if next + 1 == |Fragments(Current(s), c.size)| then Waiting(attempt)
                  else Sending(attempt, next + 1))
  }

  function NextAttempt(c: Config, s: Sender): Sender
    requires Busy(s) && s.phase.Waiting?
  {
    if s.phase.attempt + 1 < c.attempts then s.(phase := Sending(s.phase.attempt + 1, 0))
    else Finish(s, TimedOut)
  }

  predicate CanTakeAck(s: Sender) {
    Busy(s) && s.phase.Waiting? && s.nextSeq in s.waiters && s.waiters[s.nextSeq].Some?
  }

  function TakeAck(c: Config, s: Sender): Sender
    requires CanTakeAck(s)
  {
    var taken := s.(waiters := s.waiters[s.nextSeq := None]);
    if s.waiters[s.nextSeq].value == c.crc32(Current(s)) then Finish(taken, Acked)
    else NextAttempt(c, taken)
  }

  function ResolveAck(s: Sender, sn: uint32, crc: uint32): Sender {
    if sn in s.waiters && s.waiters[sn].None? then s.(waiters := s.waiters[sn := Some(crc)]) else s
  }

  // The steps of the receiver and the writer

  function Accept(c: Config, x: Inlet, f: Frame, closed: bool): Inlet
    requires f.Data?
  {
    var h := HandleData(x.recv, f, c.crc32);
    Inlet(h.recv,
          if h.ack && !closed then x.outboundAck + [Ack(f.sn, f.crc)] else x.outboundAck,
          if h.data.Some? then x.received + [h.data.value] else x.received,
          if h.data.Some? then x.handed + [f.sn] else x.handed)
  }

  function HandleFrame(c: Config, e: Endpoint, f: Frame): Endpoint {
    match f
    case Ack(sn, crc) => e.(tx := ResolveAck(e.tx, sn, crc))
    case Data(_, _, _, _, _, _) => e.(rx := Accept(c, e.rx, f, e.closed))
  }

  function HandleFrames(c: Config, e: Endpoint, frames: seq<Frame>): Endpoint
    decreases |frames|
  {
    if frames == [] then e else HandleFrames(c, HandleFrame(c, e, frames[0]), frames[1..])
  }

  /** All frames that a sample shows are handled, one after the other. */
  lemma {:induction false} HandleFramesAppend(c: Config, e: Endpoint, a: seq<Frame>, b: seq<Frame>)
    ensures HandleFrames(c, e, a + b) == HandleFrames(c, HandleFrames(c, e, a), b)
    ensures forall f: Frame :: HandleFrames(c, e, [f]) == HandleFrame(c, e, f)
    decreases |a|
  {
    hide HandleFrame;
    assert forall f: Frame :: [f][1..] == [];
    if a == [] {
      assert a + b == b;
    } else {
      assert (a + b)[0] == a[0] && (a + b)[1..] == a[1..] + b;
      HandleFramesAppend(c, HandleFrame(c, e, a[0]), a[1..], b);
    }
  }

  /** The frame the writer takes next, acks first, and the endpoint without it. */
  function NextOutbound(e: Endpoint): (Endpoint, Option<Frame>) {
    if e.rx.outboundAck != [] then
      (e.(rx := e.rx.(outboundAck := e.rx.outboundAck[1..])), Some(e.rx.outboundAck[0]))
    else if e.tx.outbound != [] then
      (e.(tx := e.tx.(outbound := e.tx.outbound[1..])), Some(e.tx.outbound[0]))
    else (e, None)
  }

  // The network

  /** How a frame, or idleness, is put on the medium, and which frames are read from it. */
  datatype Wire<!T> = Wire(put: Option<Frame> -> T, get: T -> seq<Frame>)

  /** The medium shows every frame that carries at most `size` bytes as it is. */
  ghost predicate Faithful<T(!new)>(w: Wire<T>, size: nat) {
    && w.get(w.put(None)) == []
    && forall f: Frame :: Carriable(f, size) ==> w.get(w.put(Some(f))) == [f]
  }

  predicate Carriable(f: Frame, size: nat) {
    f.Data? ==> |f.payload| <= size
  }

  datatype Net<T> = Net(left: Endpoint, right: Endpoint, toRight: seq<T>, toLeft: seq<T>)
  {
    function Flip(): Net<T> { Net(right, left, toLeft, toRight) }
  }

  datatype Action =
    | CallSend(data: bytes)  // Send, having seen the transport open, takes sendMu
    | Queue                  // Send enqueues its next fragment
    | WakeByAck              // Send's select receives from the waiter
    | WakeByTimer            // Send's select sees the ack timeout
    | WakeByClose            // Send's select sees closeCh
    | Shut                   // Close is called
    | WriteSample            // the writer takes a frame, if one is queued, and writes a sample
    | Lose(at: nat)          // the network drops what stands at `at` on the outgoing link
    | Arrive                 // the sample at the head of the incoming link is handled

  datatype Event = Event(left: bool, action: Action)

  function RemoveAt<T>(q: seq<T>, i: nat): seq<T>
    requires i < |q|
  {
    q[..i] + q[i + 1..]
  }

  /** What the left endpoint, or its outgoing link, does; nothing if it cannot. */
  function StepLeft<T>(c: Config, w: Wire<T>, n: Net<T>, a: Action): Net<T>
    requires c.Valid()
  {
    var e := n.left;
    match a
    case CallSend(data) =>
      if e.tx.phase.Idle? then n.(left := e.(tx := Begin(e.tx, data))) else n
    case Queue => if CanQueue(c, e.tx) then n.(left := e.(tx := QueueFragment(c, e.tx, e.closed))) else n
    case WakeByAck => if CanTakeAck(e.tx) then n.(left := e.(tx := TakeAck(c, e.tx))) else n
    case WakeByTimer =>
      if Busy(e.tx) && e.tx.phase.Waiting? then n.(left := e.(tx := NextAttempt(c, e.tx))) else n
    case WakeByClose =>
      if Busy(e.tx) && e.tx.phase.Waiting? && e.closed then n.(left := e.(tx := Finish(e.tx, Closed))) else n
    case Shut => n.(left := e.(closed := true))
    case WriteSample =>
      var (e', frame) := NextOutbound(e);
      n.(left := e', toRight := n.toRight + [w.put(frame)])
    case Lose(at) => if at < |n.toRight| then n.(toRight := RemoveAt(n.toRight, at)) else n
    case Arrive =>
      if n.toLeft == [] then n
      else n.(left := HandleFrames(c, e, w.get(n.toLeft[0])), toLeft := n.toLeft[1..])
  }

  function Step<T>(c: Config, w: Wire<T>, n: Net<T>, e: Event): Net<T>
    requires c.Valid()
  {
    if e.left then StepLeft(c, w, n, e.action) else StepLeft(c, w, n.Flip(), e.action).Flip()
  }

  function Run<T>(c: Config, w: Wire<T>, events: seq<Event>): Net<T>
    requires c.Valid()
  {
    if events == [] then Net(START, START, [], [])
    else Step(c, w, Run(c, w, events[..|events| - 1]), events[|events| - 1])
  }

  // The invariant of one direction: sender s, the frames on the link from it, receiver x, and
  // the frames on the link back

  ghost predicate GenuineOf(c: Config, sent: seq<bytes>, f: Frame)
    requires c.Valid()
  {
    && f.Data? && 1 <= f.sn <= |sent|
    && Genuine(f, sent[f.sn - 1], f.fragIdx, c.size, c.crc32)
  }

  ghost predicate AllGenuine(c: Config, sent: seq<bytes>, frames: seq<Frame>)
    requires c.Valid()
  {
    forall f :: f in frames && f.Data? ==> GenuineOf(c, sent, f)
  }

  ghost predicate InOrder(frames: seq<Frame>) {
    forall j, k :: 0 <= j < k < |frames| && frames[j].Data? && frames[k].Data? ==> frames[j].sn <= frames[k].sn
  }

  ghost predicate NoneBefore(frames: seq<Frame>, sn: int) {
    forall f :: f in frames && f.Data? ==> sn <= f.sn
  }

  ghost predicate SenderOk(c: Config, s: Sender)
    requires c.Valid()
  {
    && |s.sent| == s.nextSeq == |s.outcomes|
    && (forall k :: 0 <= k < |s.sent| ==> Fits(s.sent[k], c.size))
    && (forall f :: f in s.outbound ==> f.Data?)
    && (s.phase.Idle? ==> s.waiters == map[])
    && (!s.phase.Idle? ==>
          s.nextSeq >= 1 && s.waiters.Keys == {s.nextSeq} && s.outcomes[|s.outcomes| - 1] == InProgress)
    && (s.phase.Sending? ==> s.phase.next < |Fragments(s.sent[|s.sent| - 1], c.size)|)
  }

  ghost predicate Increasing(handed: seq<uint32>) {
    forall j, k :: 0 <= j < k < |handed| ==> handed[j] < handed[k]
  }

  function Last(handed: seq<uint32>): uint32 {
    if handed == [] then 0 else handed[|handed| - 1]
  }

  ghost predicate HandedOk(sent: seq<bytes>, x: Inlet) {
    && |x.handed| == |x.received| && Increasing(x.handed)
    && forall k :: 0 <= k < |x.handed| ==> 1 <= x.handed[k] <= |sent| && x.received[k] == sent[x.handed[k] - 1]
  }

  ghost predicate CacheOk(c: Config, sent: seq<bytes>, x: Inlet)
    requires HandedOk(sent, x)
  {
    && (forall sn :: sn in x.recv.delivered ==> sn in x.handed && x.recv.delivered[sn] == c.crc32(sent[sn - 1]))
    && (x.handed != [] ==> Last(x.handed) in x.recv.delivered)
  }

  ghost predicate PartialOk(c: Config, sent: seq<bytes>, x: Inlet)
    requires c.Valid()
  {
    forall sn :: sn in x.recv.inbound ==>
      1 <= sn <= |sent| && Partly(c, x.recv.inbound[sn], sent[sn - 1])
  }

  ghost predicate Partly(c: Config, msg: Inbound, data: bytes)
    requires c.Valid()
  {
    exists have :: Holds(msg, data, c.size, c.crc32, have)
  }

  ghost predicate Confirms(c: Config, sent: seq<bytes>, handed: seq<uint32>, sn: uint32, crc: uint32) {
    sn in handed && 1 <= sn <= |sent| && crc == c.crc32(sent[sn - 1])
  }

  ghost predicate AcksOk(c: Config, sent: seq<bytes>, handed: seq<uint32>, frames: seq<Frame>) {
    forall f :: f in frames && f.Ack? ==> Confirms(c, sent, handed, f.sn, f.crc)
  }

  ghost predicate OnlyAcks(frames: seq<Frame>) {
    forall f :: f in frames ==> f.Ack?
  }

  ghost predicate WaitersOk(c: Config, s: Sender, handed: seq<uint32>) {
    && (forall sn :: sn in s.waiters && s.waiters[sn].Some? ==> Confirms(c, s.sent, handed, sn, s.waiters[sn].value))
    && (forall k :: 0 <= k < |s.outcomes| && s.outcomes[k] == Acked ==>
          exists j :: 0 <= j < |handed| && handed[j] == k + 1)
  }

  ghost predicate Direction(c: Config, s: Sender, fwd: seq<Frame>, x: Inlet, back: seq<Frame>)
    requires c.Valid()
  {
    && SenderOk(c, s)
    && AllGenuine(c, s.sent, fwd + s.outbound) && InOrder(fwd + s.outbound)
    && HandedOk(s.sent, x) && CacheOk(c, s.sent, x) && PartialOk(c, s.sent, x)
    && NoneBefore(fwd + s.outbound, Last(x.handed))
    && AcksOk(c, s.sent, x.handed, back + x.outboundAck)
    && OnlyAcks(x.outboundAck)
    && WaitersOk(c, s, x.handed)
  }

  // Frames in flight may be dropped, and acks may pass

  lemma Dropped(c: Config, sent: seq<bytes>, a: seq<Frame>, mid: seq<Frame>, b: seq<Frame>, sn: int)
    requires c.Valid()
    requires AllGenuine(c, sent, a + mid + b) && InOrder(a + mid + b) && NoneBefore(a + mid + b, sn)
    ensures AllGenuine(c, sent, a + b) && InOrder(a + b) && NoneBefore(a + b, sn)
  {
    hide GenuineOf;
    var all, some := a + mid + b, a + b;
    forall f | f in some
      ensures f in all
    {
    }
    forall j, k | 0 <= j < k < |some| && some[j].Data? && some[k].Data?
      ensures some[j].sn <= some[k].sn
    {
      var j' := if j < |a| then j else j + |mid|;
      var k' := if k < |a| then k else k + |mid|;
      assert all[j'] == some[j] && all[k'] == some[k];
    }
  }

  lemma AckInserted(c: Config, sent: seq<bytes>, a: seq<Frame>, f: Frame, b: seq<Frame>, sn: int)
    requires c.Valid() && f.Ack?
    requires AllGenuine(c, sent, a + b) && InOrder(a + b) && NoneBefore(a + b, sn)
    ensures AllGenuine(c, sent, a + [f] + b) && InOrder(a + [f] + b) && NoneBefore(a + [f] + b, sn)
  {
    hide GenuineOf;
    var all, some := a + [f] + b, a + b;
    forall g | g in all
      ensures g == f || g in some
    {
    }
    forall j, k | 0 <= j < k < |all| && all[j].Data? && all[k].Data?
      ensures all[j].sn <= all[k].sn
    {
      var j' := if j < |a| then j else j - 1;
      var k' := if k < |a| then k else k - 1;
      assert some[j'] == all[j] && some[k'] == all[k];
    }
  }

  // The steps of the sender keep the direction it sends in

  lemma FragmentsExist(data: bytes, size: nat)
    requires size > 0
    ensures |Fragments(data, size)| > 0
  {
  }

  lemma BeginKeeps(c: Config, s: Sender, fwd: seq<Frame>, x: Inlet, back: seq<Frame>, data: bytes)
    requires c.Valid() && Direction(c, s, fwd, x, back)
    requires s.phase.Idle? && Fits(data, c.size) && |s.sent| + 1 < U32
    ensures Direction(c, Begin(s, data), fwd, x, back)
  {
    hide Genuine, Partly, Fits, Fragments;
    var s' := Begin(s, data);
    assert forall k :: 0 <= k < |s.sent| ==> s'.sent[k] == s.sent[k];
    FragmentsExist(data, c.size);
  }

  /** Send returns: with nil only if the message was handed up. */
  lemma FinishKeeps(c: Config, s: Sender, fwd: seq<Frame>, x: Inlet, back: seq<Frame>, outcome: Outcome)
    requires c.Valid() && Direction(c, s, fwd, x, back) && Busy(s)
    requires outcome != InProgress && (outcome == Acked ==> s.nextSeq in x.handed)
    ensures Direction(c, Finish(s, outcome), fwd, x, back)
  {
    hide Genuine, Partly, Fits, Fragments, AllGenuine, InOrder, HandedOk, CacheOk, PartialOk, NoneBefore, AcksOk;
    var s' := Finish(s, outcome);
    assert s'.waiters == map[];
    forall k | 0 <= k < |s'.outcomes| && s'.outcomes[k] == Acked
      ensures exists j :: 0 <= j < |x.handed| && x.handed[j] == k + 1
    {
      if k < |s.outcomes| - 1 {
        assert s.outcomes[k] == Acked;
      }
    }
  }

  lemma QueuedFrame(c: Config, s: Sender)
    requires c.Valid() && SenderOk(c, s) && CanQueue(c, s)
    ensures GenuineOf(c, s.sent, FragmentFrame(s.nextSeq, Current(s), s.phase.next, c.size, c.crc32))
  {
    hide Fragments;
    assert Fits(s.sent[|s.sent| - 1], c.size);
    FragmentFrameGenuine(s.nextSeq, Current(s), s.phase.next, c.size, c.crc32);
  }

  lemma QueueKeeps(c: Config, s: Sender, fwd: seq<Frame>, x: Inlet, back: seq<Frame>, closed: bool)
    requires c.Valid() && Direction(c, s, fwd, x, back) && CanQueue(c, s)
    ensures Direction(c, QueueFragment(c, s, closed), fwd, x, back)
  {
    hide GenuineOf, AllGenuine, InOrder, HandedOk, CacheOk, PartialOk, NoneBefore, AcksOk, WaitersOk, Fits, Fragments;
    if closed {
      FinishKeeps(c, s, fwd, x, back, Closed);
    } else {
      var f := FragmentFrame(s.nextSeq, Current(s), s.phase.next, c.size, c.crc32);
      QueuedFrame(c, s);
      NumbersBounded(c, s, x);
      Appended(c, s.sent, fwd + s.outbound, f, Last(x.handed));
      AppendOutbound(c, s, QueueFragment(c, s, closed), fwd, x, back, f);
    }
  }

  lemma NumbersBounded(c: Config, s: Sender, x: Inlet)
    requires HandedOk(s.sent, x)
    ensures Last(x.handed) <= |s.sent|
  {
  }

  lemma Appended(c: Config, sent: seq<bytes>, frames: seq<Frame>, f: Frame, sn: int)
    requires c.Valid() && GenuineOf(c, sent, f) && f.sn == |sent| && sn <= |sent|
    requires AllGenuine(c, sent, frames) && InOrder(frames) && NoneBefore(frames, sn)
    ensures AllGenuine(c, sent, frames + [f]) && InOrder(frames + [f]) && NoneBefore(frames + [f], sn)
  {
    hide Genuine;
    forall g | g in frames + [f]
      ensures g == f || g in frames
    {
    }
    assert forall k :: 0 <= k < |frames| && frames[k].Data? ==> GenuineOf(c, sent, frames[k]);
  }

  lemma AppendOutbound(c: Config, s: Sender, s': Sender, fwd: seq<Frame>, x: Inlet, back: seq<Frame>, f: Frame)
    requires c.Valid() && Direction(c, s, fwd, x, back) && f.Data? && !s.phase.Idle?
    requires s' == s.(outbound := s.outbound + [f], phase := s'.phase) && !s'.phase.Idle?
    requires s'.phase.Sending? ==> s'.phase.next < |Fragments(s.sent[|s.sent| - 1], c.size)|
    requires var frames := fwd + s.outbound + [f];
      AllGenuine(c, s.sent, frames) && InOrder(frames) && NoneBefore(frames, Last(x.handed))
    ensures Direction(c, s', fwd, x, back)
  {
    hide AllGenuine, InOrder, HandedOk, CacheOk, PartialOk, NoneBefore, AcksOk, WaitersOk, Fits, Fragments;
    assert fwd + s'.outbound == fwd + s.outbound + [f];
    assert WaitersOk(c, s', x.handed) by {
      WaitersSame(c, s, s', x.handed);
    }
  }

  lemma WaitersSame(c: Config, s: Sender, s': Sender, handed: seq<uint32>)
    requires s'.waiters == s.waiters && s'.outcomes == s.outcomes && s'.sent == s.sent && WaitersOk(c, s, handed)
    ensures WaitersOk(c, s', handed)
  {
  }

  lemma NextAttemptKeeps(c: Config, s: Sender, fwd: seq<Frame>, x: Inlet, back: seq<Frame>)
    requires c.Valid() && Direction(c, s, fwd, x, back) && Busy(s) && s.phase.Waiting?
    ensures Direction(c, NextAttempt(c, s), fwd, x, back)
  {
    hide AllGenuine, InOrder, HandedOk, CacheOk, PartialOk, NoneBefore, AcksOk, WaitersOk, Fits, Fragments;
    if s.phase.attempt + 1 < c.attempts {
      FragmentsExist(Current(s), c.size);
      WaitersSame(c, s, s.(phase := Sending(s.phase.attempt + 1, 0)), x.handed);
    } else {
      FinishKeeps(c, s, fwd, x, back, TimedOut);
    }
  }

  lemma EmptyWaiterKeeps(c: Config, s: Sender, fwd: seq<Frame>, x: Inlet, back: seq<Frame>)
    requires c.Valid() && Direction(c, s, fwd, x, back) && CanTakeAck(s)
    ensures Direction(c, s.(waiters := s.waiters[s.nextSeq := None]), fwd, x, back)
  {
    hide AllGenuine, InOrder, HandedOk, CacheOk, PartialOk, NoneBefore, AcksOk, Fits, Fragments, Confirms;
  }

  lemma TakeAckKeeps(c: Config, s: Sender, fwd: seq<Frame>, x: Inlet, back: seq<Frame>)
    requires c.Valid() && Direction(c, s, fwd, x, back) && CanTakeAck(s)
    ensures Direction(c, TakeAck(c, s), fwd, x, back)
  {
    hide AllGenuine, InOrder, HandedOk, CacheOk, PartialOk, NoneBefore, AcksOk, Fits, Fragments;
    var taken := s.(waiters := s.waiters[s.nextSeq := None]);
    EmptyWaiterKeeps(c, s, fwd, x, back);
    assert s.nextSeq in x.handed;
    if s.waiters[s.nextSeq].value == c.crc32(Current(s)) {
      FinishKeeps(c, taken, fwd, x, back, Acked);
    } else {
      NextAttemptKeeps(c, taken, fwd, x, back);
    }
  }

  lemma ResolveKeeps(c: Config, s: Sender, fwd: seq<Frame>, x: Inlet, back: seq<Frame>, f: Frame)
    requires c.Valid() && f.Ack? && Direction(c, s, fwd, x, [f] + back)
    ensures Direction(c, ResolveAck(s, f.sn, f.crc), fwd, x, back)
  {
    hide AllGenuine, InOrder, HandedOk, CacheOk, PartialOk, NoneBefore, Fits, Fragments, Confirms;
    assert f in [f] + back + x.outboundAck;
    assert forall g :: g in back + x.outboundAck ==> g in [f] + back + x.outboundAck;
  }

  // The receiver

  lemma AckQueued(c: Config, sent: seq<bytes>, handed: seq<uint32>, back: seq<Frame>, acks: seq<Frame>, f: Frame)
    requires f.Ack? && AcksOk(c, sent, handed, back + acks) && Confirms(c, sent, handed, f.sn, f.crc)
    requires OnlyAcks(acks)
    ensures AcksOk(c, sent, handed, back + (acks + [f])) && OnlyAcks(acks + [f])
  {
    hide Confirms;
    forall g | g in back + (acks + [f])
      ensures g == f || g in back + acks
    {
    }
  }

  lemma FollowsAll(c: Config, s: Sender, fwd: seq<Frame>, x: Inlet, back: seq<Frame>, f: Frame)
    requires c.Valid() && Direction(c, s, [f] + fwd, x, back) && f.Data? && !Delivered(x.recv, f)
    ensures GenuineOf(c, s.sent, f)
    ensures x.handed != [] ==> Last(x.handed) < f.sn
  {
    hide Genuine, AcksOk, WaitersOk, PartialOk, SenderOk;
    assert ([f] + fwd + s.outbound)[0] == f;
    assert f in [f] + fwd + s.outbound;
    if x.handed != [] && Last(x.handed) == f.sn {
      assert Last(x.handed) in x.recv.delivered;
      assert GenuineOf(c, s.sent, f);
      FieldsOf(c, s.sent, f);
    }
  }

  lemma FieldsOf(c: Config, sent: seq<bytes>, f: Frame)
    requires c.Valid() && GenuineOf(c, sent, f)
    ensures f.crc == c.crc32(sent[f.sn - 1])
  {
  }

  lemma HeadFirst(f: Frame, rest: seq<Frame>)
    requires InOrder([f] + rest) && f.Data?
    ensures NoneBefore(rest, f.sn)
  {
    forall g | g in rest && g.Data?
      ensures f.sn <= g.sn
    {
      var k :| 0 <= k < |rest| && rest[k] == g;
      assert ([f] + rest)[0] == f && ([f] + rest)[k + 1] == g;
    }
  }

  lemma HandedNext(sent: seq<bytes>, x: Inlet, sn: uint32, x': Inlet)
    requires HandedOk(sent, x) && 1 <= sn <= |sent| && (x.handed != [] ==> Last(x.handed) < sn)
    requires x'.received == x.received + [sent[sn - 1]] && x'.handed == x.handed + [sn]
    ensures HandedOk(sent, x')
  {
  }

  lemma CacheNext(c: Config, sent: seq<bytes>, x: Inlet, sn: uint32, x': Inlet)
    requires HandedOk(sent, x) && CacheOk(c, sent, x) && HandedOk(sent, x') && 1 <= sn <= |sent|
    requires x'.recv.delivered == Remember(x.recv.delivered, sn, c.crc32(sent[sn - 1]))
    requires x'.handed == x.handed + [sn]
    ensures CacheOk(c, sent, x')
  {
    hide HandedOk;
    assert x'.handed[|x.handed|] == sn;
    forall k | k in x'.recv.delivered
      ensures k in x'.handed && (1 <= k <= |sent| ==> x'.recv.delivered[k] == c.crc32(sent[k - 1]))
    {
      if k != sn {
        assert k in x.recv.delivered && k in x.handed;
      }
    }
    CacheRange(sent, x');
  }

  lemma CacheRange(sent: seq<bytes>, x: Inlet)
    requires HandedOk(sent, x)
    ensures forall k :: k in x.handed ==> 1 <= k <= |sent|
  {
  }

  lemma PartialNext(c: Config, sent: seq<bytes>, x: Inlet, sn: uint32, x': Inlet)
    requires c.Valid() && PartialOk(c, sent, x) && x'.recv.inbound == x.recv.inbound - {sn}
    ensures PartialOk(c, sent, x')
  {
    hide Partly;
  }

  /** A message is handed up: its number follows all earlier ones. */
  lemma HandUp(c: Config, s: Sender, fwd: seq<Frame>, x: Inlet, back: seq<Frame>, f: Frame, x': Inlet)
    requires c.Valid() && Direction(c, s, [f] + fwd, x, back) && GenuineOf(c, s.sent, f) && !Delivered(x.recv, f)
    requires x'.recv == Receiver(x.recv.inbound - {f.sn}, Remember(x.recv.delivered, f.sn, f.crc))
    requires x'.received == x.received + [s.sent[f.sn - 1]] && x'.handed == x.handed + [f.sn]
    ensures HandedOk(s.sent, x') && CacheOk(c, s.sent, x') && PartialOk(c, s.sent, x')
    ensures NoneBefore(fwd + s.outbound, Last(x'.handed))
  {
    hide HandedOk, CacheOk, PartialOk, NoneBefore, InOrder, AllGenuine, AcksOk, WaitersOk, SenderOk, Genuine, Remember;
    FollowsAll(c, s, fwd, x, back, f);
    FieldsOf(c, s.sent, f);
    HandedNext(s.sent, x, f.sn, x');
    CacheNext(c, s.sent, x, f.sn, x');
    PartialNext(c, s.sent, x, f.sn, x');
    assert [f] + fwd + s.outbound == [f] + (fwd + s.outbound);
    HeadFirst(f, fwd + s.outbound);
    assert Last(x'.handed) == f.sn;
  }

  lemma HandedGrows(c: Config, s: Sender, handed: seq<uint32>, sn: uint32, frames: seq<Frame>)
    requires WaitersOk(c, s, handed) && AcksOk(c, s.sent, handed, frames)
    ensures WaitersOk(c, s, handed + [sn]) && AcksOk(c, s.sent, handed + [sn], frames)
  {
    forall k | 0 <= k < |s.outcomes| && s.outcomes[k] == Acked
      ensures exists j :: 0 <= j < |handed + [sn]| && (handed + [sn])[j] == k + 1
    {
      var j :| 0 <= j < |handed| && handed[j] == k + 1;
      assert (handed + [sn])[j] == k + 1;
    }
  }

  /** What Accept does with the frame at the head of the link, and why the direction is kept. */
  lemma AcceptKeeps(c: Config, s: Sender, fwd: seq<Frame>, x: Inlet, back: seq<Frame>, f: Frame, closed: bool)
    requires c.Valid() && f.Data? && Direction(c, s, [f] + fwd, x, back)
    ensures Direction(c, s, fwd, Accept(c, x, f, closed), back)
    ensures f.sn in x.recv.delivered && x.recv.delivered[f.sn] == f.crc ==>
      Accept(c, x, f, closed) == x.(outboundAck := x.outboundAck + if closed then [] else [Ack(f.sn, f.crc)])
  {
    hide HandleData, HandledRight, GenuineOf, AllGenuine, InOrder, NoneBefore, HandedOk, AcksOk, WaitersOk, PartialOk,
      CacheOk, SenderOk, Confirms, Collects, OnlyAcks, Fits, Genuine;
    var h := HandleData(x.recv, f, c.crc32);
    HeadGenuine(c, s.sent, f, fwd, s.outbound);
    HeadDropped(c, s, fwd, x, f);
    var have := HaveOf(c, s, x, f);
    HeadFits(c, s, f);
    HandleGenuine(x.recv, f, s.sent[f.sn - 1], f.fragIdx, c.size, c.crc32, have);
    AcceptCases(c, s, fwd, x, back, f, h, have);
    var x' := Accept(c, x, f, closed);
    if Delivered(x.recv, f) {
      KnownAgain(x.recv, f, c.crc32);
      assert x.outboundAck + [] == x.outboundAck;
    }
    if h.ack && !closed {
      AckQueued(c, s.sent, x'.handed, back, x.outboundAck, Ack(f.sn, f.crc));
    }
    SameInlet(c, s.sent, Inlet(h.recv, x.outboundAck, x'.received, x'.handed), x');
  }

  lemma SameInlet(c: Config, sent: seq<bytes>, x: Inlet, x': Inlet)
    requires c.Valid() && HandedOk(sent, x) && CacheOk(c, sent, x) && PartialOk(c, sent, x)
    requires x' == x.(outboundAck := x'.outboundAck)
    ensures HandedOk(sent, x') && CacheOk(c, sent, x') && PartialOk(c, sent, x')
  {
    hide Partly;
  }

  lemma HeadGenuine(c: Config, sent: seq<bytes>, f: Frame, fwd: seq<Frame>, outbound: seq<Frame>)
    requires c.Valid() && f.Data? && AllGenuine(c, sent, [f] + fwd + outbound)
    ensures GenuineOf(c, sent, f) && 1 <= f.sn <= |sent|
  {
    hide Genuine;
    assert ([f] + fwd + outbound)[0] == f;
  }

  lemma HeadFits(c: Config, s: Sender, f: Frame)
    requires c.Valid() && SenderOk(c, s) && GenuineOf(c, s.sent, f)
    ensures Fits(s.sent[f.sn - 1], c.size) && Genuine(f, s.sent[f.sn - 1], f.fragIdx, c.size, c.crc32)
  {
    hide Fits, Genuine;
  }

  lemma HeadDropped(c: Config, s: Sender, fwd: seq<Frame>, x: Inlet, f: Frame)
    requires c.Valid()
    requires var all := [f] + fwd + s.outbound;
      AllGenuine(c, s.sent, all) && InOrder(all) && NoneBefore(all, Last(x.handed))
    ensures var all := fwd + s.outbound; AllGenuine(c, s.sent, all) && InOrder(all) && NoneBefore(all, Last(x.handed))
  {
    hide AllGenuine, InOrder, NoneBefore;
    assert [] + [f] + (fwd + s.outbound) == [f] + fwd + s.outbound;
    Dropped(c, s.sent, [], [f], fwd + s.outbound, Last(x.handed));
    assert [] + (fwd + s.outbound) == fwd + s.outbound;
  }

  /** The fragments the receiver holds of the frame's message. */
  lemma HaveOf(c: Config, s: Sender, x: Inlet, f: Frame) returns (have: set<nat>)
    requires c.Valid() && PartialOk(c, s.sent, x) && GenuineOf(c, s.sent, f)
    ensures Collects(x.recv, f.sn, s.sent[f.sn - 1], c.size, c.crc32, have)
  {
    hide Holds, Genuine;
    have := {};
    if f.sn in x.recv.inbound {
      assert Partly(c, x.recv.inbound[f.sn], s.sent[f.sn - 1]);
      have :| Holds(x.recv.inbound[f.sn], s.sent[f.sn - 1], c.size, c.crc32, have);
    }
  }

  lemma AcceptCases(c: Config, s: Sender, fwd: seq<Frame>, x: Inlet, back: seq<Frame>, f: Frame, h: Handled,
                    have: set<nat>)
    requires c.Valid() && Direction(c, s, [f] + fwd, x, back) && GenuineOf(c, s.sent, f)
    requires NoneBefore(fwd + s.outbound, Last(x.handed))
    requires HandledRight(h, x.recv, f, s.sent[f.sn - 1], f.fragIdx, c.size, c.crc32, have)
    ensures var x' := Inlet(h.recv, x.outboundAck, if h.data.Some? then x.received + [h.data.value] else x.received,
                            if h.data.Some? then x.handed + [f.sn] else x.handed);
      && HandedOk(s.sent, x') && CacheOk(c, s.sent, x') && PartialOk(c, s.sent, x')
      && NoneBefore(fwd + s.outbound, Last(x'.handed))
      && AcksOk(c, s.sent, x'.handed, back + x.outboundAck) && WaitersOk(c, s, x'.handed)
      && (h.ack ==> Confirms(c, s.sent, x'.handed, f.sn, f.crc))
  {
    hide Holds, HandedOk, CacheOk, PartialOk, NoneBefore, InOrder, AllGenuine, AcksOk, WaitersOk, SenderOk, Genuine,
      Confirms;
    if Delivered(x.recv, f) {
      KnownConfirmed(c, s.sent, x, f);
    } else if h.data.Some? {
      var x' := Inlet(h.recv, x.outboundAck, x.received + [h.data.value], x.handed + [f.sn]);
      HandUp(c, s, fwd, x, back, f, x');
      HandedGrows(c, s, x.handed, f.sn, back + x.outboundAck);
      NowConfirmed(c, s.sent, x.handed, f);
    } else {
      var x' := Inlet(h.recv, x.outboundAck, x.received, x.handed);
      Kept(c, s, x, f, x', have);
    }
  }

  lemma KnownConfirmed(c: Config, sent: seq<bytes>, x: Inlet, f: Frame)
    requires c.Valid() && HandedOk(sent, x) && CacheOk(c, sent, x) && GenuineOf(c, sent, f) && Delivered(x.recv, f)
    ensures Confirms(c, sent, x.handed, f.sn, f.crc)
  {
    hide HandedOk, Genuine;
  }

  lemma NowConfirmed(c: Config, sent: seq<bytes>, handed: seq<uint32>, f: Frame)
    requires c.Valid() && GenuineOf(c, sent, f)
    ensures Confirms(c, sent, handed + [f.sn], f.sn, f.crc)
  {
    assert (handed + [f.sn])[|handed|] == f.sn;
  }

  lemma Kept(c: Config, s: Sender, x: Inlet, f: Frame, x': Inlet, have: set<nat>)
    requires c.Valid() && HandedOk(s.sent, x) && CacheOk(c, s.sent, x) && PartialOk(c, s.sent, x)
    requires GenuineOf(c, s.sent, f)
    requires x' == x.(recv := x'.recv) && x'.recv.delivered == x.recv.delivered
    requires f.sn in x'.recv.inbound && x'.recv.inbound == x.recv.inbound[f.sn := x'.recv.inbound[f.sn]]
    requires Collects(x'.recv, f.sn, s.sent[f.sn - 1], c.size, c.crc32, have + {f.fragIdx as nat})
    ensures HandedOk(s.sent, x') && CacheOk(c, s.sent, x') && PartialOk(c, s.sent, x')
  {
    hide Holds, Genuine;
    assert Partly(c, x'.recv.inbound[f.sn], s.sent[f.sn - 1]);
  }

  // Both directions together

  ghost predicate Inv(c: Config, l: Endpoint, r: Endpoint, toRight: seq<Frame>, toLeft: seq<Frame>)
    requires c.Valid()
  {
    Direction(c, l.tx, toRight, r.rx, toLeft) && Direction(c, r.tx, toLeft, l.rx, toRight)
  }

  /** What Direction says of the frames on the link from the sender. */
  ghost predicate FlightOk(c: Config, s: Sender, fwd: seq<Frame>, x: Inlet)
    requires c.Valid()
  {
    var all := fwd + s.outbound;
    AllGenuine(c, s.sent, all) && InOrder(all) && NoneBefore(all, Last(x.handed))
  }

  lemma HeadPasses(c: Config, s: Sender, fwd: seq<Frame>, x: Inlet, back: seq<Frame>, f: Frame)
    requires c.Valid() && Direction(c, s, [f] + fwd, x, back)
    ensures Direction(c, s, fwd, x, back)
  {
    hide AllGenuine, InOrder, NoneBefore, HandedOk, AcksOk, WaitersOk, PartialOk, CacheOk, SenderOk, OnlyAcks;
    HeadDropped(c, s, fwd, x, f);
  }

  lemma BackShrinks(c: Config, s: Sender, fwd: seq<Frame>, x: Inlet, back: seq<Frame>, back': seq<Frame>)
    requires c.Valid() && Direction(c, s, fwd, x, back)
    requires forall f :: f in back' && f.Ack? ==> f in back
    ensures Direction(c, s, fwd, x, back')
  {
    hide AllGenuine, InOrder, NoneBefore, HandedOk, WaitersOk, PartialOk, CacheOk, SenderOk, OnlyAcks, Confirms;
    assert forall f :: f in back' + x.outboundAck && f.Ack? ==> f in back + x.outboundAck;
  }

  lemma HandleKeeps(c: Config, l: Endpoint, r: Endpoint, toRight: seq<Frame>, f: Frame, rest: seq<Frame>)
    requires c.Valid() && Inv(c, l, r, toRight, [f] + rest)
    ensures Inv(c, HandleFrame(c, l, f), r, toRight, rest)
  {
    hide Direction, Accept;
    if f.Ack? {
      ResolveKeeps(c, l.tx, toRight, r.rx, rest, f);
      HeadPasses(c, r.tx, rest, l.rx, toRight, f);
    } else {
      BackShrinks(c, l.tx, toRight, r.rx, [f] + rest, rest);
      AcceptKeeps(c, r.tx, rest, l.rx, toRight, f, l.closed);
    }
  }

  lemma {:induction false} HandleAllKeep(c: Config, l: Endpoint, r: Endpoint, toRight: seq<Frame>, frames: seq<Frame>,
                                         rest: seq<Frame>)
    requires c.Valid() && Inv(c, l, r, toRight, frames + rest)
    ensures Inv(c, HandleFrames(c, l, frames), r, toRight, rest)
    decreases |frames|
  {
    hide Direction, HandleFrame;
    if frames == [] {
      assert frames + rest == rest;
    } else {
      assert frames + rest == [frames[0]] + (frames[1..] + rest);
      HandleKeeps(c, l, r, toRight, frames[0], frames[1..] + rest);
      HandleAllKeep(c, HandleFrame(c, l, frames[0]), r, toRight, frames[1..], rest);
    }
  }

  lemma FlightKeeps(c: Config, s: Sender, s': Sender, fwd: seq<Frame>, fwd': seq<Frame>, x: Inlet, back: seq<Frame>)
    requires c.Valid() && Direction(c, s, fwd, x, back) && s' == s.(outbound := s'.outbound)
    requires FlightOk(c, s', fwd', x) && forall f :: f in s'.outbound ==> f.Data?
    ensures Direction(c, s', fwd', x, back)
  {
    hide AllGenuine, InOrder, NoneBefore, HandedOk, AcksOk, WaitersOk, PartialOk, CacheOk, OnlyAcks, Fits, Fragments;
    WaitersSame(c, s, s', x.handed);
  }

  lemma AcksKeep(c: Config, s: Sender, fwd: seq<Frame>, x: Inlet, x': Inlet, back: seq<Frame>, back': seq<Frame>)
    requires c.Valid() && Direction(c, s, fwd, x, back) && x' == x.(outboundAck := x'.outboundAck)
    requires back' + x'.outboundAck == back + x.outboundAck && OnlyAcks(x'.outboundAck)
    ensures Direction(c, s, fwd, x', back')
  {
    hide AllGenuine, InOrder, NoneBefore, HandedOk, AcksOk, WaitersOk, PartialOk, CacheOk, SenderOk, OnlyAcks;
    SameInlet(c, s.sent, x, x');
  }

  lemma WriteKeeps(c: Config, l: Endpoint, r: Endpoint, toRight: seq<Frame>, toLeft: seq<Frame>)
    requires c.Valid() && Inv(c, l, r, toRight, toLeft)
    ensures var (l', frame) := NextOutbound(l);
      Inv(c, l', r, toRight + (if frame.Some? then [frame.value] else []), toLeft)
  {
    hide AllGenuine, InOrder, NoneBefore, HandedOk, AcksOk, WaitersOk, PartialOk, CacheOk;
    var (l', frame) := NextOutbound(l);
    if l.rx.outboundAck != [] {
      var f, acks := l.rx.outboundAck[0], l.rx.outboundAck[1..];
      assert f in l.rx.outboundAck;
      AckInserted(c, l.tx.sent, toRight, f, l.tx.outbound, Last(r.rx.handed));
      FlightKeeps(c, l.tx, l.tx, toRight, toRight + [f], r.rx, toLeft);
      assert toRight + [f] + acks == toRight + l.rx.outboundAck;
      AcksKeep(c, r.tx, toLeft, l.rx, l'.rx, toRight, toRight + [f]);
    } else if l.tx.outbound != [] {
      var f := l.tx.outbound[0];
      assert toRight + [f] + l.tx.outbound[1..] == toRight + l.tx.outbound;
      FlightKeeps(c, l.tx, l'.tx, toRight, toRight + [f], r.rx, toLeft);
      assert f in l.tx.outbound;
      BackShrinks(c, r.tx, toLeft, l.rx, toRight, toRight + [f]);
    } else {
      assert toRight + [] == toRight;
    }
  }

  lemma LoseKeeps(c: Config, l: Endpoint, r: Endpoint, a: seq<Frame>, lost: seq<Frame>, b: seq<Frame>,
                  toLeft: seq<Frame>)
    requires c.Valid() && Inv(c, l, r, a + lost + b, toLeft)
    ensures Inv(c, l, r, a + b, toLeft)
  {
    hide AllGenuine, InOrder, NoneBefore, HandedOk, AcksOk, WaitersOk, PartialOk, CacheOk, SenderOk, OnlyAcks;
    assert a + lost + b + l.tx.outbound == a + lost + (b + l.tx.outbound);
    Dropped(c, l.tx.sent, a, lost, b + l.tx.outbound, Last(r.rx.handed));
    assert a + b + l.tx.outbound == a + (b + l.tx.outbound);
    BackShrinks(c, r.tx, toLeft, l.rx, a + lost + b, a + b);
  }

  // Runs

  ghost function Frames<T>(w: Wire<T>, link: seq<T>): seq<Frame> {
    if link == [] then [] else w.get(link[0]) + Frames(w, link[1..])
  }

  lemma {:induction false} FramesAppend<T>(w: Wire<T>, a: seq<T>, b: seq<T>)
    ensures Frames(w, a + b) == Frames(w, a) + Frames(w, b)
  {
    if a == [] {
      assert a + b == b;
    } else {
      FramesAppend(w, a[1..], b);
      assert (a + b)[1..] == a[1..] + b;
      Assoc(w.get(a[0]), Frames(w, a[1..]), Frames(w, b));
    }
  }

  ghost predicate NetInv<T>(c: Config, w: Wire<T>, n: Net<T>)
    requires c.Valid()
  {
    Inv(c, n.left, n.right, Frames(w, n.toRight), Frames(w, n.toLeft))
  }

  /** The messages fit a data frame's fields, and sequence numbers have not wrapped. */
  ghost predicate InRange<T>(n: Net<T>) {
    |n.left.tx.sent| < U32 && |n.right.tx.sent| < U32
  }

  ghost predicate SendsFit(c: Config, a: Action)
    requires c.Valid()
  {
    a.CallSend? ==> Fits(a.data, c.size)
  }

  lemma SendStepKeeps(c: Config, e: Endpoint, tx: Sender, r: Endpoint, toRight: seq<Frame>, toLeft: seq<Frame>)
    requires c.Valid() && Inv(c, e, r, toRight, toLeft) && Direction(c, tx, toRight, r.rx, toLeft)
    ensures Inv(c, e.(tx := tx), r, toRight, toLeft)
  {
    hide Direction;
  }

  lemma StepLeftKeeps<T(!new)>(c: Config, w: Wire<T>, n: Net<T>, a: Action)
    requires c.Valid() && Faithful(w, c.size) && NetInv(c, w, n) && SendsFit(c, a)
    requires InRange(StepLeft(c, w, n, a))
    ensures NetInv(c, w, StepLeft(c, w, n, a))
  {
    hide Direction, Begin, QueueFragment, TakeAck, NextAttempt, Finish, NextOutbound, HandleFrames, Fits;
    var e, r := n.left, n.right;
    var toRight, toLeft := Frames(w, n.toRight), Frames(w, n.toLeft);
    match a
    case CallSend(data) =>
      if e.tx.phase.Idle? {
        BeginCounts(e.tx, data);
        BeginKeeps(c, e.tx, toRight, r.rx, toLeft, data);
        SendStepKeeps(c, e, Begin(e.tx, data), r, toRight, toLeft);
      }
    case Queue =>
      if CanQueue(c, e.tx) {
        QueueKeeps(c, e.tx, toRight, r.rx, toLeft, e.closed);
        SendStepKeeps(c, e, QueueFragment(c, e.tx, e.closed), r, toRight, toLeft);
      }
    case WakeByAck =>
      if CanTakeAck(e.tx) {
        TakeAckKeeps(c, e.tx, toRight, r.rx, toLeft);
        SendStepKeeps(c, e, TakeAck(c, e.tx), r, toRight, toLeft);
      }
    case WakeByTimer =>
      if Busy(e.tx) && e.tx.phase.Waiting? {
        NextAttemptKeeps(c, e.tx, toRight, r.rx, toLeft);
        SendStepKeeps(c, e, NextAttempt(c, e.tx), r, toRight, toLeft);
      }
    case WakeByClose =>
      if Busy(e.tx) && e.tx.phase.Waiting? && e.closed {
        FinishKeeps(c, e.tx, toRight, r.rx, toLeft, Closed);
        SendStepKeeps(c, e, Finish(e.tx, Closed), r, toRight, toLeft);
      }
    case Shut =>
    case WriteSample =>
      var (e', frame) := NextOutbound(e);
      FramesAppend(w, n.toRight, [w.put(frame)]);
      OneFrame(w, w.put(frame));
      OutboundCarriable(c, e, r, toRight, toLeft);
      WriteKeeps(c, e, r, toRight, toLeft);
    case Lose(at) =>
      if at < |n.toRight| {
        LostFrames(w, n.toRight, at);
        LoseKeeps(c, e, r, Frames(w, n.toRight[..at]), w.get(n.toRight[at]), Frames(w, n.toRight[at + 1..]), toLeft);
      }
    case Arrive =>
      if n.toLeft != [] {
        HandleAllKeep(c, e, r, toRight, w.get(n.toLeft[0]), Frames(w, n.toLeft[1..]));
      }
  }

  lemma OutboundCarriable(c: Config, l: Endpoint, r: Endpoint, toRight: seq<Frame>, toLeft: seq<Frame>)
    requires c.Valid() && Inv(c, l, r, toRight, toLeft)
    ensures var frame := NextOutbound(l).1; frame.Some? ==> Carriable(frame.value, c.size)
  {
    hide InOrder, NoneBefore, HandedOk, AcksOk, WaitersOk, PartialOk, CacheOk, SenderOk, Fits;
    if l.rx.outboundAck != [] {
      assert l.rx.outboundAck[0] in l.rx.outboundAck;
    } else if l.tx.outbound != [] {
      var f := l.tx.outbound[0];
      assert f in l.tx.outbound;
      assert f in toRight + l.tx.outbound;
      if f.Data? {
        FragmentsJoin(l.tx.sent[f.sn - 1], c.size);
      }
    }
  }

  lemma BeginCounts(s: Sender, data: bytes)
    requires s.phase.Idle?
    ensures |Begin(s, data).sent| == |s.sent| + 1
  {
  }

  lemma OneFrame<T>(w: Wire<T>, cell: T)
    ensures Frames(w, [cell]) == w.get(cell)
  {
    assert [cell][1..] == [];
  }

  lemma LostFrames<T>(w: Wire<T>, link: seq<T>, at: nat)
    requires at < |link|
    ensures Frames(w, link) == Frames(w, link[..at]) + w.get(link[at]) + Frames(w, link[at + 1..])
    ensures Frames(w, RemoveAt(link, at)) == Frames(w, link[..at]) + Frames(w, link[at + 1..])
  {
    assert link == link[..at] + [link[at]] + link[at + 1..];
    FramesAppend(w, link[..at] + [link[at]], link[at + 1..]);
    FramesAppend(w, link[..at], [link[at]]);
    OneFrame(w, link[at]);
    FramesAppend(w, link[..at], link[at + 1..]);
  }

  lemma SentGrows<T>(c: Config, w: Wire<T>, n: Net<T>, e: Event)
    requires c.Valid() && InRange(Step(c, w, n, e))
    ensures InRange(n)
  {
    hide HandleFrame, HandleFrames, Fragments;
    var m := if e.left then n else n.Flip();
    if e.action.Arrive? && m.toLeft != [] {
      HandlingSendsNothing(c, m.left, w.get(m.toLeft[0]));
    }
  }

  lemma {:induction false} HandlingSendsNothing(c: Config, e: Endpoint, frames: seq<Frame>)
    ensures HandleFrames(c, e, frames).tx.sent == e.tx.sent
    decreases |frames|
  {
    if frames != [] {
      HandlingSendsNothing(c, HandleFrame(c, e, frames[0]), frames[1..]);
    }
  }

  ghost predicate AllSendsFit(c: Config, events: seq<Event>)
    requires c.Valid()
  {
    forall k :: 0 <= k < |events| ==> SendsFit(c, events[k].action)
  }

  lemma {:induction false} RunKeeps<T(!new)>(c: Config, w: Wire<T>, events: seq<Event>)
    requires c.Valid() && Faithful(w, c.size) && AllSendsFit(c, events)
    requires InRange(Run(c, w, events))
    ensures NetInv(c, w, Run(c, w, events))
  {
    hide StepLeft, Direction, Fits;
    if events == [] {
      StartInv(c);
    } else {
      var before, e := events[..|events| - 1], events[|events| - 1];
      var n := Run(c, w, before);
      assert forall k :: 0 <= k < |before| ==> before[k] == events[k];
      SentGrows(c, w, n, e);
      RunKeeps(c, w, before);
      StepLeftKeeps(c, w, if e.left then n else n.Flip(), e.action);
    }
  }

  lemma StartInv(c: Config)
    requires c.Valid()
    ensures Inv(c, START, START, [], [])
  {
  }

  /** `received` is a subsequence of `sent`: the k-th received message is number picks[k]. */
  ghost predicate Subsequence(received: seq<bytes>, sent: seq<bytes>, picks: seq<uint32>) {
    && |picks| == |received| && Increasing(picks)
    && forall k :: 0 <= k < |picks| ==> 1 <= picks[k] <= |sent| && received[k] == sent[picks[k] - 1]
  }

  /** What Features() promises. In every run over links that may lose anything, what the
      right end hands to onData is a subsequence of what was passed to Send on the left, so in
      order and each at most once; and every Send that returned nil is among it. The same
      holds from right to left. */
  lemma ReliableAndOrdered<T(!new)>(c: Config, w: Wire<T>, events: seq<Event>)
    requires c.Valid() && Faithful(w, c.size) && AllSendsFit(c, events)
    requires InRange(Run(c, w, events))
    ensures var n := Run(c, w, events);
      && (exists picks :: Subsequence(n.right.rx.received, n.left.tx.sent, picks)
            && AckedAmong(n.left.tx.outcomes, picks))
      && (exists picks :: Subsequence(n.left.rx.received, n.right.tx.sent, picks)
            && AckedAmong(n.right.tx.outcomes, picks))
  {
    RunKeeps(c, w, events);
    var n := Run(c, w, events);
    Promise(c, n.left.tx, Frames(w, n.toRight), n.right.rx, Frames(w, n.toLeft));
    Promise(c, n.right.tx, Frames(w, n.toLeft), n.left.rx, Frames(w, n.toRight));
  }

  ghost predicate AckedAmong(outcomes: seq<Outcome>, picks: seq<uint32>) {
    forall k :: 0 <= k < |outcomes| && outcomes[k] == Acked ==> exists j :: 0 <= j < |picks| && picks[j] == k + 1
  }

  lemma Promise(c: Config, s: Sender, fwd: seq<Frame>, x: Inlet, back: seq<Frame>)
    requires c.Valid() && Direction(c, s, fwd, x, back)
    ensures Subsequence(x.received, s.sent, x.handed) && AckedAmong(s.outcomes, x.handed)
    ensures |s.outcomes| == |s.sent|
  {
    hide AllGenuine, InOrder, NoneBefore, AcksOk, PartialOk, CacheOk, SenderOk, OnlyAcks;
    assert SenderOk(c, s);
    SenderCounts(c, s);
  }

  lemma SenderCounts(c: Config, s: Sender)
    requires c.Valid() && SenderOk(c, s)
    ensures |s.outcomes| == |s.sent|
  {
  }
}
