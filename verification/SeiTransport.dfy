/** The seichannel transport as the object it is in transport.go. The class keeps the maps,
    queues and counters of streamTransport; `model` is the endpoint of SeiArq that they
    stand for, and every method says which step of that endpoint it takes. */
module SeiTransport {
  import opened Bytes
  import opened SeiFrames
  import opened SeiReassembly
  import opened SeiArq
  import opened SeiAccessUnit

  // The H.264 medium

  /** The sample the writer sends for a frame, or for idleness. */
  function Put(f: Option<Frame>): bytes {
    AccessUnit(if f.Some? then Encode(SEI_MAGIC, f.value) else [])
  }

  function Decoded(payloads: seq<bytes>): seq<Frame> {
    if payloads == [] then []
    else (match Decode(SEI_MAGIC, payloads[0]) case Success(f) => [f] case Failure(_) => []) + Decoded(payloads[1..])
  }

  /** The frames handleSample reads from a sample. */
  function Get(sample: bytes): seq<Frame> { Decoded(VideoPayloads(sample)) }

  /** Every payload that decodes yields its frame; one that does not hides none of the others. */
  lemma {:induction false} DecodedAppend(a: seq<bytes>, b: seq<bytes>)
    ensures Decoded(a + b) == Decoded(a) + Decoded(b)
    ensures forall f: Frame :: Decoded([Encode(SEI_MAGIC, f)]) == [f]
  {
    hide Decode, Encode;
    forall f: Frame
      ensures Decoded([Encode(SEI_MAGIC, f)]) == [f]
    {
      FrameRoundTrip(SEI_MAGIC, f);
      assert [Encode(SEI_MAGIC, f)][1..] == [];
    }
    if a == [] {
      assert a + b == b;
    } else {
      assert (a + b)[0] == a[0] && (a + b)[1..] == a[1..] + b;
      DecodedAppend(a[1..], b);
    }
  }

  function H264Wire(): Wire<bytes> { Wire(f => Put(f), sample => Get(sample)) }

  /** The sample built for a frame shows the receiver exactly that frame; the idle one, none. */
  lemma SampleRoundTrip(f: Option<Frame>)
    ensures Get(Put(f)) == if f.Some? then [f.value] else []
  {
    hide AccessUnit, VideoPayloads, Encode, Decode;
    if f.Some? {
      EncodingNotEmpty(f.value);
      AccessUnitRoundTrip(Encode(SEI_MAGIC, f.value));
      FrameRoundTrip(SEI_MAGIC, f.value);
      var one := [Encode(SEI_MAGIC, f.value)];
      assert one[1..] == [];
      assert Decoded(one) == [f.value] + Decoded([]);
    } else {
      AccessUnitRoundTrip([]);
    }
  }

  lemma EncodingNotEmpty(f: Frame)
    ensures Encode(SEI_MAGIC, f) != []
  {
    assert |Encode(SEI_MAGIC, f)| >= 14;
  }

  lemma H264WireFaithful(size: nat)
    ensures Faithful(H264Wire(), size)
  {
    hide Put, Get;
    SampleRoundTrip(None);
    forall f: Frame
      ensures H264Wire().get(H264Wire().put(Some(f))) == [f]
    {
      SampleRoundTrip(Some(f));
    }
  }

  /** The whole stack, from Send's bytes through frames, SEI messages and Annex B samples to
      onData: in order, at most once, and everything acked was handed up. */
  lemma SeiChannelReliable(c: Config, events: seq<Event>)
    requires c.Valid() && AllSendsFit(c, events)
    requires InRange(Run(c, H264Wire(), events))
    ensures var n := Run(c, H264Wire(), events);
      && (exists picks :: Subsequence(n.right.rx.received, n.left.tx.sent, picks)
            && AckedAmong(n.left.tx.outcomes, picks))
      && (exists picks :: Subsequence(n.left.rx.received, n.right.tx.sent, picks)
            && AckedAmong(n.right.tx.outcomes, picks))
  {
    hide Run, H264Wire, Faithful;
    H264WireFaithful(c.size);
    ReliableAndOrdered(c, H264Wire(), events);
  }

  // Send, as a sequence of steps of the model

  /** How an attempt of Send ends: what its select returns, or, before that, the fragment whose
      enqueueFrame sees the transport closed. */
  datatype Wake = GotAck(crc: uint32) | TimerFired | CloseSeen | EnqueueFails(at: nat)

  function QueueAll(c: Config, s: Sender): Sender
    requires c.Valid()
    decreases if CanQueue(c, s) then |Fragments(Current(s), c.size)| - s.phase.next else -1
  {
    if CanQueue(c, s) then QueueAll(c, QueueFragment(c, s, false)) else s
  }

  /** At most the next k fragments. */
  function QueueSome(c: Config, s: Sender, k: nat): Sender
    requires c.Valid()
    decreases k
  {
    if k > 0 && CanQueue(c, s) then QueueSome(c, QueueFragment(c, s, false), k - 1) else s
  }

  function WakeUp(c: Config, s: Sender, wake: Wake): Sender
    requires Busy(s) && s.phase.Waiting? && s.nextSeq in s.waiters
  {
    match wake
    case GotAck(crc) => TakeAck(c, s.(waiters := s.waiters[s.nextSeq := Some(crc)]))
    case TimerFired => NextAttempt(c, s)
    case CloseSeen => Finish(s, Closed)
    case EnqueueFails(_) => Finish(s, Closed)
  }

  predicate Awaiting(s: Sender) {
    Busy(s) && s.phase.Waiting? && s.nextSeq in s.waiters
  }

  /** One attempt, from its first fragment on. */
  function Attempt(c: Config, s: Sender, wake: Wake): Sender
    requires c.Valid()
  {
    if wake.EnqueueFails? then
      var q := QueueSome(c, s, wake.at);
      if Busy(q) then Finish(q, Closed) else q
    else
      var q := QueueAll(c, s);
      if Awaiting(q) then WakeUp(c, q, wake) else q
  }

  function Attempts(c: Config, s: Sender, wakes: seq<Wake>): Sender
    requires c.Valid()
    decreases |wakes|
  {
    if s.phase.Idle? || wakes == [] then s else Attempts(c, Attempt(c, s, wakes[0]), wakes[1..])
  }

  lemma AttemptsNext(c: Config, s: Sender, wakes: seq<Wake>)
    requires c.Valid() && !s.phase.Idle? && wakes != []
    ensures var t := Attempt(c, s, wakes[0]);
      Attempts(c, s, wakes) == Attempts(c, t, wakes[1..]) && (t.phase.Idle? ==> Attempts(c, s, wakes) == t)
  {
  }

  lemma AttemptEnds(c: Config, s: Sender, wake: Wake)
    requires c.Valid()
    ensures !wake.EnqueueFails? && Awaiting(QueueAll(c, s)) ==> Attempt(c, s, wake) == WakeUp(c, QueueAll(c, s), wake)
    ensures wake.EnqueueFails? && Busy(QueueSome(c, s, wake.at)) ==>
      Attempt(c, s, wake) == Finish(QueueSome(c, s, wake.at), Closed)
  {
  }

  function SendRun(c: Config, s: Sender, data: bytes, wakes: seq<Wake>): Sender
    requires c.Valid() && s.phase.Idle?
  {
    Attempts(c, Begin(s, data), wakes)
  }

  /** A sender inside the call of Send that `began`. */
  ghost predicate InSend(s: Sender, began: Sender, data: bytes) {
    && Busy(began) && s.nextSeq == began.nextSeq && s.nextSeq in s.waiters && s.waiters.Keys == began.waiters.Keys
    && s.sent == began.sent && Current(began) == data && s.outcomes == began.outcomes && !s.phase.Idle?
  }

  /** One tick of the writer from turn i of its loop on: the endpoint, the samples written, and
      whether the writer goes on. The idle sample is written only if it is the first. */
  function Batch(e: Endpoint, i: nat, size: nat, stop: nat): (Endpoint, seq<bytes>, bool)
    decreases size - i
  {
    if i >= size then (e, [], true)
    else if i == stop then (e, [], false)
    else
      var (e', frame) := NextOutbound(e);
      if frame.None? then (e', if i > 0 then [] else [Put(None)], true)
      else
        var (e'', more, ok) := Batch(e', i + 1, size, stop);
        (e'', [Put(frame)] + more, ok)
  }

  function Times(action: Action, k: nat): seq<Event> {
    if k == 0 then [] else [Event(true, action)] + Times(action, k - 1)
  }

  function StepAll<T>(c: Config, w: Wire<T>, n: Net<T>, events: seq<Event>): Net<T>
    requires c.Valid()
    decreases |events|
  {
    if events == [] then n else StepAll(c, w, Step(c, w, n, events[0]), events[1..])
  }

  /** A tick is as many steps of the model as it writes samples: they go to the link in order. */
  lemma {:induction false} BatchIsSteps(c: Config, n: Net<bytes>, i: nat, size: nat, stop: nat)
    requires c.Valid()
    ensures var (e, samples, _) := Batch(n.left, i, size, stop);
      StepAll(c, H264Wire(), n, Times(WriteSample, |samples|)) == n.(left := e, toRight := n.toRight + samples)
    decreases size - i
  {
    hide Put;
    assert n.toRight + [] == n.toRight;
    if i < size && i != stop {
      var (e, frame) := NextOutbound(n.left);
      var m := Step(c, H264Wire(), n, Event(true, WriteSample));
      assert m == n.(left := e, toRight := n.toRight + [Put(frame)]);
      if frame.None? {
        StepOnce(c, H264Wire(), n, WriteSample);
      } else {
        BatchIsSteps(c, m, i + 1, size, stop);
        var more := Batch(e, i + 1, size, stop).1;
        assert ([Event(true, WriteSample)] + Times(WriteSample, |more|))[1..] == Times(WriteSample, |more|);
        Assoc(n.toRight, [Put(frame)], more);
      }
    }
  }

  lemma StepOnce<T>(c: Config, w: Wire<T>, n: Net<T>, a: Action)
    requires c.Valid()
    ensures StepAll(c, w, n, Times(a, 1)) == Step(c, w, n, Event(true, a))
  {
    assert Times(a, 1) == [Event(true, a)] + [] == [Event(true, a)];
    assert [Event(true, a)][1..] == [];
  }

  function Samples(frames: seq<Frame>): seq<bytes> {
    seq(|frames|, k requires 0 <= k < |frames| => Put(Some(frames[k])))
  }

  /** What is queued, acks first. */
  function Queue(e: Endpoint): seq<Frame> { e.rx.outboundAck + e.tx.outbound }

  /** How many frames a tick may write from turn i on, and whether it is cut short by a close. */
  function Turns(i: nat, size: nat, stop: nat): nat
    requires i <= size
  {
    if i <= stop < size then stop - i else size - i
  }

  /** A tick from its first turn on writes the frames queued, all acks before all data and each
      in order, as many as its turns allow, and nothing else but a lone idle sample when nothing
      is queued at all; and the writer ends exactly if it comes to the turn that sees the close. */
  lemma {:induction false} BatchWrites(e: Endpoint, i: nat, size: nat, stop: nat)
    requires i <= size
    ensures var (f, samples, ok) := Batch(e, i, size, stop); var n := Min(Turns(i, size, stop), |Queue(e)|);
      && samples == (if Queue(e) == [] && i == 0 && Turns(0, size, stop) > 0 then [Put(None)]
                     else Samples(Queue(e)[..n]))
      && Queue(f) == Queue(e)[n..] && f.rx.recv == e.rx.recv && f.tx.phase == e.tx.phase
      && (ok <==> !(i <= stop < size && |Queue(e)| >= stop - i))
    decreases size - i
  {
    hide Put, NextOutbound, Samples, Queue;
    var q := Queue(e);
    TakesHead(e);
    SamplesCons(q);
    if i < size && i != stop && q != [] {
      var n := Min(Turns(i, size, stop), |q|);
      BatchWrites(NextOutbound(e).0, i + 1, size, stop);
      SamplesCons(q[..n]);
      assert q[..n][0] == q[0] && q[1..][..n - 1] == q[..n][1..] && q[1..][n - 1..] == q[n..];
    } else {
      assert q[..0] == [] && q[0..] == q;
    }
  }

  lemma TakesHead(e: Endpoint)
    ensures var (f, frame), q := NextOutbound(e), Queue(e);
      && frame == (if q == [] then None else Some(q[0])) && Queue(f) == (if q == [] then q else q[1..])
      && f.rx.recv == e.rx.recv && f.tx.phase == e.tx.phase
  {
  }

  lemma SamplesCons(frames: seq<Frame>)
    ensures Samples([]) == []
    ensures frames != [] ==> Samples(frames) == [Put(Some(frames[0]))] + Samples(frames[1..])
  {
    hide Put;
  }

  function EncodeAll(frames: seq<Frame>): seq<bytes> {
    seq(|frames|, k requires 0 <= k < |frames| => Encode(SEI_MAGIC, frames[k]))
  }

  // HandleData by cases

  lemma FrameKept(r: Receiver, f: Frame, crc32: Checksum, entry: Inbound)
    requires f.Data? && !Delivered(r, f)
    requires var slot := Slot(r, f);
      if f.fragIdx >= |slot.frags| then entry == slot else entry == Store(slot, f) && entry.remain != 0
    ensures HandleData(r, f, crc32) == Handled(r.(inbound := r.inbound[f.sn := entry]), None, false)
  {
  }

  lemma MessageCompleted(r: Receiver, f: Frame, crc32: Checksum, entry: Inbound)
    requires f.Data? && !Delivered(r, f)
    requires f.fragIdx < |Slot(r, f).frags| && entry == Store(Slot(r, f), f) && entry.remain == 0
    ensures entry.crc == f.crc
    ensures var data := Assemble(entry);
      HandleData(r, f, crc32) ==
      if crc32(data) == entry.crc then
        Handled(Receiver(r.inbound - {f.sn}, Remember(r.delivered, f.sn, f.crc)), Some(data), true)
      else Handled(r.(inbound := r.inbound - {f.sn}), None, false)
  {
  }

  class InboundMessage {
    var totalLen: uint32
    var crc: uint32
    const frags: array<Option<bytes>>
    var remain: int

    constructor (f: Frame)
      requires f.Data?
      ensures fresh(frags) && View() == NewInbound(f)
    {
      totalLen := f.totalLen;
      crc := f.crc;
      frags := new Option<bytes>[f.fragTotal](_ => None);
      remain := f.fragTotal;
    }

    function View(): Inbound
      reads this, frags
    {
      Inbound(totalLen, crc, frags[..], remain)
    }

    lemma Sizes()
      ensures |View().frags| == frags.Length
    {
    }

    method Keep(f: Frame)
      requires f.Data? && f.fragIdx < frags.Length
      modifies `remain, frags
      ensures View() == Store(old(View()), f)
    {
      if frags[f.fragIdx].None? {
        frags[f.fragIdx] := Some(f.payload);
        remain := remain - 1;
      }
    }
  }

  class StreamTransport {
    const cfg: Config
    var nextSeq: uint32
    var ackWaiters: map<uint32, Option<uint32>>
    var inbound: map<uint32, InboundMessage>
    var delivered: map<uint32, uint32>
    var outbound: seq<bytes>
    var outboundAck: seq<bytes>
    var closed: bool
    var received: seq<bytes>  // the calls of onData
    ghost var model: Endpoint

    ghost var Repr: set<object>

    /** Different messages are different objects with different buffers. */
    ghost predicate Separate()
      reads this, Repr
    {
      && (forall sn :: sn in inbound ==> {inbound[sn], inbound[sn].frags} <= Repr)
      && (forall a, b :: a in inbound && b in inbound && a != b ==>
            inbound[a] != inbound[b] && inbound[a].frags != inbound[b].frags)
    }

    ghost predicate Stands()
      requires Separate()
      reads this, Repr
    {
      && model.rx.recv.inbound.Keys == inbound.Keys
      && forall sn :: sn in inbound ==> inbound[sn].View() == model.rx.recv.inbound[sn]
    }

    ghost predicate ReceiverValid()
      reads this, Repr
    {
      && this in Repr && Separate() && Stands()
      && delivered == model.rx.recv.delivered
      && outboundAck == EncodeAll(model.rx.outboundAck)
      && received == model.rx.received
    }

    ghost predicate SenderValid()
      reads `nextSeq, `ackWaiters, `outbound, `model
    {
      && nextSeq == model.tx.nextSeq
      && ackWaiters == model.tx.waiters
      && outbound == EncodeAll(model.tx.outbound)
    }

    ghost predicate Valid()
      reads this, Repr
    {
      cfg.Valid() && ReceiverValid() && SenderValid() && closed == model.closed
    }

    constructor (cfg: Config)
      requires cfg.Valid()
      ensures Valid() && fresh(Repr) && this.cfg == cfg && model == START
    {
      this.cfg := cfg;
      nextSeq := 0;
      ackWaiters := map[];
      inbound := map[];
      delivered := map[];
      outbound := [];
      outboundAck := [];
      closed := false;
      received := [];
      model := START;
      Repr := {this};
    }

    // Receiving

    ghost predicate StandsFor(recv: map<uint32, Inbound>)
      requires Separate()
      reads this, Repr
    {
      inbound.Keys == recv.Keys && forall sn :: sn in inbound ==> inbound[sn].View() == recv[sn]
    }

    method Renew(f: Frame)
      requires ReceiverValid() && f.Data?
      modifies this`inbound, this`Repr
      ensures Separate() && this in Repr && fresh(Repr - old(Repr))
      ensures StandsFor(model.rx.recv.inbound[f.sn := NewInbound(f)])
    {
      var msg := new InboundMessage(f);
      inbound := inbound[f.sn := msg];
      Repr := Repr + {msg, msg.frags};
    }

    /** The message record for a frame, new if there is none or it is of another message. */
    method FindOrRenew(f: Frame) returns (msg: InboundMessage)
      requires ReceiverValid() && f.Data?
      modifies this`inbound, this`Repr
      ensures Separate() && this in Repr && fresh(Repr - old(Repr))
      ensures f.sn in inbound && msg == inbound[f.sn] && msg.View() == Slot(model.rx.recv, f)
      ensures StandsFor(model.rx.recv.inbound[f.sn := Slot(model.rx.recv, f)])
    {
      var found := f.sn in inbound;
      if found {
        msg := inbound[f.sn];
        found := msg.crc == f.crc && msg.totalLen == f.totalLen && msg.frags.Length == f.fragTotal;
      }
      if !found {
        Renew(f);
      }
      msg := inbound[f.sn];
    }

    /** The message record for a frame, with the frame's fragment in it if it was missing;
        null if the frame's index is out of range. */
    method UpsertInbound(f: Frame) returns (msg: InboundMessage?, complete: bool)
      requires ReceiverValid() && f.Data?
      modifies this`inbound, this`Repr, Repr - {this}
      ensures Separate() && this in Repr && fresh(Repr - old(Repr))
      ensures var slot := Slot(model.rx.recv, f);
        && (msg == null <==> f.fragIdx >= |slot.frags|)
        && StandsFor(model.rx.recv.inbound[f.sn := if msg == null then slot else Store(slot, f)])
        && (msg != null ==> msg.View() == Store(slot, f) && (complete <==> msg.remain == 0))
    {
      hide Slot, Store, StandsFor, InboundMessage.View;
      msg := FindOrRenew(f);
      ghost var recv := model.rx.recv.inbound[f.sn := Slot(model.rx.recv, f)];
      msg.Sizes();
      if f.fragIdx >= msg.frags.Length {
        return null, false;
      }
      KeepIn(msg, f, recv);
      assert recv[f.sn := Store(recv[f.sn], f)] == model.rx.recv.inbound[f.sn := Store(recv[f.sn], f)];
      complete := msg.remain == 0;
    }

    method KeepIn(msg: InboundMessage, f: Frame, ghost recv: map<uint32, Inbound>)
      requires f.Data? && f.fragIdx < msg.frags.Length && this in Repr && Separate() && StandsFor(recv)
      requires f.sn in inbound && inbound[f.sn] == msg
      modifies msg`remain, msg.frags
      ensures Separate() && StandsFor(recv[f.sn := Store(recv[f.sn], f)]) && msg.View() == Store(recv[f.sn], f)
    {
      hide Store;
      msg.Keep(f);
    }

    method AssembleMessage(msg: InboundMessage) returns (data: bytes)
      ensures data == Assemble(msg.View())
    {
      data := [];
      ghost var rest := Join(msg.frags[..]);
      for i := 0 to msg.frags.Length
        invariant rest == Join(msg.frags[i..])
        invariant data + rest == Join(msg.frags[..])
      {
        ghost var before, todo := data, rest;
        assert msg.frags[i..][1..] == msg.frags[i + 1..];
        if msg.frags[i].Some? {
          data := data + msg.frags[i].value;
        }
        rest := Join(msg.frags[i + 1..]);
        assert data + rest == before + todo;
      }
      if |data| % U32 > msg.totalLen {
        data := data[..msg.totalLen];
      }
    }

    /** The middle of handleInboundFrame: the message that this frame completes, if any. */
    method Gather(f: Frame) returns (data: Option<bytes>)
      requires Valid() && f.Data? && !Delivered(model.rx.recv, f)
      modifies this`inbound, this`Repr, this`model, Repr - {this}
      ensures Valid() && fresh(Repr - old(Repr))
      ensures var h := HandleData(old(model).rx.recv, f, cfg.crc32);
        && data == h.data && h.ack == data.Some? && (data.Some? ==> cfg.crc32(data.value) == f.crc)
        && model == old(model).(rx := old(model).rx.(recv := Receiver(h.recv.inbound, old(model).rx.recv.delivered)))
        && h.recv.delivered ==
           (if data.Some? then Remember(old(model).rx.recv.delivered, f.sn, f.crc) else old(model).rx.recv.delivered)
    {
      hide HandleData, Assemble, Store, Slot, EncodeAll, Delivered, Separate, Stands, StandsFor, SenderValid, Remember;
      ghost var r := model.rx.recv;
      var msg, complete := UpsertInbound(f);
      ghost var slot := Slot(r, f);
      ghost var entry := if msg == null then slot else Store(slot, f);
      if msg == null || !complete {
        FrameKept(r, f, cfg.crc32, entry);
        SetModel(r.(inbound := r.inbound[f.sn := entry]));
        return None;
      }
      MessageCompleted(r, f, cfg.crc32, entry);
      var message := AssembleMessage(msg);
      data := if cfg.crc32(message) == msg.crc then Some(message) else None;
      RemoveInbound(f.sn, r.inbound[f.sn := entry]);
      assert r.inbound[f.sn := entry] - {f.sn} == r.inbound - {f.sn};
      SetModel(r.(inbound := r.inbound - {f.sn}));
    }

    ghost method SetModel(recv: Receiver)
      requires this in Repr && Separate() && StandsFor(recv.inbound)
      modifies `model
      ensures model == old(model).(rx := old(model).rx.(recv := recv))
      ensures Separate() && Stands() && (old(SenderValid()) ==> SenderValid())
    {
      model := model.(rx := model.rx.(recv := recv));
    }

    method RemoveInbound(sn: uint32, ghost recv: map<uint32, Inbound>)
      requires this in Repr && Separate() && StandsFor(recv)
      modifies `inbound
      ensures Separate() && StandsFor(recv - {sn})
    {
      inbound := inbound - {sn};
    }

    method HandleInboundFrame(f: Frame)
      requires Valid() && f.Data?
      modifies Repr
      ensures Valid() && fresh(Repr - old(Repr))
      ensures model == HandleFrame(cfg, old(model), f) && closed == old(closed)
      ensures f.sn in old(delivered) && old(delivered)[f.sn] == f.crc ==>
        && received == old(received) && delivered == old(delivered) && inbound == old(inbound)
        && outboundAck == old(outboundAck) + if closed then [] else [Encode(SEI_MAGIC, Ack(f.sn, f.crc))]
      ensures received == old(received) ||
        (exists data :: received == old(received) + [data] && cfg.crc32(data) == f.crc
          && outboundAck == old(outboundAck) + if closed then [] else [Encode(SEI_MAGIC, Ack(f.sn, f.crc))])
    {
      hide HandleData, EncodeAll, Encode;
      if f.sn in delivered && delivered[f.sn] == f.crc {
        KnownAgain(model.rx.recv, f, cfg.crc32);
        SendAck(f.sn, f.crc);
        return;
      }
      var data := Gather(f);
      if data.None? {
        return;
      }
      if |delivered| > DELIVERED_LIMIT {
        delivered := map[];
      }
      delivered := delivered[f.sn := f.crc];
      received := received + [data.value];
      model := model.(rx := model.rx.(recv := model.rx.recv.(delivered := delivered), received := received,
                                      handed := model.rx.handed + [f.sn]));
      SendAck(f.sn, f.crc);
    }

    method SendAck(sn: uint32, crc: uint32)
      requires Valid()
      modifies `outboundAck, `model
      ensures Valid()
      ensures model == old(model).(rx := old(model).rx.(outboundAck :=
        if closed then old(model).rx.outboundAck else old(model).rx.outboundAck + [Ack(sn, crc)]))
      ensures outboundAck == old(outboundAck) + if closed then [] else [Encode(SEI_MAGIC, Ack(sn, crc))]
    {
      if closed {
        return;
      }
      var frame := EncodeAckFrame(SEI_MAGIC, sn, crc);
      outboundAck := outboundAck + [frame[..]];
      model := model.(rx := model.rx.(outboundAck := model.rx.outboundAck + [Ack(sn, crc)]));
    }

    method ResolveAck(sn: uint32, crc: uint32)
      requires Valid()
      modifies `ackWaiters, `model
      ensures Valid()
      ensures model == HandleFrame(cfg, old(model), Ack(sn, crc))
      ensures ackWaiters == if sn in old(ackWaiters) && old(ackWaiters)[sn].None?
                            then old(ackWaiters)[sn := Some(crc)] else old(ackWaiters)
    {
      model := HandleFrame(cfg, model, Ack(sn, crc));
      if sn !in ackWaiters {
        return;
      }
      if ackWaiters[sn].None? {
        ackWaiters := ackWaiters[sn := Some(crc)];
      }
    }

    method HandleSample(sample: bytes)
      requires Valid()
      modifies Repr
      ensures Valid() && fresh(Repr - old(Repr))
      ensures model == HandleFrames(cfg, old(model), Get(sample))
    {
      var payloads := ExtractVideoPayloads(sample);
      for i := 0 to |payloads|
        invariant Valid() && fresh(Repr - old(Repr))
        invariant HandleFrames(cfg, old(model), Get(sample)) == HandleFrames(cfg, model, Decoded(payloads[i..]))
      {
        assert payloads[i..][1..] == payloads[i + 1..];
        var frame := Decode(SEI_MAGIC, payloads[i]);
        if frame.Failure? {
          assert Decoded(payloads[i..]) == Decoded(payloads[i + 1..]);
          continue;
        }
        assert Decoded(payloads[i..]) == [frame.value] + Decoded(payloads[i + 1..]);
        assert Decoded(payloads[i..])[1..] == Decoded(payloads[i + 1..]);
        Dispatch(frame.value);
      }
    }

    method Dispatch(frame: Frame)
      requires Valid()
      modifies Repr
      ensures Valid() && fresh(Repr - old(Repr)) && model == HandleFrame(cfg, old(model), frame)
    {
      hide Separate, Stands, SenderValid, HandleFrame, EncodeAll, Encode;
      match frame {
        case Ack(sn, crc) => ResolveAck(sn, crc);
        case Data(_, _, _, _, _, _) => HandleInboundFrame(frame);
      }
    }

    // Writing

    /** `sees` says that the select returns from the closed channel; if the transport is closed,
        it may do so or still take a frame. */
    method NextOutboundFrame(sees: bool) returns (payload: Option<bytes>, ok: bool)
      requires Valid() && (sees ==> closed)
      modifies `outbound, `outboundAck, `model
      ensures Valid() && ok == !sees
      ensures sees ==> model == old(model) && payload == None
      ensures !sees ==> var (model', frame) := NextOutbound(old(model));
        && model == model'
        && payload == (if frame.Some? then Some(Encode(SEI_MAGIC, frame.value)) else None)
    {
      hide Encode, Decode;
      if sees {
        return None, false;
      }
      ok := true;
      if outboundAck != [] {
        payload := Some(outboundAck[0]);
        outboundAck := outboundAck[1..];
      } else if outbound != [] {
        payload := Some(outbound[0]);
        outbound := outbound[1..];
      } else {
        payload := None;
      }
      model := NextOutbound(model).0;
    }

    /** One tick of the writer: the samples it hands to the track, and whether it goes on. In
        turn `stop` the select sees the transport closed. */
    method WriteBatch(batchSize: nat, stop: nat) returns (samples: seq<bytes>, ok: bool)
      requires Valid() && (stop < batchSize ==> closed)
      modifies `outbound, `outboundAck, `model
      ensures Valid() && (model, samples, ok) == Batch(old(model), 0, batchSize, stop)
    {
      hide Encode, AccessUnit, NextOutbound;
      var idle := BuildVideoAccessUnit([]);
      samples := [];
      ghost var done := Batch(model, 0, batchSize, stop);
      assert [] + done.1 == done.1;
      for i := 0 to batchSize
        invariant Valid()
        invariant var (e, more, fine) := Batch(model, i, batchSize, stop); done == (e, samples + more, fine)
      {
        ghost var (e, frame) := NextOutbound(model);
        ghost var rest := Batch(e, i + 1, batchSize, stop).1;
        var payload;
        payload, ok := NextOutboundFrame(i == stop);
        assert samples + [] == samples;
        if !ok {
          return;
        }
        if payload.None? {
          if i > 0 {
            return;
          }
          samples := samples + [idle];
          return;
        }
        var sample := BuildVideoAccessUnit(payload.value);
        Assoc(samples, [sample], rest);
        samples := samples + [sample];
      }
      assert samples + [] == samples;
      ok := true;
    }

    method Close()
      requires Valid()
      modifies `closed, `model
      ensures Valid() && model == old(model).(closed := true)
    {
      closed := true;
      model := model.(closed := true);
    }

    // Sending

    method EnqueueFragment(sn: uint32, crc: uint32, data: bytes, fragments: seq<bytes>, idx: nat)
      requires Valid() && CanQueue(cfg, model.tx)
      requires data == Current(model.tx) && crc == cfg.crc32(data) && fragments == Fragments(data, cfg.size)
      requires sn == nextSeq && idx == model.tx.phase.next && !closed
      modifies `outbound, `model
      ensures Valid()
      ensures model == old(model).(tx := QueueFragment(cfg, old(model).tx, false))
    {
      hide Encode, Fragments;
      var frame := EncodeDataFrame(SEI_MAGIC, sn, crc, |data|, idx, |fragments|, fragments[idx]);
      outbound := outbound + [frame[..]];
      model := model.(tx := QueueFragment(cfg, model.tx, false));
    }

    method FinishSend(outcome: Outcome)
      requires Valid() && Busy(model.tx)
      modifies `ackWaiters, `model
      ensures Valid() && model == old(model).(tx := Finish(old(model).tx, outcome))
    {
      ackWaiters := ackWaiters - {nextSeq};
      model := model.(tx := Finish(model.tx, outcome));
    }

    /** The fragments of one attempt, as far as they can be queued. */
    method EnqueueAll(sn: uint32, crc: uint32, data: bytes, fragments: seq<bytes>, wake: Wake) returns (failed: bool)
      requires Valid() && !closed && model.tx.phase.Sending? && model.tx.phase.next == 0
      requires InSend(model.tx, model.tx, data)
      requires crc == cfg.crc32(data) && fragments == Fragments(data, cfg.size) && sn == nextSeq
      modifies `outbound, `model
      ensures Valid() && model == old(model).(tx := model.tx) && InSend(model.tx, old(model).tx, data)
      ensures failed ==> wake.EnqueueFails? && model.tx == QueueSome(cfg, old(model).tx, wake.at)
      ensures !failed ==>
        model.tx == QueueAll(cfg, old(model).tx) && model.tx.phase == Waiting(old(model).tx.phase.attempt)
      ensures !failed && wake.EnqueueFails? ==> QueueSome(cfg, old(model).tx, wake.at) == model.tx
    {
      ghost var start := model;
      ghost var attempt := model.tx.phase.attempt;
      for idx := 0 to |fragments|
        invariant Valid() && model == start.(tx := model.tx)
        invariant InSend(model.tx, start.tx, data)
        invariant model.tx.phase == if idx < |fragments| then Sending(attempt, idx) else Waiting(attempt)
        invariant QueueAll(cfg, model.tx) == QueueAll(cfg, start.tx)
        invariant wake.EnqueueFails? ==> idx <= wake.at
        invariant wake.EnqueueFails? ==> QueueSome(cfg, model.tx, wake.at - idx) == QueueSome(cfg, start.tx, wake.at)
      {
        if wake == EnqueueFails(idx) {
          return true;
        }
        EnqueueFragment(sn, crc, data, fragments, idx);
      }
      failed := false;
    }

    /** The select at the end of an attempt: how Send returns there, if it does. */
    method AwaitAck(sn: uint32, crc: uint32, wake: Wake, ghost began: Sender, ghost data: bytes)
      returns (outcome: Option<Outcome>)
      requires Valid() && model.tx.phase.Waiting? && InSend(model.tx, began, data)
      requires crc == cfg.crc32(data) && sn == nextSeq
      modifies `ackWaiters, `model
      ensures Valid() && model == old(model).(tx := model.tx)
      ensures outcome.Some? ==>
        && model.tx == WakeUp(cfg, old(model).tx, wake)
        && model.tx.phase.Idle? && model.tx.outcomes != []
        && outcome.value == model.tx.outcomes[|model.tx.outcomes| - 1]
      ensures outcome.None? ==>
        && InSend(model.tx, began, data) && model.tx.phase == old(model).tx.phase
        && NextAttempt(cfg, model.tx) == WakeUp(cfg, old(model).tx, wake)
    {
      match wake {
        case GotAck(ackCRC) =>
          if ackCRC == crc {
            FinishSend(Acked);
            return Some(Acked);
          }
          ackWaiters := ackWaiters[sn := None];
          model := model.(tx := model.tx.(waiters := ackWaiters));
        case TimerFired =>
        case _ =>
          FinishSend(Closed);
          return Some(Closed);
      }
      return None;
    }

    ghost method Retry()
      requires Valid() && Busy(model.tx) && model.tx.phase.Waiting? && model.tx.phase.attempt + 1 < cfg.attempts
      modifies `model
      ensures Valid() && model == old(model).(tx := NextAttempt(cfg, old(model).tx))
    {
      model := model.(tx := NextAttempt(cfg, model.tx));
    }

    method BeginSend(data: bytes)
      requires Valid() && model.tx.phase.Idle?
      modifies `nextSeq, `ackWaiters, `model
      ensures Valid() && model == old(model).(tx := Begin(old(model).tx, data))
    {
      nextSeq := (nextSeq + 1) % U32;
      ackWaiters := ackWaiters[nextSeq := None];
      model := model.(tx := Begin(model.tx, data));
    }

    /** Send, with `wakes` for how each attempt ends. An EnqueueFails beyond the last fragment
        stands for a close that the select sees. */
    method Send(data: bytes, wakes: seq<Wake>) returns (outcome: Outcome)
      requires Valid() && model.tx.phase.Idle? && |wakes| == cfg.attempts
      modifies `nextSeq, `ackWaiters, `outbound, `model
      ensures Valid()
      ensures closed ==> outcome == Closed && model == old(model)
      ensures !closed ==> model == old(model).(tx := SendRun(cfg, old(model).tx, data, wakes))
      ensures !closed ==>
        model.tx.phase.Idle? && model.tx.outcomes != [] && outcome == model.tx.outcomes[|model.tx.outcomes| - 1]
    {
      hide ReceiverValid, SenderValid, WakeUp, QueueAll, QueueSome, Attempt, Fragments;
      if closed {
        return Closed;
      }
      BeginSend(data);
      var sn := nextSeq;
      var crc := cfg.crc32(data);
      var fragments := FragmentPayload(data, cfg.size);
      ghost var began := model;
      ghost var done := SendRun(cfg, old(model).tx, data, wakes);
      for attempt := 0 to cfg.attempts
        invariant Valid() && model == began.(tx := model.tx) && !closed && sn == nextSeq
        invariant InSend(model.tx, began.tx, data)
        invariant attempt < cfg.attempts ==>
          model.tx.phase == Sending(attempt, 0) && Attempts(cfg, model.tx, wakes[attempt..]) == done
        invariant attempt == cfg.attempts ==> model.tx.phase.Waiting? && Finish(model.tx, TimedOut) == done
      {
        ghost var s := model.tx;
        AttemptsNext(cfg, s, wakes[attempt..]);
        AttemptEnds(cfg, s, wakes[attempt]);
        assert wakes[attempt..][1..] == wakes[attempt + 1..];
        var failed := EnqueueAll(sn, crc, data, fragments, wakes[attempt]);
        if failed {
          FinishSend(Closed);
          return Closed;
        }
        WakeUpPastEnd(cfg, s, wakes[attempt]);
        var finished := AwaitAck(sn, crc, wakes[attempt], began.tx, data);
        if finished.Some? {
          return finished.value;
        }
        if attempt + 1 < cfg.attempts {
          Retry();
        }
      }
      FinishSend(TimedOut);
      return TimedOut;
    }
  }

  /** A failure beyond the last fragment is a close that the select sees. */
  lemma WakeUpPastEnd(c: Config, s: Sender, wake: Wake)
    requires c.Valid() && Awaiting(QueueAll(c, s))
    requires wake.EnqueueFails? ==> QueueSome(c, s, wake.at) == QueueAll(c, s)
    ensures Attempt(c, s, wake) == WakeUp(c, QueueAll(c, s), wake)
  {
  }
}
