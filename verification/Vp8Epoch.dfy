/** Peer epochs on the vp8channel (handleIncomingFrame, handleFirstPeer, resetKCP and
    epochHeader in vp8channel/transport.go). Starting a KCP session may fail; whether the n-th
    start succeeds is a parameter. Sessions are named by the number of their start. */
module Vp8Epoch {
  import opened Bytes
  import opened Vp8Frames

  const TOKEN_OFF := 20
  const EPOCH_OFF := 24
  const KEEPALIVE: bytes := [
    0x30, 0x01, 0x00, 0x9d, 0x01, 0x2a, 0x10, 0x00,
    0x10, 0x00, 0x00, 0x47, 0x08, 0x85, 0x85, 0x88,
    0x99, 0x84, 0x88, 0xfc]

  // The header

  function EpochHeader(token: uint32, epoch: uint32): (h: bytes)
    ensures |h| == EPOCH_HDR_LEN
  {
    KEEPALIVE + PutUint32(token) + PutUint32(epoch)
  }

  function TokenOf(frame: bytes): uint32
    requires |frame| >= EPOCH_HDR_LEN
  {
    Uint32(frame[TOKEN_OFF..EPOCH_OFF])
  }

  function EpochOf(frame: bytes): uint32
    requires |frame| >= EPOCH_HDR_LEN
  {
    Uint32(frame[EPOCH_OFF..EPOCH_HDR_LEN])
  }

  lemma HeaderRoundTrip(token: uint32, epoch: uint32, payload: bytes)
    ensures var frame := EpochHeader(token, epoch) + payload;
      TokenOf(frame) == token && EpochOf(frame) == epoch && frame[EPOCH_HDR_LEN..] == payload
  {
    var frame := EpochHeader(token, epoch) + payload;
    assert frame[TOKEN_OFF..EPOCH_OFF] == PutUint32(token);
    assert frame[EPOCH_OFF..EPOCH_HDR_LEN] == PutUint32(epoch);
    Word32(token, frame[TOKEN_OFF..EPOCH_OFF]);
    Word32(epoch, frame[EPOCH_OFF..EPOCH_HDR_LEN]);
  }

  /** The header on the wire: 20 bytes of a VP8 keepalive frame, the token and the epoch, both
      big-endian. */
  lemma HeaderLayout(token: uint32, epoch: uint32)
    ensures var h := EpochHeader(token, epoch);
      |h| == 28 && h[..20] == KEEPALIVE && Weigh32(h, 20) == token && Weigh32(h, 24) == epoch
  {
    hide Weigh32;
    var h := EpochHeader(token, epoch);
    assert h[20..24] == PutUint32(token) && h[24..28] == PutUint32(epoch);
    WordAt32(h, 20, token);
    WordAt32(h, 24, epoch);
  }

  // The machine

  datatype Config = Config(token: uint32, localEpoch: uint32, starts: nat -> bool)

  /** A payload given to a KCP session, and the epoch of the frame it came in. */
  datatype Delivery = Delivery(session: nat, epoch: uint32, payload: bytes)

  /** `started` counts the attempts to start a session, `once` says that kcpOnce has fired;
      `resets` and `delivered` are what can be observed from outside. */
  datatype Peer = Peer(
    hadPeer: bool, peerEpoch: uint32, once: bool, kcp: Option<nat>, started: nat,
    resets: nat, delivered: seq<Delivery>)

  const FRESH := Peer(false, 0, false, None, 0, 0, [])

  type Frame = f: bytes | |f| >= EPOCH_HDR_LEN witness Zeros(28)

  function StartKCP(c: Config, s: Peer): Peer {
    s.(kcp := if c.starts(s.started) then Some(s.started) else s.kcp, started := s.started + 1)
  }

  /** resetKCP; the carrier calls it too when it has reconnected. */
  function ResetKCP(c: Config, s: Peer): Peer { StartKCP(c, s.(kcp := None)) }

  function FirstPeer(c: Config, s: Peer, epoch: uint32): Peer {
    var t := s.(peerEpoch := epoch, hadPeer := true, once := true);
    if s.once then t else StartKCP(c, t)
  }

  function Deliver(s: Peer, epoch: uint32, payload: bytes): Peer {
    if payload == [] || s.kcp.None? then s
    else s.(delivered := s.delivered + [Delivery(s.kcp.value, epoch, payload)])
  }

  predicate Accepted(c: Config, frame: Frame) {
    TokenOf(frame) == c.token && EpochOf(frame) != c.localEpoch
  }

  /** Accepted are the frames with the endpoint's token whose epoch is not its own. */
  lemma AcceptedSpelled(c: Config, frame: Frame)
    ensures Accepted(c, frame) <==> Weigh32(frame, 20) == c.token && Weigh32(frame, 24) != c.localEpoch
  {
    WeighPart32(frame, 20);
    WeighPart32(frame, 24);
  }

  function Incoming(c: Config, s: Peer, frame: Frame): Peer {
    if !Accepted(c, frame) then s
    else
      var epoch := EpochOf(frame);
      if !s.hadPeer then Deliver(FirstPeer(c, s, epoch), epoch, frame[EPOCH_HDR_LEN..])
      else if s.peerEpoch != epoch then ResetKCP(c, s.(peerEpoch := epoch, resets := s.resets + 1))
      else Deliver(s, epoch, frame[EPOCH_HDR_LEN..])
  }

  datatype Event = Received(frame: Frame) | CarrierReconnected

  function Step(c: Config, s: Peer, e: Event): Peer {
    match e
    case Received(frame) => Incoming(c, s, frame)
    case CarrierReconnected => ResetKCP(c, s)
  }

  function Run(c: Config, events: seq<Event>): Peer
    decreases |events|
  {
    if events == [] then FRESH else Step(c, Run(c, events[..|events| - 1]), events[|events| - 1])
  }

  // Echoes and strangers

  predicate Matters(c: Config, e: Event) { e.Received? ==> Accepted(c, e.frame) }

  function Filtered(c: Config, events: seq<Event>): seq<Event>
    decreases |events|
  {
    if events == [] then []
    else
      var e := events[|events| - 1];
      Filtered(c, events[..|events| - 1]) + if Matters(c, e) then [e] else []
  }

  /** Frames with a foreign token and reflections of the endpoint's own frames, any number of
      them anywhere among the others, change nothing at all. */
  lemma {:induction false} NoiseIsIgnored(c: Config, events: seq<Event>)
    ensures Run(c, events) == Run(c, Filtered(c, events))
    decreases |events|
  {
    if events != [] {
      var before, e := events[..|events| - 1], events[|events| - 1];
      NoiseIsIgnored(c, before);
      var kept := Filtered(c, before);
      if Matters(c, e) {
        assert (kept + [e])[..|kept|] == kept;
      } else {
        assert kept + [] == kept;
      }
    }
  }

  // Resets

  /** The epochs of the accepted frames. */
  function Epochs(c: Config, events: seq<Event>): seq<uint32>
    decreases |events|
  {
    if events == [] then []
    else
      var e := events[|events| - 1];
      Epochs(c, events[..|events| - 1]) +
        if e.Received? && Accepted(c, e.frame) then [EpochOf(e.frame)] else []
  }

  function Changes(epochs: seq<uint32>): nat
    decreases |epochs|
  {
    if |epochs| < 2 then 0
    else
      var n := |epochs|;
      Changes(epochs[..n - 1]) + if epochs[n - 1] != epochs[n - 2] then 1 else 0
  }

  /** A peer is known from the first accepted frame on, its epoch is that of the last, and
      there has been one reset for every change of epoch among the accepted frames. */
  lemma {:induction false} ResetsAreChanges(c: Config, events: seq<Event>)
    ensures var s, epochs := Run(c, events), Epochs(c, events);
      && s.hadPeer == (epochs != [])
      && (epochs != [] ==> s.peerEpoch == epochs[|epochs| - 1])
      && s.resets == Changes(epochs)
    decreases |events|
  {
    if events != [] {
      var before, e := events[..|events| - 1], events[|events| - 1];
      ResetsAreChanges(c, before);
      var epochs := Epochs(c, before);
      if e.Received? && Accepted(c, e.frame) {
        assert (epochs + [EpochOf(e.frame)])[..|epochs|] == epochs;
      } else {
        assert epochs + [] == epochs;
      }
    }
  }

  /** The epochs are those of a peer that restarts at most `restarts` times, over a link that
      keeps order and may lose frames: `life` tells in which life of the peer each was sent. */
  ghost predicate FromLives(epochs: seq<uint32>, ids: seq<uint32>, life: seq<nat>) {
    && |life| == |epochs|
    && (forall i :: 0 <= i < |life| ==> life[i] < |ids| && epochs[i] == ids[life[i]])
    && (forall i :: 0 < i < |life| ==> life[i - 1] <= life[i])
  }

  lemma {:induction false} ChangesBounded(epochs: seq<uint32>, ids: seq<uint32>, life: seq<nat>)
    requires FromLives(epochs, ids, life) && |epochs| > 0
    ensures Changes(epochs) <= life[|life| - 1]
    decreases |epochs|
  {
    var n := |epochs|;
    if n >= 2 {
      ChangesBounded(epochs[..n - 1], ids, life[..n - 1]);
    }
  }

  /** However many frames, echoes, strangers and carrier reconnects there are: a peer that has
      restarted r times has caused at most r resets, and one that has not, none. Resetting does
      not change the local epoch, so it causes no reset at the other end. */
  lemma RestartsBoundResets(c: Config, events: seq<Event>, ids: seq<uint32>, life: seq<nat>)
    requires FromLives(Epochs(c, events), ids, life) && |ids| > 0
    ensures Run(c, events).resets <= |ids| - 1
  {
    ResetsAreChanges(c, events);
    if Epochs(c, events) != [] {
      ChangesBounded(Epochs(c, events), ids, life);
    }
  }

  // Deliveries

  /** Sessions that exist have been started; what the current one was given came under the
      current epoch; and no session was ever given payloads from two epochs. */
  ghost predicate Sorted(s: Peer) {
    && (s.kcp.Some? ==> s.kcp.value < s.started)
    && (forall i :: 0 <= i < |s.delivered| ==> s.delivered[i].session < s.started && s.delivered[i].payload != [])
    && (!s.hadPeer ==> s.delivered == [])
    && (forall i :: 0 <= i < |s.delivered| && s.kcp == Some(s.delivered[i].session) ==>
          s.delivered[i].epoch == s.peerEpoch)
    && (forall i, j :: 0 <= i < j < |s.delivered| && s.delivered[i].session == s.delivered[j].session ==>
          s.delivered[i].epoch == s.delivered[j].epoch)
  }

  lemma DeliverSorted(s: Peer, payload: bytes)
    requires Sorted(s) && s.hadPeer
    ensures Sorted(Deliver(s, s.peerEpoch, payload))
  {
  }

  lemma StartSorted(c: Config, s: Peer)
    requires Sorted(s)
    ensures Sorted(StartKCP(c, s))
  {
  }

  lemma ResetSorted(c: Config, s: Peer, epoch: uint32, resets: nat)
    requires Sorted(s)
    ensures Sorted(ResetKCP(c, s.(peerEpoch := epoch, resets := resets)))
  {
  }

  lemma FirstSorted(c: Config, s: Peer, epoch: uint32)
    requires Sorted(s) && !s.hadPeer
    ensures Sorted(FirstPeer(c, s, epoch))
  {
    StartSorted(c, s.(peerEpoch := epoch, hadPeer := true, once := true));
  }

  lemma StepSorted(c: Config, s: Peer, e: Event)
    requires Sorted(s)
    ensures Sorted(Step(c, s, e))
  {
    hide Sorted, Accepted, EpochOf, Deliver, ResetKCP;
    match e
    case Received(frame) =>
      var epoch, payload := EpochOf(frame), frame[EPOCH_HDR_LEN..];
      if !Accepted(c, frame) {
      } else if !s.hadPeer {
        FirstSorted(c, s, epoch);
        DeliverSorted(FirstPeer(c, s, epoch), payload);
      } else if s.peerEpoch != epoch {
        ResetSorted(c, s, epoch, s.resets + 1);
      } else {
        DeliverSorted(s, payload);
      }
    case CarrierReconnected => ResetSorted(c, s, s.peerEpoch, s.resets);
  }

  /** No KCP session is ever given payloads from two epochs of the peer, and what the present
      one was given came under the present epoch: for every run. */
  lemma {:induction false} SessionsDoNotMix(c: Config, events: seq<Event>)
    ensures Sorted(Run(c, events))
    decreases |events|
  {
    hide Step;
    if events != [] {
      SessionsDoNotMix(c, events[..|events| - 1]);
      StepSorted(c, Run(c, events[..|events| - 1]), events[|events| - 1]);
    }
  }

  // Sessions end

  /** Nothing behind the k-th delivery went to a session before number `from`, and neither will
      the next. */
  ghost predicate Only(s: Peer, from: nat, k: nat) {
    && k <= |s.delivered| && from <= s.started && (s.kcp.Some? ==> from <= s.kcp.value)
    && forall i :: k <= i < |s.delivered| ==> from <= s.delivered[i].session
  }

  lemma StepOnly(c: Config, s: Peer, e: Event, from: nat, k: nat)
    requires Only(s, from, k)
    ensures Only(Step(c, s, e), from, k)
    ensures s.delivered <= Step(c, s, e).delivered
  {
    hide Accepted, EpochOf;
  }

  lemma {:induction false} OnlyOn(c: Config, events: seq<Event>, more: seq<Event>, from: nat, k: nat)
    requires Only(Run(c, events), from, k)
    ensures Only(Run(c, events + more), from, k) && Run(c, events).delivered <= Run(c, events + more).delivered
    decreases |more|
  {
    hide Step, Only;
    if more == [] {
      assert events + more == events;
    } else {
      var before, e := more[..|more| - 1], more[|more| - 1];
      OnlyOn(c, events, before, from, k);
      RunOneMore(c, events + before, e);
      StepOnly(c, Run(c, events + before), e, from, k);
      assert events + before + [e] == events + more;
    }
  }

  /** The carrier's reconnect, or an accepted frame of another epoch than the last: the session is
      over and the next one started, if it can be. */
  predicate Ends(c: Config, s: Peer, e: Event) {
    e.CarrierReconnected? || (Accepted(c, e.frame) && s.hadPeer && s.peerEpoch != EpochOf(e.frame))
  }

  /** In any run: with a reconnect or a new epoch the session ends. The next start decides whether
      there is a session again, the event itself delivers nothing, and no payload ever goes to a
      session that was started before. */
  lemma {:induction false} SessionsEnd(c: Config, events: seq<Event>, e: Event, more: seq<Event>)
    requires Ends(c, Run(c, events), e)
    ensures var s, t, u := Run(c, events), Run(c, events + [e]), Run(c, events + [e] + more);
      && t.kcp == (if c.starts(s.started) then Some(s.started) else None) && t.started == s.started + 1
      && t.delivered == s.delivered && s.delivered <= u.delivered
      && forall i :: |s.delivered| <= i < |u.delivered| ==> u.delivered[i].session >= s.started
  {
    hide Accepted, EpochOf, Run;
    var s := Run(c, events);
    RunOneMore(c, events, e);
    OnlyOn(c, events + [e], more, s.started, |s.delivered|);
  }

  /** Nothing else ends a session: at most the first frame of the peer starts a newer one. */
  lemma {:induction false} SessionStays(c: Config, events: seq<Event>, e: Event)
    requires !Ends(c, Run(c, events), e) && Run(c, events).kcp.Some?
    ensures var s, t := Run(c, events), Run(c, events + [e]);
      t.kcp == s.kcp || (!s.hadPeer && c.starts(s.started) && t.kcp == Some(s.started))
  {
    hide Accepted, EpochOf, Run;
    RunOneMore(c, events, e);
  }

  /** The present session is the last one that could be started, if there is one. */
  ghost predicate Latest(c: Config, s: Peer) {
    && (s.kcp.Some? ==> s.kcp.value < s.started && c.starts(s.kcp.value)
                        && forall j :: s.kcp.value < j < s.started ==> !c.starts(j))
    && (s.started > 0 && c.starts(s.started - 1) ==> s.kcp == Some(s.started - 1))
  }

  lemma StepLatest(c: Config, s: Peer, e: Event)
    requires Latest(c, s)
    ensures Latest(c, Step(c, s, e))
  {
    hide Accepted, EpochOf;
  }

  /** Whichever starts fail, in any run. */
  lemma {:induction false} SessionIsLatest(c: Config, events: seq<Event>)
    ensures Latest(c, Run(c, events))
    decreases |events|
  {
    hide Step, Latest;
    if events == [] {
      NoneLatest(c);
    } else {
      SessionIsLatest(c, events[..|events| - 1]);
      StepLatest(c, Run(c, events[..|events| - 1]), events[|events| - 1]);
    }
  }

  lemma NoneLatest(c: Config)
    ensures Latest(c, FRESH)
  {
  }

  function PayloadsOf(delivered: seq<Delivery>): seq<bytes>
    decreases |delivered|
  {
    if delivered == [] then []
    else PayloadsOf(delivered[..|delivered| - 1]) + [delivered[|delivered| - 1].payload]
  }

  /** The payloads that should get to KCP: those of accepted frames, unless they are empty or
      the frame is the one that announces a new epoch of a peer already known. */
  function Passed(c: Config, events: seq<Event>): seq<bytes>
    decreases |events|
  {
    if events == [] then []
    else
      var before, e := events[..|events| - 1], events[|events| - 1];
      var epochs := Epochs(c, before);
      var passes := e.Received? && Accepted(c, e.frame) && e.frame[EPOCH_HDR_LEN..] != []
        && (epochs == [] || epochs[|epochs| - 1] == EpochOf(e.frame));
      Passed(c, before) + if passes then [e.frame[EPOCH_HDR_LEN..]] else []
  }

  ghost predicate Running(s: Peer) { (s.hadPeer ==> s.kcp.Some?) && (!s.hadPeer ==> !s.once) }

  lemma DeliverPasses(s: Peer, epoch: uint32, payload: bytes)
    requires s.kcp.Some?
    ensures PayloadsOf(Deliver(s, epoch, payload).delivered) ==
      PayloadsOf(s.delivered) + if payload != [] then [payload] else []
  {
    if payload != [] {
      var d := Delivery(s.kcp.value, epoch, payload);
      assert (s.delivered + [d])[..|s.delivered|] == s.delivered;
    }
  }

  /** If sessions start, these and no others are what KCP is given, in the order of the frames. */
  lemma {:induction false} PayloadsComeThrough(c: Config, events: seq<Event>)
    requires forall n: nat :: c.starts(n)
    ensures Running(Run(c, events)) && PayloadsOf(Run(c, events).delivered) == Passed(c, events)
    decreases |events|
  {
    hide TokenOf, EpochOf, Deliver, PayloadsOf, Epochs, Accepted;
    if events == [] {
      NothingPassed();
    } else {
      var before, e := events[..|events| - 1], events[|events| - 1];
      PayloadsComeThrough(c, before);
      ResetsAreChanges(c, before);
      StepPasses(c, Run(c, before), e);
    }
  }

  lemma NothingPassed()
    ensures PayloadsOf([]) == []
  {
  }

  lemma StepPasses(c: Config, s: Peer, e: Event)
    requires Running(s) && forall n: nat :: c.starts(n)
    ensures Running(Step(c, s, e))
    ensures var passes := e.Received? && Accepted(c, e.frame) && e.frame[EPOCH_HDR_LEN..] != []
        && (!s.hadPeer || s.peerEpoch == EpochOf(e.frame));
      PayloadsOf(Step(c, s, e).delivered) ==
        PayloadsOf(s.delivered) + if passes then [e.frame[EPOCH_HDR_LEN..]] else []
  {
    hide TokenOf, EpochOf, PayloadsOf, Accepted;
    assert PayloadsOf(s.delivered) + [] == PayloadsOf(s.delivered);
    if e.Received? && Accepted(c, e.frame) {
      var epoch, payload := EpochOf(e.frame), e.frame[EPOCH_HDR_LEN..];
      if !s.hadPeer {
        DeliverPasses(FirstPeer(c, s, epoch), epoch, payload);
      } else if s.peerEpoch == epoch {
        DeliverPasses(s, epoch, payload);
      }
    }
  }

  /** The fields of streamTransport that incoming frames change. */
  class StreamTransport {
    const c: Config
    var hadPeer: bool
    var peerEpoch: uint32
    var once: bool
    var kcp: Option<nat>
    var started: nat
    ghost var resets: nat
    var delivered: seq<Delivery>

    constructor (c: Config)
      ensures Value() == FRESH && this.c == c
    {
      this.c := c;
      hadPeer, peerEpoch, once, kcp, started, resets, delivered := false, 0, false, None, 0, 0, [];
    }

    ghost function Value(): Peer
      reads this
    {
      Peer(hadPeer, peerEpoch, once, kcp, started, resets, delivered)
    }

    method Start()
      modifies `kcp, `started
      ensures Value() == StartKCP(c, old(Value()))
    {
      if c.starts(started) {
        kcp := Some(started);
      }
      started := started + 1;
    }

    method Reset()
      modifies `kcp, `started
      ensures Value() == ResetKCP(c, old(Value()))
    {
      kcp := None;
      Start();
    }

    method HandleFirstPeer(epoch: uint32)
      modifies `peerEpoch, `once, `kcp, `started
      ensures Value().(hadPeer := true) == FirstPeer(c, old(Value()), epoch)
    {
      peerEpoch := epoch;
      if !once {
        once := true;
        Start();
      }
    }

    method HandleIncomingFrame(frame: Frame)
      modifies this
      ensures Value() == Incoming(c, old(Value()), frame)
    {
      if TokenOf(frame) != c.token {
        return;
      }
      var epoch := EpochOf(frame);
      var kcpPayload := frame[EPOCH_HDR_LEN..];
      if epoch == c.localEpoch {
        return;
      }
      var had := hadPeer;
      hadPeer := true;
      if !had {
        HandleFirstPeer(epoch);
      } else if peerEpoch != epoch {
        peerEpoch := epoch;
        resets := resets + 1;
        Reset();
        return;
      }
      if |kcpPayload| == 0 {
        return;
      }
      if kcp.Some? {
        delivered := delivered + [Delivery(kcp.value, epoch, kcpPayload)];
      }
    }
  }

  /** A reflection of a frame from the endpoint's own life before it restarted is taken for the
      peer's, so two resets follow without the peer ever restarting. */
  lemma StaleEchoResets(c: Config, peer: uint32, former: uint32, payload: bytes)
    requires peer != former && peer != c.localEpoch && former != c.localEpoch
    ensures var ofPeer := Received(EpochHeader(c.token, peer) + payload);
      var stale := Received(EpochHeader(c.token, former) + payload);
      Run(c, [ofPeer, stale, ofPeer]).resets == 2
  {
    hide TokenOf, EpochOf, EpochHeader, Run, Step;
    var ofPeer := Received(EpochHeader(c.token, peer) + payload);
    var stale := Received(EpochHeader(c.token, former) + payload);
    RunNothing(c);
    HeaderRoundTrip(c.token, peer, payload);
    HeaderRoundTrip(c.token, former, payload);
    RunOneMore(c, [], ofPeer);
    RunOneMore(c, [ofPeer], stale);
    RunOneMore(c, [ofPeer, stale], ofPeer);
    Hears(c, FRESH, ofPeer.frame);
    Hears(c, Run(c, [ofPeer]), stale.frame);
    Hears(c, Run(c, [ofPeer, stale]), ofPeer.frame);
    assert [] + [ofPeer] == [ofPeer] && [ofPeer] + [stale] == [ofPeer, stale];
    assert [ofPeer, stale] + [ofPeer] == [ofPeer, stale, ofPeer];
  }

  lemma RunNothing(c: Config)
    ensures Run(c, []) == FRESH
  {
  }

  lemma RunOneMore(c: Config, events: seq<Event>, e: Event)
    ensures Run(c, events + [e]) == Step(c, Run(c, events), e)
  {
    assert (events + [e])[..|events|] == events;
  }

  lemma Hears(c: Config, s: Peer, frame: Frame)
    requires Accepted(c, frame)
    ensures var t := Step(c, s, Received(frame));
      t.hadPeer && t.peerEpoch == EpochOf(frame)
      && t.resets == s.resets + if s.hadPeer && s.peerEpoch != EpochOf(frame) then 1 else 0
  {
    hide TokenOf, EpochOf;
  }
}
