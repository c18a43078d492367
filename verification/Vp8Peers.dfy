/** Two vp8channel endpoints that both may restart, joined by links that keep order and may
    lose frames, with reflections and foreign frames at any moment (vp8channel/transport.go):
    they do not make each other reset for ever. */
module Vp8Peers {
  import opened Bytes
  import opened Vp8Epoch

  /** `ids` are the epochs of the endpoint's lives so far, the last being the present one.
      History: `resets` counts over all lives, and `heard` is the life of the other end that
      the last accepted frame was sent in. */
  datatype End = End(ids: seq<uint32>, peer: Peer, resets: nat, heard: nat)
  {
    predicate Valid() { |ids| > 0 }

    function Local(): uint32
      requires Valid()
    {
      ids[|ids| - 1]
    }
  }

  /** A frame under way, and the life of its sender it was sent in. */
  datatype Sent = Sent(frame: Frame, life: nat)

  datatype Net = Net(left: End, right: End, toRight: seq<Sent>, toLeft: seq<Sent>)
  {
    predicate Valid() { left.Valid() && right.Valid() }

    function Flip(): Net { Net(right, left, toLeft, toRight) }
  }

  datatype Action =
    | Send(payload: bytes)      // the left end sends a frame
    | Lose(at: nat)             // a frame under way to the right is lost
    | Arrive                    // the first frame under way to the right arrives
    | Echo(payload: bytes)      // the left end's own frame is reflected to it
    | Noise(frame: Frame)       // a frame with another token reaches the left end
    | Reconnect                 // the left end's carrier reconnects
    | Restart(epoch: uint32)    // the left end's process starts anew

  /** An action of either end: `left` says whose. */
  datatype Event = Event(left: bool, action: Action)

  datatype Setup = Setup(token: uint32, starts: nat -> bool)

  function ConfigOf(s: Setup, e: End): Config
    requires e.Valid()
  {
    Config(s.token, e.Local(), s.starts)
  }

  function Hear(s: Setup, e: End, frame: Frame, life: nat): End
    requires e.Valid()
  {
    var p := Incoming(ConfigOf(s, e), e.peer, frame);
    e.(peer := p, resets := e.resets + if p.resets > e.peer.resets then p.resets - e.peer.resets else 0,
       heard := if Accepted(ConfigOf(s, e), frame) then life else e.heard)
  }

  function StepLeft(s: Setup, n: Net, a: Action): (m: Net)
    requires n.Valid()
    ensures m.Valid()
  {
    match a
    case Send(payload) =>
      n.(toRight := n.toRight + [Sent(EpochHeader(s.token, n.left.Local()) + payload, |n.left.ids| - 1)])
    case Lose(at) =>
      if at < |n.toRight| then n.(toRight := n.toRight[..at] + n.toRight[at + 1..]) else n
    case Arrive =>
      if n.toRight == [] then n
      else n.(right := Hear(s, n.right, n.toRight[0].frame, n.toRight[0].life), toRight := n.toRight[1..])
    case Echo(payload) => n.(left := Hear(s, n.left, EpochHeader(s.token, n.left.Local()) + payload, 0))
    case Noise(frame) => if TokenOf(frame) == s.token then n else n.(left := Hear(s, n.left, frame, 0))
    case Reconnect => n.(left := n.left.(peer := ResetKCP(ConfigOf(s, n.left), n.left.peer)))
    case Restart(epoch) => n.(left := n.left.(ids := n.left.ids + [epoch], peer := FRESH))
  }

  function Step(s: Setup, n: Net, e: Event): (m: Net)
    requires n.Valid()
    ensures m.Valid()
  {
    if e.left then StepLeft(s, n, e.action) else StepLeft(s, n.Flip(), e.action).Flip()
  }

  function Run(s: Setup, left: uint32, right: uint32, events: seq<Event>): (n: Net)
    ensures n.Valid()
    decreases |events|
  {
    if events == [] then Net(End([left], FRESH, 0, 0), End([right], FRESH, 0, 0), [], [])
    else Step(s, Run(s, left, right, events[..|events| - 1]), events[|events| - 1])
  }

  // What every run keeps, in one direction

  ghost predicate LinkOk(s: Setup, ids: seq<uint32>, link: seq<Sent>, heard: nat) {
    && (forall i :: 0 <= i < |link| ==> heard <= link[i].life < |ids|)
    && (forall i :: 0 <= i < |link| ==>
          TokenOf(link[i].frame) == s.token && EpochOf(link[i].frame) == ids[link[i].life])
    && (forall i, j :: 0 <= i < j < |link| ==> link[i].life <= link[j].life)
  }

  /** Every reset has come with a later life of the sender. */
  ghost predicate EndOk(ids: seq<uint32>, e: End) {
    && e.resets <= e.heard < |ids|
    && (e.peer.hadPeer ==> e.peer.peerEpoch == ids[e.heard])
  }

  ghost predicate Inv(s: Setup, n: Net) {
    && n.Valid()
    && LinkOk(s, n.left.ids, n.toRight, n.right.heard) && EndOk(n.left.ids, n.right)
    && LinkOk(s, n.right.ids, n.toLeft, n.left.heard) && EndOk(n.right.ids, n.left)
  }

  lemma SendKeeps(s: Setup, ids: seq<uint32>, link: seq<Sent>, heard: nat, payload: bytes)
    requires LinkOk(s, ids, link, heard) && heard < |ids|
    ensures LinkOk(s, ids, link + [Sent(EpochHeader(s.token, ids[|ids| - 1]) + payload, |ids| - 1)], heard)
  {
    hide EpochHeader, TokenOf, EpochOf;
    HeaderRoundTrip(s.token, ids[|ids| - 1], payload);
  }

  lemma LoseKeeps(s: Setup, ids: seq<uint32>, link: seq<Sent>, heard: nat, at: nat)
    requires LinkOk(s, ids, link, heard) && at < |link|
    ensures LinkOk(s, ids, link[..at] + link[at + 1..], heard)
  {
    hide TokenOf, EpochOf;
  }

  lemma HearKeeps(s: Setup, ids: seq<uint32>, link: seq<Sent>, e: End)
    requires e.Valid() && link != [] && LinkOk(s, ids, link, e.heard) && EndOk(ids, e)
    ensures var f := Hear(s, e, link[0].frame, link[0].life);
      LinkOk(s, ids, link[1..], f.heard) && EndOk(ids, f)
  {
    hide TokenOf, EpochOf;
  }

  lemma HearNothing(s: Setup, e: End, frame: Frame)
    requires e.Valid() && !Accepted(ConfigOf(s, e), frame)
    ensures Hear(s, e, frame, 0) == e
  {
  }

  lemma MoreLives(s: Setup, ids: seq<uint32>, link: seq<Sent>, heard: nat, epoch: uint32)
    requires LinkOk(s, ids, link, heard)
    ensures LinkOk(s, ids + [epoch], link, heard)
  {
    hide TokenOf, EpochOf;
  }

  lemma StepLeftKeeps(s: Setup, n: Net, a: Action)
    requires Inv(s, n)
    ensures Inv(s, StepLeft(s, n, a))
  {
    hide LinkOk, Hear, TokenOf, EpochOf, EpochHeader;
    match a
    case Send(payload) =>
      SendKeeps(s, n.left.ids, n.toRight, n.right.heard, payload);
    case Lose(at) =>
      if at < |n.toRight| { LoseKeeps(s, n.left.ids, n.toRight, n.right.heard, at); }
    case Arrive =>
      if n.toRight != [] {
        HearKeeps(s, n.left.ids, n.toRight, n.right);
        HearerStays(s, n.right, n.toRight[0].frame, n.toRight[0].life);
      }
    case Echo(payload) =>
      HeaderRoundTrip(s.token, n.left.Local(), payload);
      HearNothing(s, n.left, EpochHeader(s.token, n.left.Local()) + payload);
    case Noise(frame) =>
      if TokenOf(frame) != s.token { HearNothing(s, n.left, frame); }
    case Reconnect =>
    case Restart(epoch) =>
      MoreLives(s, n.left.ids, n.toRight, n.right.heard, epoch);
  }

  lemma HearerStays(s: Setup, e: End, frame: Frame, life: nat)
    requires e.Valid()
    ensures Hear(s, e, frame, life).ids == e.ids
  {
  }

  lemma {:induction false} RunKeeps(s: Setup, left: uint32, right: uint32, events: seq<Event>)
    ensures Inv(s, Run(s, left, right, events))
    decreases |events|
  {
    hide StepLeft, LinkOk, EndOk;
    if events == [] {
      StartOk(s, left);
      StartOk(s, right);
    } else {
      var e := events[|events| - 1];
      var n := Run(s, left, right, events[..|events| - 1]);
      RunKeeps(s, left, right, events[..|events| - 1]);
      StepLeftKeeps(s, if e.left then n else n.Flip(), e.action);
    }
  }

  lemma StartOk(s: Setup, epoch: uint32)
    ensures LinkOk(s, [epoch], [], 0) && EndOk([epoch], End([epoch], FRESH, 0, 0))
    ensures forall other: uint32 :: EndOk([epoch], End([other], FRESH, 0, 0))
  {
  }

  // And they find each other again

  lemma RunSnoc(s: Setup, left: uint32, right: uint32, events: seq<Event>, e: Event)
    ensures Run(s, left, right, events + [e]) == Step(s, Run(s, left, right, events), e)
  {
    assert (events + [e])[..|events|] == events;
  }

  /** A frame of the left end's present life that is heard on the right. */
  lemma Heard(s: Setup, e: End, epoch: uint32, payload: bytes, life: nat)
    requires e.Valid() && e.Local() != epoch && forall k: nat :: s.starts(k)
    ensures var f := Hear(s, e, EpochHeader(s.token, epoch) + payload, life);
      && f.ids == e.ids && f.peer.hadPeer && f.peer.peerEpoch == epoch
      && (e.peer.hadPeer && e.peer.peerEpoch == epoch && e.peer.kcp.Some? && payload != [] ==>
            f.peer.delivered == e.peer.delivered + [Delivery(e.peer.kcp.value, epoch, payload)])
      && (Running(e.peer) ==> Running(f.peer) && f.peer.kcp.Some?)
  {
    hide EpochHeader, TokenOf, EpochOf;
    HeaderRoundTrip(s.token, epoch, payload);
  }

  ghost predicate BothRunning(n: Net) { n.Valid() && Running(n.left.peer) && Running(n.right.peer) }

  lemma StepRunning(s: Setup, n: Net, a: Action)
    requires BothRunning(n) && forall k: nat :: s.starts(k)
    ensures BothRunning(StepLeft(s, n, a))
  {
    hide EpochHeader, TokenOf, EpochOf, Accepted;
  }

  lemma {:induction false} RunRunning(s: Setup, left: uint32, right: uint32, events: seq<Event>)
    requires forall k: nat :: s.starts(k)
    ensures BothRunning(Run(s, left, right, events))
    decreases |events|
  {
    hide StepLeft;
    if events != [] {
      var e := events[|events| - 1];
      var n := Run(s, left, right, events[..|events| - 1]);
      RunRunning(s, left, right, events[..|events| - 1]);
      StepRunning(s, if e.left then n else n.Flip(), e.action);
    }
  }

  /** After any run, and with nothing under way: the second of two frames that the left end sends
      and that arrive is given to the right end's session, in full, whatever lives either has had
      before; and from the first on the right end knows the left end's present epoch. */
  lemma {:induction false} SecondFrameArrives(s: Setup, left: uint32, right: uint32, events: seq<Event>, first: bytes,
                                               second: bytes)
    requires forall k: nat :: s.starts(k)
    requires var n := Run(s, left, right, events);
      n.toRight == [] && n.left.Local() != n.right.Local() && second != []
    ensures var n := Run(s, left, right, events);
      var m := Run(s, left, right, events + [Event(true, Send(first))] + [Event(true, Arrive)]);
      var z := Run(s, left, right, events + [Event(true, Send(first))] + [Event(true, Arrive)]
                                   + [Event(true, Send(second))] + [Event(true, Arrive)]);
      && m.right.peer.hadPeer && m.right.peer.peerEpoch == n.left.Local() && m.right.peer.kcp.Some?
      && z.right.peer.delivered
           == m.right.peer.delivered + [Delivery(m.right.peer.kcp.value, n.left.Local(), second)]
  {
    hide Run, Hear, EpochHeader;
    var n := Run(s, left, right, events);
    RunRunning(s, left, right, events);
    var a := events + [Event(true, Send(first))];
    var b := a + [Event(true, Arrive)];
    RunSnoc(s, left, right, events, Event(true, Send(first)));
    RunSnoc(s, left, right, a, Event(true, Arrive));
    RunSnoc(s, left, right, b, Event(true, Send(second)));
    RunSnoc(s, left, right, b + [Event(true, Send(second))], Event(true, Arrive));
    Heard(s, n.right, n.left.Local(), first, |n.left.ids| - 1);
    Heard(s, Run(s, left, right, b).right, n.left.Local(), second, |n.left.ids| - 1);
  }

  /** No livelock: over all its lives an endpoint has reset its session at most as often as the
      other end has restarted, whatever is sent, lost or reflected, however often carriers
      reconnect and however often the endpoint itself restarts or resets. */
  lemma ResetsBoundedByRestarts(s: Setup, left: uint32, right: uint32, events: seq<Event>)
    ensures var n := Run(s, left, right, events);
      n.right.resets <= |n.left.ids| - 1 && n.left.resets <= |n.right.ids| - 1
  {
    RunKeeps(s, left, right, events);
  }
}
