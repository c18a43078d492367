/** One stream from the helper to the adapter: handleConn and ReadLoop on one side
    (cmd/helper/main.go), the frame dispatch and handleOpen on the other (cmd/adapter/main.go),
    and between them a network that may lose, repeat, delay and reorder frames. Read sizes,
    timeouts, losses and the interleaving of goroutines are the choice of the events. What is
    done under one lock is one event, as is handing on all the frames that one arrival
    releases; CloseStream and CloseAll are several. */
module YacSession {
  import opened Bytes
  import opened YacReorder
  import opened YacStreams

  // The helper

  /** Where handleConn stands: not started, waiting for OPEN_OK, in ReadLoop, past ReadLoop's
      test of s.closed with the FIN to send, or returned. */
  datatype Phase = Fresh | Opening | Reading | Ending | Done

  /** `counter` is the stream's entry in seqCounters, 0 when there is none; `held` has been
      read and not yet been given to SendFrame. */
  datatype Helper = Helper(
    phase: Phase, counter: uint32, answered: bool, closed: bool, read: bytes, held: bytes)

  // The adapter

  /** A connection to the target that handleOpen has registered. History: `start` is how many
      frames the present buffer had handed on by then, and nothing once that buffer is gone. */
  datatype Conn = Conn(written: bytes, closed: bool, start: Option<nat>)

  /** `dialing` counts the handleOpen goroutines that have not registered yet, `removing` and
      `dropping` the calls of Remove that have still to take the stream and its buffer out of
      the manager's maps, and `current` is the stream's entry there. History: `handed` is what
      the present buffer has handed on. */
  datatype Adapter = Adapter(
    buf: ReorderBuf, handed: seq<Frame>, dialing: nat, removing: nat, dropping: nat, conns: seq<Conn>,
    current: Option<nat>)

  /** The whole. `net` is all frames that may still be delivered, and never shrinks. History:
      `numbered` is the frames sent under the numbers 1, 2, 3 and so on, and `seen` the numbers
      that have come to the present buffer. */
  datatype Net = Net(
    id: uint32, helper: Helper, adapter: Adapter, net: set<Frame>, okSent: bool,
    numbered: seq<Frame>, seen: set<int>)

  datatype Event =
    | SendOpen(out: bool)        // OPEN; `out` says whether the network got the frame
    | GetOK                      // the dispatcher puts an OPEN_OK in the channel
    | Abort                      // OPEN failed, was refused, timed out or was cancelled
    | Proceed                    // handleConn takes the OPEN_OK and registers the stream
    | Read(data: bytes)          // Conn.Read returns
    | Send(out: bool)            // DATA with all that is held
    | CloseHelper                // another goroutine's CloseStream closes the connection
    | RemoveHelper               // and then removes the stream and its counter
    | ClearCounters              // CloseAll on the helper deletes all counters
    | EndRead                    // ReadLoop ends and tests s.closed
    | SendFin(out: bool)         // FIN, then CloseStream
    | Deliver(frame: Frame)      // the adapter receives a frame, for the first time or again
    | DialFails                  // handleOpen cannot reach the target
    | Register                   // handleOpen registers its connection
    | Announce                   // handleOpen sends OPEN_OK
    | AnnounceFails(conn: nat)   // sending OPEN_OK fails, though it may arrive
    | CloseAdapter(conn: nat)    // CloseStream on the adapter closes a connection
    | RemoveStream               // and then removes the stream
    | RemoveBuffer               // and then its buffer
    | DropBuffers                // CloseAll on the adapter makes a new map of buffers

  function Start(id: uint32): Net {
    Net(id, Helper(Fresh, 0, false, false, [], []), Adapter(EMPTY, [], 0, 0, 0, [], None), {}, false, [], {})
  }

  /** SendFrame on the helper. */
  function Number(n: Net, kind: Kind, payload: bytes, out: bool): Net {
    var f := Frame(kind, n.id, Next(n.helper.counter), payload);
    n.(helper := n.helper.(counter := f.seqID),
       net := if out then n.net + {f} else n.net,
       numbered := if n.helper.counter == |n.numbered| then n.numbered + [f] else n.numbered)
  }

  function StepHelper(n: Net, e: Event): Net {
    var h := n.helper;
    match e
    case SendOpen(out) =>
      if !h.phase.Fresh? then n
      else var m := Number(n, Open, [], out); m.(helper := m.helper.(phase := Opening))
    case GetOK => if h.phase.Opening? && n.okSent then n.(helper := h.(answered := true)) else n
    case Abort => if h.phase.Opening? then n.(helper := h.(phase := Done)) else n
    case Proceed => if h.phase.Opening? && h.answered then n.(helper := h.(phase := Reading)) else n
    case Read(data) =>
      if h.phase.Reading? && !h.closed then n.(helper := h.(read := h.read + data, held := h.held + data)) else n
    case Send(out) =>
      if !h.phase.Reading? || h.held == [] then n
      else var m := Number(n, Data, h.held, out); m.(helper := m.helper.(held := []))
    case CloseHelper => if h.phase.Reading? || h.phase.Ending? then n.(helper := h.(closed := true)) else n
    case RemoveHelper => if h.closed then n.(helper := h.(counter := 0)) else n
    case ClearCounters => n.(helper := h.(counter := 0))
    case EndRead =>
      if h.phase.Reading? && h.held == [] then n.(helper := h.(phase := if h.closed then Done else Ending)) else n
    case SendFin(out) =>
      if !h.phase.Ending? then n
      else var m := Number(n, Fin, [], out); m.(helper := m.helper.(closed := true, phase := Done))
    case _ => n
  }

  /** The callback that the adapter gives to HandleStreamFrame. Neither side sends RST; those
      of the bridge are not numbered and amount to closing the stream. */
  function Dispatch(a: Adapter, f: Frame): Adapter {
    match f.kind
    case Open => a.(dialing := a.dialing + 1)
    case Data =>
      if a.current.Some? && a.current.value < |a.conns| && !a.conns[a.current.value].closed then
        var c := a.conns[a.current.value];
        a.(conns := a.conns[a.current.value := c.(written := c.written + f.payload)])
      else a
    case _ => a
  }

  function DispatchAll(a: Adapter, calls: seq<Frame>): Adapter
    decreases |calls|
  {
    if calls == [] then a else DispatchAll(Dispatch(a, calls[0]), calls[1..])
  }

  function Unstarted(conns: seq<Conn>): (r: seq<Conn>)
    ensures |r| == |conns|
    ensures forall i :: 0 <= i < |r| ==> r[i] == conns[i].(start := None)
  {
    seq(|conns|, i requires 0 <= i < |conns| => conns[i].(start := None))
  }

  /** The buffer is gone; the next frame of the stream finds a new one. */
  function Drop(n: Net): Net {
    n.(adapter := n.adapter.(buf := EMPTY, handed := [], conns := Unstarted(n.adapter.conns)), seen := {})
  }

  function CloseConn(a: Adapter, conn: nat): Adapter
    requires conn < |a.conns|
  {
    a.(conns := a.conns[conn := a.conns[conn].(closed := true)], removing := a.removing + 1)
  }

  function StepAdapter(n: Net, e: Event): Net {
    var a := n.adapter;
    match e
    case Deliver(f) =>
      if f !in n.net then n
      else
        var (buf, calls) := Receive(a.buf, f);
        n.(adapter := DispatchAll(a, calls).(buf := buf, handed := a.handed + calls), seen := n.seen + {f.seqID as int})
    case DialFails => if a.dialing > 0 then n.(adapter := a.(dialing := a.dialing - 1)) else n
    case Register =>
      if a.dialing == 0 then n
      else
        n.(adapter := a.(dialing := a.dialing - 1, conns := a.conns + [Conn([], false, Some(|a.handed|))],
                         current := Some(|a.conns|)))
    case Announce => if |a.conns| > 0 then n.(okSent := true) else n
    case AnnounceFails(conn) =>
      if conn < |a.conns| && !a.conns[conn].closed then n.(adapter := CloseConn(a, conn), okSent := true) else n
    case CloseAdapter(conn) =>
      if conn < |a.conns| && !a.conns[conn].closed then n.(adapter := CloseConn(a, conn)) else n
    case RemoveStream =>
      if a.removing == 0 then n
      else n.(adapter := a.(removing := a.removing - 1, dropping := a.dropping + 1, current := None))
    case RemoveBuffer =>
      if a.dropping == 0 then n else Drop(n.(adapter := a.(dropping := a.dropping - 1)))
    case DropBuffers => Drop(n)
    case _ => n
  }

  function Step(n: Net, e: Event): Net { StepAdapter(StepHelper(n, e), e) }

  function RunAll(id: uint32, events: seq<Event>): Net
    decreases |events|
  {
    if events == [] then Start(id) else Step(RunAll(id, events[..|events| - 1]), events[|events| - 1])
  }

  predicate InRange(n: Net) { |n.numbered| < U32 - 1 }

  // When a step can break the promise

  /** The helper has read all that it will ever read. */
  predicate Finished(h: Helper) { h.phase.Ending? || h.phase.Done? || (h.phase.Reading? && h.closed) }

  /** The adapter would still write to the first connection. */
  predicate Writable(a: Adapter) { |a.conns| == 1 && !a.conns[0].closed && a.current == Some(0) }

  /** The first connection can still come about. */
  predicate Expected(n: Net) {
    |n.adapter.conns| == 0 && (n.adapter.dialing > 0 || Frame(Open, n.id, 1, []) in n.net)
  }

  /** Frames under the numbers 1, 2, 3 and so on that can be delivered at any time. */
  ghost predicate InLine(net: set<Frame>, fs: seq<Frame>) {
    forall i :: 0 <= i < |fs| ==> fs[i] in net && fs[i].seqID == i + 1
  }

  /** What a helper that has read all can still make of the network: it may send what it holds,
      or the FIN, under the next number or, if its counter goes before that, under the number 1. */
  predicate Offers(id: uint32, h: Helper, now: set<Frame>, net: set<Frame>) {
    || net == now
    || (h.phase.Reading? && h.closed && h.held != [] &&
        (net == now + {Frame(Data, id, Next(h.counter), h.held)} || net == now + {Frame(Data, id, 1, h.held)}))
    || (h.phase.Ending? &&
        (net == now + {Frame(Fin, id, Next(h.counter), [])} || net == now + {Frame(Fin, id, 1, [])}))
  }

  /** Whatever frames a new buffer hands on behind `written`, they continue what was read. */
  ghost predicate AllFit(id: uint32, h: Helper, now: set<Frame>, written: bytes) {
    forall net, fs :: Offers(id, h, now, net) && InLine(net, fs) ==> written + Payloads(fs) <= h.read
  }

  /** The steps of CloseAll that must not happen: the adapter drops its buffers while it dials
      for a helper that waits, or while the connection is open and the helper still reads or
      what the network can deliver once more does not fit behind what has been written; and the
      helper clears its counters while it waits for a connection that can still come about, or
      reads for one that is open. */
  ghost predicate Breaks(n: Net, e: Event) {
    var h, a := n.helper, n.adapter;
    || (e.DropBuffers? && |a.conns| == 0 && a.dialing > 0 && h.phase.Opening?)
    || (e.DropBuffers? && Writable(a) && (!Finished(h) || !AllFit(n.id, h, n.net, a.conns[0].written)))
    || (e.ClearCounters? && h.phase.Opening? && (Expected(n) || Writable(a)))
    || (e.ClearCounters? && h.phase.Reading? && !h.closed && Writable(a))
  }

  ghost predicate Orderly(id: uint32, events: seq<Event>)
    decreases |events|
  {
    events == [] || (var before := events[..|events| - 1];
      Orderly(id, before) && !Breaks(RunAll(id, before), events[|events| - 1]))
  }

  /** The promise: what has been written to the first connection is a prefix of what has been
      read. */
  predicate Kept(n: Net) {
    |n.adapter.conns| > 0 ==> n.adapter.conns[0].written <= n.helper.read
  }

  // What every orderly run keeps

  ghost predicate Shape(numbered: seq<Frame>) {
    && (|numbered| > 0 ==> numbered[0].kind == Open && numbered[0].payload == [])
    && forall i :: 1 <= i < |numbered| ==>
      numbered[i].kind == Data || (numbered[i].kind == Fin && numbered[i].payload == [])
  }

  /** Frames with other contents than the numbered ones bear the number 1. */
  ghost predicate Known(net: set<Frame>, numbered: seq<Frame>, okSent: bool) {
    forall f :: f in net ==>
      Drawn(numbered, f) || (f.seqID == 1 && okSent && (f.kind == Data || (f.kind == Fin && f.payload == [])))
  }

  /** The helper may still send bytes. */
  predicate HasBytes(h: Helper) { h.phase.Reading? && (!h.closed || h.held != []) }

  ghost predicate HelperOk(n: Net) {
    var h := n.helper;
    && Numbered(n.id, n.numbered) && Shape(n.numbered) && Known(n.net, n.numbered, n.okSent)
    && (h.phase.Fresh? ==> h.counter == 0) && (h.phase.Fresh? <==> n.numbered == [])
    && (h.phase.Opening? ==> |n.numbered| == 1)
    && (h.phase.Fresh? || h.phase.Opening? ==> !h.closed && h.held == [] && h.read == [])
    && (h.phase.Ending? ==> h.held == [])
    && (h.phase.Reading? || h.phase.Ending? || h.answered || |n.numbered| > 1 ==> n.okSent)
    && (n.okSent ==> |n.numbered| > 0)
    && (h.phase.Opening? || HasBytes(h) || h.phase.Ending? ==>
          h.counter == |n.numbered| || (h.counter == 0 && Finished(h)))
    && (HasBytes(h) ==> Payloads(n.numbered) + h.held == h.read)
    && Payloads(n.numbered) <= h.read
  }

  /** What the present buffer has handed on or holds has come from the network. */
  ghost predicate Fed(net: set<Frame>, b: ReorderBuf, handed: seq<Frame>) {
    && InLine(net, handed) && b.expected == |handed| + 1
    && forall k: uint32 :: k in b.pending ==> b.pending[k] in net && b.pending[k].seqID == k
  }

  /** No Remove is under way. */
  predicate Quiet(a: Adapter) { a.removing == 0 && a.dropping == 0 }

  /** The first connection is to come or is written to, and the buffer is the first one, or
      none has been given anything yet: what it has handed on is what has been written. */
  ghost predicate Live(n: Net) {
    var a, h := n.adapter, n.helper;
    && Holds(n.numbered, a.buf, n.seen) && 1 <= a.buf.expected <= |n.numbered| + 1 && Quiet(a)
    && if |a.conns| == 0 then
         && a.current.None? && !n.okSent
         && (!h.phase.Done? ==> a.dialing <= a.buf.expected - 1)
         && (a.dialing > 0 || a.buf.expected > 1 ==> Frame(Open, n.id, 1, []) in n.net)
       else
         && Writable(a) && a.buf.expected >= 2
         && a.conns[0].written == Payloads(n.numbered[..a.buf.expected - 1])
  }

  /** The helper has read all, and the first connection is written to from a new buffer:
      whatever that one can hand on fits behind `base`, which had been written when it came. */
  ghost predicate Late(n: Net) {
    var a := n.adapter;
    Quiet(a) && Writable(a) && Finished(n.helper) && exists base :: Onto(n, base)
  }

  ghost predicate Onto(n: Net, base: bytes)
    requires |n.adapter.conns| > 0
  {
    n.adapter.conns[0].written == base + Payloads(n.adapter.handed) && AllFit(n.id, n.helper, n.net, base)
  }

  /** Nothing more is written to the first connection. */
  ghost predicate Over(n: Net) {
    var a := n.adapter;
    |a.conns| > 0 && (a.conns[0].closed || a.current != Some(0)) && a.conns[0].written <= n.helper.read
  }

  /** No connection will ever be registered. */
  ghost predicate Dead(n: Net) {
    && !n.helper.phase.Fresh? && n.adapter.conns == [] && n.adapter.dialing == 0
    && (forall f :: f in n.net ==> f.kind != Open)
    && (forall k: uint32 :: k in n.adapter.buf.pending ==> n.adapter.buf.pending[k].kind != Open)
  }

  ghost predicate FedAll(n: Net) { Fed(n.net, n.adapter.buf, n.adapter.handed) }

  ghost predicate Inv(n: Net) { Over(n) || Dead(n) || (HelperOk(n) && FedAll(n) && (Live(n) || Late(n))) }

  lemma StartInv(id: uint32)
    ensures Inv(Start(id))
  {
  }

  lemma {:induction false} PayloadsOfPrefix(frames: seq<Frame>, k: nat)
    requires k <= |frames|
    ensures Payloads(frames[..k]) <= Payloads(frames)
  {
    PayloadsAppend(frames[..k], frames[k..]);
    assert frames[..k] + frames[k..] == frames;
  }

  // The helper's steps

  /** A frame sent under the next number, or under the number 1 when the counter is gone. */
  lemma NumberOk(n: Net, kind: Kind, payload: bytes, out: bool)
    requires Numbered(n.id, n.numbered) && Shape(n.numbered) && Known(n.net, n.numbered, n.okSent)
    requires InRange(Number(n, kind, payload, out))
    requires n.helper.counter == |n.numbered| || (n.helper.counter == 0 && n.okSent && kind != Open)
    requires if kind == Open then n.numbered == [] && payload == [] else |n.numbered| > 0
    requires kind == Open || kind == Data || (kind == Fin && payload == [])
    ensures var m := Number(n, kind, payload, out);
      && Numbered(m.id, m.numbered) && Shape(m.numbered) && Known(m.net, m.numbered, m.okSent)
      && Payloads(m.numbered) == Payloads(n.numbered) + if n.helper.counter == |n.numbered| then payload else []
  {
    PayloadsSnoc(n.numbered, Frame(kind, n.id, Next(n.helper.counter), payload));
    assert Payloads(n.numbered) + [] == Payloads(n.numbered);
  }

  lemma HelperKeeps(n: Net, e: Event)
    requires HelperOk(n) && InRange(StepHelper(n, e))
    requires e.ClearCounters? ==> n.helper.phase.Fresh? || Finished(n.helper)
    ensures HelperOk(StepHelper(n, e))
  {
    hide Known, Numbered, Shape, Payloads;
    var h := n.helper;
    match e
    case SendOpen(out) =>
      if h.phase.Fresh? { NumberOk(n, Open, [], out); }
    case Read(data) =>
      Assoc(Payloads(n.numbered), h.held, data);
    case Send(out) =>
      if h.phase.Reading? && h.held != [] {
        NumberOk(n, Data, h.held, out);
        assert Payloads(StepHelper(n, e).numbered) + [] == Payloads(StepHelper(n, e).numbered);
      }
    case SendFin(out) =>
      if h.phase.Ending? { NumberOk(n, Fin, [], out); }
    case _ =>
  }

  /** What a step of the helper leaves alone, or only lets grow. */
  ghost predicate Grows(n: Net, m: Net) {
    && n.numbered <= m.numbered && n.net <= m.net && m.id == n.id
    && m.adapter == n.adapter && m.seen == n.seen && m.okSent == n.okSent
    && n.helper.read <= m.helper.read
    && (Finished(n.helper) ==> Finished(m.helper))
    && (n.helper.phase.Done? ==> m.helper.phase.Done?)
    && (m.helper.phase.Fresh? ==> n.helper.phase.Fresh?)
  }

  lemma HelperGrows(n: Net, e: Event)
    ensures Grows(n, StepHelper(n, e))
  {
  }

  lemma HoldsGrown(before: seq<Frame>, after: seq<Frame>, b: ReorderBuf, seen: set<int>)
    requires Holds(before, b, seen) && before <= after && |after| < U32 - 1
    ensures Holds(after, b, seen)
  {
  }

  lemma LiveGrown(n: Net, e: Event)
    requires HelperOk(n) && Live(n) && InRange(StepHelper(n, e))
    ensures Live(StepHelper(n, e))
  {
    hide Holds, StepHelper, HelperOk;
    var m := StepHelper(n, e);
    HelperGrows(n, e);
    HoldsGrown(n.numbered, m.numbered, n.adapter.buf, n.seen);
    assert m.numbered[..n.adapter.buf.expected - 1] == n.numbered[..n.adapter.buf.expected - 1];
  }

  lemma FedGrown(n: Net, e: Event)
    requires FedAll(n)
    ensures FedAll(StepHelper(n, e))
  {
    hide StepHelper;
    HelperGrows(n, e);
  }

  /** What a helper that has read all offers only gets less. */
  lemma OffersLess(n: Net, e: Event, net: set<Frame>)
    requires Finished(n.helper)
    requires var m := StepHelper(n, e); Offers(m.id, m.helper, m.net, net)
    ensures Offers(n.id, n.helper, n.net, net) && StepHelper(n, e).helper.read == n.helper.read
  {
  }

  lemma StillFits(n: Net, e: Event, base: bytes)
    requires Finished(n.helper) && AllFit(n.id, n.helper, n.net, base)
    ensures var m := StepHelper(n, e); AllFit(m.id, m.helper, m.net, base)
  {
    hide StepHelper, Payloads, Finished, Offers;
    var m := StepHelper(n, e);
    forall net, fs | Offers(m.id, m.helper, m.net, net) && InLine(net, fs)
      ensures base + Payloads(fs) <= m.helper.read
    {
      OffersLess(n, e, net);
    }
  }

  lemma LateGrown(n: Net, e: Event)
    requires Late(n)
    ensures Late(StepHelper(n, e))
  {
    hide StepHelper, Finished, AllFit;
    var m := StepHelper(n, e);
    HelperGrows(n, e);
    var base :| Onto(n, base);
    StillFits(n, e, base);
    assert Onto(m, base);
  }

  lemma OverGrown(n: Net, e: Event)
    requires Over(n)
    ensures Over(StepHelper(n, e))
  {
    hide StepHelper;
    HelperGrows(n, e);
  }

  lemma DeadGrown(n: Net, e: Event)
    requires Dead(n)
    ensures Dead(StepHelper(n, e))
  {
  }

  // The adapter's steps

  /** A connection that is not the current one, or is closed, stays as it is. */
  lemma {:induction false} DispatchSpares(a: Adapter, calls: seq<Frame>, i: nat)
    requires i < |a.conns| && (a.conns[i].closed || a.current != Some(i))
    ensures var b := DispatchAll(a, calls);
      |b.conns| == |a.conns| && b.conns[i] == a.conns[i] && b.current == a.current
    decreases |calls|
  {
    if calls != [] {
      DispatchSpares(Dispatch(a, calls[0]), calls[1..], i);
    }
  }

  predicate Plain(f: Frame) { f.kind == Data || ((f.kind == Open || f.kind == Fin) && f.payload == []) }

  ghost predicate AllPlain(calls: seq<Frame>) { forall i :: 0 <= i < |calls| ==> Plain(calls[i]) }

  /** The current connection, if open, is written to in order. */
  lemma {:induction false} DispatchWrites(a: Adapter, calls: seq<Frame>, i: nat)
    requires a.current == Some(i) && i < |a.conns| && !a.conns[i].closed && AllPlain(calls)
    ensures var b := DispatchAll(a, calls);
      && b.current == a.current && b.removing == a.removing && b.dropping == a.dropping
      && b.conns == a.conns[i := a.conns[i].(written := a.conns[i].written + Payloads(calls))]
    decreases |calls|
  {
    if calls == [] {
      assert a.conns[i].written + [] == a.conns[i].written;
    } else {
      var b := Dispatch(a, calls[0]);
      assert calls[0].kind != Data ==> a.conns[i].written + [] == a.conns[i].written;
      assert b.conns == a.conns[i := a.conns[i].(written := a.conns[i].written + calls[0].payload)];
      DispatchWrites(b, calls[1..], i);
      Assoc(a.conns[i].written, calls[0].payload, Payloads(calls[1..]));
    }
  }

  lemma PlainKnown(n: Net, f: Frame)
    requires HelperOk(n) && f in n.net
    ensures Plain(f) && |n.numbered| > 0 && 1 <= f.seqID <= |n.numbered| < U32 - 1
  {
    hide Payloads;
  }

  // What the buffer has handed on has come from the network

  /** Frames with numbers that can be followed by another. */
  ghost predicate Small(net: set<Frame>) { forall f :: f in net ==> 1 <= f.seqID < U32 - 1 }

  lemma FedOne(net: set<Frame>, b: ReorderBuf, handed: seq<Frame>)
    requires Fed(net, b, handed) && Small(net) && b.expected in b.pending
    ensures Fed(net, ReorderBuf(Next(b.expected), b.pending - {b.expected}), handed + [b.pending[b.expected]])
  {
  }

  lemma {:induction false} DrainFed(net: set<Frame>, b: ReorderBuf, handed: seq<Frame>)
    requires Fed(net, b, handed) && Small(net)
    ensures Fed(net, Drain(b).0, handed + Drain(b).1)
    decreases |b.pending|
  {
    hide Fed, Small;
    if b.expected in b.pending {
      Removing(b.pending, b.expected);
      FedOne(net, b, handed);
      var f, next := b.pending[b.expected], ReorderBuf(Next(b.expected), b.pending - {b.expected});
      DrainFed(net, next, handed + [f]);
      Assoc(handed, [f], Drain(next).1);
    } else {
      assert handed + [] == handed;
    }
  }

  lemma ReceiveFed(net: set<Frame>, b: ReorderBuf, handed: seq<Frame>, f: Frame)
    requires Fed(net, b, handed) && Small(net) && f in net
    ensures Fed(net, Receive(b, f).0, handed + Receive(b, f).1)
  {
    hide Drain;
    if f.seqID == b.expected {
      var next := b.(expected := Next(b.expected));
      DrainFed(net, next, handed + [f]);
      Assoc(handed, [f], Drain(next).1);
    } else {
      assert handed + [] == handed;
    }
  }

  lemma NetSmall(n: Net)
    requires HelperOk(n)
    ensures Small(n.net)
  {
    hide HelperOk;
    forall f | f in n.net ensures 1 <= f.seqID < U32 - 1 {
      PlainKnown(n, f);
    }
  }

  lemma DeliverFed(n: Net, f: Frame)
    requires HelperOk(n) && FedAll(n) && f in n.net
    ensures FedAll(StepAdapter(n, Deliver(f)))
  {
    hide HelperOk, Fed, Receive, DispatchAll, Small;
    NetSmall(n);
    ReceiveFed(n.net, n.adapter.buf, n.adapter.handed, f);
  }

  lemma CallsPlain(n: Net, calls: seq<Frame>)
    requires HelperOk(n) && InLine(n.net, n.adapter.handed + calls)
    ensures AllPlain(calls)
  {
    hide HelperOk;
    forall i | 0 <= i < |calls| ensures Plain(calls[i]) {
      assert calls[i] == (n.adapter.handed + calls)[|n.adapter.handed| + i];
      PlainKnown(n, calls[i]);
    }
  }

  lemma DeliverLate(n: Net, f: Frame)
    requires HelperOk(n) && FedAll(n) && Late(n) && f in n.net
    ensures Late(StepAdapter(n, Deliver(f)))
  {
    hide HelperOk, Receive, DispatchAll, Payloads, AllFit, Finished, InLine, AllPlain;
    var a, m := n.adapter, StepAdapter(n, Deliver(f));
    var calls := Receive(a.buf, f).1;
    DeliverFed(n, f);
    CallsPlain(n, calls);
    DispatchWrites(a, calls, 0);
    PayloadsAppend(a.handed, calls);
    var base :| Onto(n, base);
    Assoc(base, Payloads(a.handed), Payloads(calls));
    assert Onto(m, base);
  }

  // What the buffer has handed on is what was numbered

  lemma NumberedPlain(numbered: seq<Frame>, from: nat, upTo: nat)
    requires Shape(numbered) && from <= upTo <= |numbered|
    ensures AllPlain(numbered[from..upTo])
  {
  }

  lemma DispatchOpen(a: Adapter, calls: seq<Frame>)
    requires calls == [] || (|calls| == 1 && calls[0].kind == Open)
    ensures DispatchAll(a, calls) == a.(dialing := a.dialing + |calls|)
  {
    if calls != [] {
      assert calls[1..] == [];
    }
  }

  lemma OnlyOpen(n: Net, f: Frame)
    requires HelperOk(n) && !n.okSent && Drawn(n.numbered, f)
    ensures n.numbered == [f] && f == Frame(Open, n.id, 1, [])
  {
    hide Known, Payloads;
  }

  lemma OpenCalls(numbered: seq<Frame>, f: Frame, from: nat, upTo: nat)
    requires numbered == [f] && from <= upTo <= 1
    ensures var calls := numbered[from..upTo]; |calls| == upTo - from && (calls == [] || calls == [f])
  {
  }

  lemma DeliverOpen(n: Net, f: Frame)
    requires HelperOk(n) && Live(n) && Drawn(n.numbered, f) && f in n.net && |n.adapter.conns| == 0
    ensures Live(StepAdapter(n, Deliver(f)))
  {
    hide Holds, Receive, DispatchAll, HelperOk;
    var a := n.adapter;
    var (buf, calls) := Receive(a.buf, f);
    ReceiveHolds(n.numbered, a.buf, n.seen, f);
    OnlyOpen(n, f);
    OpenCalls(n.numbered, f, a.buf.expected - 1, buf.expected - 1);
    DispatchOpen(a, calls);
  }

  /** What follows from calls that continue what has been handed on. */
  lemma WrittenOn(n: Net, m: Net, k: nat, upTo: nat, calls: seq<Frame>)
    requires Writable(n.adapter) && AllPlain(calls) && k <= upTo <= |n.numbered|
    requires n.adapter.conns[0].written == Payloads(n.numbered[..k])
    requires Payloads(calls) == Payloads(n.numbered[k..upTo])
    requires m.adapter.conns == DispatchAll(n.adapter, calls).conns
    requires m.adapter.current == DispatchAll(n.adapter, calls).current && m.numbered == n.numbered
    ensures Writable(m.adapter) && m.adapter.conns[0].written == Payloads(m.numbered[..upTo])
  {
    hide DispatchAll, Payloads;
    DispatchWrites(n.adapter, calls, 0);
    assert n.numbered[..k] + n.numbered[k..upTo] == n.numbered[..upTo];
    PayloadsAppend(n.numbered[..k], n.numbered[k..upTo]);
  }

  lemma DeliverDrawn(n: Net, f: Frame)
    requires HelperOk(n) && Live(n) && Drawn(n.numbered, f) && f in n.net && |n.adapter.conns| > 0
    ensures Live(StepAdapter(n, Deliver(f)))
  {
    hide Holds, Receive, DispatchAll, Payloads, Known;
    var a, k := n.adapter, n.adapter.buf.expected - 1;
    var (buf, calls) := Receive(a.buf, f);
    var m := StepAdapter(n, Deliver(f));
    ReceiveHolds(n.numbered, a.buf, n.seen, f);
    NumberedPlain(n.numbered, k, buf.expected - 1);
    WrittenOn(n, m, k, buf.expected - 1, calls);
    DispatchWrites(a, calls, 0);
  }

  /** A frame that bears the number 1 again is an old frame to a buffer that is past it. */
  lemma DeliverOld(n: Net, f: Frame)
    requires Live(n) && f.seqID == 1 && |n.adapter.conns| > 0
    ensures Live(StepAdapter(n, Deliver(f)))
  {
    hide Payloads;
    var a := n.adapter;
    assert Receive(a.buf, f) == (a.buf, []);
    assert n.seen + {1} == n.seen;
  }

  lemma DeliverDead(n: Net, f: Frame)
    requires Dead(n) && f in n.net
    ensures Dead(StepAdapter(n, Deliver(f)))
  {
    hide DispatchAll;
    var (buf, calls) := Receive(n.adapter.buf, f);
    ReceiveKinds(n.adapter.buf, f);
    DispatchNothing(n.adapter, calls);
  }

  ghost predicate NoneOpen(b: ReorderBuf) { forall k: uint32 :: k in b.pending ==> b.pending[k].kind != Open }

  lemma {:induction false} DrainKinds(b: ReorderBuf)
    requires NoneOpen(b)
    ensures NoneOpen(Drain(b).0) && forall i :: 0 <= i < |Drain(b).1| ==> Drain(b).1[i].kind != Open
    decreases |b.pending|
  {
    if b.expected in b.pending {
      Removing(b.pending, b.expected);
      DrainKinds(ReorderBuf(Next(b.expected), b.pending - {b.expected}));
    }
  }

  lemma ReceiveKinds(b: ReorderBuf, f: Frame)
    requires NoneOpen(b) && f.kind != Open
    ensures NoneOpen(Receive(b, f).0)
    ensures forall i :: 0 <= i < |Receive(b, f).1| ==> Receive(b, f).1[i].kind != Open
  {
    DrainKinds(b.(expected := Next(b.expected)));
  }

  lemma {:induction false} DispatchNothing(a: Adapter, calls: seq<Frame>)
    requires a.conns == [] && forall i :: 0 <= i < |calls| ==> calls[i].kind != Open
    ensures DispatchAll(a, calls) == a
    decreases |calls|
  {
    if calls != [] {
      assert Dispatch(a, calls[0]) == a;
      DispatchNothing(a, calls[1..]);
    }
  }

  lemma DeliverKeeps(n: Net, f: Frame)
    requires Inv(n) && f in n.net
    ensures Inv(StepAdapter(n, Deliver(f)))
  {
    hide HelperOk, FedAll, Live, Late, Receive, DispatchAll, Dead;
    var a, m := n.adapter, StepAdapter(n, Deliver(f));
    if Over(n) {
      DispatchSpares(a, Receive(a.buf, f).1, 0);
    } else if Dead(n) {
      DeliverDead(n, f);
    } else {
      HelperSame(n, m);
      DeliverFed(n, f);
      if Live(n) {
        DeliverLive(n, f);
      } else {
        DeliverLate(n, f);
      }
    }
  }

  lemma HelperSame(n: Net, m: Net)
    requires HelperOk(n) && m.id == n.id && m.helper == n.helper && m.net == n.net && m.numbered == n.numbered
    requires m.okSent == n.okSent || (m.okSent && |n.numbered| > 0)
    ensures HelperOk(m)
  {
  }

  lemma DeliverLive(n: Net, f: Frame)
    requires HelperOk(n) && Live(n) && f in n.net
    ensures Live(StepAdapter(n, Deliver(f)))
  {
    hide Payloads, Holds, Shape, Numbered, Receive, DispatchAll;
    if !Drawn(n.numbered, f) {
      DeliverOld(n, f);
    } else if |n.adapter.conns| == 0 {
      DeliverOpen(n, f);
    } else {
      DeliverDrawn(n, f);
    }
  }

  lemma OpenCarriesNothing(numbered: seq<Frame>, k: nat)
    requires Shape(numbered) && k <= 1 && k <= |numbered|
    ensures Payloads(numbered[..k]) == []
  {
    if k == 1 {
      assert numbered[..1] == [numbered[0]];
      assert Payloads([numbered[0]]) == [] + Payloads([]);
    }
  }

  lemma {:induction false} NothingToGive(net: set<Frame>, fs: seq<Frame>)
    requires InLine(net, fs) && forall f :: f in net ==> f.payload == []
    ensures Payloads(fs) == []
    decreases |fs|
  {
    if fs != [] {
      var before, f := fs[..|fs| - 1], fs[|fs| - 1];
      NothingToGive(net, before);
      PayloadsSnoc(before, f);
      assert fs == before + [f];
    }
  }

  /** Before a connection is answered, nothing but the OPEN frame is under way. */
  lemma NothingUnderWay(n: Net, f: Frame)
    requires HelperOk(n) && !n.okSent && f in n.net
    ensures f.payload == []
  {
    hide Payloads, Numbered;
  }

  /** The buffer was dropped while the adapter dialled for a helper that has given up. */
  lemma RegisterLate(n: Net)
    requires HelperOk(n) && FedAll(n) && Live(n) && n.adapter.dialing > 0
    requires |n.adapter.conns| == 0 && n.adapter.buf.expected == 1
    ensures Late(StepAdapter(n, Register))
  {
    hide Payloads, Holds, Numbered, HelperOk;
    var m := StepAdapter(n, Register);
    assert n.helper.phase.Done?;
    forall net, fs | Offers(m.id, m.helper, m.net, net) && InLine(net, fs)
      ensures [] + Payloads(fs) <= m.helper.read
    {
      forall f: Frame | f in net ensures f.payload == [] {
        NothingUnderWay(n, f);
      }
      NothingToGive(net, fs);
    }
    NothingToGive({}, []);
    assert Onto(m, []);
  }

  lemma RegisterKeeps(n: Net)
    requires HelperOk(n) && FedAll(n) && Live(n) && n.adapter.dialing > 0
    ensures Inv(StepAdapter(n, Register))
  {
    hide Payloads, Holds, Numbered, Known, Late, Fed;
    var a, m := n.adapter, StepAdapter(n, Register);
    HelperSame(n, m);
    if |a.conns| > 0 {
      WrittenSoFar(n);
      assert m.adapter.conns[0] == a.conns[0];
    } else if a.buf.expected == 1 {
      RegisterLate(n);
    } else {
      OpenCarriesNothing(n.numbered, a.buf.expected - 1);
    }
  }

  /** Delivering nothing more is among what the network can do. */
  lemma LateSoFar(n: Net)
    requires Late(n) && FedAll(n)
    ensures n.adapter.conns[0].written <= n.helper.read
  {
    hide Payloads, InLine;
    var base :| Onto(n, base);
    assert Offers(n.id, n.helper, n.net, n.net) && InLine(n.net, n.adapter.handed);
  }

  lemma WrittenSoFar(n: Net)
    requires HelperOk(n) && Live(n) && |n.adapter.conns| > 0
    ensures n.adapter.conns[0].written <= n.helper.read && |n.numbered| > 0
  {
    PayloadsOfPrefix(n.numbered, n.adapter.buf.expected - 1);
  }

  lemma NewBuffer(numbered: seq<Frame>)
    requires |numbered| < U32 - 1
    ensures Holds(numbered, EMPTY, {})
  {
  }

  lemma DropKeeps(n: Net)
    requires HelperOk(n) && (Live(n) || Late(n)) && !Breaks(n, DropBuffers)
    ensures Inv(Drop(n))
  {
    hide Payloads, Holds, Shape, Known, AllFit;
    var a, m := n.adapter, Drop(n);
    HelperSame(n, m);
    NewBuffer(n.numbered);
    if |a.conns| > 0 {
      NothingToGive({}, []);
      assert a.conns[0].written + [] == a.conns[0].written;
      assert Onto(m, a.conns[0].written);
    }
  }

  lemma SoFar(n: Net)
    requires HelperOk(n) && FedAll(n) && (Live(n) || Late(n)) && |n.adapter.conns| > 0
    ensures n.adapter.conns[0].written <= n.helper.read && (n.okSent ==> |n.numbered| > 0)
  {
    hide Payloads, Holds, Shape, Numbered, Known, Live, Late, FedAll;
    if Live(n) {
      WrittenSoFar(n);
    } else {
      LateSoFar(n);
    }
  }

  lemma OverKeeps(n: Net, e: Event)
    requires Over(n) && !e.Deliver?
    ensures Over(StepAdapter(n, e))
  {
  }

  lemma DeadKeeps(n: Net, e: Event)
    requires Dead(n) && !e.Deliver?
    ensures Dead(StepAdapter(n, e))
  {
  }

  lemma CloseKeeps(n: Net, e: Event)
    requires HelperOk(n) && FedAll(n) && (Live(n) || Late(n)) && (e.AnnounceFails? || e.CloseAdapter?)
    ensures Inv(StepAdapter(n, e))
  {
    hide HelperOk, FedAll, Live, Late;
    OneConn(n);
    if |n.adapter.conns| > 0 {
      SoFar(n);
    }
  }

  lemma OneConn(n: Net)
    requires Live(n) || Late(n)
    ensures |n.adapter.conns| <= 1
  {
    hide Payloads, Holds, AllFit;
  }

  lemma LiveKeeps(n: Net, e: Event)
    requires HelperOk(n) && FedAll(n) && Live(n) && !e.Deliver? && !e.DropBuffers?
    ensures Inv(StepAdapter(n, e))
  {
    hide Payloads, Holds, Shape, Numbered, Known, HelperOk, Over, Fed;
    match e
    case Register => if n.adapter.dialing > 0 { RegisterKeeps(n); }
    case Announce =>
      if |n.adapter.conns| > 0 {
        WrittenSoFar(n);
        HelperSame(n, StepAdapter(n, e));
      }
    case DialFails => HelperSame(n, StepAdapter(n, e));
    case AnnounceFails(conn) => CloseKeeps(n, e);
    case CloseAdapter(conn) => CloseKeeps(n, e);
    case _ =>
  }

  lemma LateKeeps(n: Net, e: Event)
    requires HelperOk(n) && FedAll(n) && Late(n) && !e.Deliver? && !e.DropBuffers?
    ensures Inv(StepAdapter(n, e))
  {
    hide Payloads, HelperOk, Over, Fed, AllFit, Finished;
    var m := StepAdapter(n, e);
    var base :| Onto(n, base);
    if e.Register? {
      LateRegister(n);
    } else if e.AnnounceFails? || e.CloseAdapter? {
      CloseKeeps(n, e);
    } else {
      LateHasOpened(n);
      HelperSame(n, m);
      assert Onto(m, base);
    }
  }

  lemma LateHasOpened(n: Net)
    requires HelperOk(n) && Finished(n.helper)
    ensures |n.numbered| > 0
  {
    hide Payloads, Numbered, Shape, Known;
  }

  lemma LateRegister(n: Net)
    requires HelperOk(n) && FedAll(n) && Late(n)
    ensures Inv(StepAdapter(n, Register))
  {
    hide HelperOk, FedAll, AllFit;
    LateSoFar(n);
    if n.adapter.dialing > 0 {
      assert StepAdapter(n, Register).adapter.conns[0] == n.adapter.conns[0];
    }
  }

  lemma AdapterKeeps(n: Net, e: Event)
    requires Inv(n) && (e.DropBuffers? ==> !Breaks(n, e))
    ensures Inv(StepAdapter(n, e))
  {
    hide HelperOk, FedAll, Live, Late, Over, Dead, Breaks, StepAdapter;
    if e.Deliver? {
      DeliverAny(n, e.frame);
    } else if Over(n) {
      OverKeeps(n, e);
    } else if Dead(n) {
      DeadKeeps(n, e);
    } else if e.DropBuffers? {
      DropStep(n);
    } else if Live(n) {
      LiveKeeps(n, e);
    } else {
      LateKeeps(n, e);
    }
  }

  lemma DeliverAny(n: Net, f: Frame)
    requires Inv(n)
    ensures Inv(StepAdapter(n, Deliver(f)))
  {
    hide Inv, Receive, DispatchAll;
    if f in n.net {
      DeliverKeeps(n, f);
    }
  }

  lemma DropStep(n: Net)
    requires HelperOk(n) && (Live(n) || Late(n)) && !Breaks(n, DropBuffers)
    ensures Inv(StepAdapter(n, DropBuffers))
  {
    hide Inv, HelperOk, Live, Late, Breaks;
    DropKeeps(n);
  }

  // The promise

  /** Clearing the counters for a helper that waits for a connection that cannot come. */
  lemma ClearedDead(n: Net)
    requires HelperOk(n) && FedAll(n) && Live(n) && n.helper.phase.Opening? && !Breaks(n, ClearCounters)
    ensures Dead(StepHelper(n, ClearCounters))
  {
    hide Payloads;
    assert forall f :: f in n.net && Drawn(n.numbered, f) ==> f == n.numbered[0] == Frame(Open, n.id, 1, []);
  }

  lemma HelperStepKeeps(n: Net, e: Event)
    requires Inv(n) && !Breaks(n, e) && InRange(StepHelper(n, e))
    ensures Inv(StepHelper(n, e))
  {
    hide HelperOk, Over, Dead, Payloads, FedAll, Live, Late, StepHelper, Breaks;
    if Over(n) {
      OverGrown(n, e);
    } else if Dead(n) {
      DeadGrown(n, e);
    } else if e.ClearCounters? && n.helper.phase.Opening? {
      OpeningIsLive(n);
      ClearedDead(n);
    } else {
      ClearedInTime(n, e);
      HelperKeeps(n, e);
      FedGrown(n, e);
      if Live(n) {
        LiveGrown(n, e);
      } else {
        LateGrown(n, e);
      }
    }
  }

  lemma OpeningIsLive(n: Net)
    requires (Live(n) || Late(n)) && n.helper.phase.Opening?
    ensures Live(n)
  {
    hide Live, Onto;
  }

  lemma ClearedInTime(n: Net, e: Event)
    requires HelperOk(n) && (Live(n) || Late(n)) && !Breaks(n, e)
    ensures e.ClearCounters? ==> n.helper.phase.Fresh? || n.helper.phase.Opening? || Finished(n.helper)
  {
    hide Payloads, Onto, AllFit, Holds, Shape, Numbered, Known;
    ReadersAreLive(n);
  }

  /** A helper that reads has a connection at the other end. */
  lemma ReadersAreLive(n: Net)
    requires HelperOk(n) && (Live(n) || Late(n))
    ensures n.helper.phase.Reading? ==> Writable(n.adapter)
  {
    hide Payloads, Holds, Onto, Shape, Numbered, Known;
  }

  lemma {:induction false} RunKeeps(id: uint32, events: seq<Event>)
    requires Orderly(id, events) && InRange(RunAll(id, events))
    ensures Inv(RunAll(id, events))
    decreases |events|
  {
    hide Inv, StepHelper, StepAdapter, Breaks;
    if events == [] {
      StartInv(id);
    } else {
      var before, e := events[..|events| - 1], events[|events| - 1];
      var n := RunAll(id, before);
      NumbersGrow(n, e);
      RunKeeps(id, before);
      HelperStepKeeps(n, e);
      DropIsAdapters(n, e);
      AdapterKeeps(StepHelper(n, e), e);
    }
  }

  lemma NumbersGrow(n: Net, e: Event)
    ensures |n.numbered| <= |StepHelper(n, e).numbered|
    ensures StepAdapter(StepHelper(n, e), e).numbered == StepHelper(n, e).numbered
  {
    hide DispatchAll, Receive;
  }

  lemma DropIsAdapters(n: Net, e: Event)
    requires !Breaks(n, e)
    ensures e.DropBuffers? ==> !Breaks(StepHelper(n, e), e)
  {
    hide AllFit;
  }

  lemma InvKeepsPromise(n: Net)
    requires Inv(n)
    ensures Kept(n)
  {
    hide HelperOk, FedAll, Live, Late;
    if !Over(n) && !Dead(n) && |n.adapter.conns| > 0 {
      SoFar(n);
    }
  }

  /** What the adapter writes to the first connection it registers for a stream is at every
      moment a prefix of what the helper has read, whatever the network does with the frames,
      however reads are cut and gathered, and wherever either side closes. */
  lemma ByteStreamSafe(id: uint32, events: seq<Event>)
    requires Orderly(id, events) && InRange(RunAll(id, events))
    ensures Kept(RunAll(id, events))
  {
    hide Inv, Kept, RunAll, Orderly;
    RunKeeps(id, events);
    InvKeepsPromise(RunAll(id, events));
  }

  lemma AllSeen(numbered: seq<Frame>, b: ReorderBuf, seen: set<int>)
    requires Holds(numbered, b, seen) && forall k :: 1 <= k <= |numbered| ==> k in seen
    ensures b.expected == |numbered| + 1
  {
  }

  /** And when every numbered frame has come through while the connection is written to and
      nothing is held back, it is all of it. */
  lemma ByteStreamComplete(id: uint32, events: seq<Event>)
    requires Orderly(id, events) && InRange(RunAll(id, events))
    requires var n := RunAll(id, events);
      && Writable(n.adapter) && HasBytes(n.helper) && n.helper.held == []
      && forall k :: 1 <= k <= |n.numbered| ==> k in n.seen
    ensures RunAll(id, events).adapter.conns[0].written == RunAll(id, events).helper.read
  {
    hide Payloads, Holds, RunAll, Orderly, Shape, Numbered, Known, FedAll, Onto;
    RunKeeps(id, events);
    var n := RunAll(id, events);
    AllSeen(n.numbered, n.adapter.buf, n.seen);
    assert n.numbered[..|n.numbered|] == n.numbered;
    assert Payloads(n.numbered) + [] == Payloads(n.numbered);
  }
}
