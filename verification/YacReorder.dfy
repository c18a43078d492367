/** The frames of the yac protocol and the reorder buffer that puts one stream's frames back
    in order (streams.go, protocol.go). */
module YacReorder {
  import opened Bytes

  datatype Kind = Open | OpenOK | OpenFail | Data | Fin | Rst

  datatype Frame = Frame(kind: Kind, streamID: uint32, seqID: uint32, payload: bytes)

  datatype ReorderBuf = ReorderBuf(expected: uint32, pending: map<uint32, Frame>)

  const EMPTY := ReorderBuf(1, map[])

  function Next(n: uint32): uint32 { if n == U32 - 1 then 0 else n + 1 }

  /** Take what has become deliverable out of the buffer, in order. */
  function Drain(b: ReorderBuf): (ReorderBuf, seq<Frame>)
    decreases |b.pending|
  {
    if b.expected !in b.pending then (b, [])
    else
      Removing(b.pending, b.expected);
      var (rest, calls) := Drain(ReorderBuf(Next(b.expected), b.pending - {b.expected}));
      (rest, [b.pending[b.expected]] + calls)
  }

  lemma Removing(pending: map<uint32, Frame>, n: uint32)
    requires n in pending
    ensures |pending - {n}| < |pending|
  {
    assert (pending - {n}).Keys == pending.Keys - {n};
    assert |pending.Keys - {n}| == |pending.Keys| - 1;
  }

  /** What a frame does to its stream's buffer, and the frames handed to the handler. */
  function Receive(b: ReorderBuf, f: Frame): (ReorderBuf, seq<Frame>) {
    if f.seqID == b.expected then
      var (rest, calls) := Drain(b.(expected := Next(b.expected)));
      (rest, [f] + calls)
    else if f.seqID > b.expected then (b.(pending := b.pending[f.seqID := f]), [])
    else (b, [])
  }

  // All streams

  type Buffers = map<uint32, ReorderBuf>

  function BufferOf(bufs: Buffers, id: uint32): ReorderBuf {
    if id in bufs then bufs[id] else EMPTY
  }

  /** HandleStreamFrame, with the handler's calls as a result. */
  function Handle(reorder: bool, bufs: Buffers, f: Frame): (Buffers, seq<Frame>) {
    if !reorder || f.seqID == 0 then (bufs, [f])
    else
      var (b, calls) := Receive(BufferOf(bufs, f.streamID), f);
      (bufs[f.streamID := b], calls)
  }

  function Run(frames: seq<Frame>): (Buffers, seq<Frame>)
    decreases |frames|
  {
    if frames == [] then (map[], [])
    else
      var (bufs, calls) := Run(frames[..|frames| - 1]);
      var (after, more) := Handle(true, bufs, frames[|frames| - 1]);
      (after, calls + more)
  }

  // The numbered frames of one stream

  ghost predicate Numbered(id: uint32, sent: seq<Frame>) {
    && |sent| < U32 - 1
    && forall i :: 0 <= i < |sent| ==> sent[i].streamID == id && sent[i].seqID == i + 1
  }

  /** The frame is one of the stream's numbered frames. */
  ghost predicate Drawn(sent: seq<Frame>, f: Frame) {
    1 <= f.seqID <= |sent| && f == sent[f.seqID - 1]
  }

  /** The numbers of a stream that stand among the frames. */
  ghost function Arrivals(frames: seq<Frame>, id: uint32): set<int>
    decreases |frames|
  {
    if frames == [] then {}
    else
      var last := frames[|frames| - 1];
      Arrivals(frames[..|frames| - 1], id) + if last.streamID == id then {last.seqID as int} else {}
  }

  ghost function Of(calls: seq<Frame>, id: uint32): seq<Frame> {
    if calls == [] then []
    else (if calls[0].streamID == id then [calls[0]] else []) + Of(calls[1..], id)
  }

  /** Everything before `expected` has arrived, and what is pending is what has arrived beyond. */
  ghost predicate InStep(sent: seq<Frame>, b: ReorderBuf, arrived: set<int>) {
    && 1 <= b.expected <= |sent| + 1 < U32
    && (forall n: int :: 1 <= n < b.expected ==> n in arrived)
    && (forall n: uint32 :: n in b.pending <==> n >= b.expected && n as int in arrived)
    && (forall n: uint32 :: n in b.pending ==> n <= |sent| && b.pending[n] == sent[n - 1])
  }

  /** And the next number has not: expected - 1 is the largest k with 1..k all arrived. */
  ghost predicate Holds(sent: seq<Frame>, b: ReorderBuf, arrived: set<int>) {
    InStep(sent, b, arrived) && b.expected as int !in arrived
  }

  /** Handing on the expected frame keeps the buffer in step. */
  lemma HandOn(sent: seq<Frame>, b: ReorderBuf, arrived: set<int>)
    requires InStep(sent, b, arrived) && b.expected in b.pending
    ensures var n := b.expected;
      n as int in arrived && n <= |sent| && b.pending[n] == sent[n - 1]
      && InStep(sent, ReorderBuf(Next(n), b.pending - {n}), arrived)
  {
  }

  lemma InBounds(sent: seq<Frame>, b: ReorderBuf, arrived: set<int>)
    requires InStep(sent, b, arrived)
    ensures 1 <= b.expected <= |sent| + 1 < U32
  {
  }

  lemma Slices(sent: seq<Frame>, from: int, upTo: int)
    requires 0 <= from < upTo <= |sent|
    ensures [sent[from]] + sent[from + 1..upTo] == sent[from..upTo]
  {
  }

  lemma {:induction false} DrainHolds(sent: seq<Frame>, b: ReorderBuf, arrived: set<int>)
    requires InStep(sent, b, arrived)
    ensures var (rest, calls) := Drain(b);
      Holds(sent, rest, arrived) && 1 <= b.expected <= rest.expected <= |sent| + 1
      && calls == sent[b.expected - 1..rest.expected - 1]
    decreases |b.pending|
  {
    hide InStep;
    InBounds(sent, b, arrived);
    if b.expected in b.pending {
      Removing(b.pending, b.expected);
      HandOn(sent, b, arrived);
      var next := ReorderBuf(Next(b.expected), b.pending - {b.expected});
      DrainHolds(sent, next, arrived);
      Slices(sent, b.expected - 1, Drain(next).0.expected - 1);
    } else {
      Stuck(sent, b, arrived);
    }
  }

  lemma Stuck(sent: seq<Frame>, b: ReorderBuf, arrived: set<int>)
    requires InStep(sent, b, arrived) && b.expected !in b.pending
    ensures b.expected as int !in arrived
  {
  }

  lemma ArrivedNow(sent: seq<Frame>, b: ReorderBuf, arrived: set<int>, f: Frame)
    requires Holds(sent, b, arrived) && Drawn(sent, f) && f.seqID == b.expected
    ensures InStep(sent, b.(expected := Next(b.expected)), arrived + {f.seqID as int})
  {
  }

  lemma ArrivedEarly(sent: seq<Frame>, b: ReorderBuf, arrived: set<int>, f: Frame)
    requires Holds(sent, b, arrived) && Drawn(sent, f) && f.seqID > b.expected
    ensures Holds(sent, b.(pending := b.pending[f.seqID := f]), arrived + {f.seqID as int})
  {
  }

  lemma ArrivedBefore(sent: seq<Frame>, b: ReorderBuf, arrived: set<int>, f: Frame)
    requires Holds(sent, b, arrived) && Drawn(sent, f) && f.seqID < b.expected
    ensures Holds(sent, b, arrived + {f.seqID as int})
  {
    assert arrived + {f.seqID as int} == arrived;
  }

  lemma ReceiveHolds(sent: seq<Frame>, b: ReorderBuf, arrived: set<int>, f: Frame)
    requires Holds(sent, b, arrived) && Drawn(sent, f)
    ensures var (rest, calls) := Receive(b, f);
      Holds(sent, rest, arrived + {f.seqID as int}) && 1 <= b.expected <= rest.expected <= |sent| + 1
      && calls == sent[b.expected - 1..rest.expected - 1]
  {
    hide InStep, Drain;
    InBounds(sent, b, arrived);
    if f.seqID == b.expected {
      var next := b.(expected := Next(b.expected));
      ArrivedNow(sent, b, arrived, f);
      DrainHolds(sent, next, arrived + {f.seqID as int});
      Slices(sent, b.expected - 1, Drain(next).0.expected - 1);
    } else if f.seqID > b.expected {
      ArrivedEarly(sent, b, arrived, f);
    } else {
      ArrivedBefore(sent, b, arrived, f);
    }
  }

  // Streams do not mix

  ghost predicate Own(id: uint32, b: ReorderBuf) {
    forall n: uint32 :: n in b.pending ==> b.pending[n].streamID == id
  }

  ghost predicate AllOwn(bufs: Buffers) {
    forall id: uint32 :: id in bufs ==> Own(id, bufs[id])
  }

  ghost predicate From(id: uint32, calls: seq<Frame>) {
    forall i :: 0 <= i < |calls| ==> calls[i].streamID == id
  }

  lemma {:induction false} DrainOwn(id: uint32, b: ReorderBuf)
    requires Own(id, b)
    ensures Own(id, Drain(b).0) && From(id, Drain(b).1)
    decreases |b.pending|
  {
    if b.expected in b.pending {
      Removing(b.pending, b.expected);
      DrainOwn(id, ReorderBuf(Next(b.expected), b.pending - {b.expected}));
    }
  }

  lemma ReceiveOwn(id: uint32, b: ReorderBuf, f: Frame)
    requires Own(id, b) && f.streamID == id
    ensures Own(id, Receive(b, f).0) && From(id, Receive(b, f).1)
  {
    if f.seqID == b.expected {
      DrainOwn(id, b.(expected := Next(b.expected)));
    }
  }

  /** A frame changes the buffer of its own stream only, and only that stream's frames reach
      the handler, whatever was received before. */
  lemma HandleTouchesOne(reorder: bool, bufs: Buffers, f: Frame)
    requires AllOwn(bufs)
    ensures var (after, calls) := Handle(reorder, bufs, f);
      AllOwn(after) && From(f.streamID, calls)
      && forall id: uint32 :: id != f.streamID ==>
        (id in after <==> id in bufs) && BufferOf(after, id) == BufferOf(bufs, id)
  {
    hide Receive;
    ReceiveOwn(f.streamID, BufferOf(bufs, f.streamID), f);
  }

  /** Without reordering, or without a number, a frame is handed on at once, by itself, and no
      buffer is touched. */
  lemma UnorderedPasses(reorder: bool, bufs: Buffers, f: Frame)
    requires !reorder || f.seqID == 0
    ensures Handle(reorder, bufs, f) == (bufs, [f])
  {
  }

  lemma {:induction false} RunOwn(frames: seq<Frame>)
    ensures AllOwn(Run(frames).0)
    decreases |frames|
  {
    hide AllOwn, Handle;
    if frames == [] {
      NoneOwn();
    } else {
      var before, last := frames[..|frames| - 1], frames[|frames| - 1];
      RunOwn(before);
      HandleTouchesOne(true, Run(before).0, last);
    }
  }

  lemma NoneOwn()
    ensures AllOwn(map[])
  {
  }

  lemma {:induction false} OfAppend(a: seq<Frame>, b: seq<Frame>, id: uint32)
    ensures Of(a + b, id) == Of(a, id) + Of(b, id)
  {
    if a == [] {
      assert a + b == b;
    } else {
      OfAppend(a[1..], b, id);
      assert (a + b)[1..] == a[1..] + b && (a + b)[0] == a[0];
      Assoc(if a[0].streamID == id then [a[0]] else [], Of(a[1..], id), Of(b, id));
    }
  }

  lemma {:induction false} OfFrom(calls: seq<Frame>, id: uint32, other: uint32)
    requires From(id, calls)
    ensures Of(calls, other) == if id == other then calls else []
  {
    if calls != [] {
      OfFrom(calls[1..], id, other);
      assert calls == [calls[0]] + calls[1..];
    }
  }

  /** Whatever arrives in whatever order and however often, mixed with the frames of any other
      streams: the handler has been called exactly on the stream's frames 1..k in order, k is
      the largest with 1..k all arrived, and pending holds exactly what has arrived beyond k. */
  lemma {:induction false} LongestPrefix(id: uint32, sent: seq<Frame>, frames: seq<Frame>)
    requires Numbered(id, sent)
    requires forall i :: 0 <= i < |frames| && frames[i].streamID == id ==> Drawn(sent, frames[i])
    ensures var (bufs, calls) := Run(frames); var b := BufferOf(bufs, id);
      Holds(sent, b, Arrivals(frames, id)) && Of(calls, id) == sent[..b.expected - 1]
    decreases |frames|
  {
    hide Holds, Handle, Receive;
    if frames == [] {
      NothingArrived(sent);
    } else {
      var before, last := frames[..|frames| - 1], frames[|frames| - 1];
      LongestPrefix(id, sent, before);
      RunOwn(before);
      var (bufs, calls) := Run(before);
      var (after, more) := Handle(true, bufs, last);
      HandleTouchesOne(true, bufs, last);
      OfAppend(calls, more, id);
      OfFrom(more, last.streamID, id);
      if last.streamID == id {
        StepHolds(id, sent, bufs, Arrivals(before, id), last);
      } else {
        assert Arrivals(frames, id) == Arrivals(before, id);
        assert Of(calls, id) + [] == Of(calls, id);
      }
    }
  }

  lemma NothingArrived(sent: seq<Frame>)
    requires |sent| < U32 - 1
    ensures Holds(sent, EMPTY, {})
  {
  }

  lemma StepHolds(id: uint32, sent: seq<Frame>, bufs: Buffers, arrived: set<int>, f: Frame)
    requires Holds(sent, BufferOf(bufs, id), arrived) && Drawn(sent, f) && f.streamID == id
    ensures 1 <= BufferOf(bufs, id).expected
    ensures var (after, calls) := Handle(true, bufs, f); var b := BufferOf(after, id);
      Holds(sent, b, arrived + {f.seqID as int}) && 1 <= b.expected <= |sent| + 1
      && sent[..BufferOf(bufs, id).expected - 1] + calls == sent[..b.expected - 1]
  {
    hide Receive;
    var b := BufferOf(bufs, id);
    ReceiveHolds(sent, b, arrived, f);
    var upTo := Receive(b, f).0.expected - 1;
    assert sent[..b.expected - 1] + sent[b.expected - 1..upTo] == sent[..upTo];
  }

  /** Once every frame has arrived at least once, all have been handed on and none is kept. */
  lemma EverythingDelivered(id: uint32, sent: seq<Frame>, frames: seq<Frame>)
    requires Numbered(id, sent)
    requires forall i :: 0 <= i < |frames| && frames[i].streamID == id ==> Drawn(sent, frames[i])
    requires forall n :: 1 <= n <= |sent| ==> n in Arrivals(frames, id)
    ensures Of(Run(frames).1, id) == sent && BufferOf(Run(frames).0, id).pending == map[]
  {
    LongestPrefix(id, sent, frames);
    var b := BufferOf(Run(frames).0, id);
    assert sent[..|sent|] == sent;
    assert forall n: uint32 :: n !in b.pending;
  }
}
