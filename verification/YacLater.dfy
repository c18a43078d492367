/** Connections that the adapter registers for a yac stream after the first one was closed: the
    OPEN frame has come again to a new buffer. What they are given, and when it is what was
    read. */
module YacLater {
  import opened Bytes
  import opened YacReorder
  import opened YacStreams
  import opened YacSession
  import opened YacExact

  /** The helper clears its counters only when it has read all, or nothing yet. */
  predicate CountersKept(id: uint32, events: seq<Event>)
    decreases |events|
  {
    events == [] || (var before := events[..|events| - 1]; var h := RunAll(id, before).helper;
      CountersKept(id, before) && (events[|events| - 1].ClearCounters? ==> h.phase.Fresh? || Finished(h)))
  }

  /** The present buffer began with the OPEN frame, or with nothing yet. */
  predicate Proper(handed: seq<Frame>) { handed == [] || handed[0].kind.Open? }

  /** A proper buffer is in step with the numbered frames and has handed on the first of them. */
  ghost predicate InOrder(numbered: seq<Frame>, b: ReorderBuf, handed: seq<Frame>, seen: set<int>) {
    Holds(numbered, b, seen) && 1 <= b.expected <= |numbered| + 1 && handed == numbered[..b.expected - 1]
  }

  ghost predicate PlainPending(b: ReorderBuf) { forall k: uint32 :: k in b.pending ==> Plain(b.pending[k]) }

  /** The current connection has been given what the buffer has handed on since it came. */
  ghost predicate GivenSince(a: Adapter) {
    a.current.Some? && a.current.value < |a.conns| && !a.conns[a.current.value].closed ==>
      var c := a.conns[a.current.value];
      c.start.Some? ==> c.start.value <= |a.handed| && c.written == Payloads(a.handed[c.start.value..])
  }

  ghost predicate AdapterOk(n: Net) {
    var a := n.adapter;
    && (Proper(a.handed) ==> InOrder(n.numbered, a.buf, a.handed, n.seen))
    && PlainPending(a.buf) && GivenSince(a)
    && (a.dialing > 0 || a.conns != [] ==> |n.numbered| > 0)
  }

  // The helper's steps

  lemma HelperLeaves(n: Net, e: Event)
    requires AdapterOk(n) && InRange(StepHelper(n, e))
    ensures AdapterOk(StepHelper(n, e))
  {
    hide Holds, PlainPending, GivenSince, StepHelper;
    var m := StepHelper(n, e);
    HelperGrows(n, e);
    if Proper(n.adapter.handed) {
      HoldsGrown(n.numbered, m.numbered, n.adapter.buf, n.seen);
      assert m.numbered[..n.adapter.buf.expected - 1] == n.numbered[..n.adapter.buf.expected - 1];
    }
  }

  // The adapter's steps

  lemma {:induction false} DrainPlain(b: ReorderBuf)
    requires PlainPending(b)
    ensures PlainPending(Drain(b).0) && AllPlain(Drain(b).1)
    decreases |b.pending|
  {
    if b.expected in b.pending {
      Removing(b.pending, b.expected);
      DrainPlain(ReorderBuf(Next(b.expected), b.pending - {b.expected}));
    }
  }

  lemma ReceivePlain(b: ReorderBuf, f: Frame)
    requires PlainPending(b) && Plain(f)
    ensures PlainPending(Receive(b, f).0) && AllPlain(Receive(b, f).1)
  {
    DrainPlain(b.(expected := Next(b.expected)));
  }

  /** A proper buffer stays in step; it only ever begins with a frame that is not the OPEN if
      that one bears the number 1 instead. */
  lemma DeliverInOrder(n: Net, f: Frame)
    requires HelperOk(n) && AdapterOk(n) && f in n.net
    requires Proper(StepAdapter(n, Deliver(f)).adapter.handed)
    ensures var m := StepAdapter(n, Deliver(f)); InOrder(m.numbered, m.adapter.buf, m.adapter.handed, m.seen)
  {
    hide HelperOk, Holds, Receive, DispatchAll, PlainPending, GivenSince, Drawn;
    var a := n.adapter;
    ProperBefore(a.handed, Receive(a.buf, f).1);
    FirstCall(a.buf, f, a.handed);
    KnownFrame(n, f);
    ReceiveInStep(n.numbered, a.buf, a.handed, n.seen, f);
  }

  lemma KnownFrame(n: Net, f: Frame)
    requires HelperOk(n) && f in n.net
    ensures Drawn(n.numbered, f) || (f.seqID == 1 && f.kind != Open)
  {
    hide Payloads, Numbered, Shape;
  }

  lemma ReceiveInStep(numbered: seq<Frame>, b: ReorderBuf, handed: seq<Frame>, seen: set<int>, f: Frame)
    requires InOrder(numbered, b, handed, seen)
    requires Drawn(numbered, f) || (f.seqID == 1 && b.expected != 1)
    ensures InOrder(numbered, Receive(b, f).0, handed + Receive(b, f).1, seen + {f.seqID as int})
  {
    hide Holds, Receive, Drawn;
    if Drawn(numbered, f) {
      ReceiveHolds(numbered, b, seen, f);
      var k, upTo := b.expected - 1, Receive(b, f).0.expected - 1;
      assert numbered[..k] + numbered[k..upTo] == numbered[..upTo];
    } else {
      OldFrame(numbered, b, seen, f);
      assert handed + [] == handed;
    }
  }

  lemma ProperBefore(handed: seq<Frame>, calls: seq<Frame>)
    requires Proper(handed + calls)
    ensures Proper(handed)
  {
    if handed != [] {
      assert (handed + calls)[0] == handed[0];
    }
  }

  lemma FirstCall(b: ReorderBuf, f: Frame, handed: seq<Frame>)
    ensures f.seqID == b.expected && handed == [] && f.kind != Open ==> !Proper(handed + Receive(b, f).1)
  {
    if f.seqID == b.expected {
      assert Receive(b, f).1[0] == f;
      assert [] + Receive(b, f).1 == Receive(b, f).1;
    }
  }

  lemma OldFrame(numbered: seq<Frame>, b: ReorderBuf, seen: set<int>, f: Frame)
    requires Holds(numbered, b, seen) && f.seqID == 1 && b.expected >= 2
    ensures Receive(b, f) == (b, []) && Holds(numbered, b, seen + {1})
  {
    assert seen + {1} == seen;
  }

  lemma GivenMore(a: Adapter, calls: seq<Frame>, b: Adapter)
    requires GivenSince(a) && AllPlain(calls)
    requires b.conns == DispatchAll(a, calls).conns && b.current == DispatchAll(a, calls).current
    requires b.handed == a.handed + calls
    ensures GivenSince(b)
  {
    hide DispatchAll, Payloads;
    DispatchCurrent(a, calls);
    if a.current.Some? && a.current.value < |a.conns| && !a.conns[a.current.value].closed {
      var i := a.current.value;
      var c := a.conns[i];
      DispatchWrites(a, calls, i);
      if c.start.Some? {
        var k := c.start.value;
        assert b.handed[k..] == a.handed[k..] + calls;
        PayloadsAppend(a.handed[k..], calls);
      }
    }
  }

  lemma {:induction false} DispatchCurrent(a: Adapter, calls: seq<Frame>)
    ensures var b := DispatchAll(a, calls);
      b.current == a.current && |b.conns| == |a.conns|
      && forall i :: 0 <= i < |a.conns| ==>
        b.conns[i].closed == a.conns[i].closed && b.conns[i].start == a.conns[i].start
    decreases |calls|
  {
    if calls != [] {
      DispatchCurrent(Dispatch(a, calls[0]), calls[1..]);
    }
  }

  lemma DeliverOk(n: Net, f: Frame)
    requires HelperOk(n) && AdapterOk(n) && f in n.net
    ensures AdapterOk(StepAdapter(n, Deliver(f)))
  {
    hide Holds, Receive, DispatchAll, Payloads, PlainPending, GivenSince, InOrder, Proper;
    var a, m := n.adapter, StepAdapter(n, Deliver(f));
    if Proper(m.adapter.handed) {
      DeliverInOrder(n, f);
    }
    PlainKnown(n, f);
    ReceivePlain(a.buf, f);
    GivenMore(a, Receive(a.buf, f).1, m.adapter);
  }

  lemma DropOk(n: Net)
    requires AdapterOk(n) && |n.numbered| < U32 - 1
    ensures AdapterOk(Drop(n))
  {
    hide Payloads, Holds;
    NewBuffer(n.numbered);
    assert n.numbered[..0] == [];
  }

  lemma AdapterSteps(n: Net, e: Event)
    requires HelperOk(n) && AdapterOk(n)
    ensures AdapterOk(StepAdapter(n, e)) && HelperOk(StepAdapter(n, e))
  {
    hide Payloads, Holds, HelperOk, PlainPending, InOrder, Receive, DispatchAll, Proper;
    HelperSame(n, StepAdapter(n, e));
    match e
    case Deliver(f) => if f in n.net { DeliverOk(n, f); }
    case RemoveBuffer => if n.adapter.dropping > 0 { RemoveOk(n); }
    case DropBuffers => NumbersBounded(n); DropOk(n);
    case Register =>
      if n.adapter.dialing > 0 {
        assert n.adapter.handed[|n.adapter.handed|..] == [];
        NoBytes();
      }
    case _ =>
  }

  lemma NoBytes()
    ensures Payloads([]) == []
  {
  }

  lemma NumbersBounded(n: Net)
    requires HelperOk(n)
    ensures |n.numbered| < U32 - 1
  {
    hide Payloads;
  }

  lemma RemoveOk(n: Net)
    requires HelperOk(n) && AdapterOk(n) && n.adapter.dropping > 0
    ensures AdapterOk(StepAdapter(n, RemoveBuffer))
  {
    hide Payloads, Holds, HelperOk;
    NumbersBounded(n);
    DropOk(n.(adapter := n.adapter.(dropping := n.adapter.dropping - 1)));
  }

  lemma {:induction false} RunOk(id: uint32, events: seq<Event>)
    requires CountersKept(id, events) && InRange(RunAll(id, events))
    ensures HelperOk(RunAll(id, events)) && AdapterOk(RunAll(id, events))
    decreases |events|
  {
    hide HelperOk, AdapterOk, StepHelper, StepAdapter;
    if events == [] {
      StartOk(id);
    } else {
      var before, e := events[..|events| - 1], events[|events| - 1];
      var n := RunAll(id, before);
      NumbersGrow(n, e);
      RunOk(id, before);
      HelperKeeps(n, e);
      HelperLeaves(n, e);
      AdapterSteps(StepHelper(n, e), e);
    }
  }

  lemma StartOk(id: uint32)
    ensures HelperOk(Start(id)) && AdapterOk(Start(id))
  {
  }

  // What a connection is given

  /** The connection is the current one, open, and its buffer, which began with the OPEN frame,
      had handed on k frames when it came. */
  predicate Serves(a: Adapter, i: nat, k: nat) {
    && i < |a.conns| && a.current == Some(i) && !a.conns[i].closed && a.conns[i].start == Some(k)
    && Proper(a.handed)
  }

  lemma GivenSlice(n: Net, i: nat, k: nat)
    requires HelperOk(n) && AdapterOk(n) && Serves(n.adapter, i, k)
    ensures k <= |n.numbered| && k <= |n.adapter.handed| <= |n.numbered|
    ensures Payloads(n.numbered[..k]) + n.adapter.conns[i].written == Payloads(n.adapter.handed)
    ensures n.adapter.handed == n.numbered[..|n.adapter.handed|] && Payloads(n.adapter.handed) <= n.helper.read
  {
    hide Payloads, Holds, PlainPending, Known, Shape, Numbered;
    var handed := n.adapter.handed;
    assert handed == n.numbered[..|handed|];
    assert handed[..k] == n.numbered[..k] && handed[..k] + handed[k..] == handed;
    PayloadsAppend(handed[..k], handed[k..]);
    PayloadsOfPrefix(n.numbered, |handed|);
  }

  /** Any connection, in any run in which the counters are kept: it is given the bytes that
      were read from where the present buffer stood when it was registered, so from the start
      if no bytes had been handed on while it was dialled. Then what it is given is a prefix of
      what was read; else it is one only as far as the bytes repeat themselves at that
      distance. And when all has come through, it has all that was read if and only if none was
      handed on while it was dialled. */
  lemma {:induction false} LaterConnection(id: uint32, events: seq<Event>, i: nat, k: nat)
    requires CountersKept(id, events) && InRange(RunAll(id, events))
    requires Serves(RunAll(id, events).adapter, i, k)
    ensures var n := RunAll(id, events); var written, read := n.adapter.conns[i].written, n.helper.read;
      && k <= |n.numbered|
      && var missed := Payloads(n.numbered[..k]);
      && missed + written <= read
      && (missed == [] ==> written <= read)
      && (written <= read <==> forall q :: 0 <= q < |written| ==> read[q] == read[|missed| + q])
      && (|n.adapter.handed| == |n.numbered| && HasBytes(n.helper) && n.helper.held == [] ==>
            (written == read <==> missed == []))
  {
    hide RunAll, CountersKept, AdapterOk, HelperOk, Payloads;
    RunOk(id, events);
    var n := RunAll(id, events);
    GivenSlice(n, i, k);
    Aligned(Payloads(n.numbered[..k]), n.adapter.conns[i].written, n.helper.read);
    if |n.adapter.handed| == |n.numbered| && HasBytes(n.helper) && n.helper.held == [] {
      AllRead(n);
      assert n.numbered[..|n.numbered|] == n.numbered;
    }
  }

  lemma Aligned(missed: bytes, written: bytes, read: bytes)
    requires missed + written <= read
    ensures missed == [] ==> written <= read
    ensures written <= read <==> forall q :: 0 <= q < |written| ==> read[q] == read[|missed| + q]
    ensures missed + written == read ==> (written == read <==> missed == [])
  {
    assert missed == [] ==> missed + written == written;
    assert forall q :: 0 <= q < |written| ==> (missed + written)[|missed| + q] == written[q] == read[|missed| + q];
  }

  lemma AllRead(n: Net)
    requires HelperOk(n) && HasBytes(n.helper) && n.helper.held == []
    ensures Payloads(n.numbered) == n.helper.read
  {
    assert Payloads(n.numbered) + [] == Payloads(n.numbered);
  }

  /** The connection is closed or no longer the current one. */
  predicate Settled(a: Adapter, i: nat) { i < |a.conns| && (a.conns[i].closed || a.current != Some(i)) }

  lemma SettledStep(n: Net, e: Event, i: nat)
    requires Settled(n.adapter, i)
    ensures var m := Step(n, e);
      && Settled(m.adapter, i) && m.adapter.conns[i].written == n.adapter.conns[i].written
      && n.helper.read <= m.helper.read
  {
    hide StepHelper, Receive, DispatchAll;
    HelperGrows(n, e);
    match e
    case Deliver(f) => DispatchSpares(n.adapter, Receive(n.adapter.buf, f).1, i);
    case _ =>
  }

  lemma {:induction false} SettledStays(n: Net, more: seq<Event>, i: nat)
    requires Settled(n.adapter, i)
    ensures var m := Follow(n, more);
      && Settled(m.adapter, i) && m.adapter.conns[i].written == n.adapter.conns[i].written
      && n.helper.read <= m.helper.read
    decreases |more|
  {
    hide Settled, Step;
    if more == [] {
    } else {
      SettledStays(n, more[..|more| - 1], i);
      SettledStep(Follow(n, more[..|more| - 1]), more[|more| - 1], i);
    }
  }

  lemma SettlingWritesNothing(n: Net, e: Event, i: nat)
    requires i < |n.adapter.conns| && !Settled(n.adapter, i) && Settled(Step(n, e).adapter, i)
    ensures Step(n, e).adapter.conns[i].written == n.adapter.conns[i].written && n.helper.read <= Step(n, e).helper.read
  {
    hide StepHelper, Receive, DispatchAll;
    HelperGrows(n, e);
    match e
    case Deliver(f) => DispatchCurrent(n.adapter, Receive(n.adapter.buf, f).1);
    case _ =>
  }

  /** And that is how it stays: the event after which it is closed or no longer the current one
      writes nothing to it, and neither does anything that follows. */
  lemma {:induction false} LaterConnectionEnds(id: uint32, events: seq<Event>, e: Event, more: seq<Event>,
                                               i: nat, k: nat)
    requires CountersKept(id, events) && InRange(RunAll(id, events))
    requires Serves(RunAll(id, events).adapter, i, k) && Settled(RunAll(id, events + [e]).adapter, i)
    ensures var n, m := RunAll(id, events), RunAll(id, events + [e] + more);
      && k <= |n.numbered| && i < |m.adapter.conns|
      && m.adapter.conns[i].written == n.adapter.conns[i].written
      && Payloads(n.numbered[..k]) + m.adapter.conns[i].written <= m.helper.read
  {
    hide RunAll, CountersKept, Payloads, Step, Follow;
    LaterConnection(id, events, i, k);
    RunStep(id, events, e);
    SettlingWritesNothing(RunAll(id, events), e, i);
    SettledStays(RunAll(id, events + [e]), more, i);
    RunFollows(id, events + [e], more);
  }

  // Dials

  function OpensIn(calls: seq<Frame>): nat {
    if calls == [] then 0 else (if calls[0].kind == Open then 1 else 0) + OpensIn(calls[1..])
  }

  /** How many OPEN frames the buffers have handed on in a run, and how many dials have failed. */
  function OpensHandled(id: uint32, events: seq<Event>): nat
    decreases |events|
  {
    if events == [] then 0
    else
      var before, e := events[..|events| - 1], events[|events| - 1];
      var n := StepHelper(RunAll(id, before), e);
      OpensHandled(id, before) +
        if e.Deliver? && e.frame in n.net then OpensIn(Receive(n.adapter.buf, e.frame).1) else 0
  }

  function DialsFailed(id: uint32, events: seq<Event>): nat
    decreases |events|
  {
    if events == [] then 0
    else
      var before, e := events[..|events| - 1], events[|events| - 1];
      DialsFailed(id, before) + if e.DialFails? && RunAll(id, before).adapter.dialing > 0 then 1 else 0
  }

  lemma {:induction false} DispatchDials(a: Adapter, calls: seq<Frame>)
    ensures var b := DispatchAll(a, calls); b.dialing == a.dialing + OpensIn(calls) && |b.conns| == |a.conns|
    decreases |calls|
  {
    if calls != [] {
      DispatchDials(Dispatch(a, calls[0]), calls[1..]);
    }
  }

  lemma StepDials(n: Net, e: Event)
    ensures var a, b := n.adapter, StepAdapter(n, e).adapter;
      var opens := if e.Deliver? && e.frame in n.net then OpensIn(Receive(a.buf, e.frame).1) else 0;
      a.dialing + |a.conns| + opens == b.dialing + |b.conns| + if e.DialFails? && a.dialing > 0 then 1 else 0
  {
    hide Receive, DispatchAll;
    match e
    case Deliver(f) => DispatchDials(n.adapter, Receive(n.adapter.buf, f).1);
    case _ =>
  }

  /** Every OPEN frame handed on is being dialled, has failed to be, or has become a connection:
      in any run, none is forgotten and none counts twice. */
  lemma {:induction false} EveryOpenAccounted(id: uint32, events: seq<Event>)
    ensures var a := RunAll(id, events).adapter;
      OpensHandled(id, events) == a.dialing + DialsFailed(id, events) + |a.conns|
    decreases |events|
  {
    hide StepHelper, StepAdapter, Receive;
    if events != [] {
      var before, e := events[..|events| - 1], events[|events| - 1];
      EveryOpenAccounted(id, before);
      HelperGrows(RunAll(id, before), e);
      StepDials(StepHelper(RunAll(id, before), e), e);
    }
  }

  // Missing bytes

  /** The first connection is closed before anything has come; the OPEN frame comes again, and
      while the adapter dials, the first bytes come and find no connection. */
  lemma MissedWhileDialling(id: uint32) returns (events: seq<Event>)
    ensures var n := RunAll(id, events);
      |n.adapter.conns| == 2 && n.adapter.conns[1].written == [2] && n.helper.read == [1, 2]
  {
    hide RunAll, Reaches, Receive, DispatchAll;
    var open, first, second := Frame(Open, id, 1, []), Frame(Data, id, 2, [1]), Frame(Data, id, 3, [2]);
    var o, n := Start(id), Start(id);
    events, n := BothRead(id);
    events, n := Then(o, events, n, CloseAdapter(0));
    events, n := Then(o, events, n, RemoveStream);
    events, n := Then(o, events, n, RemoveBuffer);
    ReceiveInOrder(open, 0);
    DispatchOpen(n.adapter, [open]);
    events, n := Then(o, events, n, Deliver(open));
    ReceiveInOrder(first, 1);
    DispatchLost(n.adapter, first);
    events, n := Then(o, events, n, Deliver(first));
    events, n := Then(o, events, n, Register);
    events, n := SecondByte(o, events, n, second);
    RunReaches(id, events, n);
  }

  lemma SecondByte(o: Net, before: seq<Event>, n: Net, second: Frame) returns (events: seq<Event>, m: Net)
    requires Reaches(o, before, n) && second in n.net && second == Frame(Data, n.id, 3, [2])
    requires n.adapter.buf == ReorderBuf(3, map[]) && |n.adapter.conns| == 2 && n.adapter.current == Some(1)
    requires !n.adapter.conns[1].closed && n.adapter.conns[1].written == []
    ensures Reaches(o, events, m) && m.helper == n.helper
    ensures |m.adapter.conns| == 2 && m.adapter.conns[1].written == [2]
  {
    hide Reaches, Receive, DispatchAll;
    ReceiveInOrder(second, 2);
    assert AllPlain([second]);
    DispatchWrites(n.adapter, [second], 1);
    OnePayload(second);
    assert [] + [2] == [2];
    events, m := Then(o, before, n, Deliver(second));
  }

  lemma DispatchLost(a: Adapter, f: Frame)
    requires f.kind == Data && a.current.None?
    ensures DispatchAll(a, [f]) == a
  {
    assert [f][1..] == [];
  }

  /** A stream that is open on both sides, with two bytes under way in two frames. */
  lemma BothRead(id: uint32) returns (events: seq<Event>, n: Net)
    ensures Reaches(Start(id), events, n) && n.id == id
    ensures n.net == {Frame(Open, id, 1, []), Frame(Data, id, 2, [1]), Frame(Data, id, 3, [2])}
    ensures n.helper.read == [1, 2]
    ensures Quiet(n.adapter) && n.adapter.dialing == 0 && n.adapter.current == Some(0)
    ensures n.adapter.conns == [Conn([], false, Some(1))]
  {
    hide Reaches;
    var o := Start(id);
    events, n := Opened(id);
    assert [] + [1] == [1] && [] + [2] == [2] && [1] + [2] == [1, 2];
    events, n := ReadAndSend(o, events, n, [1], true);
    events, n := ReadAndSend(o, events, n, [2], true);
  }
}
