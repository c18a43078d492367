/** The condition under which a yac stream is safe is exact: after any orderly run, a step of
    CloseAll goes against it if and only if events can follow that do not, and that end in a
    broken promise. */
module YacExact {
  import opened Bytes
  import opened YacReorder
  import opened YacStreams
  import opened YacSession

  // Runs that go on from a state

  function Follow(n: Net, events: seq<Event>): Net
    decreases |events|
  {
    if events == [] then n else Step(Follow(n, events[..|events| - 1]), events[|events| - 1])
  }

  lemma {:induction false} RunFollows(id: uint32, events: seq<Event>, more: seq<Event>)
    ensures RunAll(id, events + more) == Follow(RunAll(id, events), more)
    decreases |more|
  {
    hide Step;
    if more == [] {
      assert events + more == events;
    } else {
      var before, e := more[..|more| - 1], more[|more| - 1];
      RunFollows(id, events, before);
      assert events + more == events + before + [e];
      assert (events + before + [e])[..|events + before|] == events + before;
    }
  }

  /** No event is a step of CloseAll that must not happen where it stands. */
  ghost predicate Lawful(o: Net, events: seq<Event>)
    decreases |events|
  {
    events == [] || (var before := events[..|events| - 1];
      Lawful(o, before) && !Breaks(Follow(o, before), events[|events| - 1]))
  }

  ghost predicate Reaches(o: Net, events: seq<Event>, n: Net) { Follow(o, events) == n && Lawful(o, events) }

  lemma ReachesItself(o: Net)
    ensures Reaches(o, [], o)
  {
  }

  predicate OfCloseAll(e: Event) { e.DropBuffers? || e.ClearCounters? }

  lemma Lawfully(o: Net, events: seq<Event>, n: Net, e: Event) returns (more: seq<Event>, m: Net)
    requires Reaches(o, events, n) && !Breaks(n, e)
    ensures Reaches(o, more, m) && m == Step(n, e)
  {
    hide Breaks, Step;
    more, m := events + [e], Step(n, e);
    assert more[..|events|] == events;
  }

  lemma Then(o: Net, events: seq<Event>, n: Net, e: Event) returns (more: seq<Event>, m: Net)
    requires Reaches(o, events, n) && !OfCloseAll(e)
    ensures Reaches(o, more, m) && m == Step(n, e)
  {
    hide Reaches, Step;
    more, m := Lawfully(o, events, n, e);
  }

  // Breaking with one frame

  predicate Reader(h: Helper) { h.phase.Reading? && !h.closed }

  lemma ReadAndSend(o: Net, before: seq<Event>, n: Net, data: bytes, out: bool) returns (events: seq<Event>, m: Net)
    requires Reaches(o, before, n) && Reader(n.helper) && n.helper.held + data != []
    ensures Reaches(o, events, m) && m.adapter == n.adapter && m.id == n.id
    ensures m == Number(n, Data, n.helper.held + data, out).(helper := m.helper)
    ensures m.helper == n.helper.(counter := Next(n.helper.counter), read := n.helper.read + data, held := [])
  {
    hide Reaches;
    events, m := Then(o, before, n, Read(data));
    events, m := Then(o, events, m, Send(out));
  }

  /** A byte other than the one that should come next. */
  function OtherByte(read: bytes, at: nat): byte {
    if at < |read| && read[at] == 0 then 1 else 0
  }

  lemma WrongByte(read: bytes, written: bytes, more: bytes)
    requires |written| < |read|
    ensures !(written + [OtherByte(read, |written|)] + more <= read + [OtherByte(read, |written|)])
  {
    var b, at := OtherByte(read, |written|), |written|;
    assert (written + [b] + more)[at] == b && (read + [b])[at] == read[at] != b;
  }

  /** A frame for the connection, wrong from its first byte on. */
  lemma DeliverWrong(o: Net, before: seq<Event>, n: Net, f: Frame, read: bytes) returns (events: seq<Event>, m: Net)
    requires Reaches(o, before, n) && Writable(n.adapter) && f in n.net && f.seqID == n.adapter.buf.expected
    requires |n.adapter.conns[0].written| < |read| && f.kind == Data
    requires f.payload == [OtherByte(read, |n.adapter.conns[0].written|)] && n.helper.read == read + f.payload
    ensures Reaches(o, events, m) && !Kept(m) && m.numbered == n.numbered
  {
    hide Reaches, Drain, DispatchAll;
    var a := n.adapter;
    var rest := Drain(a.buf.(expected := Next(a.buf.expected))).1;
    var b := Dispatch(a, f);
    assert ([f] + rest)[0] == f && ([f] + rest)[1..] == rest;
    DispatchFirst(a, f, rest);
    var extra := DispatchExtends(b, rest);
    WrongByte(read, a.conns[0].written, extra);
    events, m := Then(o, before, n, Deliver(f));
  }

  lemma DispatchFirst(a: Adapter, f: Frame, rest: seq<Frame>)
    ensures DispatchAll(a, [f] + rest) == DispatchAll(Dispatch(a, f), rest)
  {
    assert ([f] + rest)[1..] == rest;
  }

  /** Dispatching only adds to what has been written. */
  lemma {:induction false} DispatchExtends(a: Adapter, calls: seq<Frame>) returns (extra: bytes)
    requires |a.conns| > 0
    ensures var b := DispatchAll(a, calls); |b.conns| > 0 && b.conns[0].written == a.conns[0].written + extra
    decreases |calls|
  {
    if calls == [] {
      extra := [];
      assert a.conns[0].written + [] == a.conns[0].written;
    } else {
      var b := Dispatch(a, calls[0]);
      var first := if b.conns[0].written == a.conns[0].written then [] else calls[0].payload;
      assert a.conns[0].written + [] == a.conns[0].written;
      var rest := DispatchExtends(b, calls[1..]);
      extra := first + rest;
      Assoc(a.conns[0].written, first, rest);
    }
  }

  /** With a new buffer, the frame that ReadLoop sends after the close is taken for the first. */
  lemma BreakByRogue(o: Net, before: seq<Event>, n: Net) returns (events: seq<Event>, m: Net)
    requires Reaches(o, before, n) && Writable(n.adapter) && n.adapter.buf.expected == 1
    requires Reader(n.helper) && n.helper.counter == |n.numbered| >= 1 && |n.numbered| + 1 < U32 - 1
    requires n.adapter.conns[0].written <= n.helper.read
    ensures Reaches(o, events, m) && !Kept(m) && InRange(m)
  {
    hide Reaches, Kept, StepAdapter;
    var w := |n.adapter.conns[0].written|;
    events, m := ReadAndSend(o, before, n, [0], false);
    var read := m.helper.read;
    var b := OtherByte(read, w);
    events, m := Rogue(o, events, m, [b]);
    var f := Frame(Data, m.id, 1, [b]);
    events, m := DeliverWrong(o, events, m, f, read);
  }

  lemma Rogue(o: Net, before: seq<Event>, n: Net, data: bytes) returns (events: seq<Event>, m: Net)
    requires Reaches(o, before, n) && Reader(n.helper) && n.helper.held == [] && data != [] && |n.numbered| > 0
    ensures Reaches(o, events, m) && m.adapter == n.adapter && m.id == n.id && m.numbered == n.numbered
    ensures m.helper.read == n.helper.read + data && Frame(Data, n.id, 1, data) in m.net
  {
    hide Reaches;
    assert [] + data == data;
    events, m := Then(o, before, n, Read(data));
    events, m := Then(o, events, m, CloseHelper);
    assert m == n.(helper := n.helper.(read := n.helper.read + data, held := data, closed := true));
    events, m := SendAsFirst(o, events, m);
  }

  /** After the close the counter goes, and what is held is sent under the number 1. */
  lemma SendAsFirst(o: Net, before: seq<Event>, n: Net) returns (events: seq<Event>, m: Net)
    requires Reaches(o, before, n) && n.helper.phase.Reading? && n.helper.closed && n.helper.held != []
    requires |n.numbered| > 0
    ensures Reaches(o, events, m) && m.adapter == n.adapter && m.id == n.id && m.numbered == n.numbered
    ensures m.helper.read == n.helper.read && m.net == n.net + {Frame(Data, n.id, 1, n.helper.held)}
  {
    hide Reaches;
    events, m := Then(o, before, n, RemoveHelper);
    events, m := Then(o, events, m, Send(true));
  }

  /** With the counter gone, frames are lost as old until one has the number expected next. */
  lemma {:induction false} BurnNumbers(o: Net, before: seq<Event>, n: Net, target: nat)
    returns (events: seq<Event>, m: Net)
    requires Reaches(o, before, n) && Reader(n.helper) && n.helper.counter < target <= |n.numbered| < U32 - 1
    ensures Reaches(o, events, m) && m.adapter == n.adapter && m.id == n.id && m.numbered == n.numbered
    ensures Reader(m.helper) && m.helper.counter == target && m.helper.held == []
    ensures n.helper.read <= m.helper.read && |n.helper.read| < |m.helper.read|
    decreases target - n.helper.counter
  {
    hide Reaches;
    events, m := ReadAndSend(o, before, n, [0], false);
    if m.helper.counter < target {
      events, m := BurnNumbers(o, events, m, target);
    }
  }

  lemma BreakByRenumbering(o: Net, before: seq<Event>, n: Net) returns (events: seq<Event>, m: Net)
    requires Reaches(o, before, n) && Writable(n.adapter) && 2 <= n.adapter.buf.expected <= |n.numbered| + 1
    requires Reader(n.helper) && n.helper.counter == 0 && |n.numbered| + 1 < U32 - 1
    requires n.adapter.conns[0].written <= n.helper.read
    ensures Reaches(o, events, m) && !Kept(m) && InRange(m)
  {
    hide Reaches, Kept, StepAdapter, StepHelper;
    var w := |n.adapter.conns[0].written|;
    events, m := BurnNumbers(o, before, n, n.adapter.buf.expected - 1);
    var read := m.helper.read;
    var b := OtherByte(read, w);
    var f := Frame(Data, m.id, n.adapter.buf.expected, [b]);
    assert [] + [b] == [b];
    events, m := ReadAndSend(o, events, m, [b], true);
    assert f in m.net;
    events, m := DeliverWrong(o, events, m, f, read);
  }

  // Getting a waiting helper to read

  lemma Answer(o: Net, before: seq<Event>, n: Net) returns (events: seq<Event>, m: Net)
    requires Reaches(o, before, n) && n.helper.phase.Opening? && |n.adapter.conns| > 0
    ensures Reaches(o, events, m)
    ensures m == n.(okSent := true, helper := n.helper.(answered := true, phase := Reading))
  {
    hide Reaches;
    events, m := Then(o, before, n, Announce);
    events, m := Then(o, events, m, GetOK);
    events, m := Then(o, events, m, Proceed);
  }

  // Delivering what the network still has

  /** Nothing but the adapter has changed. */
  predicate SameElse(n: Net, m: Net) {
    m.id == n.id && m.helper == n.helper && m.net == n.net && m.numbered == n.numbered && m.okSent == n.okSent
  }

  lemma ReceiveInOrder(f: Frame, j: nat)
    requires f.seqID == j + 1 && j + 1 < U32 - 1
    ensures Receive(ReorderBuf(j + 1, map[]), f) == (ReorderBuf(j + 2, map[]), [f])
  {
    assert Drain(ReorderBuf(j + 2, map[])) == (ReorderBuf(j + 2, map[]), []);
    assert [f] + [] == [f];
  }

  lemma {:induction false} DeliverFrom(o: Net, before: seq<Event>, n: Net, fs: seq<Frame>, j: nat)
    returns (events: seq<Event>, m: Net)
    requires Reaches(o, before, n) && InLine(n.net, fs) && AllPlain(fs) && |fs| < U32 - 1 && j <= |fs|
    requires Writable(n.adapter) && n.adapter.buf == ReorderBuf(j + 1, map[])
    ensures Reaches(o, events, m) && SameElse(n, m) && Writable(m.adapter)
    ensures m.adapter.conns[0].written == n.adapter.conns[0].written + Payloads(fs[j..])
    decreases |fs| - j
  {
    hide Reaches, Receive, DispatchAll;
    var w := n.adapter.conns[0].written;
    if j == |fs| {
      events, m := before, n;
      assert fs[j..] == [] && w + [] == w;
    } else {
      var f := fs[j];
      ReceiveInOrder(f, j);
      assert AllPlain([f]);
      DispatchWrites(n.adapter, [f], 0);
      OnePayload(f);
      events, m := Then(o, before, n, Deliver(f));
      events, m := DeliverFrom(o, events, m, fs, j + 1);
      assert fs[j..] == [f] + fs[j + 1..];
      PayloadsAppend([f], fs[j + 1..]);
      Assoc(w, f.payload, Payloads(fs[j + 1..]));
    }
  }

  lemma OnePayload(f: Frame)
    ensures Payloads([f]) == f.payload
  {
    assert Payloads([f]) == f.payload + Payloads([]);
  }

  /** What a helper that has read all offers can be had. */
  lemma Obtain(o: Net, before: seq<Event>, n: Net, net: set<Frame>) returns (events: seq<Event>, m: Net)
    requires Reaches(o, before, n) && HelperOk(n) && Finished(n.helper) && Offers(n.id, n.helper, n.net, net)
    requires |n.numbered| + 1 < U32 - 1
    ensures Reaches(o, events, m) && HelperOk(m) && InRange(m)
    ensures m.net == net && m.adapter == n.adapter && m.helper.read == n.helper.read
  {
    hide Reaches, HelperOk;
    events, m := before, n;
    if net != n.net {
      if n.helper.phase.Ending? {
        events, m := ObtainFin(o, before, n, net);
      } else {
        events, m := ObtainData(o, before, n, net);
      }
    }
  }

  lemma OneStep(n: Net, e: Event)
    requires HelperOk(n) && InRange(StepHelper(n, e)) && (e.RemoveHelper? || e.CloseHelper? || e.Send? || e.SendFin?)
    ensures HelperOk(Step(n, e))
  {
    hide HelperOk;
    HelperKeeps(n, e);
  }

  lemma ObtainData(o: Net, before: seq<Event>, n: Net, net: set<Frame>) returns (events: seq<Event>, m: Net)
    requires Reaches(o, before, n) && HelperOk(n) && |n.numbered| + 1 < U32 - 1
    requires n.helper.phase.Reading? && n.helper.closed && n.helper.held != []
    requires var h := n.helper;
      net == n.net + {Frame(Data, n.id, Next(h.counter), h.held)} || net == n.net + {Frame(Data, n.id, 1, h.held)}
    ensures Reaches(o, events, m) && HelperOk(m) && InRange(m)
    ensures m.net == net && m.adapter == n.adapter && m.helper.read == n.helper.read
  {
    hide Reaches, HelperOk;
    events, m := before, n;
    if net != n.net + {Frame(Data, n.id, Next(n.helper.counter), n.helper.held)} {
      OneStep(m, RemoveHelper);
      events, m := Then(o, events, m, RemoveHelper);
    }
    OneStep(m, Send(true));
    events, m := Then(o, events, m, Send(true));
  }

  lemma ObtainFin(o: Net, before: seq<Event>, n: Net, net: set<Frame>) returns (events: seq<Event>, m: Net)
    requires Reaches(o, before, n) && HelperOk(n) && n.helper.phase.Ending? && |n.numbered| + 1 < U32 - 1
    requires net == n.net + {Frame(Fin, n.id, Next(n.helper.counter), [])} || net == n.net + {Frame(Fin, n.id, 1, [])}
    ensures Reaches(o, events, m) && HelperOk(m) && InRange(m)
    ensures m.net == net && m.adapter == n.adapter && m.helper.read == n.helper.read
  {
    hide Reaches, HelperOk;
    events, m := before, n;
    if net != n.net + {Frame(Fin, n.id, Next(n.helper.counter), [])} {
      OneStep(m, CloseHelper);
      events, m := Then(o, events, m, CloseHelper);
      OneStep(m, RemoveHelper);
      events, m := Then(o, events, m, RemoveHelper);
    }
    OneStep(m, SendFin(true));
    events, m := Then(o, events, m, SendFin(true));
  }

  lemma InLinePlain(n: Net, fs: seq<Frame>)
    requires HelperOk(n) && InLine(n.net, fs)
    ensures AllPlain(fs) && |fs| < U32 - 1
  {
    hide HelperOk;
    forall i | 0 <= i < |fs| ensures Plain(fs[i]) {
      PlainKnown(n, fs[i]);
    }
    if fs != [] {
      PlainKnown(n, fs[|fs| - 1]);
    }
  }

  // The four cases

  /** The buffer is dropped while the connection is open and the helper reads on. */
  lemma DroppedWhileReading(o: Net, before: seq<Event>, n: Net) returns (events: seq<Event>, m: Net)
    requires Reaches(o, before, n) && HelperOk(n) && !Finished(n.helper) && !n.helper.phase.Fresh?
    requires Writable(n.adapter) && n.adapter.buf == EMPTY && |n.numbered| + 1 < U32 - 1
    requires n.adapter.conns[0].written <= n.helper.read
    ensures Reaches(o, events, m) && !Kept(m) && InRange(m)
  {
    hide Reaches, Kept, Known, Shape, Numbered, Payloads;
    events, m := before, n;
    if n.helper.phase.Opening? {
      events, m := Answer(o, events, m);
    }
    events, m := BreakByRogue(o, events, m);
  }

  /** Or it is dropped when the helper has read all, and what can come again does not fit. */
  lemma DroppedWhenFinished(n: Net) returns (events: seq<Event>, m: Net)
    requires HelperOk(n) && Writable(n.adapter) && Finished(n.helper) && |n.numbered| + 1 < U32 - 1
    requires !AllFit(n.id, n.helper, n.net, n.adapter.conns[0].written)
    ensures Reaches(Drop(n), events, m) && !Kept(m) && InRange(m)
  {
    hide Reaches, HelperOk, Payloads, Offers, Finished;
    var o := Drop(n);
    HelperSame(n, o);
    var written := n.adapter.conns[0].written;
    var net, fs :| Offers(n.id, n.helper, n.net, net) && InLine(net, fs)
      && !(written + Payloads(fs) <= n.helper.read);
    ReachesItself(o);
    events, m := Obtain(o, [], o, net);
    InLinePlain(m, fs);
    events, m := DeliverFrom(o, events, m, fs, 0);
    assert fs[0..] == fs;
  }

  lemma DroppedWhileDialling(o: Net, before: seq<Event>, n: Net) returns (events: seq<Event>, m: Net)
    requires Reaches(o, before, n) && HelperOk(n) && n.helper.phase.Opening? && |n.numbered| + 1 < U32 - 1
    requires |n.adapter.conns| == 0 && n.adapter.dialing > 0 && n.adapter.buf == EMPTY
    ensures Reaches(o, events, m) && !Kept(m) && InRange(m)
  {
    hide Reaches, Kept, HelperOk;
    events, m := Then(o, before, n, Register);
    HelperSame(n, m);
    events, m := DroppedWhileReading(o, events, m);
  }

  /** The counters are cleared while the helper waits or reads. */
  lemma ClearedWhileReading(o: Net, before: seq<Event>, n: Net) returns (events: seq<Event>, m: Net)
    requires Reaches(o, before, n) && n.helper.counter == 0 && |n.numbered| + 1 < U32 - 1
    requires Reader(n.helper) || (n.helper.phase.Opening? && !n.helper.closed)
    requires Writable(n.adapter) && 2 <= n.adapter.buf.expected <= |n.numbered| + 1
    requires n.adapter.conns[0].written <= n.helper.read
    ensures Reaches(o, events, m) && !Kept(m) && InRange(m)
  {
    hide Reaches, Kept;
    events, m := before, n;
    if n.helper.phase.Opening? {
      events, m := Answer(o, events, m);
    }
    events, m := BreakByRenumbering(o, events, m);
  }

  /** The connection that is expected comes about. */
  lemma Arrange(o: Net, before: seq<Event>, n: Net) returns (events: seq<Event>, m: Net)
    requires Reaches(o, before, n) && Expected(n) && |n.numbered| == 1
    requires n.adapter.dialing > 0 ==> n.adapter.buf.expected == 2
    ensures Reaches(o, events, m) && m.helper == n.helper && m.numbered == n.numbered
    ensures Writable(m.adapter) && m.adapter.buf.expected == 2 && m.adapter.conns[0].written == []
  {
    hide Reaches, Receive, DispatchAll;
    events, m := before, n;
    if n.adapter.dialing == 0 {
      var open := Frame(Open, n.id, 1, []);
      events, m := Lawfully(o, events, m, DropBuffers);
      ReceiveInOrder(open, 0);
      DispatchOpen(m.adapter, [open]);
      events, m := Then(o, events, m, Deliver(open));
    }
    events, m := Then(o, events, m, Register);
  }

  lemma ClearedWhileWaiting(n: Net) returns (events: seq<Event>, m: Net)
    requires HelperOk(n) && Live(n) && |n.numbered| + 1 < U32 - 1
    requires n.helper.phase.Opening? && (Expected(n) || Writable(n.adapter))
    ensures Reaches(StepHelper(n, ClearCounters), events, m) && !Kept(m) && InRange(m)
  {
    hide Reaches, Kept, Known, Shape, Numbered, Payloads, Holds;
    var o := StepHelper(n, ClearCounters);
    ReachesItself(o);
    events, m := [], o;
    if Expected(n) {
      events, m := Arrange(o, events, m);
    } else {
      WrittenSoFar(n);
    }
    events, m := ClearedWhileReading(o, events, m);
  }

  // The converse

  /** Where a step must not happen, the connection is still to come or is written to. */
  lemma BreakingState(n: Net, e: Event)
    requires Inv(n) && Breaks(n, e)
    ensures HelperOk(n) && FedAll(n) && (Live(n) || Late(n))
  {
    hide HelperOk, Live, Late, FedAll, AllFit;
  }

  lemma BreakingDrop(n: Net) returns (events: seq<Event>, m: Net)
    requires HelperOk(n) && FedAll(n) && (Live(n) || Late(n))
    requires Breaks(n, DropBuffers) && |n.numbered| + 1 < U32 - 1
    ensures Reaches(Drop(n), events, m) && !Kept(m) && InRange(m)
  {
    hide Reaches, Kept, Payloads, HelperOk, FedAll, Live, Late, AllFit, Finished;
    var o := Drop(n);
    ReachesItself(o);
    HelperSame(n, o);
    if |n.adapter.conns| == 0 {
      events, m := DroppedWhileDialling(o, [], o);
    } else if Finished(n.helper) {
      events, m := DroppedWhenFinished(n);
    } else {
      SoFar(n);
      HasOpened(n);
      events, m := DroppedWhileReading(o, [], o);
    }
  }

  lemma HasOpened(n: Net)
    requires HelperOk(n) && (Live(n) || Late(n)) && |n.adapter.conns| > 0
    ensures !n.helper.phase.Fresh?
  {
    hide Payloads, Onto;
  }

  lemma BreakingClear(n: Net) returns (events: seq<Event>, m: Net)
    requires HelperOk(n) && FedAll(n) && Live(n) && Breaks(n, ClearCounters) && |n.numbered| + 1 < U32 - 1
    ensures Reaches(StepHelper(n, ClearCounters), events, m) && !Kept(m) && InRange(m)
  {
    hide Reaches, Kept, Payloads, Holds, Shape, Known, Numbered, FedAll, AllFit;
    var o := StepHelper(n, ClearCounters);
    ReachesItself(o);
    if n.helper.phase.Opening? {
      events, m := ClearedWhileWaiting(n);
    } else {
      WrittenSoFar(n);
      events, m := ClearedWhileReading(o, [], o);
    }
  }

  lemma ClearedIsLive(n: Net)
    requires (Live(n) || Late(n)) && Breaks(n, ClearCounters)
    ensures Live(n)
  {
    hide Live, Onto, AllFit;
  }

  /** After any orderly run, every step that must not happen there can be followed by events,
      none of them one that must not happen where it stands, that end in a broken promise. */
  lemma {:induction false} BreakingStepBreaks(id: uint32, events: seq<Event>, e: Event) returns (more: seq<Event>)
    requires Orderly(id, events) && Breaks(RunAll(id, events), e)
    requires |RunAll(id, events).numbered| + 1 < U32 - 1
    ensures Lawful(RunAll(id, events + [e]), more)
    ensures var m := RunAll(id, events + [e] + more); !Kept(m) && InRange(m)
  {
    hide Orderly, RunAll, Kept, HelperOk, FedAll, Live, Late, Breaks, Step;
    var n := RunAll(id, events);
    RunKeeps(id, events);
    BreakingState(n, e);
    BreakingEvent(n, e);
    var m;
    if e.DropBuffers? {
      more, m := BreakingDrop(n);
    } else {
      ClearedIsLive(n);
      more, m := BreakingClear(n);
    }
    RunStep(id, events, e);
    RunFollows(id, events + [e], more);
  }

  lemma {:induction false} OrderlyOn(id: uint32, events: seq<Event>, more: seq<Event>)
    requires Orderly(id, events) && Lawful(RunAll(id, events), more)
    ensures Orderly(id, events + more)
    decreases |more|
  {
    hide Breaks, Follow, RunAll;
    if more == [] {
      assert events + more == events;
    } else {
      var before, e := more[..|more| - 1], more[|more| - 1];
      OrderlyOn(id, events, before);
      RunFollows(id, events, before);
      assert events + more == events + before + [e];
      assert (events + before + [e])[..|events + before|] == events + before;
    }
  }

  ghost predicate Ruins(id: uint32, events: seq<Event>, more: seq<Event>) {
    var m := RunAll(id, events + more);
    Lawful(RunAll(id, events), more) && InRange(m) && !Kept(m)
  }

  /** The condition of ByteStreamSafe is exact: after any orderly run, a step is one that must
      not happen if and only if the promise can be broken after it without another such step. */
  lemma {:induction false} ExactCondition(id: uint32, events: seq<Event>, e: Event)
    requires Orderly(id, events) && |RunAll(id, events).numbered| + 1 < U32 - 1
    ensures Breaks(RunAll(id, events), e) <==> exists more :: Ruins(id, events + [e], more)
  {
    hide Breaks, RunAll, Kept, Lawful;
    if Breaks(RunAll(id, events), e) {
      var more := BreakingStepBreaks(id, events, e);
      assert Ruins(id, events + [e], more);
    } else {
      forall more ensures !Ruins(id, events + [e], more) {
        if Ruins(id, events + [e], more) {
          assert (events + [e])[..|events|] == events;
          OrderlyOn(id, events + [e], more);
          ByteStreamSafe(id, events + [e] + more);
        }
      }
    }
  }

  lemma BreakingEvent(n: Net, e: Event)
    requires Breaks(n, e)
    ensures e.DropBuffers? || e.ClearCounters?
    ensures Step(n, e) == if e.DropBuffers? then Drop(n) else StepHelper(n, ClearCounters)
  {
  }

  lemma RunStep(id: uint32, events: seq<Event>, e: Event)
    ensures RunAll(id, events + [e]) == Step(RunAll(id, events), e)
  {
    assert (events + [e])[..|events|] == events;
  }

  // The condition is about CloseAll alone, and there are such steps

  lemma {:induction false} WithoutCloseAll(id: uint32, events: seq<Event>)
    requires forall i :: 0 <= i < |events| ==> !events[i].DropBuffers? && !events[i].ClearCounters?
    ensures Orderly(id, events)
    decreases |events|
  {
    hide RunAll;
    if events != [] {
      WithoutCloseAll(id, events[..|events| - 1]);
    }
  }

  /** After the OPEN frame has come, CloseAll on either side can break the stream, before the
      connection is registered and after. */
  lemma CloseAllCanBreak(id: uint32)
    ensures var dialled := [SendOpen(true), Deliver(Frame(Open, id, 1, []))];
      && Orderly(id, dialled) && Orderly(id, dialled + [Register])
      && Breaks(RunAll(id, dialled), DropBuffers) && Breaks(RunAll(id, dialled), ClearCounters)
      && Breaks(RunAll(id, dialled + [Register]), DropBuffers)
      && Breaks(RunAll(id, dialled + [Register]), ClearCounters)
  {
    hide Orderly, RunAll, Receive, DispatchAll;
    var open := Frame(Open, id, 1, []);
    var dialled := [SendOpen(true), Deliver(open)];
    WithoutCloseAll(id, dialled);
    WithoutCloseAll(id, dialled + [Register]);
    RunNothing(id);
    RunStep(id, [], SendOpen(true));
    RunStep(id, [SendOpen(true)], Deliver(open));
    RunStep(id, dialled, Register);
    assert [] + [SendOpen(true)] == [SendOpen(true)] && [SendOpen(true)] + [Deliver(open)] == dialled;
    var n := RunAll(id, [SendOpen(true)]);
    assert {} + {open} == {open};
    ReceiveInOrder(open, 0);
    DispatchOpen(n.adapter, [open]);
  }

  /** And there are steps of CloseAll that do no harm though bytes have been written: here a
      replay repeats what was read once more. */
  lemma DropCanBeHarmless(id: uint32) returns (events: seq<Event>)
    ensures Orderly(id, events) && !Breaks(RunAll(id, events), DropBuffers)
    ensures Writable(RunAll(id, events).adapter) && RunAll(id, events).adapter.conns[0].written == [0]
  {
    hide Orderly, RunAll, Reaches, Breaks;
    var n;
    events, n := OneByteThrough(id);
    assert [] + [0] == [0] && [0] + [0] == [0, 0];
    events, n := ReadAndSend(Start(id), events, n, [0], false);
    events, n := Then(Start(id), events, n, CloseHelper);
    events, n := Then(Start(id), events, n, EndRead);
    RunReaches(id, events, n);
    FitsOnce(n);
  }

  lemma OneByteThrough(id: uint32) returns (events: seq<Event>, n: Net)
    ensures Reaches(Start(id), events, n) && n.id == id
    ensures n.helper == Helper(Reading, 2, true, false, [0], [])
    ensures n.net == {Frame(Open, id, 1, []), Frame(Data, id, 2, [0])}
    ensures Writable(n.adapter) && n.adapter.conns[0].written == [0]
  {
    hide Reaches, Receive, DispatchAll;
    var first := Frame(Data, id, 2, [0]);
    events, n := Opened(id);
    assert [] + [0] == [0];
    events, n := ReadAndSend(Start(id), events, n, [0], true);
    ReceiveInOrder(first, 1);
    assert AllPlain([first]);
    DispatchWrites(n.adapter, [first], 0);
    OnePayload(first);
    events, n := Then(Start(id), events, n, Deliver(first));
  }

  lemma FitsOnce(n: Net)
    requires n.helper.phase.Done? && n.helper.read == [0, 0]
    requires n.net == {Frame(Open, n.id, 1, []), Frame(Data, n.id, 2, [0])}
    requires Writable(n.adapter) && n.adapter.conns[0].written == [0]
    ensures !Breaks(n, DropBuffers)
  {
    forall fs: seq<Frame> | InLine(n.net, fs) ensures Payloads(fs) == [] || Payloads(fs) == [0] {
      if fs != [] {
        assert fs[|fs| - 1].seqID <= 2;
        assert fs == [fs[0]] || fs == [fs[0]] + [fs[1]];
        OnePayload(fs[0]);
        if |fs| == 2 {
          PayloadsSnoc([fs[0]], fs[1]);
        }
      }
    }
  }

  lemma RunReaches(id: uint32, events: seq<Event>, n: Net)
    requires Reaches(Start(id), events, n)
    ensures RunAll(id, events) == n && Orderly(id, events)
  {
    hide Follow, Lawful;
    RunFollows(id, [], events);
    RunNothing(id);
    OrderlyOn(id, [], events);
    assert [] + events == events;
  }

  /** A stream that is open on both sides. */
  lemma Opened(id: uint32) returns (events: seq<Event>, n: Net)
    ensures Reaches(Start(id), events, n) && n.id == id && n.numbered == [Frame(Open, id, 1, [])]
    ensures n.helper == Helper(Reading, 1, true, false, [], []) && n.net == {Frame(Open, id, 1, [])}
    ensures n.adapter
      == Adapter(ReorderBuf(2, map[]), [Frame(Open, id, 1, [])], 0, 0, 0, [Conn([], false, Some(1))], Some(0))
  {
    hide Reaches, Receive, DispatchAll;
    var open := Frame(Open, id, 1, []);
    var o := Start(id);
    ReachesItself(o);
    events, n := Then(o, [], o, SendOpen(true));
    ReceiveInOrder(open, 0);
    DispatchOpen(n.adapter, [open]);
    events, n := Then(o, events, n, Deliver(open));
    events, n := Then(o, events, n, Register);
    events, n := Answer(o, events, n);
  }

  lemma RunNothing(id: uint32)
    ensures RunAll(id, []) == Start(id)
  {
  }
}
