/** Messages over the KCP byte stream (kcp.go): senders that take turns under writeMu, and the
    read loop. The stream itself is a byte string, handed out in chunks of any size. */
module KcpFraming {
  import opened Bytes

  const LEN_PREFIX := 4
  const MAX_MESSAGE := 8 * 1024 * 1024

  function Header(msg: bytes): (h: bytes)
    requires |msg| <= MAX_MESSAGE
    ensures |h| == LEN_PREFIX
  {
    PutUint32(|msg|)
  }

  predicate Small(msgs: seq<bytes>) { forall k :: 0 <= k < |msgs| ==> |msgs[k]| <= MAX_MESSAGE }

  function Stream(msgs: seq<bytes>): bytes
    requires Small(msgs)
  {
    if msgs == [] then [] else Header(msgs[0]) + msgs[0] + Stream(msgs[1..])
  }

  function NonEmpty(msgs: seq<bytes>): seq<bytes> {
    if msgs == [] then [] else (if msgs[0] == [] then [] else [msgs[0]]) + NonEmpty(msgs[1..])
  }

  /** What the read loop hands to onData when the stream holds these bytes and then ends. */
  function Parse(stream: bytes): seq<bytes>
    decreases |stream|
  {
    if |stream| < LEN_PREFIX then []
    else
      var size, rest := Uint32(stream[..LEN_PREFIX]), stream[LEN_PREFIX..];
      if size == 0 then Parse(rest)
      else if size > MAX_MESSAGE || size > |rest| then []
      else [rest[..size]] + Parse(rest[size..])
  }

  // Framing

  lemma ParseOne(msg: bytes, rest: bytes)
    requires |msg| <= MAX_MESSAGE
    ensures Parse(Header(msg) + msg + rest) == (if msg == [] then [] else [msg]) + Parse(rest)
  {
    var stream := Header(msg) + msg + rest;
    assert stream[..LEN_PREFIX] == Header(msg) && stream[LEN_PREFIX..] == msg + rest;
    Word32(|msg|, Header(msg));
    assert (msg + rest)[..|msg|] == msg && (msg + rest)[|msg|..] == rest;
    if msg == [] {
      assert msg + rest == rest && [] + Parse(rest) == Parse(rest);
    }
  }

  lemma {:induction false} ParseStream(msgs: seq<bytes>, rest: bytes)
    requires Small(msgs)
    ensures Parse(Stream(msgs) + rest) == NonEmpty(msgs) + Parse(rest)
  {
    hide Parse, Header;
    if msgs == [] {
      assert [] + rest == rest && [] + Parse(rest) == Parse(rest);
    } else {
      var tail := Stream(msgs[1..]);
      ParseStream(msgs[1..], rest);
      ParseOne(msgs[0], tail + rest);
      Assoc(Header(msgs[0]) + msgs[0], tail, rest);
      Assoc(if msgs[0] == [] then [] else [msgs[0]], NonEmpty(msgs[1..]), Parse(rest));
    }
  }

  /** A frame that is cut off says nothing. */
  lemma ParseTorn(msg: bytes, torn: bytes)
    requires |msg| <= MAX_MESSAGE && torn <= Header(msg) + msg && (torn == Header(msg) + msg ==> msg == [])
    ensures Parse(torn) == []
  {
    if |torn| >= LEN_PREFIX {
      assert torn[..LEN_PREFIX] == (Header(msg) + msg)[..LEN_PREFIX] == Header(msg);
      Word32(|msg|, torn[..LEN_PREFIX]);
    }
  }

  /** At every moment the messages handed up are the first of those that the whole stream holds. */
  lemma {:induction false} ParseMonotone(sofar: bytes, stream: bytes)
    requires sofar <= stream
    ensures Parse(sofar) <= Parse(stream)
    decreases |stream|
  {
    if |sofar| >= LEN_PREFIX {
      var size, rest, more := Uint32(sofar[..LEN_PREFIX]), sofar[LEN_PREFIX..], stream[LEN_PREFIX..];
      assert sofar[..LEN_PREFIX] == stream[..LEN_PREFIX] && rest <= more;
      if size == 0 {
        ParseMonotone(rest, more);
      } else if size <= MAX_MESSAGE && size <= |rest| {
        assert rest[..size] == more[..size] && rest[size..] <= more[size..];
        ParseMonotone(rest[size..], more[size..]);
      }
    }
  }

  lemma {:induction false} StreamSnoc(msgs: seq<bytes>, msg: bytes)
    requires Small(msgs) && |msg| <= MAX_MESSAGE
    ensures Small(msgs + [msg]) && Stream(msgs + [msg]) == Stream(msgs) + (Header(msg) + msg)
  {
    hide Header;
    if msgs == [] {
      assert [] + [msg] == [msg] && [msg][1..] == [];
      assert Header(msg) + msg + [] == Header(msg) + msg == [] + (Header(msg) + msg);
    } else {
      StreamSnoc(msgs[1..], msg);
      assert (msgs + [msg])[1..] == msgs[1..] + [msg];
      Assoc(Header(msgs[0]) + msgs[0], Stream(msgs[1..]), Header(msg) + msg);
    }
  }

  // Concurrent senders

  /** Where a goroutine stands inside send: waiting for the lock, holding it, or between its
      two writes. */
  datatype Stage = Waiting | Locked | HeaderWritten

  datatype Outcome = TooLarge | Sent | Failed

  /** All calls of send by number, those still running, and those returned. `turns` are the
      calls that have written their message, in the order of the lock. A session that has gone
      down stays down. */
  datatype Writers = Writers(
    calls: map<nat, bytes>, running: map<nat, Stage>, results: map<nat, Outcome>,
    stream: bytes, down: bool, turns: seq<nat>)

  datatype Action =
    | Call(id: nat, msg: bytes)
    | Lock(id: nat)
    | WriteHeader(id: nat)
    | WriteMessage(id: nat)
    | Tear(id: nat, k: nat)    // the session goes down when a write has put k of its bytes
    | GoDown

  predicate LockFree(running: map<nat, Stage>) { forall id :: id in running ==> running[id].Waiting? }

  function Return(w: Writers, id: nat, o: Outcome): Writers {
    w.(running := w.running - {id}, results := w.results[id := o])
  }

  /** What the write under way has to put on the stream. */
  function Unwritten(stage: Stage, msg: bytes): bytes {
    if stage.Locked? then PutUint32(|msg| % U32) else msg
  }

  function Step(w: Writers, a: Action): Writers {
    match a
    case Call(id, msg) =>
      if id in w.calls then w
      else
        var called := w.(calls := w.calls[id := msg]);
        if |msg| > MAX_MESSAGE then Return(called, id, TooLarge)
        else called.(running := w.running[id := Waiting])
    case Lock(id) =>
      if id in w.running && w.running[id].Waiting? && LockFree(w.running) then
        w.(running := w.running[id := Locked])
      else w
    case WriteHeader(id) =>
      if id !in w.running || id !in w.calls || !w.running[id].Locked? then w
      else if w.down then Return(w, id, Failed)
      else w.(stream := w.stream + PutUint32(|w.calls[id]| % U32), running := w.running[id := HeaderWritten])
    case WriteMessage(id) =>
      if id !in w.running || id !in w.calls || !w.running[id].HeaderWritten? then w
      else if w.down then Return(w, id, Failed)
      else Return(w.(stream := w.stream + w.calls[id], turns := w.turns + [id]), id, Sent)
    case Tear(id, k) =>
      if id !in w.running || id !in w.calls || w.running[id].Waiting? || w.down then w
      else
        var todo := Unwritten(w.running[id], w.calls[id]);
        if k >= |todo| then w
        else Return(w.(stream := w.stream + todo[..k], down := true), id, Failed)
    case GoDown => w.(down := true)
  }

  const NOBODY := Writers(map[], map[], map[], [], false, [])

  function Run(actions: seq<Action>): Writers
    decreases |actions|
  {
    if actions == [] then NOBODY else Step(Run(actions[..|actions| - 1]), actions[|actions| - 1])
  }

  function Messages(calls: map<nat, bytes>, turns: seq<nat>): seq<bytes>
    decreases |turns|
  {
    if turns == [] then []
    else
      var last := turns[|turns| - 1];
      Messages(calls, turns[..|turns| - 1]) + [if last in calls then calls[last] else []]
  }

  /** The calls on record: running ones have small messages, and turns are the calls that
      returned without error, each once. */
  ghost predicate CallsOk(w: Writers) {
    && (forall id :: id in w.running ==> id in w.calls && id !in w.results && |w.calls[id]| <= MAX_MESSAGE)
    && (forall id :: id in w.results ==> id in w.calls)
    && (forall id :: id in w.turns <==> id in w.results && w.results[id] == Sent)
    && (forall i, j :: 0 <= i < j < |w.turns| ==> w.turns[i] != w.turns[j])
  }

  /** At most one sender holds the lock. */
  ghost predicate OneHolder(running: map<nat, Stage>) {
    forall i, j :: i in running && j in running && !running[i].Waiting? && !running[j].Waiting? ==> i == j
  }

  /** The stream is whole messages and then at most the header of the sender between its
      writes, or a part of the message of the one whose write failed. */
  ghost predicate StreamOk(w: Writers) {
    var msgs := Messages(w.calls, w.turns);
    && Small(msgs)
    && (!w.down && (forall id :: id in w.running ==> !w.running[id].HeaderWritten?) ==> w.stream == Stream(msgs))
    && (forall id :: id in w.running && w.running[id].HeaderWritten? ==>
          id in w.calls && |w.calls[id]| <= MAX_MESSAGE && w.stream == Stream(msgs) + Header(w.calls[id]))
    && Parse(w.stream) == NonEmpty(msgs)
  }

  ghost predicate Inv(w: Writers) { CallsOk(w) && OneHolder(w.running) && StreamOk(w) }

  lemma ReturnKept(w: Writers, id: nat, o: Outcome)
    requires CallsOk(w) && OneHolder(w.running) && id in w.running && o != Sent
    ensures CallsOk(Return(w, id, o)) && OneHolder(Return(w, id, o).running)
  {
  }

  lemma SentKept(w: Writers, id: nat)
    requires CallsOk(w) && OneHolder(w.running) && id in w.running
    ensures var v := Return(w.(turns := w.turns + [id]), id, Sent); CallsOk(v) && OneHolder(v.running)
  {
    var turns := w.turns + [id];
    assert forall other :: other in turns <==> other in w.turns || other == id;
  }

  lemma CallKept(w: Writers, id: nat, msg: bytes)
    requires CallsOk(w) && OneHolder(w.running)
    ensures CallsOk(Step(w, Call(id, msg))) && OneHolder(Step(w, Call(id, msg)).running)
  {
  }

  lemma CallsKept(w: Writers, a: Action)
    requires CallsOk(w) && OneHolder(w.running)
    ensures CallsOk(Step(w, a)) && OneHolder(Step(w, a).running)
  {
    match a
    case Call(id, msg) => CallKept(w, id, msg);
    case WriteHeader(id) =>
      if id in w.running && w.running[id].Locked? && w.down { ReturnKept(w, id, Failed); }
    case WriteMessage(id) =>
      if id in w.running && w.running[id].HeaderWritten? {
        if w.down { ReturnKept(w, id, Failed); } else { SentKept(w, id); }
      }
    case Tear(id, k) =>
      if id in w.running { ReturnKept(w, id, Failed); }
    case _ =>
  }

  lemma {:induction false} MessagesSame(calls: map<nat, bytes>, turns: seq<nat>, id: nat, msg: bytes)
    requires id !in turns
    ensures Messages(calls[id := msg], turns) == Messages(calls, turns)
    decreases |turns|
  {
    if turns != [] {
      MessagesSame(calls, turns[..|turns| - 1], id, msg);
    }
  }

  lemma ParseWhole(msgs: seq<bytes>)
    requires Small(msgs)
    ensures Parse(Stream(msgs)) == NonEmpty(msgs)
  {
    ParseStream(msgs, []);
    assert Stream(msgs) + [] == Stream(msgs) && NonEmpty(msgs) + [] == NonEmpty(msgs);
  }

  lemma ParseWithPart(msgs: seq<bytes>, msg: bytes, part: bytes)
    requires Small(msgs) && |msg| <= MAX_MESSAGE && part < Header(msg) + msg
    ensures Parse(Stream(msgs) + part) == NonEmpty(msgs)
  {
    ParseStream(msgs, part);
    ParseTorn(msg, part);
    assert NonEmpty(msgs) + [] == NonEmpty(msgs);
  }

  lemma ParseWithHeader(msgs: seq<bytes>, msg: bytes)
    requires Small(msgs) && |msg| <= MAX_MESSAGE
    ensures Parse(Stream(msgs) + Header(msg)) == NonEmpty(msgs)
  {
    ParseStream(msgs, Header(msg));
    ParseTorn(msg, Header(msg));
    assert NonEmpty(msgs) + [] == NonEmpty(msgs);
  }

  lemma NoneBetween(running: map<nat, Stage>, id: nat)
    requires OneHolder(running) && id in running && running[id].Locked?
    ensures forall other :: other in running ==> !running[other].HeaderWritten?
  {
  }

  lemma HeaderKept(w: Writers, id: nat)
    requires CallsOk(w) && StreamOk(w) && OneHolder(w.running)
    ensures StreamOk(Step(w, WriteHeader(id)))
  {
    hide Parse, Stream, Messages, NonEmpty;
    if id in w.running && w.running[id].Locked? {
      NoneBetween(w.running, id);
      ParseWithHeader(Messages(w.calls, w.turns), w.calls[id]);
      assert PutUint32(|w.calls[id]| % U32) == Header(w.calls[id]);
      var v := Step(w, WriteHeader(id));
      assert forall other :: other in v.running && v.running[other].HeaderWritten? ==> other == id;
      assert v.calls == w.calls && v.turns == w.turns;
      assert !w.down ==> id in v.running && v.running[id].HeaderWritten?;
    }
  }

  lemma CallStreamKept(w: Writers, id: nat, msg: bytes)
    requires CallsOk(w) && StreamOk(w)
    ensures StreamOk(Step(w, Call(id, msg)))
  {
    hide Parse, Stream, Messages, NonEmpty, Header;
    if id !in w.calls {
      MessagesSame(w.calls, w.turns, id, msg);
      var v := Step(w, Call(id, msg));
      assert forall other :: other in v.running && v.running[other].HeaderWritten? ==>
        other in w.running && w.running[other].HeaderWritten? && v.calls[other] == w.calls[other];
      assert forall other :: other in w.running && w.running[other].HeaderWritten? ==>
        other in v.running && v.running[other].HeaderWritten?;
    }
  }

  lemma {:induction false} MessageKept(w: Writers, id: nat)
    requires CallsOk(w) && StreamOk(w) && OneHolder(w.running)
    ensures StreamOk(Step(w, WriteMessage(id)))
  {
    hide Parse, Stream, Messages, NonEmpty, Header;
    if id in w.running && w.running[id].HeaderWritten? && !w.down {
      var msgs, msg := Messages(w.calls, w.turns), w.calls[id];
      OneMoreTurn(w.calls, w.turns, id);
      StreamSnoc(msgs, msg);
      Assoc(Stream(msgs), Header(msg), msg);
      ParseWhole(msgs + [msg]);
    }
  }

  lemma FitsHeader(msg: bytes)
    requires |msg| <= MAX_MESSAGE
    ensures PutUint32(|msg| % U32) == Header(msg)
  {
  }

  lemma Parts(msg: bytes, k: nat)
    requires |msg| <= MAX_MESSAGE
    ensures k < LEN_PREFIX ==> Header(msg)[..k] < Header(msg) + msg
    ensures k < |msg| ==> Header(msg) + msg[..k] < Header(msg) + msg
  {
    hide Header;
    if k < LEN_PREFIX {
      assert (Header(msg) + msg)[..k] == Header(msg)[..k];
    }
    if k < |msg| {
      assert (Header(msg) + msg)[..LEN_PREFIX + k] == Header(msg) + msg[..k];
    }
  }

  lemma {:induction false} TearKept(w: Writers, id: nat, k: nat)
    requires CallsOk(w) && StreamOk(w) && OneHolder(w.running)
    ensures StreamOk(Step(w, Tear(id, k)))
  {
    hide Parse, Stream, Messages, NonEmpty, Header;
    if id in w.running && !w.running[id].Waiting? && !w.down {
      var msgs, msg := Messages(w.calls, w.turns), w.calls[id];
      FitsHeader(msg);
      Parts(msg, k);
      if w.running[id].Locked? {
        NoneBetween(w.running, id);
        if k < LEN_PREFIX {
          ParseWithPart(msgs, msg, Header(msg)[..k]);
        }
      } else if k < |msg| {
        Assoc(Stream(msgs), Header(msg), msg[..k]);
        ParseWithPart(msgs, msg, Header(msg) + msg[..k]);
      }
    }
  }

  lemma OneMoreTurn(calls: map<nat, bytes>, turns: seq<nat>, id: nat)
    requires id in calls
    ensures Messages(calls, turns + [id]) == Messages(calls, turns) + [calls[id]]
  {
    assert (turns + [id])[..|turns|] == turns;
  }

  lemma {:induction false} StepKeeps(w: Writers, a: Action)
    requires Inv(w)
    ensures Inv(Step(w, a))
  {
    hide Parse, Stream, Messages, NonEmpty, Header, CallsOk, OneHolder;
    CallsKept(w, a);
    match a
    case Call(id, msg) => CallStreamKept(w, id, msg);
    case WriteHeader(id) => HeaderKept(w, id);
    case WriteMessage(id) => MessageKept(w, id);
    case Tear(id, k) => TearKept(w, id, k);
    case _ =>
  }

  lemma {:induction false} RunKeeps(actions: seq<Action>)
    ensures Inv(Run(actions))
    decreases |actions|
  {
    hide Inv, Step;
    if actions == [] {
      NobodyOk();
    } else {
      RunKeeps(actions[..|actions| - 1]);
      StepKeeps(Run(actions[..|actions| - 1]), actions[|actions| - 1]);
    }
  }

  lemma NobodyOk()
    ensures Inv(NOBODY)
  {
  }

  /** However the senders interleave and wherever the session goes down: from what has been
      written the reader gets exactly the messages whose send succeeded, but for the empty
      ones, each once and in the order of the lock. */
  lemma {:induction false} SendersDoNotTear(actions: seq<Action>)
    ensures var w := Run(actions);
      && Parse(w.stream) == NonEmpty(Messages(w.calls, w.turns))
      && (forall id :: id in w.turns <==> id in w.results && w.results[id] == Sent)
      && (forall i, j :: 0 <= i < j < |w.turns| ==> w.turns[i] != w.turns[j])
  {
    RunKeeps(actions);
  }

  // A message that may be sent can be sent

  ghost predicate Accounted(calls: map<nat, bytes>, running: map<nat, Stage>, results: map<nat, Outcome>) {
    && (forall id :: id in calls <==> id in running || id in results)
    && (forall id :: id in results && results[id] == TooLarge <==> id in calls && |calls[id]| > 8 * 1024 * 1024)
  }

  ghost predicate RefusedOk(w: Writers) { Accounted(w.calls, w.running, w.results) }

  lemma ReturnAccounted(w: Writers, id: nat, o: Outcome)
    requires CallsOk(w) && RefusedOk(w) && id in w.running && o != TooLarge
    ensures Accounted(w.calls, w.running - {id}, w.results[id := o])
  {
  }

  lemma RefusedKept(w: Writers, a: Action)
    requires CallsOk(w) && RefusedOk(w)
    ensures RefusedOk(Step(w, a))
  {
    hide Unwritten, CallsOk;
    match a
    case Call(id, msg) =>
    case Lock(id) =>
    case GoDown =>
    case _ =>
      if a.id in w.running {
        ReturnAccounted(w, a.id, Failed);
        ReturnAccounted(w, a.id, Sent);
      }
  }

  /** A call is refused exactly if its message is longer than 8 MiB; any other is under way, or
      was sent, or failed because the session is down. */
  lemma {:induction false} RefusedIffTooLarge(actions: seq<Action>)
    ensures var w := Run(actions);
      && (forall id :: id in w.results && w.results[id] == TooLarge <==>
            id in w.calls && |w.calls[id]| > 8 * 1024 * 1024)
      && (forall id :: id in w.calls <==> id in w.running || id in w.results)
    decreases |actions|
  {
    AllRefusedOk(actions);
  }

  lemma {:induction false} AllRefusedOk(actions: seq<Action>)
    ensures RefusedOk(Run(actions))
    decreases |actions|
  {
    hide Step, RefusedOk, Inv;
    if actions == [] {
      NobodyRefused();
    } else {
      var before, a := actions[..|actions| - 1], actions[|actions| - 1];
      AllRefusedOk(before);
      RunKeeps(before);
      CallsOfInv(Run(before));
      RefusedKept(Run(before), a);
    }
  }

  lemma CallsOfInv(w: Writers)
    requires Inv(w)
    ensures CallsOk(w)
  {
    hide Parse, Stream, Messages, NonEmpty;
  }

  lemma NobodyRefused()
    ensures RefusedOk(NOBODY)
  {
  }

  /** A call fails only because the session is down. */
  lemma {:induction false} FailedOnlyWhenDown(actions: seq<Action>)
    ensures var w := Run(actions); (exists id :: id in w.results && w.results[id] == Failed) ==> w.down
    decreases |actions|
  {
    if actions != [] {
      FailedOnlyWhenDown(actions[..|actions| - 1]);
    }
  }

  lemma RunSnoc(actions: seq<Action>, a: Action)
    ensures Run(actions + [a]) == Step(Run(actions), a)
  {
    assert (actions + [a])[..|actions|] == actions;
  }

  /** After any run with the session up and the lock free: a call that is new, or waits for the
      lock, takes it, writes and succeeds, and the stream is longer by the four bytes of the
      length, big-endian, and the message. */
  lemma {:induction false} CallGoesThrough(actions: seq<Action>, id: nat, msg: bytes)
    requires var w := Run(actions); !w.down && LockFree(w.running)
    requires var w := Run(actions); id !in w.calls || (id in w.running && w.calls[id] == msg)
    requires |msg| <= 8 * 1024 * 1024
    ensures var w, v := Run(actions), Run(actions + [Call(id, msg), Lock(id), WriteHeader(id), WriteMessage(id)]);
      && id in v.results && v.results[id] == Sent && LockFree(v.running)
      && |v.stream| == |w.stream| + 4 + |msg| && w.stream <= v.stream
      && Weigh32(v.stream, |w.stream|) == |msg| && v.stream[|w.stream| + 4..] == msg
  {
    hide Run;
    var w := Run(actions);
    RunSnoc(actions, Call(id, msg));
    RunSnoc(actions + [Call(id, msg)], Lock(id));
    RunSnoc(actions + [Call(id, msg)] + [Lock(id)], WriteHeader(id));
    RunSnoc(actions + [Call(id, msg)] + [Lock(id)] + [WriteHeader(id)], WriteMessage(id));
    assert actions + [Call(id, msg)] + [Lock(id)] + [WriteHeader(id)] + [WriteMessage(id)]
        == actions + [Call(id, msg), Lock(id), WriteHeader(id), WriteMessage(id)];
    CallRuns(w, id, msg);
    var v := w.stream + PutUint32(|msg|) + msg;
    assert v[|w.stream|..|w.stream| + 4] == PutUint32(|msg|);
    WordAt32(v, |w.stream|, |msg|);
  }

  lemma CallRuns(w: Writers, id: nat, msg: bytes)
    requires !w.down && LockFree(w.running) && |msg| <= MAX_MESSAGE
    requires id !in w.calls || (id in w.running && w.calls[id] == msg)
    ensures var v := Step(Step(Step(Step(w, Call(id, msg)), Lock(id)), WriteHeader(id)), WriteMessage(id));
      && id in v.results && v.results[id] == Sent && LockFree(v.running)
      && v.stream == w.stream + PutUint32(|msg|) + msg
  {
    hide PutUint32;
  }

  /** A length over 8 MiB ends the reading for good, whatever follows it. */
  lemma TooLongEndsReading(msgs: seq<bytes>, rest: bytes)
    requires Small(msgs) && |rest| >= 4 && Weigh32(rest, 0) > 8 * 1024 * 1024
    ensures Parse(Stream(msgs) + rest) == NonEmpty(msgs)
  {
    hide Stream;
    ParseStream(msgs, rest);
    WeighPart32(rest, 0);
    assert rest[0..4] == rest[..4];
    assert NonEmpty(msgs) + [] == NonEmpty(msgs);
  }

  // The read loop

  /** The session as the reader sees it: bytes in the chunks that happen to have come. */
  class Session {
    var chunks: seq<bytes>

    constructor (chunks: seq<bytes>)
      ensures this.chunks == chunks
    {
      this.chunks := chunks;
    }

    /** At most n bytes of the first chunk; an error when nothing is left. */
    method Read(n: nat) returns (b: bytes, eof: bool)
      requires n > 0
      modifies this
      ensures eof <==> old(chunks) == []
      ensures |b| <= n && (eof ==> b == [] && chunks == [])
      ensures !eof ==> b + Concat(chunks) == Concat(old(chunks))
      ensures !eof ==> |chunks| < |old(chunks)| || (|chunks| == |old(chunks)| && |b| == n)
    {
      if chunks == [] {
        return [], true;
      }
      var c := chunks[0];
      if |c| <= n {
        b, eof, chunks := c, false, chunks[1..];
      } else {
        b, eof, chunks := c[..n], false, [c[n..]] + chunks[1..];
        assert ([c[n..]] + old(chunks)[1..])[1..] == old(chunks)[1..];
        Assoc(c[..n], c[n..], Concat(old(chunks)[1..]));
        assert c[..n] + c[n..] == c;
      }
    }

    /** io.ReadFull: n bytes, or an error if the stream ends before. */
    method ReadFull(n: nat) returns (b: bytes, err: bool)
      modifies this
      ensures err <==> |Concat(old(chunks))| < n
      ensures !err ==> |b| == n && b + Concat(chunks) == Concat(old(chunks))
    {
      b, err := [], false;
      while |b| < n
        invariant |b| <= n && b + Concat(chunks) == Concat(old(chunks))
        decreases |chunks|, n - |b|
      {
        var more, eof := Read(n - |b|);
        if eof {
          return b, true;
        }
        Assoc(b, more, Concat(chunks));
        b := b + more;
      }
    }

    /** readLoop, with the calls of onData as its result: they depend on the bytes alone, not
        on the chunks. */
    method ReadLoop() returns (delivered: seq<bytes>)
      modifies this
      ensures delivered == Parse(Concat(old(chunks)))
    {
      hide Parse, Concat;
      delivered := [];
      ghost var s := Concat(chunks);
      assert [] + Parse(s) == Parse(s);
      while true
        invariant s == Concat(chunks)
        invariant delivered + Parse(s) == Parse(Concat(old(chunks)))
        decreases |s|
      {
        assert delivered + [] == delivered;
        var hdr, err := ReadFull(LEN_PREFIX);
        if err {
          ParseEnd(s);
          return;
        }
        ghost var rest := Concat(chunks);
        ParseHeader(hdr, rest);
        var size := Uint32(hdr);
        if size == 0 {
          s := rest;
          continue;
        }
        if size > MAX_MESSAGE {
          return;
        }
        var payload;
        payload, err := ReadFull(size);
        if err {
          return;
        }
        s := Concat(chunks);
        SplitsAt(payload, s);
        Assoc(delivered, [payload], Parse(s));
        delivered := delivered + [payload];
      }
    }
  }

  lemma ParseEnd(stream: bytes)
    requires |stream| < LEN_PREFIX
    ensures Parse(stream) == []
  {
  }

  lemma ParseHeader(hdr: bytes, rest: bytes)
    requires |hdr| == LEN_PREFIX
    ensures var size := Uint32(hdr);
      Parse(hdr + rest) ==
        if size == 0 then Parse(rest)
        else if size > MAX_MESSAGE || size > |rest| then []
        else [rest[..size]] + Parse(rest[size..])
  {
    assert (hdr + rest)[..LEN_PREFIX] == hdr && (hdr + rest)[LEN_PREFIX..] == rest;
  }

  lemma SplitsAt(payload: bytes, rest: bytes)
    ensures (payload + rest)[..|payload|] == payload && (payload + rest)[|payload|..] == rest
  {
  }
}
