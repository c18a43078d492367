/** The stream manager of the yac adapter and helper, as the object it is in streams.go.
    A connection is reduced to the bytes written to it; its reads are a list of results, and
    the outcome of every send is a parameter. */
module YacStreams {
  import opened Bytes
  import opened YacReorder

  const READ_BUFFER := 32 * 1024

  datatype ReadError = NoError | Timeout | Broken

  datatype ReadResult = ReadResult(data: bytes, err: ReadError)

  class Stream {
    const id: uint32
    var closed: bool
    var written: bytes

    constructor (id: uint32)
      ensures this.id == id && !closed && written == []
    {
      this.id, closed, written := id, false, [];
    }
  }

  class ReorderBuffer {
    var expected: uint32
    var pending: map<uint32, Frame>

    constructor ()
      ensures Value() == EMPTY
    {
      expected, pending := 1, map[];
    }

    function Value(): ReorderBuf
      reads this
    {
      ReorderBuf(expected, pending)
    }

    /** The part of HandleStreamFrame that holds the buffer's lock. */
    method Accept(f: Frame) returns (calls: seq<Frame>)
      modifies this
      ensures (Value(), calls) == Receive(old(Value()), f)
    {
      calls := [];
      if f.seqID == expected {
        calls := [f];
        expected := Next(expected);
        ghost var start, rest := Value(), Drain(Value()).1;
        while expected in pending
          invariant Drain(start).0 == Drain(Value()).0 && rest == Drain(Value()).1
          invariant calls + rest == [f] + Drain(start).1
          decreases |pending|
        {
          var next := pending[expected];
          Removing(pending, expected);
          ghost var before, todo := calls, rest;
          pending := pending - {expected};
          calls := calls + [next];
          expected := Next(expected);
          rest := Drain(Value()).1;
          assert calls + rest == before + todo;
        }
        assert calls + [] == calls;
      } else if f.seqID > expected {
        pending := pending[f.seqID := f];
      }
    }
  }

  function Payloads(frames: seq<Frame>): bytes {
    if frames == [] then [] else frames[0].payload + Payloads(frames[1..])
  }

  lemma {:induction false} PayloadsAppend(a: seq<Frame>, b: seq<Frame>)
    ensures Payloads(a + b) == Payloads(a) + Payloads(b)
  {
    if a == [] {
      assert a + b == b;
    } else {
      PayloadsAppend(a[1..], b);
      assert (a + b)[1..] == a[1..] + b && (a + b)[0] == a[0];
      Assoc(a[0].payload, Payloads(a[1..]), Payloads(b));
    }
  }

  lemma PayloadsSnoc(frames: seq<Frame>, f: Frame)
    ensures Payloads(frames + [f]) == Payloads(frames) + f.payload
  {
    PayloadsAppend(frames, [f]);
    assert Payloads([f]) == f.payload + Payloads([]);
  }

  function BytesRead(results: seq<ReadResult>): bytes {
    if results == [] then [] else BytesRead(results[..|results| - 1]) + results[|results| - 1].data
  }

  /** Data frames of the stream, none of them empty and none longer than the limit. */
  ghost predicate DataOnly(frames: seq<Frame>, id: uint32, limit: nat) {
    forall k :: 0 <= k < |frames| ==>
      frames[k].kind == Data && frames[k].streamID == id && 0 < |frames[k].payload| <= limit
  }

  /** Numbers that follow on the counter, one by one. */
  ghost predicate Consecutive(frames: seq<Frame>, counter: uint32) {
    forall k :: 0 <= k < |frames| ==> frames[k].seqID == (counter + k + 1) % U32
  }

  class Manager {
    var streams: map<uint32, Stream>
    var seqCounters: map<uint32, uint32>
    const reorder: bool
    const coalesce: bool
    var reorderBufs: map<uint32, ReorderBuffer>
    /** The frames SendFrame has numbered, and the number each send was. */
    var numbered: seq<Frame>
    const sendFails: nat -> bool

    constructor (reorder: bool, coalesce: bool, sendFails: nat -> bool)
      ensures streams == map[] && seqCounters == map[] && numbered == []
      ensures this.reorder == reorder && this.coalesce == coalesce && this.sendFails == sendFails
      ensures reorderBufs == map[] && Separate() && Bufs() == map[]
    {
      streams, seqCounters, reorderBufs, numbered := map[], map[], map[], [];
      this.reorder, this.coalesce, this.sendFails := reorder, coalesce, sendFails;
    }

    ghost predicate Separate()
      reads `reorderBufs
    {
      forall i: uint32, j: uint32 :: i in reorderBufs && j in reorderBufs && i != j ==> reorderBufs[i] != reorderBufs[j]
    }

    ghost function Bufs(): Buffers
      reads `reorderBufs, reorderBufs.Values
    {
      map id | id in reorderBufs :: reorderBufs[id].Value()
    }

    function Counter(id: uint32): uint32
      reads `seqCounters
    {
      if id in seqCounters then seqCounters[id] else 0
    }

    // Receiving

    method HandleStreamFrame(f: Frame) returns (calls: seq<Frame>)
      requires Separate()
      modifies `reorderBufs, reorderBufs.Values
      ensures Separate() && fresh(reorderBufs.Values - old(reorderBufs.Values))
      ensures (Bufs(), calls) == Handle(reorder, old(Bufs()), f)
      ensures !reorder || f.seqID == 0 ==> calls == [f] && reorderBufs == old(reorderBufs)
    {
      if !reorder || f.seqID == 0 {
        return [f];
      }
      if f.streamID !in reorderBufs {
        var created := new ReorderBuffer();
        reorderBufs := reorderBufs[f.streamID := created];
      }
      var rb := reorderBufs[f.streamID];
      assert rb.Value() == BufferOf(old(Bufs()), f.streamID);
      calls := rb.Accept(f);
      assert Bufs() == old(Bufs())[f.streamID := rb.Value()];
    }

    /** Payload for a stream that is unknown or closed is dropped. */
    method HandleData(streamID: uint32, payload: bytes)
      modifies if streamID in streams then {streams[streamID]} else {}
      ensures streamID in streams ==>
        var s := streams[streamID];
        s.closed == old(s.closed) && s.written == old(s.written) + if s.closed then [] else payload
    {
      if streamID in streams {
        var s := streams[streamID];
        if !s.closed {
          s.written := s.written + payload;
        }
      }
    }

    // Closing

    method Remove(id: uint32)
      modifies `streams, `seqCounters, `reorderBufs
      ensures streams == old(streams) - {id} && Counter(id) == 0
      ensures forall other: uint32 :: other != id ==> Counter(other) == old(Counter(other))
      ensures reorderBufs == if reorder then old(reorderBufs) - {id} else old(reorderBufs)
    {
      streams := streams - {id};
      seqCounters := seqCounters - {id};
      if reorder {
        reorderBufs := reorderBufs - {id};
      }
    }

    /** Closing twice is closing once; the first time the stream goes with its counter, whose
        numbering starts again from 1, and its buffer. */
    method CloseStream(s: Stream)
      modifies s`closed, `streams, `seqCounters, `reorderBufs
      ensures s.closed
      ensures Counter(s.id) == if old(s.closed) then old(Counter(s.id)) else 0
      ensures forall other: uint32 :: other != s.id ==> Counter(other) == old(Counter(other))
      ensures !old(s.closed) ==> streams == old(streams) - {s.id}
      ensures !old(s.closed) ==> reorderBufs == if reorder then old(reorderBufs) - {s.id} else old(reorderBufs)
      ensures old(s.closed) ==> unchanged(`streams) && unchanged(`reorderBufs)
    {
      if s.closed {
        return;
      }
      s.closed := true;
      Remove(s.id);
    }

    // Sending

    method SendFrame(f: Frame) returns (err: bool)
      modifies `seqCounters, `numbered
      ensures numbered == old(numbered) + [if f.streamID > 0 then f.(seqID := Next(old(Counter(f.streamID)))) else f]
      ensures f.streamID > 0 ==> Counter(f.streamID) == Next(old(Counter(f.streamID)))
      ensures forall other: uint32 :: other != f.streamID ==> Counter(other) == old(Counter(other))
      ensures err == sendFails(|old(numbered)|)
    {
      var g := f;
      if f.streamID > 0 {
        seqCounters := seqCounters[f.streamID := Next(Counter(f.streamID))];
        g := f.(seqID := seqCounters[f.streamID]);
      }
      err := sendFails(|numbered|);
      numbered := numbered + [g];
    }

    /** The closure that ReadLoop calls flush: it sends what is buffered, if anything is, and
        only logs a failure. */
    method Flush(id: uint32, coalesceBuf: bytes) returns (left: bytes)
      requires id > 0
      modifies `seqCounters, `numbered
      ensures left == []
      ensures numbered == old(numbered) + Emit(id, old(Counter(id)), coalesceBuf)
      ensures Counter(id) == if coalesceBuf == [] then old(Counter(id)) else Next(old(Counter(id)))
    {
      if |coalesceBuf| > 0 {
        var err := SendFrame(Frame(Data, id, 0, coalesceBuf));
      }
      left := [];
    }

    function Limit(): nat { if coalesce then 0xffff else READ_BUFFER }

    /** What ReadLoop does with the bytes of one read. */
    method Take(id: uint32, coalesceBuf: bytes, data: bytes) returns (left: bytes, failed: bool)
      requires id > 0 && Held(coalesceBuf)
      modifies `seqCounters, `numbered
      ensures coalesce && |coalesceBuf + data| < READ_BUFFER ==>
        left == coalesceBuf + data && numbered == old(numbered) && Counter(id) == old(Counter(id))
      ensures !coalesce || |coalesceBuf + data| >= READ_BUFFER ==>
        && left == []
        && numbered == old(numbered) + Emit(id, old(Counter(id)), coalesceBuf + data)
        && Counter(id) == if coalesceBuf + data == [] then old(Counter(id)) else Next(old(Counter(id)))
      ensures failed ==> !coalesce && |old(numbered)| < |numbered| && sendFails(|old(numbered)|)
      ensures !coalesce && data != [] ==> failed == sendFails(|old(numbered)|)
    {
      left, failed := coalesceBuf, false;
      if |data| > 0 {
        if coalesce {
          left := left + data;
          if |left| >= READ_BUFFER {
            left := Flush(id, left);
          }
        } else {
          assert coalesceBuf + data == data;
          failed := SendFrame(Frame(Data, id, 0, data));
        }
      } else {
        assert coalesceBuf + data == coalesceBuf;
        assert numbered + [] == numbered;
      }
    }

    // What ReadLoop keeps: the frames made, the bytes held and the bytes read balance

    /** Another goroutine closes the stream, unless it is closed already. */
    method CloseElsewhere(s: Stream, ghost b: Balance, ghost left: bytes, ghost read: bytes, ghost counter: uint32)
      returns (ghost c: Balance)
      requires b.closed == s.closed && Balanced(b, left, read, s.id, Limit(), counter, Counter(s.id))
      requires s.closed ==> s.id !in streams
      modifies s`closed, `streams, `seqCounters, `reorderBufs
      ensures s.closed && s.id !in streams && c == b.(closed := true)
      ensures Balanced(c, left, read, s.id, Limit(), counter, Counter(s.id))
    {
      hide Balanced;
      CloseBalanced(b, left, read, s.id, Limit(), counter, Counter(s.id));
      CloseStream(s);
      c := b.(closed := true);
    }

    method FlushHeld(id: uint32, coalesceBuf: bytes, ghost b: Balance, ghost read: bytes, ghost counter: uint32)
      returns (left: bytes, ghost c: Balance)
      requires id > 0 && Held(coalesceBuf) && Balanced(b, coalesceBuf, read, id, Limit(), counter, Counter(id))
      modifies `seqCounters, `numbered
      ensures left == [] && c.closed == b.closed && Balanced(c, left, read, id, Limit(), counter, Counter(id))
      ensures forall start :: old(numbered) == start + b.All() ==> numbered == start + c.All()
      ensures numbered == old(numbered) + Emit(id, old(Counter(id)), coalesceBuf)
    {
      hide Balanced, Emit, Next;
      ghost var fs := Emit(id, Counter(id), coalesceBuf);
      SendBalanced(b, coalesceBuf, read, id, Limit(), counter, Counter(id));
      c := b.Sent(fs);
      left := Flush(id, coalesceBuf);
      forall start | old(numbered) == start + b.All()
        ensures numbered == start + c.All()
      {
        Assoc(start, b.All(), fs);
      }
    }

    method TakeHeld(id: uint32, coalesceBuf: bytes, data: bytes, ghost b: Balance, ghost read: bytes,
                    ghost counter: uint32)
      returns (left: bytes, failed: bool, ghost c: Balance)
      requires id > 0 && Held(coalesceBuf) && |data| <= READ_BUFFER
      requires Balanced(b, coalesceBuf + data, read, id, Limit(), counter, Counter(id))
      modifies `seqCounters, `numbered
      ensures if coalesce && |coalesceBuf + data| < READ_BUFFER
              then left == coalesceBuf + data && numbered == old(numbered)
              else left == [] && numbered == old(numbered) + Emit(id, old(Counter(id)), coalesceBuf + data)
      ensures !coalesce && data != [] ==> failed == sendFails(|old(numbered)|)
      ensures Held(left) && c.closed == b.closed && Balanced(c, left, read, id, Limit(), counter, Counter(id))
      ensures forall start :: old(numbered) == start + b.All() ==> numbered == start + c.All()
      ensures failed ==> !coalesce && |old(numbered)| < |numbered| && sendFails(|old(numbered)|)
    {
      hide Balanced, Emit, Next;
      ghost var held := coalesceBuf + data;
      ghost var fs := Emit(id, Counter(id), held);
      SendBalanced(b, held, read, id, Limit(), counter, Counter(id));
      left, failed := Take(id, coalesceBuf, data);
      c := b;
      if !coalesce || |held| >= READ_BUFFER {
        c := b.Sent(fs);
        forall start | old(numbered) == start + b.All()
          ensures numbered == start + c.All()
        {
          Assoc(start, b.All(), fs);
        }
      }
    }

    /** One turn of ReadLoop's loop. Another goroutine may close the stream before the bytes are
        sent or buffered (`first`), or before the flush of an expired deadline (`second`). The
        next read on a closed connection fails, so the loop ends. */
    method Turn(s: Stream, coalesceBuf: bytes, r: ReadResult, first: bool, second: bool,
                ghost b: Balance, ghost read: bytes, ghost counter: uint32)
      returns (left: bytes, stop: bool, ghost c: Balance)
      requires s.id > 0 && !s.closed && !b.closed && Held(coalesceBuf) && |r.data| <= READ_BUFFER
      requires Balanced(b, coalesceBuf + r.data, read, s.id, Limit(), counter, Counter(s.id))
      modifies s`closed, `streams, `seqCounters, `reorderBufs, `numbered
      ensures Held(left) && c.closed == s.closed && Balanced(c, left, read, s.id, Limit(), counter, Counter(s.id))
      ensures forall start :: old(numbered) == start + b.All() ==> numbered == start + c.All()
      ensures s.closed ==> stop && s.id !in streams && (first || second)
      ensures first ==> s.closed
      ensures stop ==>
        s.closed || r.err == Broken
        || (!coalesce && |old(numbered)| < |numbered| && sendFails(|old(numbered)|))
      ensures r.err == Broken ==> stop
      ensures r.err == Timeout && !stop ==> left == []
      ensures !coalesce ==> left == []
      ensures !first && r.err != Timeout && coalesce && |coalesceBuf + r.data| < 32 * 1024 ==>
        left == coalesceBuf + r.data && numbered == old(numbered)
      ensures coalesce && |coalesceBuf + r.data| >= 32 * 1024 ==> left == []
      ensures !first && (!coalesce || |coalesceBuf + r.data| >= 32 * 1024) ==>
        numbered == old(numbered) + if coalesceBuf + r.data == [] then []
                                    else [Frame(Data, s.id, Next(old(Counter(s.id))), coalesceBuf + r.data)]
      ensures !coalesce && r.data != [] && sendFails(|old(numbered)|) ==> stop
      ensures !coalesce ==> |numbered| <= |old(numbered)| + 1 && (r.data == [] ==> |numbered| == |old(numbered)|)
    {
      hide Balanced, Held;
      NoneHeld(coalesceBuf);
      c := b;
      if first {
        c := CloseElsewhere(s, c, coalesceBuf + r.data, read, counter);
      }
      left, stop, c := TakeHeld(s.id, coalesceBuf, r.data, c, read, counter);
      if stop {
        return;
      }
      if second {
        c := CloseElsewhere(s, c, left, read, counter);
      }
      if r.err == Timeout {
        left, c := FlushHeld(s.id, left, c, read, counter);
        NothingHeld();
      }
      stop := r.err == Broken || s.closed;
    }

    /** The loop of ReadLoop. It consumes read results until one is broken, they end (which
        stands for end of file), the stream is closed elsewhere or, without coalescing, a send
        fails. */
    method ReadAll(s: Stream, results: seq<ReadResult>, closing: Closing)
      returns (used: nat, coalesceBuf: bytes, ghost b: Balance)
      requires s.id > 0 && !s.closed && ReadsFit(results)
      modifies s`closed, `streams, `seqCounters, `reorderBufs, `numbered
      ensures used <= |results| && Held(coalesceBuf) && numbered == old(numbered) + b.All() && b.closed == s.closed
      ensures Balanced(b, coalesceBuf, BytesRead(results[..used]), s.id, Limit(), old(Counter(s.id)), Counter(s.id))
      ensures s.closed ==> s.id !in streams && closing.InTurn? && closing.turn == used - 1
      ensures used < |results| ==>
        s.closed || (used > 0 && results[used - 1].err == Broken)
        || (!coalesce && exists k :: |old(numbered)| <= k < |numbered| && sendFails(k))
      ensures forall k :: 0 <= k < used - 1 ==> results[k].err != Broken
      ensures !coalesce ==> NoneFails(|old(numbered)|, |old(numbered)| + |b.All()| - 1)
    {
      hide Balanced, BytesRead, Held;
      used, coalesceBuf, b := 0, [], Balance([], [], false);
      ghost var counter := Counter(s.id);
      NothingBalanced(s.id, Limit(), counter);
      NothingHeld();
      while used < |results|
        invariant used <= |results| && Held(coalesceBuf) && !s.closed && !b.closed
        invariant numbered == old(numbered) + b.All()
        invariant forall k :: 0 <= k < used ==> results[k].err != Broken
        invariant !coalesce ==> NoneFails(|old(numbered)|, |numbered|)
        invariant Balanced(b, coalesceBuf, BytesRead(results[..used]), s.id, Limit(), counter, Counter(s.id))
      {
        ghost var read := BytesRead(results[..used + 1]);
        ReadBalanced(b, coalesceBuf, results, used, s.id, Limit(), counter, Counter(s.id));
        var stop;
        coalesceBuf, stop, b := Turn(s, coalesceBuf, results[used], closing == InTurn(used, true),
                                     closing == InTurn(used, false), b, read, counter);
        used := used + 1;
        if stop {
          return;
        }
      }
    }

    lemma NothingHeld()
      ensures Held([])
    {
    }

    /** Everything read is in data frames before the FIN, which is sent unless another goroutine
        has closed the stream when s.closed is tested, as `closing` says. Up to the close the
        frames are numbered one by one; after it there is at most one, the FIN included, and it
        bears the number 1 again. */
    method ReadLoop(s: Stream, results: seq<ReadResult>, closing: Closing) returns (used: nat, ghost b: Balance)
      requires s.id > 0 && !s.closed && ReadsFit(results)
      modifies s`closed, `streams, `seqCounters, `reorderBufs, `numbered
      ensures s.closed && s.id !in streams && used <= |results|
      ensures used < |results| ==>
        b.closed || (used > 0 && results[used - 1].err == Broken)
        || (!coalesce && exists k :: |old(numbered)| <= k < |numbered| && sendFails(k))
      ensures forall k :: 0 <= k < used - 1 ==> results[k].err != Broken
      ensures !coalesce ==> NoneFails(|old(numbered)|, |old(numbered)| + |b.All()| - 1)
      ensures Payloads(b.All()) == BytesRead(results[..used]) && DataOnly(b.All(), s.id, Limit())
      ensures Consecutive(b.inTime, old(Counter(s.id)))
      ensures if b.closed then |b.late| <= 1 && (b.late != [] ==> b.late[0].seqID == 1) else b.late == []
      ensures b.closed ==> closing.BeforeFlush? || closing.BeforeTest? || (closing.InTurn? && closing.turn == used - 1)
      ensures closing.BeforeFlush? || closing.BeforeTest? ==> b.closed
      ensures numbered == old(numbered) + b.All() +
        if b.closed then []
        else [Frame(Fin, s.id, if closing.BeforeFin? then 1 else Next(After(old(Counter(s.id)), b.inTime)), [])]
    {
      hide Balanced;
      var coalesceBuf;
      used, coalesceBuf, b := ReadAll(s, results, closing);
      ghost var counter, read := old(Counter(s.id)), BytesRead(results[..used]);
      if closing.BeforeFlush? {
        b := CloseElsewhere(s, b, coalesceBuf, read, counter);
      }
      if coalesce {
        coalesceBuf, b := FlushHeld(s.id, coalesceBuf, b, read, counter);
      }
      if closing.BeforeTest? {
        b := CloseElsewhere(s, b, coalesceBuf, read, counter);
      }
      InBalance(b, read, s.id, Limit(), counter, Counter(s.id));
      assert old(numbered) + b.All() + [] == old(numbered) + b.All();
      var wasClosed := s.closed;
      if !wasClosed {
        if closing.BeforeFin? {
          CloseStream(s);
        }
        var err := SendFrame(Frame(Fin, s.id, 0, []));
        CloseStream(s);
      }
    }

    ghost predicate NoneFails(from: int, upTo: int)
      requires from >= 0
    {
      forall k :: from <= k < upTo ==> !sendFails(k)
    }

    lemma NoneHeld(coalesceBuf: bytes)
      ensures Held(coalesceBuf) && !coalesce ==> coalesceBuf == []
    {
    }

    predicate Held(coalesceBuf: bytes) {
      coalesceBuf == [] || (coalesce && |coalesceBuf| < READ_BUFFER)
    }
  }

  /** Where another goroutine's CloseStream falls into ReadLoop: in a turn of the loop, before
      its first send or before its second; before the deferred flush; between that and the test
      of s.closed; or between the test and the FIN. */
  datatype Closing = Never | InTurn(turn: nat, beforeFirst: bool) | BeforeFlush | BeforeTest | BeforeFin

  /** The frames ReadLoop has made until another goroutine closed the stream, and since. */
  datatype Balance = Balance(inTime: seq<Frame>, late: seq<Frame>, closed: bool)
  {
    function All(): seq<Frame> { inTime + late }

    function Sent(fs: seq<Frame>): Balance {
      if closed then this.(late := late + fs) else this.(inTime := inTime + fs)
    }
  }

  ghost predicate ReadsFit(results: seq<ReadResult>) {
    forall k :: 0 <= k < |results| ==> |results[k].data| <= READ_BUFFER
  }

  function Emit(id: uint32, counter: uint32, held: bytes): seq<Frame> {
    if held == [] then [] else [Frame(Data, id, Next(counter), held)]
  }

  /** The counter when `made` has been numbered. */
  function After(counter: uint32, made: seq<Frame>): uint32 { (counter + |made|) % U32 }

  /** Nothing is lost, made up or reordered between the reads and the frames; and `now` is what
      the counter must be. */
  ghost predicate Balanced(b: Balance, left: bytes, read: bytes, id: uint32, limit: nat, counter: uint32, now: uint32) {
    && Payloads(b.All()) + left == read && DataOnly(b.All(), id, limit) && Consecutive(b.inTime, counter)
    && if !b.closed then b.late == [] && now == After(counter, b.inTime)
       else if b.late == [] then now == 0
       else |b.late| == 1 && b.late[0].seqID == 1 && left == []
  }

  lemma NothingBalanced(id: uint32, limit: nat, counter: uint32)
    ensures Balanced(Balance([], [], false), [], BytesRead([]), id, limit, counter, counter)
  {
  }

  lemma ReadBalanced(b: Balance, left: bytes, results: seq<ReadResult>, used: nat, id: uint32, limit: nat,
                     counter: uint32, now: uint32)
    requires used < |results| && !b.closed && Balanced(b, left, BytesRead(results[..used]), id, limit, counter, now)
    ensures Balanced(b, left + results[used].data, BytesRead(results[..used + 1]), id, limit, counter, now)
  {
    assert results[..used + 1][..used] == results[..used];
    Assoc(Payloads(b.All()), left, results[used].data);
  }

  lemma CloseBalanced(b: Balance, left: bytes, read: bytes, id: uint32, limit: nat, counter: uint32, now: uint32)
    requires Balanced(b, left, read, id, limit, counter, now)
    ensures Balanced(b.(closed := true), left, read, id, limit, counter, if b.closed then now else 0)
  {
  }

  lemma InBalance(b: Balance, read: bytes, id: uint32, limit: nat, counter: uint32, now: uint32)
    requires Balanced(b, [], read, id, limit, counter, now)
    ensures Payloads(b.All()) == read && DataOnly(b.All(), id, limit) && Consecutive(b.inTime, counter)
    ensures if b.closed then |b.late| <= 1 && (b.late != [] ==> b.late[0].seqID == 1) else b.late == []
    ensures !b.closed ==> now == After(counter, b.inTime)
  {
    assert Payloads(b.All()) + [] == Payloads(b.All());
  }

  lemma NextModulo(counter: uint32, k: nat)
    ensures Next((counter + k) % U32) == (counter + k + 1) % U32
  {
  }

  lemma OneMore(made: seq<Frame>, f: Frame, id: uint32, limit: nat)
    requires DataOnly(made, id, limit) && f.kind == Data && f.streamID == id && 0 < |f.payload| <= limit
    ensures DataOnly(made + [f], id, limit)
  {
  }

  lemma OneMoreNumber(made: seq<Frame>, f: Frame, counter: uint32)
    requires Consecutive(made, counter) && f.seqID == (counter + |made| + 1) % U32
    ensures Consecutive(made + [f], counter)
  {
  }

  lemma OnePayloadMore(made: seq<Frame>, f: Frame, left: bytes, read: bytes)
    requires Payloads(made) + left == read && f.payload == left
    ensures Payloads(made + [f]) + [] == read
  {
    PayloadsSnoc(made, f);
    assert Payloads(made + [f]) + [] == Payloads(made + [f]);
  }

  lemma SendInTime(b: Balance, left: bytes, read: bytes, id: uint32, limit: nat, counter: uint32, now: uint32)
    requires !b.closed && Balanced(b, left, read, id, limit, counter, now) && 0 < |left| <= limit
    ensures var f := Frame(Data, id, Next(now), left);
      Balanced(b.(inTime := b.inTime + [f]), [], read, id, limit, counter, Next(now))
  {
    hide DataOnly, Consecutive, Next, Payloads;
    var f := Frame(Data, id, Next(now), left);
    assert b.inTime + [] == b.inTime && b.inTime + [f] + [] == b.inTime + [f];
    NextModulo(counter, |b.inTime|);
    OneMore(b.inTime, f, id, limit);
    OneMoreNumber(b.inTime, f, counter);
    OnePayloadMore(b.inTime, f, left, read);
  }

  lemma SendLate(b: Balance, left: bytes, read: bytes, id: uint32, limit: nat, counter: uint32, now: uint32)
    requires b.closed && Balanced(b, left, read, id, limit, counter, now) && 0 < |left| <= limit
    ensures b.late == []
    ensures var f := Frame(Data, id, Next(now), left);
      Balanced(b.(late := [f]), [], read, id, limit, counter, Next(now))
  {
    hide DataOnly, Consecutive, Payloads;
    var f := Frame(Data, id, Next(now), left);
    assert b.inTime + [] == b.inTime;
    OneMore(b.inTime, f, id, limit);
    OnePayloadMore(b.inTime, f, left, read);
  }

  /** Sending what is left keeps the balance: under the next number while the stream is open,
      and under the number 1 once it is closed. */
  lemma SendBalanced(b: Balance, left: bytes, read: bytes, id: uint32, limit: nat, counter: uint32, now: uint32)
    requires Balanced(b, left, read, id, limit, counter, now) && |left| <= limit
    ensures var fs := Emit(id, now, left);
      && b.Sent(fs).All() == b.All() + fs
      && Balanced(b.Sent(fs), [], read, id, limit, counter, if left == [] then now else Next(now))
  {
    hide Balanced, Next;
    var fs := Emit(id, now, left);
    Assoc(b.inTime, b.late, fs);
    if left == [] {
      assert b.Sent(fs) == b;
    } else if b.closed {
      SendLate(b, left, read, id, limit, counter, now);
      assert [] + fs == fs;
    } else {
      NoneLate(b, left, read, id, limit, counter, now);
      assert b.inTime + fs + [] == b.inTime + [] + fs;
      SendInTime(b, left, read, id, limit, counter, now);
    }
  }

  lemma NoneLate(b: Balance, left: bytes, read: bytes, id: uint32, limit: nat, counter: uint32, now: uint32)
    requires !b.closed && Balanced(b, left, read, id, limit, counter, now)
    ensures b.late == []
  {
  }
}
