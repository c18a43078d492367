/** The receiving half of seichannel/transport.go (the same code stands in videochannel):
    reassembly per sequence number, the cache of delivered messages, and what a run of
    arriving fragments hands to the application. The CRC is any function of the bytes. */
module SeiReassembly {
  import opened Arith
  import opened Bytes
  import opened SeiFrames

  const DELIVERED_LIMIT := 256

  type Checksum = bytes -> uint32

  datatype Inbound = Inbound(totalLen: uint32, crc: uint32, frags: seq<Option<bytes>>, remain: int)

  datatype Receiver = Receiver(inbound: map<uint32, Inbound>, delivered: map<uint32, uint32>)

  /** The receiver after one data frame, what it passed to onData, and whether it acked. */
  datatype Handled = Handled(recv: Receiver, data: Option<bytes>, ack: bool)

  const EMPTY := Receiver(map[], map[])

  function NewInbound(f: Frame): Inbound
    requires f.Data?
  {
    Inbound(f.totalLen, f.crc, seq(f.fragTotal, _ => None), f.fragTotal)
  }

  predicate SameMessage(msg: Inbound, f: Frame)
    requires f.Data?
  {
    msg.crc == f.crc && msg.totalLen == f.totalLen && |msg.frags| == f.fragTotal
  }

  function Slot(r: Receiver, f: Frame): Inbound
    requires f.Data?
  {
    if f.sn in r.inbound && SameMessage(r.inbound[f.sn], f) then r.inbound[f.sn] else NewInbound(f)
  }

  function Store(msg: Inbound, f: Frame): Inbound
    requires f.Data? && f.fragIdx < |msg.frags|
  {
    if msg.frags[f.fragIdx].None? then
      msg.(frags := msg.frags[f.fragIdx := Some(f.payload)], remain := msg.remain - 1)
    else msg
  }

  function Join(frags: seq<Option<bytes>>): bytes {
    if frags == [] then []
    else (if frags[0].Some? then frags[0].value else []) + Join(frags[1..])
  }

  function Assemble(msg: Inbound): bytes {
    var data := Join(msg.frags);
    if |data| % U32 > msg.totalLen then data[..msg.totalLen] else data
  }

  function HandleData(r: Receiver, f: Frame, crc32: Checksum): Handled
    requires f.Data?
  {
    if f.sn in r.delivered && r.delivered[f.sn] == f.crc then Handled(r, None, true)
    else
      var msg := Slot(r, f);
      if f.fragIdx >= |msg.frags| then
        Handled(r.(inbound := r.inbound[f.sn := msg]), None, false)
      else
        var stored := Store(msg, f);
        if stored.remain != 0 then
          Handled(r.(inbound := r.inbound[f.sn := stored]), None, false)
        else
          var data := Assemble(stored);
          var inbound := r.inbound - {f.sn};
          if crc32(data) != stored.crc then Handled(r.(inbound := inbound), None, false)
          else
            var known := if |r.delivered| > DELIVERED_LIMIT then map[] else r.delivered;
            Handled(Receiver(inbound, known[f.sn := stored.crc]), Some(data), true)
  }

  // Fragments of a message

  /** The message's length and fragment count fit the fields of a data frame. */
  predicate Fits(data: bytes, size: nat)
    requires size > 0
  {
    |data| < U32 && |Fragments(data, size)| < U16
  }

  function FragmentFrame(sn: uint32, data: bytes, i: nat, size: nat, crc32: Checksum): Frame
    requires size > 0 && i < |Fragments(data, size)|
  {
    DataFrame(sn, crc32(data), |data|, i, |Fragments(data, size)|, Fragments(data, size)[i])
  }

  /** f carries fragment i of the message, with all of the message's fields. */
  ghost predicate Genuine(f: Frame, data: bytes, i: nat, size: nat, crc32: Checksum)
    requires size > 0
  {
    var parts := Fragments(data, size);
    && f.Data? && i < |parts|
    && f.crc == crc32(data) && f.totalLen == |data|
    && f.fragIdx == i && f.fragTotal == |parts| && f.payload == parts[i]
  }

  lemma FragmentFrameGenuine(sn: uint32, data: bytes, i: nat, size: nat, crc32: Checksum)
    requires size > 0 && Fits(data, size) && i < |Fragments(data, size)|
    ensures Genuine(FragmentFrame(sn, data, i, size, crc32), data, i, size, crc32)
  {
  }

  function Indices(n: nat): (s: set<nat>)
    ensures forall k :: k in s <==> 0 <= k < n
    ensures |s| == n
  {
    if n == 0 then {} else Indices(n - 1) + {n - 1}
  }

  lemma {:induction false} SubsetCount<T>(a: set<T>, b: set<T>)
    requires a <= b
    ensures |a| <= |b|
    ensures |a| == |b| ==> a == b
  {
    if a != {} {
      var x :| x in a;
      SubsetCount(a - {x}, b - {x});
    }
  }

  /** The entry holds exactly the fragments in `have`, and `remain` counts the missing ones. */
  ghost predicate Holds(msg: Inbound, data: bytes, size: nat, crc32: Checksum, have: set<nat>)
    requires size > 0
  {
    var parts := Fragments(data, size);
    && msg.totalLen == |data| && msg.crc == crc32(data) && |msg.frags| == |parts|
    && have <= Indices(|parts|)
    && (forall k :: 0 <= k < |parts| ==> msg.frags[k] == if k in have then Some(parts[k]) else None)
    && msg.remain == |parts| - |have|
  }

  lemma {:induction false} JoinAll(frags: seq<Option<bytes>>, parts: seq<bytes>)
    requires |frags| == |parts|
    requires forall k :: 0 <= k < |parts| ==> frags[k] == Some(parts[k])
    ensures Join(frags) == Concat(parts)
  {
    if parts != [] {
      JoinAll(frags[1..], parts[1..]);
    }
  }

  lemma AssembleFull(msg: Inbound, data: bytes, size: nat, crc32: Checksum, have: set<nat>)
    requires size > 0 && Fits(data, size)
    requires Holds(msg, data, size, crc32, have) && have == Indices(|Fragments(data, size)|)
    ensures Assemble(msg) == data
  {
    JoinAll(msg.frags, Fragments(data, size));
    FragmentsJoin(data, size);
  }

  lemma StoreHolds(msg: Inbound, f: Frame, data: bytes, i: nat, size: nat, crc32: Checksum, have: set<nat>)
    requires size > 0 && Genuine(f, data, i, size, crc32)
    requires Holds(msg, data, size, crc32, have)
    ensures Holds(Store(msg, f), data, size, crc32, have + {i})
    ensures Store(msg, f).remain == 0 <==> have + {i} == Indices(|Fragments(data, size)|)
  {
    SubsetCount(have + {i}, Indices(|Fragments(data, size)|));
    if i in have {
      assert have + {i} == have;
    }
  }

  ghost predicate Delivered(r: Receiver, f: Frame) {
    f.sn in r.delivered && r.delivered[f.sn] == f.crc
  }

  /** The receiver collects genuine fragments: `have` are those of message sn it holds. */
  ghost predicate Collects(r: Receiver, sn: uint32, data: bytes, size: nat, crc32: Checksum, have: set<nat>)
    requires size > 0
  {
    if sn in r.inbound then Holds(r.inbound[sn], data, size, crc32, have) else have == {}
  }

  lemma SlotHolds(r: Receiver, f: Frame, data: bytes, i: nat, size: nat, crc32: Checksum, have: set<nat>)
    requires size > 0 && Genuine(f, data, i, size, crc32)
    requires Collects(r, f.sn, data, size, crc32, have)
    ensures Holds(Slot(r, f), data, size, crc32, have)
  {
  }

  /** The cache after message sn has been handed up. */
  function Remember(delivered: map<uint32, uint32>, sn: uint32, crc: uint32): map<uint32, uint32> {
    (if |delivered| > DELIVERED_LIMIT then map[] else delivered)[sn := crc]
  }

  /** What one genuine fragment should do. A known message is acked again and nothing else
      happens. Otherwise the message is handed up, byte for byte, exactly when this is its
      last missing fragment, and it is remembered; or else the fragment is kept. */
  ghost predicate HandledRight(h: Handled, r: Receiver, f: Frame, data: bytes, i: nat, size: nat, crc32: Checksum,
                               have: set<nat>)
    requires size > 0
  {
    if Delivered(r, f) then h == Handled(r, None, true)
    else if have + {i} == Indices(|Fragments(data, size)|) then
      h == Handled(Receiver(r.inbound - {f.sn}, Remember(r.delivered, f.sn, f.crc)), Some(data), true)
    else
      && h.data == None && !h.ack && h.recv.delivered == r.delivered
      && f.sn in h.recv.inbound && h.recv.inbound == r.inbound[f.sn := h.recv.inbound[f.sn]]
      && Collects(h.recv, f.sn, data, size, crc32, have + {i})
  }

  lemma HandleGenuine(r: Receiver, f: Frame, data: bytes, i: nat, size: nat, crc32: Checksum, have: set<nat>)
    requires size > 0 && Fits(data, size) && Genuine(f, data, i, size, crc32)
    requires Collects(r, f.sn, data, size, crc32, have)
    ensures HandledRight(HandleData(r, f, crc32), r, f, data, i, size, crc32, have)
  {
    SlotHolds(r, f, data, i, size, crc32, have);
    var msg := Slot(r, f);
    StoreHolds(msg, f, data, i, size, crc32, have);
    var stored := Store(msg, f);
    if have + {i} == Indices(|Fragments(data, size)|) {
      AssembleFull(stored, data, size, crc32, have + {i});
    }
  }

  // A run of arriving fragments

  /** Messages by sequence number, each cut into fragments of at most `size` bytes. */
  datatype Traffic = Traffic(messages: map<uint32, bytes>, size: nat, crc32: Checksum)
  {
    ghost predicate Valid() {
      size > 0 && forall sn :: sn in messages ==> Fits(messages[sn], size)
    }

    function Parts(sn: uint32): seq<bytes>
      requires size > 0 && sn in messages
    {
      Fragments(messages[sn], size)
    }

    function FrameFor(x: (uint32, nat)): Frame
      requires size > 0 && x.0 in messages && x.1 < |Parts(x.0)|
    {
      FragmentFrame(x.0, messages[x.0], x.1, size, crc32)
    }

    ghost predicate Arrival(x: (uint32, nat))
      requires size > 0
    {
      x.0 in messages && x.1 < |Parts(x.0)|
    }
  }

  ghost predicate ValidTrace(t: Traffic, trace: seq<(uint32, nat)>) {
    t.Valid() && forall k :: 0 <= k < |trace| ==> t.Arrival(trace[k])
  }

  ghost function Receive(t: Traffic, trace: seq<(uint32, nat)>): Receiver
    requires ValidTrace(t, trace)
  {
    if trace == [] then EMPTY
    else
      var last := |trace| - 1;
      HandleData(Receive(t, trace[..last]), t.FrameFor(trace[last]), t.crc32).recv
  }

  /** Which fragments of message sn are among the arrivals. */
  ghost function Arrived(trace: seq<(uint32, nat)>, sn: uint32): set<nat> {
    if trace == [] then {}
    else
      var last := |trace| - 1;
      Arrived(trace[..last], sn) + if trace[last].0 == sn then {trace[last].1} else {}
  }

  ghost predicate AllArrived(t: Traffic, trace: seq<(uint32, nat)>, sn: uint32)
    requires t.Valid() && sn in t.messages
  {
    Arrived(trace, sn) == Indices(|t.Parts(sn)|)
  }

  lemma {:induction false} ArrivedWithin(t: Traffic, trace: seq<(uint32, nat)>, sn: uint32)
    requires ValidTrace(t, trace) && sn in t.messages
    ensures Arrived(trace, sn) <= Indices(|t.Parts(sn)|)
  {
    if trace != [] {
      ArrivedWithin(t, trace[..|trace| - 1], sn);
    }
  }

  lemma ArrivedSnoc(trace: seq<(uint32, nat)>, x: (uint32, nat), sn: uint32)
    ensures Arrived(trace + [x], sn) == Arrived(trace, sn) + if x.0 == sn then {x.1} else {}
  {
    assert (trace + [x])[..|trace|] == trace;
  }

  lemma {:induction false} ArrivedSuffix(trace: seq<(uint32, nat)>, k: nat, sn: uint32)
    requires k <= |trace|
    ensures Arrived(trace[k..], sn) <= Arrived(trace, sn)
    decreases |trace|
  {
    if k < |trace| {
      var before, x := trace[..|trace| - 1], trace[|trace| - 1];
      ArrivedSuffix(before, k, sn);
      assert trace[k..] == before[k..] + [x] && trace == before + [x];
      ArrivedSnoc(before[k..], x, sn);
      ArrivedSnoc(before, x, sn);
    }
  }

  // What is handed up, and what the cache still knows of it

  /** The numbers of the messages handed up in a run, in order. */
  ghost function Handed(t: Traffic, trace: seq<(uint32, nat)>): seq<uint32>
    requires ValidTrace(t, trace)
    decreases |trace|
  {
    if trace == [] then []
    else
      var before, x := trace[..|trace| - 1], trace[|trace| - 1];
      Handed(t, before) +
        if HandleData(Receive(t, before), t.FrameFor(x), t.crc32).data.Some? then [x.0] else []
  }

  /** The hand-ups since the cache was last emptied, which happens at every 257th after the
      first. */
  function Recent(handed: seq<uint32>): seq<uint32> {
    if handed == [] then [] else handed[(|handed| - 1) / (DELIVERED_LIMIT + 1) * (DELIVERED_LIMIT + 1)..]
  }

  lemma RecentNext(handed: seq<uint32>, sn: uint32)
    ensures |Recent(handed)| <= DELIVERED_LIMIT + 1
    ensures Recent(handed + [sn]) == if |Recent(handed)| > DELIVERED_LIMIT then [sn] else Recent(handed) + [sn]
  {
  }

  lemma RecentAmong(handed: seq<uint32>, sn: uint32)
    ensures sn in Recent(handed) ==> sn in handed
    ensures |handed| <= DELIVERED_LIMIT + 1 && sn in handed ==> sn in Recent(handed)
  {
  }

  /** From where in the run the fragments of message sn count: from the start, or from where
      the cache last forgot it. */
  ghost function Since(t: Traffic, trace: seq<(uint32, nat)>, sn: uint32): (k: nat)
    requires ValidTrace(t, trace)
    ensures k <= |trace|
    decreases |trace|
  {
    if trace == [] then 0
    else
      var before := trace[..|trace| - 1];
      if sn in Recent(Handed(t, before)) && sn !in Recent(Handed(t, trace)) then |trace| else Since(t, before, sn)
  }

  /** The fragments of message sn that count. */
  ghost function Counted(t: Traffic, trace: seq<(uint32, nat)>, sn: uint32): set<nat>
    requires ValidTrace(t, trace)
  {
    Arrived(trace[Since(t, trace, sn)..], sn)
  }

  lemma CountedNext(t: Traffic, before: seq<(uint32, nat)>, x: (uint32, nat), trace: seq<(uint32, nat)>, sn: uint32)
    requires ValidTrace(t, before) && ValidTrace(t, trace) && trace == before + [x]
    ensures Counted(t, trace, sn) ==
      if sn in Recent(Handed(t, before)) && sn !in Recent(Handed(t, trace)) then {}
      else Counted(t, before, sn) + if x.0 == sn then {x.1} else {}
  {
    hide Recent, Handed;
    assert trace[..|trace| - 1] == before;
    var k := Since(t, before, sn);
    assert trace[k..] == before[k..] + [x];
    ArrivedSnoc(before[k..], x, sn);
  }

  /** The cache holds what has been handed up since it was last emptied. */
  ghost predicate CacheIs(t: Traffic, r: Receiver, handed: seq<uint32>) {
    && |r.delivered| == |Recent(handed)|
    && (forall sn :: sn in r.delivered <==> sn in Recent(handed))
    && (forall sn :: sn in r.delivered ==> sn in t.messages && r.delivered[sn] == t.crc32(t.messages[sn]))
  }

  /** A message the cache knows has no entry; any other has the fragments that count, and they
      are not all. */
  ghost predicate HeldIs(t: Traffic, r: Receiver, handed: seq<uint32>, sn: uint32, have: set<nat>)
    requires t.Valid() && sn in t.messages
  {
    if sn in Recent(handed) then sn !in r.inbound
    else Collects(r, sn, t.messages[sn], t.size, t.crc32, have) && have != Indices(|t.Parts(sn)|)
  }

  ghost predicate Explained(t: Traffic, r: Receiver, trace: seq<(uint32, nat)>)
    requires ValidTrace(t, trace)
  {
    && CacheIs(t, r, Handed(t, trace))
    && forall sn :: sn in t.messages ==> HeldIs(t, r, Handed(t, trace), sn, Counted(t, trace, sn))
  }

  lemma StartExplained(t: Traffic)
    requires ValidTrace(t, [])
    ensures Explained(t, EMPTY, [])
  {
    hide Fits;
    forall sn | sn in t.messages
      ensures HeldIs(t, EMPTY, [], sn, {})
    {
      assert 0 in Indices(|t.Parts(sn)|);
    }
  }

  /** The message is handed up by this fragment. */
  ghost predicate Completes(t: Traffic, before: seq<(uint32, nat)>, x: (uint32, nat))
    requires ValidTrace(t, before) && t.Arrival(x)
  {
    x.0 !in Recent(Handed(t, before)) && Counted(t, before, x.0) + {x.1} == Indices(|t.Parts(x.0)|)
  }

  /** What one more fragment does to a receiver that the run so far explains. */
  lemma FragmentHandled(t: Traffic, r: Receiver, before: seq<(uint32, nat)>, x: (uint32, nat))
    requires ValidTrace(t, before) && t.Arrival(x) && Explained(t, r, before)
    ensures var h, f := HandleData(r, t.FrameFor(x), t.crc32), t.FrameFor(x);
      && h.data == (if Completes(t, before, x) then Some(t.messages[x.0]) else None)
      && f.sn == x.0 && f.crc == t.crc32(t.messages[x.0])
      && (x.0 in Recent(Handed(t, before)) ==> h.recv == r)
      && (x.0 !in Recent(Handed(t, before)) ==> x.0 !in r.delivered)
      && (x.0 !in Recent(Handed(t, before)) ==>
            HandledRight(h, r, f, t.messages[x.0], x.1, t.size, t.crc32, Counted(t, before, x.0)))
  {
    hide HandleData, Recent, Handed, Counted, Fits, Collects;
    var f := t.FrameFor(x);
    FragmentFrameGenuine(x.0, t.messages[x.0], x.1, t.size, t.crc32);
    assert HeldIs(t, r, Handed(t, before), x.0, Counted(t, before, x.0));
    if x.0 in Recent(Handed(t, before)) {
      KnownAgain(r, f, t.crc32);
    } else {
      HandleGenuine(r, f, t.messages[x.0], x.1, t.size, t.crc32, Counted(t, before, x.0));
    }
  }

  lemma KnownAgain(r: Receiver, f: Frame, crc32: Checksum)
    requires f.Data? && Delivered(r, f)
    ensures HandleData(r, f, crc32) == Handled(r, None, true)
  {
  }

  lemma CacheNext(t: Traffic, r: Receiver, handed: seq<uint32>, sn: uint32)
    requires CacheIs(t, r, handed) && sn in t.messages && sn !in r.delivered
    ensures CacheIs(t, Receiver(r.inbound - {sn}, Remember(r.delivered, sn, t.crc32(t.messages[sn]))), handed + [sn])
  {
    hide Recent;
    RecentNext(handed, sn);
  }

  /** What becomes of the message the fragment belongs to. */
  lemma HeldHere(t: Traffic, r: Receiver, h: Handled, f: Frame, i: nat, handed: seq<uint32>, have: set<nat>)
    requires t.Valid() && f.sn in t.messages && f.sn !in Recent(handed) && !Delivered(r, f)
    requires HeldIs(t, r, handed, f.sn, have)
    requires HandledRight(h, r, f, t.messages[f.sn], i, t.size, t.crc32, have)
    ensures HeldIs(t, h.recv, handed + if h.data.Some? then [f.sn] else [], f.sn, have + {i})
  {
    hide Recent, Fits, Holds;
    RecentNext(handed, f.sn);
    assert handed + [] == handed;
  }

  /** And of any other: its entry stays, and it may be forgotten. */
  lemma HeldElsewhere(t: Traffic, r: Receiver, h: Handled, f: Frame, i: nat, handed: seq<uint32>, mine: set<nat>,
                      sn: uint32, have: set<nat>)
    requires t.Valid() && f.sn in t.messages && !Delivered(r, f)
    requires HandledRight(h, r, f, t.messages[f.sn], i, t.size, t.crc32, mine)
    requires sn in t.messages && sn != f.sn && HeldIs(t, r, handed, sn, have)
    ensures var next := handed + if h.data.Some? then [f.sn] else [];
      HeldIs(t, h.recv, next, sn, if sn in Recent(handed) && sn !in Recent(next) then {} else have)
  {
    hide Recent, Fits, Holds, Remember;
    RecentNext(handed, f.sn);
    assert handed + [] == handed;
    assert 0 in Indices(|t.Parts(sn)|);
  }

  /** A fragment of a message the cache knows changes nothing. */
  lemma ExplainedAgain(t: Traffic, r: Receiver, before: seq<(uint32, nat)>, x: (uint32, nat), trace: seq<(uint32, nat)>)
    requires ValidTrace(t, before) && ValidTrace(t, trace) && trace == before + [x]
    requires Explained(t, r, before) && x.0 in Recent(Handed(t, before)) && Handed(t, trace) == Handed(t, before)
    ensures Explained(t, r, trace)
  {
    hide CacheIs, Recent, Handed, Counted, Collects, Fits;
    forall sn | sn in t.messages
      ensures HeldIs(t, r, Handed(t, trace), sn, Counted(t, trace, sn))
    {
      CountedNext(t, before, x, trace, sn);
      assert HeldIs(t, r, Handed(t, before), sn, Counted(t, before, sn));
    }
  }

  lemma ExplainedNext(t: Traffic, r: Receiver, h: Handled, f: Frame, before: seq<(uint32, nat)>, x: (uint32, nat),
                      trace: seq<(uint32, nat)>)
    requires ValidTrace(t, before) && ValidTrace(t, trace) && trace == before + [x]
    requires Explained(t, r, before) && f.sn == x.0 && f.sn in t.messages && f.crc == t.crc32(t.messages[f.sn])
    requires x.0 !in Recent(Handed(t, before)) && x.0 !in r.delivered
    requires HandledRight(h, r, f, t.messages[f.sn], x.1, t.size, t.crc32, Counted(t, before, x.0))
    requires Handed(t, trace) == Handed(t, before) + if h.data.Some? then [x.0] else []
    ensures Explained(t, h.recv, trace)
  {
    hide HeldIs, CacheIs, Recent, Handed, Counted, Fits, HandledRight;
    forall sn | sn in t.messages
      ensures HeldIs(t, h.recv, Handed(t, trace), sn, Counted(t, trace, sn))
    {
      CountedNext(t, before, x, trace, sn);
      if sn == x.0 {
        HeldHere(t, r, h, f, x.1, Handed(t, before), Counted(t, before, sn));
      } else {
        assert Counted(t, before, sn) + {} == Counted(t, before, sn);
        HeldElsewhere(t, r, h, f, x.1, Handed(t, before), Counted(t, before, x.0), sn, Counted(t, before, sn));
      }
    }
    CacheAfter(t, r, h, f, x.1, Handed(t, before), Counted(t, before, x.0));
  }

  lemma CacheAfter(t: Traffic, r: Receiver, h: Handled, f: Frame, i: nat, handed: seq<uint32>, mine: set<nat>)
    requires t.Valid() && f.sn in t.messages && f.crc == t.crc32(t.messages[f.sn]) && f.sn !in r.delivered
    requires CacheIs(t, r, handed) && HandledRight(h, r, f, t.messages[f.sn], i, t.size, t.crc32, mine)
    ensures CacheIs(t, h.recv, handed + if h.data.Some? then [f.sn] else [])
  {
    hide Recent, Fits, Collects, Remember;
    CacheNext(t, r, handed, f.sn);
    assert handed + [] == handed;
  }

  lemma {:induction false} RunExplained(t: Traffic, trace: seq<(uint32, nat)>)
    requires ValidTrace(t, trace)
    ensures Explained(t, Receive(t, trace), trace)
    decreases |trace|
  {
    hide HandleData, Explained, Recent, HandledRight, Fits;
    if trace == [] {
      StartExplained(t);
    } else {
      var before, x := trace[..|trace| - 1], trace[|trace| - 1];
      var r := Receive(t, before);
      RunExplained(t, before);
      assert t.Arrival(x);
      FragmentHandled(t, r, before, x);
      var h := HandleData(r, t.FrameFor(x), t.crc32);
      assert before + [x] == trace;
      if x.0 in Recent(Handed(t, before)) {
        assert Handed(t, before) + [] == Handed(t, before);
        NotCompleted(t, before, x);
        ExplainedAgain(t, r, before, x, trace);
      } else {
        ExplainedNext(t, r, h, t.FrameFor(x), before, x, trace);
      }
    }
  }

  lemma NotCompleted(t: Traffic, before: seq<(uint32, nat)>, x: (uint32, nat))
    requires ValidTrace(t, before) && t.Arrival(x) && x.0 in Recent(Handed(t, before))
    ensures !Completes(t, before, x)
  {
  }

  // The results

  /** What a run hands up, for any number of messages: a fragment makes the receiver hand up
      its message, whole, exactly when the cache does not know the message and the fragment is
      the last missing one of those that count. */
  lemma HandedUpExactly(t: Traffic, before: seq<(uint32, nat)>, x: (uint32, nat))
    requires ValidTrace(t, before) && t.Arrival(x)
    ensures HandleData(Receive(t, before), t.FrameFor(x), t.crc32).data
         == if Completes(t, before, x) then Some(t.messages[x.0]) else None
  {
    hide HandleData, Explained, Completes;
    RunExplained(t, before);
    FragmentHandled(t, Receive(t, before), before, x);
  }

  lemma HandedNext(t: Traffic, before: seq<(uint32, nat)>, x: (uint32, nat), trace: seq<(uint32, nat)>)
    requires ValidTrace(t, before) && t.Arrival(x) && trace == before + [x] && ValidTrace(t, trace)
    ensures Handed(t, trace) == Handed(t, before) + if Completes(t, before, x) then [x.0] else []
  {
    hide HandleData, Completes;
    HandedUpExactly(t, before, x);
    assert trace[..|before|] == before;
  }

  /** What is handed up has all arrived. */
  lemma {:induction false} HandedArrived(t: Traffic, trace: seq<(uint32, nat)>, sn: uint32)
    requires ValidTrace(t, trace) && sn in Handed(t, trace)
    ensures sn in t.messages && AllArrived(t, trace, sn)
    decreases |trace|
  {
    hide Recent, Handed, Fits;
    if trace == [] {
      NothingHanded(t);
    } else {
      var before, x := trace[..|trace| - 1], trace[|trace| - 1];
      assert t.Arrival(x) && before + [x] == trace;
      HandedNext(t, before, x, trace);
      ArrivedSnoc(before, x, sn);
      if sn in Handed(t, before) {
        HandedArrived(t, before, sn);
      } else {
        ArrivedSuffix(before, Since(t, before, sn), sn);
      }
      ArrivedWithin(t, trace, sn);
    }
  }

  lemma NothingHanded(t: Traffic)
    requires ValidTrace(t, [])
    ensures Handed(t, []) == []
  {
  }

  /** All fragments count of what has never been handed up. */
  lemma {:induction false} NeverHanded(t: Traffic, trace: seq<(uint32, nat)>, sn: uint32)
    requires ValidTrace(t, trace) && sn !in Handed(t, trace)
    ensures sn !in Recent(Handed(t, trace)) && Since(t, trace, sn) == 0
    decreases |trace|
  {
    hide Recent, HandleData;
    RecentAmong(Handed(t, trace), sn);
    if trace != [] {
      var before := trace[..|trace| - 1];
      RecentAmong(Handed(t, before), sn);
      NeverHanded(t, before, sn);
    }
  }

  lemma Incomplete(t: Traffic, trace: seq<(uint32, nat)>, sn: uint32)
    requires ValidTrace(t, trace) && sn in t.messages && !AllArrived(t, trace, sn)
    ensures sn !in Recent(Handed(t, trace)) && Counted(t, trace, sn) == Arrived(trace, sn)
  {
    hide Recent, Handed, AllArrived;
    if sn in Handed(t, trace) {
      HandedArrived(t, trace, sn);
    }
    NeverHanded(t, trace, sn);
    assert trace[0..] == trace;
  }

  lemma HeldSoFar(t: Traffic, trace: seq<(uint32, nat)>, sn: uint32)
    requires ValidTrace(t, trace) && sn in t.messages && !AllArrived(t, trace, sn)
    ensures sn !in Receive(t, trace).delivered
    ensures Collects(Receive(t, trace), sn, t.messages[sn], t.size, t.crc32, Arrived(trace, sn))
  {
    hide Receive, Collects, Recent, Handed, Counted, Arrived, AllArrived, Fits;
    RunExplained(t, trace);
    Incomplete(t, trace, sn);
    assert HeldIs(t, Receive(t, trace), Handed(t, trace), sn, Counted(t, trace, sn));
  }

  /** Reassembly does not depend on order or repetition. In every run, over any number of
      messages whose fragments are interleaved and repeated in any way: as long as a message
      is incomplete its entry holds exactly the fragments that have arrived, with `remain`
      counting the missing ones; and the last missing fragment, and no other before it, makes
      the receiver hand the message up, byte for byte. */
  lemma ReassemblyIsOrderIndependent(t: Traffic, trace: seq<(uint32, nat)>)
    requires ValidTrace(t, trace)
    ensures forall sn :: sn in t.messages && !AllArrived(t, trace, sn) ==>
      sn !in Receive(t, trace).delivered
      && Collects(Receive(t, trace), sn, t.messages[sn], t.size, t.crc32, Arrived(trace, sn))
    ensures trace != [] ==>
      var before, x := trace[..|trace| - 1], trace[|trace| - 1];
      !AllArrived(t, before, x.0) ==>
        HandleData(Receive(t, before), t.FrameFor(x), t.crc32).data
          == if AllArrived(t, trace, x.0) then Some(t.messages[x.0]) else None
  {
    hide HandleData, Receive, Collects, Arrived, AllArrived, Fits;
    forall sn | sn in t.messages && !AllArrived(t, trace, sn)
      ensures sn !in Receive(t, trace).delivered
      ensures Collects(Receive(t, trace), sn, t.messages[sn], t.size, t.crc32, Arrived(trace, sn))
    {
      HeldSoFar(t, trace, sn);
    }
    if trace != [] {
      var before, x := trace[..|trace| - 1], trace[|trace| - 1];
      assert t.Arrival(x) && before + [x] == trace;
      if !AllArrived(t, before, x.0) {
        FirstHandUp(t, before, x, trace);
      }
    }
  }

  lemma FirstHandUp(t: Traffic, before: seq<(uint32, nat)>, x: (uint32, nat), trace: seq<(uint32, nat)>)
    requires ValidTrace(t, before) && t.Arrival(x) && trace == before + [x] && ValidTrace(t, trace)
    requires !AllArrived(t, before, x.0)
    ensures HandleData(Receive(t, before), t.FrameFor(x), t.crc32).data
         == if AllArrived(t, trace, x.0) then Some(t.messages[x.0]) else None
  {
    hide HandleData, Recent, Handed, Counted, Fits;
    Incomplete(t, before, x.0);
    HandedUpExactly(t, before, x);
    ArrivedSnoc(before, x, x.0);
  }

  // At most once, and when not

  /** The run up to position k has just made the cache forget message sn, and nothing has
      brought it back since. */
  ghost predicate ForgottenAt(t: Traffic, trace: seq<(uint32, nat)>, sn: uint32, k: nat)
    requires ValidTrace(t, trace)
  {
    && 0 < k <= |trace|
    && sn in Recent(Handed(t, trace[..k - 1]))
    && forall j :: k <= j <= |trace| ==> sn !in Recent(Handed(t, trace[..j]))
  }

  lemma {:induction false} SinceForgotten(t: Traffic, trace: seq<(uint32, nat)>, sn: uint32)
    requires ValidTrace(t, trace) && sn in Handed(t, trace) && sn !in Recent(Handed(t, trace))
    ensures ForgottenAt(t, trace, sn, Since(t, trace, sn))
    decreases |trace|
  {
    hide Recent, Handed, Completes, ForgottenAt;
    if trace == [] {
      NothingHanded(t);
    } else {
      var before, x := trace[..|trace| - 1], trace[|trace| - 1];
      assert t.Arrival(x) && before + [x] == trace;
      if sn in Recent(Handed(t, before)) {
        JustForgotten(t, trace, sn);
      } else {
        HandedNext(t, before, x, trace);
        HandedStaysRecent(Handed(t, before), x.0);
        SinceForgotten(t, before, sn);
        StillForgotten(t, before, x, trace, sn, Since(t, before, sn));
      }
    }
  }

  lemma JustForgotten(t: Traffic, trace: seq<(uint32, nat)>, sn: uint32)
    requires ValidTrace(t, trace) && trace != []
    requires sn in Recent(Handed(t, trace[..|trace| - 1])) && sn !in Recent(Handed(t, trace))
    ensures ForgottenAt(t, trace, sn, |trace|)
  {
    hide Recent, Handed;
    assert trace[..|trace|] == trace;
  }

  lemma StillForgotten(t: Traffic, before: seq<(uint32, nat)>, x: (uint32, nat), trace: seq<(uint32, nat)>,
                       sn: uint32, k: nat)
    requires ValidTrace(t, before) && ValidTrace(t, trace) && trace == before + [x]
    requires ForgottenAt(t, before, sn, k) && sn !in Recent(Handed(t, trace))
    ensures ForgottenAt(t, trace, sn, k)
  {
    hide Recent, Handed;
    assert before[..k - 1] == trace[..k - 1];
    assert trace[..|trace|] == trace;
    forall j | k <= j <= |trace|
      ensures sn !in Recent(Handed(t, trace[..j]))
    {
      if j < |trace| {
        assert before[..j] == trace[..j];
      }
    }
  }

  lemma HandedStaysRecent(handed: seq<uint32>, sn: uint32)
    ensures sn in Recent(handed + [sn])
  {
    assert (handed + [sn])[|handed|] == sn;
    assert Recent(handed + [sn])[|Recent(handed + [sn])| - 1] == sn;
  }

  /** A message that has been handed up is handed up again if and only if the cache has
      forgotten it and all its fragments have arrived again after that. For any run. */
  lemma HandedUpAgainIff(t: Traffic, before: seq<(uint32, nat)>, x: (uint32, nat))
    requires ValidTrace(t, before) && t.Arrival(x) && x.0 in Handed(t, before)
    ensures HandleData(Receive(t, before), t.FrameFor(x), t.crc32).data ==
      if exists k :: ForgottenAt(t, before, x.0, k) && AllAgain(t, before, x, k)
      then Some(t.messages[x.0]) else None
  {
    hide HandleData, Recent, Handed, Arrived, Fits, ForgottenAt;
    HandedUpExactly(t, before, x);
    var k := Since(t, before, x.0);
    ArrivedSnoc(before[k..], x, x.0);
    assert (before + [x])[k..] == before[k..] + [x];
    if x.0 !in Recent(Handed(t, before)) {
      SinceForgotten(t, before, x.0);
    }
    forall j | ForgottenAt(t, before, x.0, j)
      ensures x.0 !in Recent(Handed(t, before)) && j == k
    {
      ForgottenOnce(t, before, x.0, j, k);
    }
  }

  /** All fragments of the message are among the arrivals from position k on, x included. */
  ghost predicate AllAgain(t: Traffic, before: seq<(uint32, nat)>, x: (uint32, nat), k: nat)
    requires t.Valid() && x.0 in t.messages
  {
    k <= |before| && Arrived((before + [x])[k..], x.0) == Indices(|t.Parts(x.0)|)
  }

  lemma ForgottenOnce(t: Traffic, trace: seq<(uint32, nat)>, sn: uint32, j: nat, k: nat)
    requires ValidTrace(t, trace) && ForgottenAt(t, trace, sn, j)
    ensures sn !in Recent(Handed(t, trace))
    ensures ForgottenAt(t, trace, sn, k) ==> j == k
  {
    hide Recent, Handed;
    assert trace[..|trace|] == trace;
    assert trace[..j - 1] == trace[..j - 1];
  }

  ghost predicate Distinct(handed: seq<uint32>) {
    forall i, j :: 0 <= i < j < |handed| ==> handed[i] != handed[j]
  }

  lemma {:induction false} DistinctCount(handed: seq<uint32>, all: set<uint32>)
    requires Distinct(handed) && forall i :: 0 <= i < |handed| ==> handed[i] in all
    ensures |handed| <= |all|
    decreases |handed|
  {
    if handed != [] {
      DistinctCount(handed[..|handed| - 1], all - {handed[|handed| - 1]});
    }
  }

  /** With up to 257 messages the cache forgets nothing, and each is handed up at most once. */
  lemma {:induction false} AtMostOnce(t: Traffic, trace: seq<(uint32, nat)>)
    requires ValidTrace(t, trace) && |t.messages| <= 257
    ensures Distinct(Handed(t, trace)) && |Handed(t, trace)| <= |t.messages|
    decreases |trace|
  {
    hide Recent, Handed, Counted, Fits;
    if trace == [] {
      NothingHanded(t);
    } else {
      var before, x := trace[..|trace| - 1], trace[|trace| - 1];
      assert t.Arrival(x) && before + [x] == trace;
      AtMostOnce(t, before);
      HandedNext(t, before, x, trace);
      RecentAmong(Handed(t, before), x.0);
      forall i | 0 <= i < |Handed(t, trace)|
        ensures Handed(t, trace)[i] in t.messages.Keys
      {
        HandedArrived(t, trace, Handed(t, trace)[i]);
      }
      DistinctCount(Handed(t, trace), t.messages.Keys);
    }
  }

  // A run of 258 messages reaches the limit

  function Numbers(n: nat): (s: set<uint32>)
    requires n < U32
    ensures forall sn :: sn in s <==> 1 <= sn <= n
    ensures |s| == n
  {
    if n == 0 then {} else Numbers(n - 1) + {n as uint32}
  }

  /** The first fragments of messages 1 to n. */
  function Burst(n: nat): seq<(uint32, nat)>
    requires n < U32
  {
    if n == 0 then [] else Burst(n - 1) + [(n as uint32, 0)]
  }

  /** Messages 1 to n are short enough for a single fragment. */
  ghost predicate SingleFragments(t: Traffic, n: nat) {
    && t.Valid() && n < U32
    && forall sn: uint32 :: 1 <= sn <= n ==> sn in t.messages && |t.Parts(sn)| == 1
  }

  lemma {:induction false} BurstValid(t: Traffic, n: nat)
    requires SingleFragments(t, n)
    ensures |Burst(n)| == n && ValidTrace(t, Burst(n))
  {
    if n > 0 {
      BurstValid(t, n - 1);
    }
  }

  lemma SingleHandled(t: Traffic, r: Receiver, sn: uint32)
    requires t.Valid() && sn in t.messages && |t.Parts(sn)| == 1
    requires sn !in r.inbound && sn !in r.delivered
    ensures HandleData(r, t.FrameFor((sn, 0)), t.crc32) ==
      Handled(Receiver(r.inbound - {sn}, Remember(r.delivered, sn, t.crc32(t.messages[sn]))),
              Some(t.messages[sn]), true)
  {
    assert Indices(1) == {0} == {} + {0};
    FragmentFrameGenuine(sn, t.messages[sn], 0, t.size, t.crc32);
    HandleGenuine(r, t.FrameFor((sn, 0)), t.messages[sn], 0, t.size, t.crc32, {});
  }

  lemma {:induction false} BurstHandled(t: Traffic, n: nat)
    requires SingleFragments(t, n) && n <= DELIVERED_LIMIT + 2
    ensures ValidTrace(t, Burst(n))
    ensures Receive(t, Burst(n)).inbound == map[]
    ensures Receive(t, Burst(n)).delivered.Keys == if n <= DELIVERED_LIMIT + 1 then Numbers(n) else {n as uint32}
  {
    hide HandleData, Holds, Fits, Fragments;
    BurstValid(t, n);
    if n > 0 {
      BurstHandled(t, n - 1);
      BurstStep(t, n, Receive(t, Burst(n - 1)));
      assert Burst(n)[..n - 1] == Burst(n - 1) && Burst(n)[n - 1] == (n as uint32, 0);
    }
  }

  lemma BurstStep(t: Traffic, n: nat, r: Receiver)
    requires SingleFragments(t, n) && 1 <= n <= DELIVERED_LIMIT + 2
    requires r.inbound == map[] && r.delivered.Keys == Numbers(n - 1)
    ensures HandleData(r, t.FrameFor((n, 0)), t.crc32).recv.inbound == map[]
    ensures HandleData(r, t.FrameFor((n, 0)), t.crc32).recv.delivered.Keys
         == if n <= DELIVERED_LIMIT + 1 then Numbers(n) else {n as uint32}
  {
    hide HandleData, Fits, Remember;
    SingleHandled(t, r, n);
    RememberedKeys(r.delivered, n, t.crc32(t.messages[n]));
    assert r.inbound - {n as uint32} == map[];
  }

  lemma RememberedKeys(delivered: map<uint32, uint32>, n: nat, crc: uint32)
    requires 1 <= n < U32 && delivered.Keys == Numbers(n - 1)
    ensures Remember(delivered, n, crc).Keys == if n <= DELIVERED_LIMIT + 1 then Numbers(n) else {n as uint32}
  {
    assert |delivered| == |delivered.Keys| == n - 1;
  }

  /** With a 258th message the cache is emptied, and a fragment of the first message that
      arrives again after it is handed up a second time. */
  lemma LateDuplicateIsRedelivered(t: Traffic)
    requires SingleFragments(t, 258)
    ensures ValidTrace(t, Burst(258))
    ensures HandleData(EMPTY, t.FrameFor((1, 0)), t.crc32).data == Some(t.messages[1])
    ensures HandleData(Receive(t, Burst(258)), t.FrameFor((1, 0)), t.crc32).data == Some(t.messages[1])
  {
    SingleHandled(t, EMPTY, 1);
    BurstHandled(t, 258);
    SingleHandled(t, Receive(t, Burst(258)), 1);
  }

  // Fragment counts have 16 bits, so 65535 fragments is the exact limit

  /** The receiver after fragments of one message, given by their indices. */
  function AfterFragments(sn: uint32, data: bytes, size: nat, crc32: Checksum, indices: seq<nat>): Receiver
    requires size > 0 && forall k :: 0 <= k < |indices| ==> indices[k] < |Fragments(data, size)|
    decreases |indices|
  {
    if indices == [] then EMPTY
    else
      var last := indices[|indices| - 1];
      var r := AfterFragments(sn, data, size, crc32, indices[..|indices| - 1]);
      HandleData(r, FragmentFrame(sn, data, last, size, crc32), crc32).recv
  }

  predicate Short(frags: seq<Option<bytes>>, size: nat) {
    forall k :: 0 <= k < |frags| && frags[k].Some? ==> |frags[k].value| <= size
  }

  ghost predicate AllShort(r: Receiver, size: nat) {
    forall sn :: sn in r.inbound ==> Short(r.inbound[sn].frags, size)
  }

  lemma {:induction false} JoinBounded(frags: seq<Option<bytes>>, size: nat)
    requires Short(frags, size)
    ensures |Join(frags)| <= |frags| * size
  {
    if frags != [] {
      JoinBounded(frags[1..], size);
      Distribute(|frags|, 1, size);
    }
  }

  /** All of the data is longer than what one fragment less than all of them can carry. */
  lemma MoreThan(data: bytes, size: nat, n: nat)
    requires size > 0 && n < |Fragments(data, size)| && data != []
    ensures n * size < |data|
  {
    hide Fragments;
    FragmentsJoin(data, size);
    CeilAbove(n, |data|, size);
  }

  lemma KeptShort(r: Receiver, f: Frame, size: nat, crc32: Checksum)
    requires f.Data? && AllShort(r, size) && |f.payload| <= size
    ensures AllShort(HandleData(r, f, crc32).recv, size)
    ensures f.fragIdx < |Slot(r, f).frags| ==> Short(Store(Slot(r, f), f).frags, size)
  {
    var msg := Slot(r, f);
    assert Short(msg.frags, size);
    if f.fragIdx < |msg.frags| {
      assert Short(Store(msg, f).frags, size);
    }
  }

  lemma HandedBounded(r: Receiver, f: Frame, size: nat, crc32: Checksum)
    requires f.Data? && AllShort(r, size) && |f.payload| <= size
    requires HandleData(r, f, crc32).data.Some?
    ensures |HandleData(r, f, crc32).data.value| <= f.fragTotal * size
  {
    hide Join, AllShort, Short;
    KeptShort(r, f, size, crc32);
    JoinBounded(Store(Slot(r, f), f).frags, size);
  }

  /** A message of 65536 fragments or more is never handed up, whatever of it arrives: the
      count it is announced with is too small for it. */
  lemma {:induction false} TooManyFragments(sn: uint32, data: bytes, size: nat, crc32: Checksum,
                                             indices: seq<nat>, next: nat)
    requires size > 0 && |Fragments(data, size)| >= U16 && next < |Fragments(data, size)|
    requires forall k :: 0 <= k < |indices| ==> indices[k] < |Fragments(data, size)|
    ensures AllShort(AfterFragments(sn, data, size, crc32, indices), size)
    ensures var f := FragmentFrame(sn, data, next, size, crc32);
      HandleData(AfterFragments(sn, data, size, crc32, indices), f, crc32).data != Some(data)
    decreases |indices|
  {
    hide HandleData, Fragments;
    FragmentsJoin(data, size);
    if indices != [] {
      var before, last := indices[..|indices| - 1], indices[|indices| - 1];
      TooManyFragments(sn, data, size, crc32, before, last);
      KeptShort(AfterFragments(sn, data, size, crc32, before), FragmentFrame(sn, data, last, size, crc32), size, crc32);
    }
    var r, f := AfterFragments(sn, data, size, crc32, indices), FragmentFrame(sn, data, next, size, crc32);
    if HandleData(r, f, crc32).data.Some? {
      HandedBounded(r, f, size, crc32);
      MoreThan(data, size, f.fragTotal);
    }
  }
}
