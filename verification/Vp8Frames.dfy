/** Putting VP8 frames together from RTP packets (vp8FrameState in vp8channel/transport.go;
    RFC 3550 section 5.1, RFC 7741 section 4.2). Sequence numbers wrap at 65536. A packet's
    body is what the VP8 depacketizer makes of its payload: nothing if that fails. */
module Vp8Frames {
  import opened Bytes

  const EPOCH_HDR_LEN := 28

  datatype Body = Body(start: bool, payload: bytes)

  datatype Packet = Packet(seqNumber: uint16, marker: bool, body: Option<Body>)

  function Successor(n: uint16): uint16 { if n == U16 - 1 then 0 else n + 1 }

  datatype State = State(frameBuf: bytes, lastSeq: uint16, haveLastSeq: bool, frameValid: bool)

  const INITIAL := State([], 0, false, false)

  function Process(s: State, p: Packet): (State, Option<bytes>) {
    var gap := s.haveLastSeq && p.seqNumber != Successor(s.lastSeq);
    if p.body.None? then (State([], p.seqNumber, true, false), None)
    else
      var opens := p.body.value.start;
      if !opens && (gap || !s.frameValid) then (State(if gap then [] else s.frameBuf, p.seqNumber, true, false), None)
      else
        var buf := (if opens then [] else s.frameBuf) + p.body.value.payload;
        if !p.marker then (State(buf, p.seqNumber, true, true), None)
        else (State([], p.seqNumber, true, false), if |buf| >= EPOCH_HDR_LEN then Some(buf) else None)
  }

  class FrameAssembler {
    var frameBuf: bytes
    var lastSeq: uint16
    var haveLastSeq: bool
    var frameValid: bool

    constructor ()
      ensures Value() == INITIAL
    {
      frameBuf, lastSeq, haveLastSeq, frameValid := [], 0, false, false;
    }

    function Value(): State
      reads this
    {
      State(frameBuf, lastSeq, haveLastSeq, frameValid)
    }

    method ProcessRTPPacket(p: Packet) returns (frame: Option<bytes>)
      modifies this
      ensures (Value(), frame) == Process(old(Value()), p)
    {
      if haveLastSeq && p.seqNumber != Successor(lastSeq) {
        frameValid := false;
        frameBuf := [];
      }
      lastSeq := p.seqNumber;
      haveLastSeq := true;
      if p.body.None? {
        frameValid := false;
        frameBuf := [];
        return None;
      }
      if p.body.value.start {
        frameBuf := [];
        frameValid := true;
      }
      if !frameValid {
        return None;
      }
      frameBuf := frameBuf + p.body.value.payload;
      if !p.marker {
        return None;
      }
      frame := if |frameBuf| >= EPOCH_HDR_LEN then Some(frameBuf) else None;
      frameBuf := [];
      frameValid := false;
    }
  }

  // What the packets received so far amount to

  /** The state after all packets, and what the last one returned. */
  function ProcessAll(ps: seq<Packet>): (State, Option<bytes>)
    decreases |ps|
  {
    if ps == [] then (INITIAL, None)
    else Process(ProcessAll(ps[..|ps| - 1]).0, ps[|ps| - 1])
  }

  function Joined(ps: seq<Packet>): bytes
    decreases |ps|
  {
    if ps == [] then []
    else Joined(ps[..|ps| - 1]) + if ps[|ps| - 1].body.Some? then ps[|ps| - 1].body.value.payload else []
  }

  predicate Decodes(p: Packet) { p.body.Some? }

  predicate Starts(p: Packet) { p.body.Some? && p.body.value.start }

  /** The packets from i on decode, follow on each other, begin with the latest start of a
      partition, and only the last of them may carry the marker. */
  ghost predicate IsRun(ps: seq<Packet>, i: nat) {
    && i < |ps| && Starts(ps[i])
    && (forall j :: i <= j < |ps| ==> Decodes(ps[j]))
    && (forall j :: i < j < |ps| ==> !Starts(ps[j]))
    && (forall j :: i < j < |ps| ==> ps[j].seqNumber == Successor(ps[j - 1].seqNumber))
    && (forall j :: i <= j < |ps| - 1 ==> !ps[j].marker)
  }

  lemma RunGrows(ps: seq<Packet>, p: Packet, i: nat)
    ensures IsRun(ps + [p], i) <==>
      (i == |ps| && Starts(p))
      || (i < |ps| && IsRun(ps, i) && !ps[|ps| - 1].marker && Decodes(p) && !Starts(p)
          && p.seqNumber == Successor(ps[|ps| - 1].seqNumber))
  {
    var all := ps + [p];
    if i < |ps| {
      assert forall j :: 0 <= j < |ps| ==> all[j] == ps[j];
      assert all[|ps|] == p;
      if IsRun(all, i) {
        assert Decodes(all[|ps|]) && !Starts(all[|ps|]) && !all[|ps| - 1].marker;
        assert forall j :: i <= j < |ps| ==> Decodes(all[j]);
        assert forall j :: i < j < |ps| ==> !Starts(all[j]);
        assert forall j :: i < j < |ps| ==> all[j].seqNumber == Successor(all[j - 1].seqNumber);
      }
    }
  }

  lemma JoinedGrows(ps: seq<Packet>, p: Packet, i: nat)
    requires i <= |ps| && Decodes(p)
    ensures Joined((ps + [p])[i..]) == (if i < |ps| then Joined(ps[i..]) else []) + p.body.value.payload
  {
    var tail := (ps + [p])[i..];
    assert tail == ps[i..] + [p];
    assert tail[..|tail| - 1] == ps[i..];
  }

  /** What the assembler's fields mean: a frame is being put together exactly if an unmarked
      run ends at the last packet, and then the buffer is that run. */
  ghost predicate Means(s: State, ps: seq<Packet>) {
    && s.haveLastSeq == (ps != [])
    && (ps != [] ==> s.lastSeq == ps[|ps| - 1].seqNumber)
    && (s.frameValid ==> ps != [] && !ps[|ps| - 1].marker && exists i: nat :: IsRun(ps, i))
    && (forall i: nat :: IsRun(ps, i) && i < |ps| && !ps[|ps| - 1].marker ==>
          s.frameValid && s.frameBuf == Joined(ps[i..]))
  }

  lemma StepMeans(s: State, ps: seq<Packet>, p: Packet)
    requires Means(s, ps)
    ensures Means(Process(s, p).0, ps + [p])
  {
    hide IsRun, Joined;
    var all, t := ps + [p], Process(s, p).0;
    assert all[|all| - 1] == p;
    forall i: nat | IsRun(all, i) && i < |all| && !p.marker
      ensures t.frameValid && t.frameBuf == Joined(all[i..])
    {
      RunGrows(ps, p, i);
      RunDecodes(all, i);
      JoinedGrows(ps, p, i);
    }
    if t.frameValid {
      Continues(s, ps, p);
    }
  }

  lemma RunBounds(ps: seq<Packet>, i: nat)
    requires IsRun(ps, i)
    ensures i < |ps|
  {
  }

  lemma RunDecodes(ps: seq<Packet>, i: nat)
    requires IsRun(ps, i)
    ensures Decodes(ps[|ps| - 1])
  {
  }

  lemma Continues(s: State, ps: seq<Packet>, p: Packet)
    requires Means(s, ps) && Decodes(p)
    requires Starts(p) || (s.frameValid && p.seqNumber == Successor(s.lastSeq))
    ensures exists i: nat :: IsRun(ps + [p], i)
  {
    hide IsRun, Joined;
    if Starts(p) {
      RunGrows(ps, p, |ps|);
    } else {
      var i: nat :| IsRun(ps, i);
      RunBounds(ps, i);
      RunGrows(ps, p, i);
    }
  }

  lemma {:induction false} AssemblerMeans(ps: seq<Packet>)
    ensures Means(ProcessAll(ps).0, ps)
    decreases |ps|
  {
    hide Means, Process;
    if ps == [] {
      NothingMeans();
    } else {
      var before, p := ps[..|ps| - 1], ps[|ps| - 1];
      AssemblerMeans(before);
      StepMeans(ProcessAll(before).0, before, p);
      assert before + [p] == ps;
    }
  }

  lemma NothingMeans()
    ensures Means(INITIAL, [])
  {
  }

  /** The last packet completes a frame: a run of packets ends in it, it carries the marker,
      and there are at least as many bytes as the epoch header takes. */
  ghost predicate Completes(ps: seq<Packet>, i: nat) {
    IsRun(ps, i) && i < |ps| && ps[|ps| - 1].marker && |Joined(ps[i..])| >= EPOCH_HDR_LEN
  }

  /** Whatever was received before, in whatever order and with whatever gaps: the last packet
      returns a frame exactly when it completes one, and then that frame is the run joined. */
  lemma FrameIffRun(ps: seq<Packet>)
    requires ps != []
    ensures ProcessAll(ps).1.Some? <==> exists i: nat :: Completes(ps, i)
    ensures forall i: nat :: Completes(ps, i) ==> i < |ps| && ProcessAll(ps).1 == Some(Joined(ps[i..]))
  {
    hide IsRun, Joined, Means;
    var before, p := ps[..|ps| - 1], ps[|ps| - 1];
    var s := ProcessAll(before).0;
    AssemblerMeans(before);
    assert ps == before + [p];
    forall i: nat | Completes(ps, i)
      ensures ProcessAll(ps).1 == Some(Joined(ps[i..]))
    {
      RunReturned(s, before, p, i);
    }
    if ProcessAll(ps).1.Some? {
      ReturnedRun(s, before, p);
    }
  }

  lemma RunReturned(s: State, before: seq<Packet>, p: Packet, i: nat)
    requires Means(s, before) && Completes(before + [p], i)
    ensures Process(s, p).1 == Some(Joined((before + [p])[i..]))
  {
    hide IsRun, Joined;
    RunDecodes(before + [p], i);
    RunGrows(before, p, i);
    JoinedGrows(before, p, i);
  }

  lemma ReturnedRun(s: State, before: seq<Packet>, p: Packet)
    requires Means(s, before) && Process(s, p).1.Some?
    ensures exists i: nat :: Completes(before + [p], i)
  {
    hide IsRun, Joined;
    if Starts(p) {
      RunGrows(before, p, |before|);
      JoinedGrows(before, p, |before|);
      assert Completes(before + [p], |before|);
    } else {
      var i: nat :| IsRun(before, i);
      RunBounds(before, i);
      RunGrows(before, p, i);
      JoinedGrows(before, p, i);
      assert Completes(before + [p], i);
    }
  }

  /** A frame cut into packets with consecutive numbers, the first marked as the start of the
      partition and only the last with the marker, comes out whole, whatever came before. */
  lemma PacketizedFrameArrives(before: seq<Packet>, cut: seq<Packet>)
    requires IsRun(cut, 0) && cut[|cut| - 1].marker && |Joined(cut)| >= EPOCH_HDR_LEN
    ensures ProcessAll(before + cut).1 == Some(Joined(cut))
  {
    hide Joined;
    var ps := before + cut;
    assert ps[|before|..] == cut;
    assert forall j :: |before| <= j < |ps| ==> ps[j] == cut[j - |before|];
    assert Completes(ps, |before|);
    FrameIffRun(ps);
  }
}
