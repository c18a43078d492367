/** The receiver of seichannel/transport.go on frames that nobody vouches for: any numbers, any
    counts, any indices, mixed in any way. Whatever it hands up has come in frames that agree
    about the message, one for every index, and bears their CRC. */
module SeiUntrusted {
  import opened Bytes
  import opened SeiFrames
  import opened SeiReassembly

  ghost predicate AllData(frames: seq<Frame>) { forall k :: 0 <= k < |frames| ==> frames[k].Data? }

  function ReceiveAll(frames: seq<Frame>, crc32: Checksum): Receiver
    requires AllData(frames)
    decreases |frames|
  {
    if frames == [] then EMPTY
    else HandleData(ReceiveAll(frames[..|frames| - 1], crc32), frames[|frames| - 1], crc32).recv
  }

  function Missing(frags: seq<Option<bytes>>): nat {
    if frags == [] then 0 else (if frags[0].None? then 1 else 0) + Missing(frags[1..])
  }

  /** A frame of message sn with these fields, this index and this payload is among the frames. */
  ghost predicate Came(frames: seq<Frame>, sn: uint32, crc: uint32, totalLen: uint32, total: nat, k: nat,
                       payload: bytes) {
    exists g :: g in frames && g.Data? && g.sn == sn && g.crc == crc && g.totalLen == totalLen
      && g.fragTotal as nat == total && g.fragIdx as nat == k && g.payload == payload
  }

  /** What an entry holds has come, and `remain` counts what it does not hold. */
  ghost predicate Backed(frames: seq<Frame>, sn: uint32, msg: Inbound) {
    && msg.remain == Missing(msg.frags)
    && forall k :: 0 <= k < |msg.frags| && msg.frags[k].Some? ==>
      Came(frames, sn, msg.crc, msg.totalLen, |msg.frags|, k, msg.frags[k].value)
  }

  ghost predicate AllBacked(frames: seq<Frame>, r: Receiver) {
    forall sn :: sn in r.inbound ==> Backed(frames, sn, r.inbound[sn])
  }

  lemma {:induction false} MissingStored(frags: seq<Option<bytes>>, k: nat, payload: bytes)
    requires k < |frags| && frags[k].None?
    ensures Missing(frags[k := Some(payload)]) == Missing(frags) - 1
    decreases |frags|
  {
    if k > 0 {
      MissingStored(frags[1..], k - 1, payload);
      assert frags[k := Some(payload)][1..] == frags[1..][k - 1 := Some(payload)];
    } else {
      assert frags[0 := Some(payload)][1..] == frags[1..];
    }
  }

  lemma {:induction false} NoneMissing(frags: seq<Option<bytes>>)
    ensures Missing(frags) == 0 <==> forall k :: 0 <= k < |frags| ==> frags[k].Some?
    decreases |frags|
  {
    if frags != [] {
      NoneMissing(frags[1..]);
      assert frags == [frags[0]] + frags[1..];
      assert (forall k :: 0 <= k < |frags| ==> frags[k].Some?) ==>
        forall k :: 0 <= k < |frags[1..]| ==> frags[1..][k] == frags[k + 1];
    }
  }

  lemma {:induction false} AllMissing(n: nat)
    ensures Missing(seq(n, _ => None)) == n
  {
    if n > 0 {
      AllMissing(n - 1);
      var frags: seq<Option<bytes>> := seq(n, _ => None);
      assert frags[1..] == seq(n - 1, _ => None);
    }
  }

  lemma StaysBacked(frames: seq<Frame>, f: Frame, sn: uint32, msg: Inbound)
    requires Backed(frames, sn, msg)
    ensures Backed(frames + [f], sn, msg)
  {
    forall k | 0 <= k < |msg.frags| && msg.frags[k].Some?
      ensures Came(frames + [f], sn, msg.crc, msg.totalLen, |msg.frags|, k, msg.frags[k].value)
    {
      assert Came(frames, sn, msg.crc, msg.totalLen, |msg.frags|, k, msg.frags[k].value);
    }
  }

  lemma SlotBacked(frames: seq<Frame>, r: Receiver, f: Frame)
    requires f.Data? && AllBacked(frames, r)
    ensures Backed(frames + [f], f.sn, Slot(r, f))
    ensures Slot(r, f).crc == f.crc && Slot(r, f).totalLen == f.totalLen && |Slot(r, f).frags| == f.fragTotal as nat
  {
    hide Backed;
    if Slot(r, f) == NewInbound(f) {
      NewBacked(frames + [f], f);
    } else {
      StaysBacked(frames, f, f.sn, r.inbound[f.sn]);
    }
  }

  lemma NewBacked(frames: seq<Frame>, f: Frame)
    requires f.Data?
    ensures Backed(frames, f.sn, NewInbound(f))
  {
    AllMissing(f.fragTotal);
  }

  lemma StoredBacked(frames: seq<Frame>, msg: Inbound, f: Frame)
    requires f.Data? && f in frames && Backed(frames, f.sn, msg) && f.fragIdx < f.fragTotal
    requires msg.crc == f.crc && msg.totalLen == f.totalLen && |msg.frags| == f.fragTotal as nat
    ensures Backed(frames, f.sn, Store(msg, f))
  {
    hide Missing;
    if msg.frags[f.fragIdx].None? {
      MissingStored(msg.frags, f.fragIdx, f.payload);
      assert Came(frames, f.sn, msg.crc, msg.totalLen, |msg.frags|, f.fragIdx, f.payload);
    }
  }

  lemma HandledBacked(frames: seq<Frame>, r: Receiver, f: Frame, crc32: Checksum)
    requires f.Data? && AllBacked(frames, r)
    ensures AllBacked(frames + [f], HandleData(r, f, crc32).recv)
  {
    hide Backed, Store, Assemble, Slot;
    SlotBacked(frames, r, f);
    if f.fragIdx < f.fragTotal {
      assert (frames + [f])[|frames|] == f;
      StoredBacked(frames + [f], Slot(r, f), f);
    }
    forall sn | sn in r.inbound
      ensures Backed(frames + [f], sn, r.inbound[sn])
    {
      StaysBacked(frames, f, sn, r.inbound[sn]);
    }
  }

  lemma {:induction false} ReceiveAllBacked(frames: seq<Frame>, crc32: Checksum)
    requires AllData(frames)
    ensures AllBacked(frames, ReceiveAll(frames, crc32))
    decreases |frames|
  {
    hide AllBacked, HandleData;
    if frames == [] {
      NothingBacked();
    } else {
      var before, f := frames[..|frames| - 1], frames[|frames| - 1];
      ReceiveAllBacked(before, crc32);
      HandledBacked(before, ReceiveAll(before, crc32), f, crc32);
      assert before + [f] == frames;
    }
  }

  lemma NothingBacked()
    ensures AllBacked([], EMPTY)
  {
  }

  /** The parts are the payloads of frames that have come and agree with f about the message. */
  ghost predicate Made(frames: seq<Frame>, f: Frame, parts: seq<bytes>)
    requires f.Data?
  {
    |parts| == f.fragTotal as nat
    && forall k :: 0 <= k < |parts| ==> Came(frames, f.sn, f.crc, f.totalLen, f.fragTotal as nat, k, parts[k])
  }

  lemma {:induction false} JoinValues(frags: seq<Option<bytes>>, parts: seq<bytes>)
    requires |frags| == |parts| && forall k :: 0 <= k < |parts| ==> frags[k] == Some(parts[k])
    ensures Join(frags) == Concat(parts)
  {
    JoinAll(frags, parts);
  }

  lemma HandedParts(frames: seq<Frame>, r: Receiver, f: Frame, crc32: Checksum) returns (parts: seq<bytes>)
    requires f.Data? && AllBacked(frames, r) && HandleData(r, f, crc32).data.Some?
    ensures Made(frames + [f], f, parts)
    ensures Join(Store(Slot(r, f), f).frags) == Concat(parts)
  {
    hide Missing, Assemble, Slot;
    SlotBacked(frames, r, f);
    assert (frames + [f])[|frames|] == f;
    StoredBacked(frames + [f], Slot(r, f), f);
    var stored := Store(Slot(r, f), f);
    NoneMissing(stored.frags);
    parts := seq(|stored.frags|, k requires 0 <= k < |stored.frags| => stored.frags[k].value);
    JoinValues(stored.frags, parts);
  }

  function Cut(data: bytes, limit: uint32): bytes {
    if |data| % 0x1_0000_0000 > limit then data[..limit] else data
  }

  /** After any frames at all: what the next frame makes the receiver hand up is the payloads of
      frames that came for this number and agree about CRC, length and count, one for each
      index and in that order, cut at the announced length; and the CRC of it is theirs. */
  lemma {:induction false} OnlyWhatArrived(frames: seq<Frame>, f: Frame, crc32: Checksum) returns (parts: seq<bytes>)
    requires AllData(frames) && f.Data? && HandleData(ReceiveAll(frames, crc32), f, crc32).data.Some?
    ensures Made(frames + [f], f, parts)
    ensures var data := HandleData(ReceiveAll(frames, crc32), f, crc32).data.value;
      crc32(data) == f.crc && data == Cut(Concat(parts), f.totalLen)
  {
    hide ReceiveAll, Concat, Made, Store, Slot, Join;
    ReceiveAllBacked(frames, crc32);
    parts := HandedParts(frames, ReceiveAll(frames, crc32), f, crc32);
    SlotBacked(frames, ReceiveAll(frames, crc32), f);
    StoreKeepsFields(Slot(ReceiveAll(frames, crc32), f), f);
  }

  lemma StoreKeepsFields(msg: Inbound, f: Frame)
    requires f.Data? && f.fragIdx as nat < |msg.frags|
    ensures Store(msg, f).crc == msg.crc && Store(msg, f).totalLen == msg.totalLen
  {
  }

  /** A frame is acked exactly if the receiver knows its message by then, with its CRC: known
      before, or handed up now. */
  lemma AckedIffKnown(r: Receiver, f: Frame, crc32: Checksum)
    requires f.Data?
    ensures var h := HandleData(r, f, crc32);
      && (h.ack <==> f.sn in h.recv.delivered && h.recv.delivered[f.sn] == f.crc)
      && (h.ack <==> h.data.Some? || (f.sn in r.delivered && r.delivered[f.sn] == f.crc))
  {
    hide Assemble, Slot;
    SlotFields(r, f);
  }

  lemma SlotFields(r: Receiver, f: Frame)
    requires f.Data?
    ensures Slot(r, f).crc == f.crc
  {
  }

  ghost predicate HasGap(msg: Inbound) { exists k :: 0 <= k < |msg.frags| && msg.frags[k].None? }

  ghost predicate AllOpen(r: Receiver) {
    forall sn :: sn in r.inbound && r.inbound[sn].frags != [] ==> HasGap(r.inbound[sn])
  }

  /** Some fragment of every message under way is still missing: a full entry is never kept,
      whether its CRC was right or not, so that the same number can be tried again. */
  lemma {:induction false} EntriesStayOpen(frames: seq<Frame>, crc32: Checksum)
    requires AllData(frames)
    ensures AllOpen(ReceiveAll(frames, crc32))
    decreases |frames|
  {
    hide HandleData, AllBacked, AllOpen;
    if frames == [] {
      NothingOpen();
    } else {
      var before, f := frames[..|frames| - 1], frames[|frames| - 1];
      EntriesStayOpen(before, crc32);
      var r := ReceiveAll(before, crc32);
      ReceiveAllBacked(frames, crc32);
      EntryStaysOpen(r, f, crc32, HandleData(r, f, crc32).recv, frames);
    }
  }

  lemma NothingOpen()
    ensures AllOpen(EMPTY)
  {
  }

  lemma EntryStaysOpen(r: Receiver, f: Frame, crc32: Checksum, s: Receiver, frames: seq<Frame>)
    requires f.Data? && s == HandleData(r, f, crc32).recv && AllBacked(frames, s)
    requires AllOpen(r)
    ensures AllOpen(s)
  {
    hide Missing, Assemble, Backed;
    forall sn | sn in s.inbound && s.inbound[sn].frags != []
      ensures HasGap(s.inbound[sn])
    {
      if sn == f.sn {
        RemainsMissing(frames, sn, s.inbound[sn]);
        if s.inbound[sn].remain == 0 {
          FullBefore(r, f, crc32);
        }
      }
    }
  }

  lemma RemainsMissing(frames: seq<Frame>, sn: uint32, msg: Inbound)
    requires Backed(frames, sn, msg)
    ensures msg.remain != 0 ==> HasGap(msg)
  {
    NoneMissing(msg.frags);
  }

  /** An entry that is kept without missing anything was there before, or has no places. */
  lemma FullBefore(r: Receiver, f: Frame, crc32: Checksum)
    requires f.Data?
    ensures var s := HandleData(r, f, crc32).recv;
      f.sn in s.inbound && s.inbound[f.sn].remain == 0 ==>
        s.inbound[f.sn].frags == [] || (f.sn in r.inbound && r.inbound[f.sn] == s.inbound[f.sn])
  {
    hide Assemble;
  }

  // What one frame changes

  /** A fragment that is held stays as it is, whatever else comes under its index. */
  lemma FilledStays(r: Receiver, f: Frame, crc32: Checksum, k: nat)
    requires f.Data? && f.sn in r.inbound && SameMessage(r.inbound[f.sn], f)
    requires k < |r.inbound[f.sn].frags| && r.inbound[f.sn].frags[k].Some?
    ensures var s := HandleData(r, f, crc32).recv;
      f.sn in s.inbound ==> k < |s.inbound[f.sn].frags| && s.inbound[f.sn].frags[k] == r.inbound[f.sn].frags[k]
  {
    hide Assemble;
  }

  /** A frame that disagrees with the entry under its number about CRC, length or count takes the
      place of the entry: of what was held before nothing is left. */
  lemma OtherMessageReplaces(r: Receiver, f: Frame, crc32: Checksum)
    requires f.Data? && f.sn in r.inbound && f.fragIdx < f.fragTotal && f.fragTotal > 1
    requires !(f.sn in r.delivered && r.delivered[f.sn] == f.crc)
    requires var e := r.inbound[f.sn];
      e.crc != f.crc || e.totalLen != f.totalLen || |e.frags| != f.fragTotal as nat
    ensures var s := HandleData(r, f, crc32).recv;
      && f.sn in s.inbound && s.delivered == r.delivered
      && s.inbound[f.sn].crc == f.crc && s.inbound[f.sn].totalLen == f.totalLen
      && |s.inbound[f.sn].frags| == f.fragTotal as nat && s.inbound[f.sn].remain == f.fragTotal - 1
      && forall k :: 0 <= k < f.fragTotal as nat ==>
        s.inbound[f.sn].frags[k] == if k == f.fragIdx as nat then Some(f.payload) else None
  {
    hide Assemble;
  }

  /** And a frame touches no other message. */
  lemma OthersUntouched(r: Receiver, f: Frame, crc32: Checksum)
    requires f.Data?
    ensures var s := HandleData(r, f, crc32).recv;
      forall sn :: sn != f.sn ==>
        (sn in s.inbound <==> sn in r.inbound) && (sn in r.inbound ==> s.inbound[sn] == r.inbound[sn])
  {
    hide Assemble, Slot, Store;
  }
}
