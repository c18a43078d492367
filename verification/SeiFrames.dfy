/** Transport frames and fragmentation of seichannel/transport.go (videochannel uses the
    same layout). */
module SeiFrames {
  import opened Arith
  import opened Bytes

  const SEI_MAGIC: uint32 := 0x4f564331   // OVC1, seichannel
  const VIDEO_MAGIC: uint32 := 0x4f565632 // OVV2, videochannel
  const PROTOCOL_VERSION: byte := 1
  const FRAME_TYPE_DATA: byte := 1
  const FRAME_TYPE_ACK: byte := 2

  datatype Frame =
    | Ack(sn: uint32, crc: uint32)
    | Data(sn: uint32, crc: uint32, totalLen: uint32, fragIdx: uint16, fragTotal: uint16, payload: bytes)

  datatype FrameError =
    FrameTooShort | UnexpectedMagic | UnexpectedVersion | AckTooShort | DataTooShort | UnexpectedFrameType

  function Prefix(magic: uint32, typ: byte, sn: uint32, crc: uint32): (b: bytes)
    ensures |b| == 14
  {
    PutUint32(magic) + [PROTOCOL_VERSION, typ] + PutUint32(sn) + PutUint32(crc)
  }

  function Tail(totalLen: uint32, fragIdx: uint16, fragTotal: uint16, payload: bytes): bytes {
    PutUint32(totalLen) + PutUint16(fragIdx) + PutUint16(fragTotal) + payload
  }

  function Encode(magic: uint32, f: Frame): bytes {
    match f
    case Ack(sn, crc) => Prefix(magic, FRAME_TYPE_ACK, sn, crc)
    case Data(sn, crc, totalLen, fragIdx, fragTotal, payload) =>
      Prefix(magic, FRAME_TYPE_DATA, sn, crc) + Tail(totalLen, fragIdx, fragTotal, payload)
  }

  /** The data frame for the sender's integers, which are cut to the width of their fields. */
  function DataFrame(sn: uint32, crc: uint32, totalLen: nat, fragIdx: nat, fragTotal: nat, payload: bytes): Frame {
    Data(sn, crc, totalLen % U32, fragIdx % U16, fragTotal % U16, payload)
  }

  function Decode(magic: uint32, data: bytes): Result<Frame, FrameError> {
    if |data| < 6 then Failure(FrameTooShort)
    else if Uint32(data[0..4]) != magic then Failure(UnexpectedMagic)
    else if data[4] != PROTOCOL_VERSION then Failure(UnexpectedVersion)
    else if data[5] == FRAME_TYPE_ACK then
      if |data| < 14 then Failure(AckTooShort)
      else Success(Ack(Uint32(data[6..10]), Uint32(data[10..14])))
    else if data[5] == FRAME_TYPE_DATA then
      if |data| < 22 then Failure(DataTooShort)
      else Success(Data(Uint32(data[6..10]), Uint32(data[10..14]), Uint32(data[14..18]),
                        Uint16(data[18..20]), Uint16(data[20..22]), data[22..]))
    else Failure(UnexpectedFrameType)
  }

  lemma PrefixFields(magic: uint32, typ: byte, sn: uint32, crc: uint32, rest: bytes)
    ensures var b := Prefix(magic, typ, sn, crc) + rest;
      && b[0..4] == PutUint32(magic) && b[4] == PROTOCOL_VERSION && b[5] == typ
      && b[6..10] == PutUint32(sn) && b[10..14] == PutUint32(crc) && b[14..] == rest
  {
  }

  /** Every frame is read back as it was written. */
  lemma FrameRoundTrip(magic: uint32, f: Frame)
    ensures Decode(magic, Encode(magic, f)) == Success(f)
  {
    if f.Data? {
      DataFields(magic, f);
    } else {
      var b := Encode(magic, f);
      assert b == b + [];
      PrefixFields(magic, FRAME_TYPE_ACK, f.sn, f.crc, []);
      Word32(magic, b[0..4]);
      Word32(f.sn, b[6..10]);
      Word32(f.crc, b[10..14]);
    }
  }

  lemma DataFields(magic: uint32, f: Frame)
    requires f.Data?
    ensures Decode(magic, Encode(magic, f)) == Success(f)
  {
    var size, idx, total := PutUint32(f.totalLen), PutUint16(f.fragIdx), PutUint16(f.fragTotal);
    var rest := Tail(f.totalLen, f.fragIdx, f.fragTotal, f.payload);
    var b := Encode(magic, f);
    PrefixFields(magic, FRAME_TYPE_DATA, f.sn, f.crc, rest);
    assert b[14..18] == rest[..4] == size;
    assert b[18..20] == rest[4..6] == idx;
    assert b[20..22] == rest[6..8] == total;
    assert b[22..] == rest[8..] == f.payload;
    Word32(magic, b[0..4]);
    Word32(f.sn, b[6..10]);
    Word32(f.crc, b[10..14]);
    Word32(f.totalLen, size);
    Word16(f.fragIdx, idx);
    Word16(f.fragTotal, total);
  }

  /** The decoder accepts nothing else: an accepted string is the encoding of what was read,
      followed, after an ack only, by bytes that are ignored. */
  lemma DecodeAcceptsEncodings(magic: uint32, b: bytes)
    requires Decode(magic, b).Success?
    ensures Encode(magic, Decode(magic, b).value) <= b
    ensures Decode(magic, b).value.Data? ==> Encode(magic, Decode(magic, b).value) == b
  {
    var f := Decode(magic, b).value;
    PrefixRead(magic, b);
    if f.Data? {
      TailRead(b);
      Rejoin(b, 14, Prefix(magic, FRAME_TYPE_DATA, f.sn, f.crc), Tail(f.totalLen, f.fragIdx, f.fragTotal, f.payload));
    }
  }

  lemma Rejoin(b: bytes, at: nat, head: bytes, tail: bytes)
    requires at <= |b| && b[..at] == head && b[at..] == tail
    ensures head + tail == b
  {
  }

  lemma TailRead(b: bytes)
    requires |b| >= 22
    ensures b[14..] == Tail(Uint32(b[14..18]), Uint16(b[18..20]), Uint16(b[20..22]), b[22..])
  {
    Word32(0, b[14..18]);
    Word16(0, b[18..20]);
    Word16(0, b[20..22]);
    assert b[14..] == b[14..18] + b[18..20] + b[20..22] + b[22..];
  }

  lemma PrefixRead(magic: uint32, b: bytes)
    requires |b| >= 14 && Uint32(b[0..4]) == magic && b[4] == PROTOCOL_VERSION
    ensures b[..14] == Prefix(magic, b[5], Uint32(b[6..10]), Uint32(b[10..14]))
  {
    Word32(magic, b[0..4]);
    Word32(0, b[6..10]);
    Word32(0, b[10..14]);
    assert b[..14] == b[0..4] + [b[4], b[5]] + b[6..10] + b[10..14];
  }

  /** Where every field stands on the wire: magic, version 1, type (1 data, 2 ack), number and
      CRC; and for data the length, index, count and payload behind them; all big-endian. */
  lemma EncodingLayout(magic: uint32, f: Frame)
    ensures var b := Encode(magic, f);
      && |b| == (if f.Data? then 22 + |f.payload| else 14)
      && Weigh32(b, 0) == magic && b[4] == 1 && b[5] == (if f.Data? then 1 else 2)
      && Weigh32(b, 6) == f.sn && Weigh32(b, 10) == f.crc
      && (f.Data? ==> Weigh32(b, 14) == f.totalLen && Weigh16(b, 18) == f.fragIdx
                      && Weigh16(b, 20) == f.fragTotal && b[22..] == f.payload)
  {
    hide Weigh32, Weigh16;
    var b := Encode(magic, f);
    PrefixLayout(magic, if f.Data? then 1 else 2, f.sn, f.crc, b[14..]);
    assert b[..14] + b[14..] == b;
    WordAt32(b, 0, magic);
    WordAt32(b, 6, f.sn);
    WordAt32(b, 10, f.crc);
    if f.Data? {
      TailLayout(Prefix(magic, 1, f.sn, f.crc), f.totalLen, f.fragIdx, f.fragTotal, f.payload);
      WordAt32(b, 14, f.totalLen);
      WordAt16(b, 18, f.fragIdx);
      WordAt16(b, 20, f.fragTotal);
    }
  }

  lemma PrefixLayout(magic: uint32, typ: byte, sn: uint32, crc: uint32, rest: bytes)
    ensures var b := Prefix(magic, typ, sn, crc) + rest;
      && b[0..4] == PutUint32(magic) && b[4] == 1 && b[5] == typ && b[6..10] == PutUint32(sn)
      && b[10..14] == PutUint32(crc) && b[14..] == rest
  {
  }

  lemma TailLayout(head: bytes, totalLen: uint32, fragIdx: uint16, fragTotal: uint16, payload: bytes)
    requires |head| == 14
    ensures var b := head + Tail(totalLen, fragIdx, fragTotal, payload);
      && b[14..18] == PutUint32(totalLen) && b[18..20] == PutUint16(fragIdx) && b[20..22] == PutUint16(fragTotal)
      && b[22..] == payload
  {
    var tail := Tail(totalLen, fragIdx, fragTotal, payload);
    var b := head + tail;
    assert b[14..18] == tail[..4] && b[18..20] == tail[4..6] && b[20..22] == tail[6..8] && b[22..] == tail[8..];
  }

  /** The two transports' frames begin with OVC1 and OVV2. */
  lemma MagicsSpelled(f: Frame)
    ensures Encode(SEI_MAGIC, f)[..4] == [0x4f, 0x56, 0x43, 0x31]
    ensures Encode(VIDEO_MAGIC, f)[..4] == [0x4f, 0x56, 0x56, 0x32]
  {
    EncodingLayout(SEI_MAGIC, f);
    EncodingLayout(VIDEO_MAGIC, f);
    assert PutUint32(SEI_MAGIC) == [0x4f, 0x56, 0x43, 0x31];
    assert PutUint32(VIDEO_MAGIC) == [0x4f, 0x56, 0x56, 0x32];
  }

  // Frame buffers are filled in place

  method StorePrefix(out: array<byte>, magic: uint32, typ: byte, sn: uint32, crc: uint32)
    requires out.Length >= 14
    modifies out
    ensures out[..14] == Prefix(magic, typ, sn, crc)
  {
    StoreAt(out, 0, PutUint32(magic));
    out[4] := PROTOCOL_VERSION;
    out[5] := typ;
    ghost var head := out[..6];
    assert head == PutUint32(magic) + [PROTOCOL_VERSION, typ] by {
      assert head[..4] == out[0..4];
    }
    StoreAt(out, 6, PutUint32(sn));
    ghost var upToCrc := out[..10];
    assert upToCrc == head + PutUint32(sn) by {
      assert upToCrc == out[..6] + out[6..10];
    }
    StoreAt(out, 10, PutUint32(crc));
    assert out[..14] == out[..10] + out[10..14];
  }

  method StoreTail(out: array<byte>, totalLen: uint32, fragIdx: uint16, fragTotal: uint16, payload: bytes)
    requires out.Length == 22 + |payload|
    modifies out
    ensures out[..14] == old(out[..14])
    ensures out[14..] == Tail(totalLen, fragIdx, fragTotal, payload)
  {
    StoreAt(out, 14, PutUint32(totalLen));
    ghost var head := out[..14];
    assert out[..18] == head + PutUint32(totalLen) by {
      assert out[..18] == out[..14] + out[14..18];
    }
    StoreAt(out, 18, PutUint16(fragIdx));
    assert out[..20] == head + PutUint32(totalLen) + PutUint16(fragIdx) by {
      assert out[..20] == out[..18] + out[18..20];
    }
    StoreAt(out, 20, PutUint16(fragTotal));
    assert out[..22] == head + PutUint32(totalLen) + PutUint16(fragIdx) + PutUint16(fragTotal) by {
      assert out[..22] == out[..20] + out[20..22];
    }
    StoreAt(out, 22, payload);
    assert out[22..] == payload by {
      assert out[22..] == out[22..22 + |payload|];
    }
    assert out[14..] == out[..22][14..] + out[22..];
    assert out[..14] == out[..22][..14];
  }

  method EncodeDataFrame(magic: uint32, sn: uint32, crc: uint32, totalLen: nat, fragIdx: nat, fragTotal: nat,
                         payload: bytes)
    returns (out: array<byte>)
    ensures fresh(out) && out[..] == Encode(magic, DataFrame(sn, crc, totalLen, fragIdx, fragTotal, payload))
  {
    out := new byte[22 + |payload|](_ => 0);
    StorePrefix(out, magic, FRAME_TYPE_DATA, sn, crc);
    StoreTail(out, totalLen % U32, fragIdx % U16, fragTotal % U16, payload);
    assert out[..] == out[..14] + out[14..];
  }

  method EncodeAckFrame(magic: uint32, sn: uint32, crc: uint32) returns (out: array<byte>)
    ensures fresh(out) && out[..] == Encode(magic, Ack(sn, crc))
  {
    out := new byte[14](_ => 0);
    StorePrefix(out, magic, FRAME_TYPE_ACK, sn, crc);
    assert out[..] == out[..14];
  }

  // Fragments

  function Chunks(data: bytes, size: nat): seq<bytes>
    requires size > 0
  {
    if data == [] then []
    else if |data| <= size then [data]
    else [data[..size]] + Chunks(data[size..], size)
  }

  function Fragments(data: bytes, size: nat): (frags: seq<bytes>)
    requires size > 0
    ensures frags != []
  {
    if data == [] then [[]] else Chunks(data, size)
  }

  lemma {:induction false} ChunksJoin(data: bytes, size: nat)
    requires size > 0
    ensures Concat(Chunks(data, size)) == data
    ensures forall k :: 0 <= k < |Chunks(data, size)| ==> 0 < |Chunks(data, size)[k]| <= size
  {
    if data == [] {
    } else if |data| <= size {
      assert Concat([data]) == data + Concat([]);
    } else {
      ChunksJoin(data[size..], size);
    }
  }

  lemma {:induction false} ChunkCount(data: bytes, size: nat)
    requires size > 0
    ensures |Chunks(data, size)| == (|data| + size - 1) / size
  {
    if data == [] {
      DivMod(0, size - 1, size);
    } else if |data| <= size {
      DivMod(1, |data| - 1, size);
    } else {
      ChunkCount(data[size..], size);
      DivStep(|data| - 1, size);
    }
  }

  /** Joining the fragments gives the message back; there is at least one, none is longer
      than the fragment size, and only the empty message has an empty one. */
  lemma FragmentsJoin(data: bytes, size: nat)
    requires size > 0
    ensures Concat(Fragments(data, size)) == data
    ensures |Fragments(data, size)| == if data == [] then 1 else (|data| + size - 1) / size
    ensures forall k :: 0 <= k < |Fragments(data, size)| ==>
      |Fragments(data, size)[k]| <= size && (Fragments(data, size)[k] == [] ==> data == [])
  {
    ChunksJoin(data, size);
    ChunkCount(data, size);
    if data == [] {
      assert Concat([[]]) == [] + Concat([]);
    }
  }

  lemma FragmentsTail(data: bytes, size: nat)
    requires size > 0
    ensures |data| > size ==> Fragments(data, size) == [data[..size]] + Fragments(data[size..], size)
    ensures |data| <= size ==> Fragments(data, size) == [data]
  {
  }

  lemma Shift(k: nat, size: nat)
    requires k > 0
    ensures k * size - size == (k - 1) * size >= 0
  {
    Distribute(k, 1, size);
    assert (k - 1) * size >= 0;
  }

  /** Fragment k is the k-th stretch of `size` bytes of the message, the last one what is left. */
  lemma {:induction false} FragmentAt(data: bytes, size: nat, k: nat, at: nat)
    requires size > 0 && k < |Fragments(data, size)| && at == k * size
    ensures at <= |data| && Fragments(data, size)[k] == data[at..Min(at + size, |data|)]
    decreases k
  {
    hide Fragments;
    FragmentsTail(data, size);
    if k > 0 {
      var rest := data[size..];
      Shift(k, size);
      FragmentAt(rest, size, k - 1, at - size);
      assert rest[at - size..Min(at, |rest|)] == data[at..Min(at + size, |data|)];
    }
  }

  method FragmentPayload(data: bytes, maxSize: nat) returns (out: seq<bytes>)
    requires maxSize > 0
    ensures out == Fragments(data, maxSize)
  {
    if |data| == 0 {
      return [[]];
    }
    out := [];
    var start := 0;
    ghost var rest := Chunks(data, maxSize);
    while start < |data|
      invariant 0 <= start
      invariant rest == Chunks(data[Min(start, |data|)..], maxSize)
      invariant out + rest == Chunks(data, maxSize)
    {
      var end := if start + maxSize < |data| then start + maxSize else |data|;
      ghost var before, todo := out, rest;
      out := out + [data[start..end]];
      rest := Chunks(data[end..], maxSize);
      if end < |data| {
        assert data[start..][..maxSize] == data[start..end] && data[start..][maxSize..] == data[end..];
      } else {
        assert data[start..] == data[start..end] && data[end..] == [];
      }
      assert out + rest == before + todo;
      start := start + maxSize;
    }
  }
}
