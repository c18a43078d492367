/** The tile codec: header, CRC, shards and pixels (gr/tile/codec.go, and the shard helpers
    of rs.go). The Reed-Solomon library is a parameter; all that is asked of it is that it
    makes parity shards of the right size and leaves shards alone when none is missing. */
module TileCodec {
  import opened Arith
  import opened Bytes
  import opened TileGeometry
  import opened TileRender

  const MAGIC: uint32 := 0x544C4532

  type Checksum = bytes -> uint32

  datatype Library = Library(
    parity: (seq<bytes>, nat) -> seq<bytes>,
    verify: seq<bytes> -> bool,
    reconstruct: seq<bytes> -> Option<seq<bytes>>)

  ghost predicate Sized(shards: seq<bytes>, n: nat, size: nat) {
    |shards| == n && forall k :: 0 <= k < n ==> |shards[k]| == size
  }

  /** What the encoder and the decoder rely on. A shard of no bytes means "missing" to the
      library, so nothing is asked about those. */
  ghost predicate KeepsShards(rs: Library) {
    && (forall shards, m: nat {:trigger rs.parity(shards, m)} ::
          |shards| > 0 && Sized(shards, |shards|, |shards[0]|) ==> Sized(rs.parity(shards, m), m, |shards[0]|))
    && (forall shards {:trigger rs.reconstruct(shards)} ::
          |shards| > 0 && |shards[0]| > 0 && Sized(shards, |shards|, |shards[0]|) ==>
            rs.reconstruct(shards) == Some(shards))
  }

  // Splitting and joining

  /** The first n bytes of data, padded with zeros. */
  function FitTo(data: bytes, n: nat): (s: bytes)
    ensures |s| == n
  {
    if |data| >= n then data[..n] else data + Zeros(n - |data|)
  }

  function Rest(data: bytes, size: nat): bytes {
    if |data| >= size then data[size..] else []
  }

  function Split(data: bytes, n: nat, size: nat): seq<bytes>
    decreases n
  {
    if n == 0 then [] else [FitTo(data, size)] + Split(Rest(data, size), n - 1, size)
  }

  lemma {:induction false} SplitSized(data: bytes, n: nat, size: nat)
    ensures Sized(Split(data, n, size), n, size)
    decreases n
  {
    if n > 0 {
      SplitSized(Rest(data, size), n - 1, size);
    }
  }

  /** Joined again, n shards are the data cut or padded to n times their size. */
  lemma {:induction false} JoinSplit(data: bytes, n: nat, size: nat, total: nat)
    requires total == n * size
    ensures Concat(Split(data, n, size)) == FitTo(data, total)
    decreases n
  {
    if n > 0 {
      hide FitTo, Rest;
      Product(n, size);
      var first, rest := FitTo(data, size), Split(Rest(data, size), n - 1, size);
      JoinSplit(Rest(data, size), n - 1, size, total - size);
      FitParts(data, size, total - size);
      assert ([first] + rest)[0] == first && ([first] + rest)[1..] == rest;
    }
  }

  lemma Product(n: nat, size: nat)
    requires n > 0
    ensures n * size - size == (n - 1) * size >= 0
  {
    Distribute(n, 1, size);
    assert (n - 1) * size >= 0;
  }

  lemma FitParts(data: bytes, a: nat, b: nat)
    ensures FitTo(data, a) + FitTo(Rest(data, a), b) == FitTo(data, a + b)
  {
    if |data| >= a + b {
      assert data[..a] + data[a..][..b] == data[..a + b];
    } else if |data| >= a {
      Assoc(data[..a], data[a..], Zeros(a + b - |data|));
      assert data[..a] + data[a..] == data;
    } else {
      Assoc(data, Zeros(a - |data|), Zeros(b));
      assert Zeros(a - |data|) + Zeros(b) == Zeros(a + b - |data|);
    }
  }

  lemma FitPadded(m: bytes, total: nat)
    requires |m| <= total
    ensures FitTo(m, total) == m + Zeros(total - |m|)
  {
  }

  lemma FitPrefix(data: bytes, n: nat, m: nat)
    requires n <= m && n <= |data|
    ensures FitTo(data, m)[..n] == data[..n]
  {
  }

  lemma {:induction false} SplitPrefix(data: bytes, n: nat, m: nat, size: nat)
    requires n <= m
    ensures |Split(data, m, size)| == m && Split(data, m, size)[..n] == Split(data, n, size)
    decreases n
  {
    SplitSized(data, m, size);
    if n > 0 {
      var rest := Rest(data, size);
      SplitPrefix(rest, n - 1, m - 1, size);
      SplitSized(rest, m - 1, size);
      assert ([FitTo(data, size)] + Split(rest, m - 1, size))[..n]
          == [FitTo(data, size)] + Split(rest, m - 1, size)[..n - 1];
    }
  }

  lemma {:induction false} ConcatLength(shards: seq<bytes>, n: nat, size: nat)
    requires Sized(shards, n, size)
    ensures |Concat(shards)| == n * size
  {
    if n > 0 {
      ConcatLength(shards[1..], n - 1, size);
      Distribute(n, 1, size);
    }
  }

  function From(data: bytes, at: nat): bytes {
    if at < |data| then data[at..] else []
  }

  /** Shard i of a splitting is the i-th piece of the data. */
  lemma {:induction false} SplitAt(data: bytes, n: nat, size: nat, i: nat, at: nat)
    requires i < n && at == i * size
    ensures |Split(data, n, size)| == n && Split(data, n, size)[i] == FitTo(From(data, at), size)
    decreases i
  {
    hide FitTo, From, Rest;
    SplitSized(data, n, size);
    if i > 0 {
      Product(i, size);
      SplitAt(Rest(data, size), n - 1, size, i - 1, at - size);
      RestFrom(data, size, at);
    } else {
      FromStart(data);
    }
  }

  lemma RestFrom(data: bytes, size: nat, at: nat)
    requires size <= at
    ensures From(Rest(data, size), at - size) == From(data, at)
  {
    if at < |data| {
      assert data[size..][at - size..] == data[at..];
    }
  }

  lemma FromStart(data: bytes)
    ensures From(data, 0) == data
  {
  }

  method SplitShards(data: bytes, n: nat, shardSz: nat) returns (shards: seq<bytes>)
    ensures shards == Split(data, n, shardSz)
  {
    shards := [];
    ghost var all := Split(data, n, shardSz);
    SplitSized(data, n, shardSz);
    for i := 0 to n
      invariant shards == all[..i]
    {
      assert i * shardSz >= 0;
      SplitAt(data, n, shardSz, i, i * shardSz);
      var shard := Shard(data, i * shardSz, shardSz);
      assert all[..i] + [all[i]] == all[..i + 1];
      shards := shards + [shard];
    }
    assert all[..n] == all;
  }

  /** The body of splitShards' loop. */
  method Shard(data: bytes, start: nat, shardSz: nat) returns (shard: bytes)
    ensures shard == FitTo(From(data, start), shardSz)
  {
    var end := start + shardSz;
    shard := Zeros(shardSz);
    if start < |data| {
      if end > |data| {
        end := |data|;
      }
      shard := data[start..end] + shard[end - start..];
    } else {
      assert shard == [] + Zeros(shardSz);
    }
  }

  method JoinShards(shards: seq<bytes>) returns (out: bytes)
    ensures out == Concat(shards)
  {
    out := [];
    for i := 0 to |shards|
      invariant out == Concat(shards[..i])
    {
      ConcatSnoc(shards[..i], shards[i]);
      assert shards[..i] + [shards[i]] == shards[..i + 1];
      out := out + shards[i];
    }
    assert shards[..|shards|] == shards;
  }

  // The header

  datatype Decoded = Decoded(frameID: uint32, totalFrames: uint32, payload: bytes)

  datatype CodecError =
    PayloadTooLarge | BadFrameSize | ReconstructFailed | BadMagic | BadPayloadLen | CRCMismatch

  function Fields(d: Decoded): (h: bytes)
    requires |d.payload| < U32
    ensures |h| == 16
  {
    PutUint32(MAGIC) + PutUint32(d.frameID) + PutUint32(d.totalFrames) + PutUint32(|d.payload|)
  }

  function Message(d: Decoded, crc32: Checksum): (m: bytes)
    requires |d.payload| < U32
    ensures |m| == HEADER_SIZE + |d.payload|
  {
    Fields(d) + PutUint32(crc32(Fields(d) + d.payload)) + d.payload
  }

  function Parse(raw: bytes, maxPayload: nat, crc32: Checksum): (r: Result<Decoded, CodecError>)
    requires |raw| >= HEADER_SIZE + maxPayload
    ensures r.Failure? ==> r.error in {BadMagic, BadPayloadLen, CRCMismatch}
  {
    if Uint32(raw[0..4]) != MAGIC then Failure(BadMagic)
    else
      var payloadLen := Uint32(raw[12..16]);
      if payloadLen > maxPayload then Failure(BadPayloadLen)
      else
        var payload := raw[HEADER_SIZE..HEADER_SIZE + payloadLen];
        if Uint32(raw[16..20]) != crc32(raw[..16] + payload) then Failure(CRCMismatch)
        else Success(Decoded(Uint32(raw[4..8]), Uint32(raw[8..12]), payload))
  }

  lemma FieldsAt(d: Decoded, rest: bytes)
    requires |d.payload| < U32
    ensures var raw := Fields(d) + rest;
      && raw[..16] == Fields(d) && raw[16..] == rest
      && Uint32(raw[0..4]) == MAGIC && Uint32(raw[4..8]) == d.frameID
      && Uint32(raw[8..12]) == d.totalFrames && Uint32(raw[12..16]) == |d.payload|
  {
    var raw := Fields(d) + rest;
    assert raw[0..4] == PutUint32(MAGIC) && raw[4..8] == PutUint32(d.frameID);
    assert raw[8..12] == PutUint32(d.totalFrames) && raw[12..16] == PutUint32(|d.payload|);
    Word32(MAGIC, raw[0..4]);
    Word32(d.frameID, raw[4..8]);
    Word32(d.totalFrames, raw[8..12]);
    Word32(|d.payload|, raw[12..16]);
  }

  /** Whatever follows a message, parsing gives the message back. */
  lemma ParseMessage(d: Decoded, raw: bytes, maxPayload: nat, crc32: Checksum)
    requires |d.payload| <= maxPayload < U32 && |raw| >= HEADER_SIZE + maxPayload
    requires Message(d, crc32) <= raw
    ensures Parse(raw, maxPayload, crc32) == Success(d)
  {
    hide Fields;
    var crc := crc32(Fields(d) + d.payload);
    var rest := raw[16..];
    var n := |d.payload|;
    var m := Message(d, crc32);
    assert m[..16] == Fields(d) && m[16..20] == PutUint32(crc) && m[20..] == d.payload;
    assert raw[..16] == m[..16];
    assert raw[16..20] == m[16..20];
    assert raw[20..20 + n] == m[20..];
    assert raw == Fields(d) + rest;
    FieldsAt(d, rest);
    Word32(crc, raw[16..20]);
  }

  /** Conversely, what parses is a message: nothing is accepted whose magic, length or CRC is not
      right, and the errors say which. */
  lemma ParseAccepts(raw: bytes, maxPayload: nat, crc32: Checksum)
    requires maxPayload < U32 && |raw| >= HEADER_SIZE + maxPayload
    ensures var r := Parse(raw, maxPayload, crc32);
      var size := Weigh32(raw, 12);
      var right := raw[..4] == [0x54, 0x4c, 0x45, 0x32];
      && (r.Success? ==> |r.value.payload| <= maxPayload && Message(r.value, crc32) <= raw)
      && (r == Failure(BadMagic) <==> !right)
      && (r == Failure(BadPayloadLen) <==> right && size > maxPayload)
      && (r == Failure(CRCMismatch) <==>
            right && size <= maxPayload && Weigh32(raw, 16) != crc32(raw[..16] + raw[20..20 + size]))
  {
    hide Message, Fields;
    MagicSpelled(raw);
    WeighPart32(raw, 12);
    WeighPart32(raw, 16);
    if Parse(raw, maxPayload, crc32).Success? {
      ParsedIsMessage(raw, maxPayload, crc32);
    }
  }

  lemma MagicSpelled(raw: bytes)
    requires |raw| >= 4
    ensures Uint32(raw[0..4]) == MAGIC <==> raw[..4] == [0x54, 0x4c, 0x45, 0x32]
  {
    assert raw[0..4] == raw[..4];
    assert PutUint32(MAGIC) == [0x54, 0x4c, 0x45, 0x32];
    Word32(MAGIC, raw[0..4]);
  }

  lemma ParsedIsMessage(raw: bytes, maxPayload: nat, crc32: Checksum)
    requires maxPayload < U32 && |raw| >= HEADER_SIZE + maxPayload && Parse(raw, maxPayload, crc32).Success?
    ensures var d := Parse(raw, maxPayload, crc32).value;
      |d.payload| <= maxPayload && Message(d, crc32) <= raw
  {
    var d := Parse(raw, maxPayload, crc32).value;
    FieldsRead(raw, d);
    Word32(0, raw[16..20]);
    assert raw[16..20] == PutUint32(crc32(Fields(d) + d.payload));
    assert raw[..20 + |d.payload|] == raw[..16] + raw[16..20] + raw[20..20 + |d.payload|];
  }

  lemma FieldsRead(raw: bytes, d: Decoded)
    requires |raw| >= 16 && |d.payload| < U32 && Uint32(raw[0..4]) == MAGIC && Uint32(raw[4..8]) == d.frameID
    requires Uint32(raw[8..12]) == d.totalFrames && Uint32(raw[12..16]) == |d.payload|
    ensures raw[..16] == Fields(d)
  {
    Word32(0, raw[0..4]);
    Word32(0, raw[4..8]);
    Word32(0, raw[8..12]);
    Word32(0, raw[12..16]);
    assert raw[..16] == raw[0..4] + raw[4..8] + raw[8..12] + raw[12..16];
  }

  /** Where everything stands in a message, big-endian. */
  lemma MessageLayout(d: Decoded, crc32: Checksum)
    requires |d.payload| < U32
    ensures var m := Message(d, crc32);
      && |m| == 20 + |d.payload| && m[..4] == [0x54, 0x4c, 0x45, 0x32]
      && Weigh32(m, 4) == d.frameID && Weigh32(m, 8) == d.totalFrames && Weigh32(m, 12) == |d.payload|
      && Weigh32(m, 16) == crc32(m[..16] + d.payload) && m[20..] == d.payload
  {
    hide Weigh32;
    var m, f := Message(d, crc32), Fields(d);
    assert m[..16] == f && m[16..20] == PutUint32(crc32(f + d.payload)) && m[20..] == d.payload;
    assert m[..4] == f[..4] == PutUint32(MAGIC) == [0x54, 0x4c, 0x45, 0x32];
    assert m[4..8] == f[4..8] && m[8..12] == f[8..12] && m[12..16] == f[12..16];
    WordAt32(m, 4, d.frameID);
    WordAt32(m, 8, d.totalFrames);
    WordAt32(m, 12, |d.payload|);
    WordAt32(m, 16, crc32(f + d.payload));
  }

  // The codec

  function Padded(c: Codec, d: Decoded, crc32: Checksum): (raw: bytes)
    requires ShardsSound(c) && |d.payload| <= c.maxPayload < U32
  {
    FitTo(Message(d, crc32), c.dataShards * c.shardSz + HEADER_SIZE)
  }

  function Wire(c: Codec, rs: Library, raw: bytes): bytes
    requires ShardsSound(c)
  {
    if c.parShards > 0 then
      var shards := Split(raw, c.dataShards, c.shardSz);
      Concat(shards + rs.parity(shards, c.parShards))
    else raw
  }

  /** The message stands at the start of the wire, and the wire fits in the frame. */
  lemma WireStarts(c: Codec, rs: Library, d: Decoded, crc32: Checksum)
    requires GridSound(c) && ShardsSound(c) && KeepsShards(rs) && |d.payload| <= c.maxPayload < U32
    ensures var wire := Wire(c, rs, Padded(c, d, crc32));
      && |wire| == WireLength(c) && 8 * |wire| <= Modules(c)
      && Message(d, crc32) <= wire
  {
    hide KeepsShards, Message, FitTo, Split;
    var m, raw := Message(d, crc32), Padded(c, d, crc32);
    FitPadded(m, |raw|);
    if c.parShards > 0 {
      DataShardsFirst(rs, raw, c.dataShards, c.parShards, c.shardSz, c.dataShards * c.shardSz);
      assert m <= raw[..c.dataShards * c.shardSz];
    }
  }

  /** The wire: without parity the message and zeros; with parity the message and zeros cut to the
      data shards, and behind them the parity that the library makes for exactly these. */
  lemma WireLayout(c: Codec, rs: Library, d: Decoded, crc32: Checksum)
    requires ShardsSound(c) && KeepsShards(rs) && |d.payload| <= c.maxPayload < U32
    ensures var wire, m, room := Wire(c, rs, Padded(c, d, crc32)), Message(d, crc32), c.dataShards * c.shardSz;
      && (c.parShards == 0 ==> wire == m + Zeros(room + 20 - |m|))
      && |m| <= room
      && (c.parShards > 0 ==>
            var shards := Split(m + Zeros(room - |m|), c.dataShards, c.shardSz);
            wire == m + Zeros(room - |m|) + Concat(rs.parity(shards, c.parShards)))
  {
    hide KeepsShards, Message, FitTo, Split;
    var m, raw, room := Message(d, crc32), Padded(c, d, crc32), c.dataShards * c.shardSz;
    FitPadded(m, |raw|);
    FitPadded(m, room);
    if c.parShards > 0 {
      SplitCut(raw, c.dataShards, c.shardSz, room);
      FitAgain(m, room, room + HEADER_SIZE);
      var shards := Split(raw, c.dataShards, c.shardSz);
      ConcatAppend(shards, rs.parity(shards, c.parShards));
      JoinSplit(raw, c.dataShards, c.shardSz, room);
    }
  }

  lemma FitAgain(m: bytes, n: nat, k: nat)
    requires n <= k
    ensures FitTo(FitTo(m, k), n) == FitTo(m, n)
  {
  }

  /** Only the bytes that fall into the shards matter to a splitting. */
  lemma {:induction false} SplitCut(data: bytes, n: nat, size: nat, total: nat)
    requires total == n * size
    ensures Split(FitTo(data, total), n, size) == Split(data, n, size)
    decreases n
  {
    if n > 0 {
      Product(n, size);
      SplitCut(Rest(data, size), n - 1, size, total - size);
      FitAgain(data, size, total);
      RestFit(data, size, total);
    }
  }

  lemma RestFit(data: bytes, size: nat, total: nat)
    requires size <= total
    ensures Rest(FitTo(data, total), size) == FitTo(Rest(data, size), total - size)
  {
  }

  /** Data and parity shards joined: the data as it was, then the parity. */
  lemma DataShardsFirst(rs: Library, raw: bytes, n: nat, m: nat, size: nat, total: nat)
    requires KeepsShards(rs) && n > 0 && total == n * size <= |raw|
    ensures var shards := Split(raw, n, size); var wire := Concat(shards + rs.parity(shards, m));
      |wire| == (n + m) * size && raw[..total] <= wire
  {
    hide KeepsShards, FitTo, Split;
    var shards := Split(raw, n, size);
    ParitySized(rs, raw, n, m, size);
    ConcatAppend(shards, rs.parity(shards, m));
    JoinSplit(raw, n, size, total);
    FitPrefix(raw, total, total);
    ConcatLength(shards + rs.parity(shards, m), n + m, size);
  }

  lemma ParitySized(rs: Library, raw: bytes, n: nat, m: nat, size: nat)
    requires KeepsShards(rs) && n > 0
    ensures var shards := Split(raw, n, size);
      Sized(shards, n, size) && Sized(shards + rs.parity(shards, m), n + m, size)
  {
    SplitSized(raw, n, size);
  }

  function Unwire(c: Codec, rs: Library, wire: bytes): Option<bytes>
    requires ShardsSound(c)
  {
    if c.parShards > 0 then
      var size := ShardBytes(c.frameBytes - HEADER_SIZE, c.dataShards);
      var all := Split(wire, c.dataShards + c.parShards, size);
      if rs.verify(all) then Some(Concat(Take(all, c.dataShards)))
      else
        match rs.reconstruct(all)
        case None => None
        case Some(repaired) => Some(Concat(Take(repaired, c.dataShards)))
    else Some(wire)
  }

  function Take(shards: seq<bytes>, n: nat): seq<bytes> {
    if n <= |shards| then shards[..n] else shards
  }

  /** The decoder's shards are larger than the encoder's, but the data stays where it was:
      the joined shards start with as much of the wire as there is data. */
  lemma UnwireKeepsStart(c: Codec, rs: Library, wire: bytes)
    requires ShardsSound(c) && KeepsShards(rs) && |wire| >= c.frameBytes
    ensures Unwire(c, rs, wire).Some?
    ensures var data := c.dataShards * c.shardSz;
      data <= |wire| && |Unwire(c, rs, wire).value| >= data && Unwire(c, rs, wire).value[..data] == wire[..data]
  {
    hide KeepsShards, ShardBytes;
    var size := ShardBytes(c.frameBytes - HEADER_SIZE, c.dataShards);
    var data := c.dataShards * c.shardSz;
    DataFits(c);
    if c.parShards > 0 {
      var n := c.dataShards + c.parShards;
      Untouched(rs, wire, n, size);
      FirstShards(wire, c.dataShards, n, size, c.shardSz);
    }
  }

  lemma DataFits(c: Codec)
    requires ShardsSound(c)
    ensures 0 < c.dataShards * c.shardSz <= WireLength(c) <= c.frameBytes
  {
    Distribute(c.dataShards, c.parShards, c.shardSz);
    assert c.parShards * c.shardSz >= 0;
  }

  lemma Untouched(rs: Library, wire: bytes, n: nat, size: nat)
    requires KeepsShards(rs) && n > 0 && size > 0
    ensures rs.reconstruct(Split(wire, n, size)) == Some(Split(wire, n, size))
  {
    SplitSized(wire, n, size);
  }

  lemma FirstShards(wire: bytes, n: nat, m: nat, size: nat, smaller: nat)
    requires n <= m && smaller <= size && 0 <= n * smaller <= |wire|
    ensures var raw := Concat(Take(Split(wire, m, size), n));
      |raw| >= n * smaller && raw[..n * smaller] == wire[..n * smaller]
  {
    hide Split, FitTo, Concat;
    Distribute(size, smaller, n);
    assert (size - smaller) * n >= 0;
    JoinedStart(wire, n, m, size, n * size, n * smaller);
  }

  lemma JoinedStart(wire: bytes, n: nat, m: nat, size: nat, total: nat, upTo: nat)
    requires n <= m && total == n * size && upTo <= total && upTo <= |wire|
    ensures var raw := Concat(Take(Split(wire, m, size), n));
      |raw| >= upTo && raw[..upTo] == wire[..upTo]
  {
    hide Split, FitTo, Concat;
    SplitPrefix(wire, n, m, size);
    JoinSplit(wire, n, size, total);
    FitPrefix(wire, upTo, total);
  }

  /** No shard is ever marked missing, so repair is never asked of the library: whatever the
      frame shows and whatever the parity says, decoding sees the data bytes as they were read. */
  lemma ParityNeverRepairs(c: Codec, rs: Library, wire: bytes)
    requires ShardsSound(c) && KeepsShards(rs)
    ensures var n := c.dataShards * ShardBytes(c.frameBytes - HEADER_SIZE, c.dataShards);
      Unwire(c, rs, wire) == Some(if c.parShards > 0 && n >= 0 then FitTo(wire, n) else wire)
  {
    hide KeepsShards, ShardBytes;
    var size := ShardBytes(c.frameBytes - HEADER_SIZE, c.dataShards);
    if c.parShards > 0 {
      Untouched(rs, wire, c.dataShards + c.parShards, size);
      SplitPrefix(wire, c.dataShards, c.dataShards + c.parShards, size);
      assert c.dataShards * size >= 0;
      JoinSplit(wire, c.dataShards, size, c.dataShards * size);
    }
  }

  // Encode and Decode

  /** A codec that New returned. */
  predicate Made(c: Codec) { New(c.cfg) == Success(c) }

  lemma MadeSound(c: Codec)
    requires Made(c)
    ensures GridSound(c) && ShardsSound(c)
    ensures c.maxPayload + HEADER_SIZE < U32
    ensures (Modules(c) + 7) / 8 >= c.frameBytes
  {
    hide New;
    NewSound(c.cfg);
    DataFits(c);
    ModulesBounded(c);
  }

  lemma ModulesBounded(c: Codec)
    requires GridSound(c)
    ensures Modules(c) <= FRAME_W * FRAME_H
  {
    ProductAtLeast(c.cols, c.cfg.side);
    ProductAtLeast(c.rows, c.cfg.side);
    ProductBounded(c.cols, c.dataRows, FRAME_W, FRAME_H);
  }

  lemma ProductBounded(a: int, b: int, x: int, y: int)
    requires 0 <= a <= x && 0 <= b <= y
    ensures a * b <= x * y
  {
    assert (x - a) * b >= 0 && x * (y - b) >= 0;
    Distribute(x, a, b);
  }

  lemma ProductAtLeast(a: int, b: int)
    requires a >= 0 && b >= 1
    ensures a * b >= a
  {
    Distribute(b, 1, a);
    assert (b - 1) * a >= 0;
  }

  function Encoded(c: Codec, rs: Library, d: Decoded, crc32: Checksum): bytes
    requires ShardsSound(c) && |d.payload| <= c.maxPayload < U32
  {
    Wire(c, rs, Padded(c, d, crc32))
  }

  /** What Decode makes of the bytes read from a frame. */
  function Interpret(c: Codec, rs: Library, crc32: Checksum, wire: bytes): Result<Decoded, CodecError>
    requires ShardsSound(c) && KeepsShards(rs) && |wire| >= c.frameBytes
  {
    UnwireKeepsStart(c, rs, wire);
    RawLength(c, rs, wire);
    Parse(Unwire(c, rs, wire).value, c.maxPayload, crc32)
  }

  /** Decode never reads past the joined shards. */
  lemma RawLength(c: Codec, rs: Library, wire: bytes)
    requires ShardsSound(c) && KeepsShards(rs) && |wire| >= c.frameBytes
    ensures Unwire(c, rs, wire).Some? && |Unwire(c, rs, wire).value| >= HEADER_SIZE + c.maxPayload
  {
    UnwireKeepsStart(c, rs, wire);
  }

  ghost predicate IsPicture(c: Codec, wire: bytes, frame: seq<byte>)
    requires GridSound(c)
  {
    |frame| == PIXELS && forall i :: 0 <= i < PIXELS ==> frame[i] == Picture(c, wire, i)
  }

  /** What the decoder makes of the bytes read before it parses them: without parity, these
      bytes; with parity, what of them falls into the data shards. */
  function Received(c: Codec, seen: bytes): bytes
    requires ShardsSound(c)
  {
    if c.parShards > 0 then FitTo(seen, DataRoom(c)) else seen
  }

  function DataRoom(c: Codec): nat
    requires ShardsSound(c)
  {
    var size := ShardBytes(c.frameBytes - HEADER_SIZE, c.dataShards);
    assert c.dataShards * size >= 0;
    c.dataShards * size
  }

  /** The payload of a frame is returned if and only if its message, CRC included, stands at the
      start of what was received. */
  lemma InterpretIff(c: Codec, rs: Library, crc32: Checksum, wire: bytes, d: Decoded)
    requires ShardsSound(c) && KeepsShards(rs) && |wire| >= c.frameBytes && c.maxPayload < U32
    ensures Interpret(c, rs, crc32, wire) == Success(d) <==>
      |d.payload| <= c.maxPayload && Message(d, crc32) <= Received(c, wire)
  {
    hide KeepsShards, Unwire, Parse, Message, ShardBytes;
    UnwireKeepsStart(c, rs, wire);
    RawLength(c, rs, wire);
    ParityNeverRepairs(c, rs, wire);
    var raw := Unwire(c, rs, wire).value;
    ParseAccepts(raw, c.maxPayload, crc32);
    if |d.payload| <= c.maxPayload && Message(d, crc32) <= raw {
      ParseMessage(d, raw, c.maxPayload, crc32);
    }
  }

  method StoreFields(buf: array<byte>, d: Decoded)
    requires buf.Length >= HEADER_SIZE && |d.payload| < U32
    modifies buf
    ensures buf[..16] == Fields(d) && buf[16..] == old(buf[16..])
  {
    ghost var tail := buf[16..];
    assert tail == buf[4..][12..];
    StoreAt(buf, 0, PutUint32(MAGIC));
    assert tail == buf[4..][12..] == buf[8..][8..];
    StoreAt(buf, 4, PutUint32(d.frameID));
    assert tail == buf[8..][8..] == buf[12..][4..];
    assert buf[..8] == PutUint32(MAGIC) + PutUint32(d.frameID) by {
      assert buf[..8] == buf[..4] + buf[4..8];
    }
    StoreAt(buf, 8, PutUint32(d.totalFrames));
    assert tail == buf[12..][4..] == buf[16..];
    assert buf[..12] == PutUint32(MAGIC) + PutUint32(d.frameID) + PutUint32(d.totalFrames) by {
      assert buf[..12] == buf[..8] + buf[8..12];
    }
    StoreAt(buf, 12, PutUint32(|d.payload|));
    assert buf[..16] == buf[..12] + buf[12..16];
  }

  /** The buffer Encode fills: header, checksum, payload and zeros up to the end. */
  method FillRaw(d: Decoded, total: nat, crc32: Checksum) returns (buf: array<byte>)
    requires |d.payload| < U32 && HEADER_SIZE + |d.payload| <= total
    ensures fresh(buf) && buf[..] == FitTo(Message(d, crc32), total)
  {
    hide Fields, FitTo;
    var n := HEADER_SIZE + |d.payload|;
    buf := new byte[total](_ => 0);
    StoreFields(buf, d);
    assert buf[n..] == buf[16..][n - 16..] == Zeros(total - n);
    StoreAt(buf, HEADER_SIZE, d.payload);
    ghost var fields, tail := buf[..16], buf[20..];
    assert fields == buf[..20][..16] == Fields(d);
    assert tail == d.payload + Zeros(total - n) by {
      assert tail == buf[20..n] + buf[n..];
    }
    StoreAt(buf, 16, PutUint32(crc32(buf[..16] + d.payload)));
    assert buf[..] == buf[..16] + buf[16..20] + buf[20..];
    Assoc(fields + buf[16..20], d.payload, Zeros(total - n));
    FitPadded(Message(d, crc32), total);
  }

  method Encode(c: Codec, rs: Library, crc32: Checksum, payload: bytes, frameID: uint32, totalFrames: uint32)
    returns (r: Result<array<byte>, CodecError>)
    requires Made(c) && KeepsShards(rs)
    ensures |payload| > c.maxPayload <==> r == Failure(PayloadTooLarge)
    ensures r.Failure? ==> r == Failure(PayloadTooLarge)
    ensures r.Success? ==>
      && fresh(r.value) && GridSound(c) && ShardsSound(c) && |payload| <= c.maxPayload < U32
      && IsPicture(c, Encoded(c, rs, Decoded(frameID, totalFrames, payload), crc32), r.value[..])
  {
    hide New, Picture, GridSound, KeepsShards, Message, FitTo, Split;
    if |payload| > c.maxPayload {
      return Failure(PayloadTooLarge);
    }
    MadeSound(c);
    var d := Decoded(frameID, totalFrames, payload);
    var buf := FillRaw(d, c.dataShards * c.shardSz + HEADER_SIZE, crc32);
    var raw, wire := buf[..], buf[..];
    if c.parShards > 0 {
      var shards := SplitShards(raw, c.dataShards, c.shardSz);
      wire := JoinShards(shards + rs.parity(shards, c.parShards));
    }
    assert wire == Encoded(c, rs, d, crc32);
    var frame := RenderFrame(c, wire);
    assert IsPicture(c, wire, frame[..]);
    r := Success(frame);
  }

  method ParseRaw(raw: bytes, maxPayload: nat, crc32: Checksum) returns (r: Result<Decoded, CodecError>)
    requires |raw| >= HEADER_SIZE + maxPayload
    ensures r == Parse(raw, maxPayload, crc32)
  {
    if Uint32(raw[0..4]) != MAGIC {
      return Failure(BadMagic);
    }
    var frameID := Uint32(raw[4..8]);
    var totalFrames := Uint32(raw[8..12]);
    var payloadLen := Uint32(raw[12..16]);
    if payloadLen > maxPayload {
      return Failure(BadPayloadLen);
    }
    var gotCRC := Uint32(raw[16..20]);
    var crcBuf := raw[..16] + raw[HEADER_SIZE..HEADER_SIZE + payloadLen];
    if gotCRC != crc32(crcBuf) {
      return Failure(CRCMismatch);
    }
    return Success(Decoded(frameID, totalFrames, raw[HEADER_SIZE..HEADER_SIZE + payloadLen]));
  }

  /** Total: no frame of any content makes it read out of range. */
  method Decode(c: Codec, rs: Library, crc32: Checksum, frame: array<byte>)
    returns (r: Result<Decoded, CodecError>, ghost seen: bytes)
    requires Made(c) && KeepsShards(rs)
    ensures frame.Length != PIXELS <==> r == Failure(BadFrameSize)
    ensures frame.Length == PIXELS ==>
      GridSound(c) && ShardsSound(c) && Reads(c, frame[..], seen) && |seen| >= c.frameBytes
      && r == Interpret(c, rs, crc32, seen)
      && (r.Success? ==> |r.value.payload| <= c.maxPayload < U32 && Message(r.value, crc32) <= Received(c, seen))
      && forall d: Decoded :: |d.payload| <= c.maxPayload < U32 && Message(d, crc32) <= Received(c, seen) ==>
        r == Success(d)
  {
    hide New, GridSound, KeepsShards, Parse, Split, ShardBytes;
    seen := [];
    if frame.Length != PIXELS {
      return Failure(BadFrameSize), [];
    }
    MadeSound(c);
    var out := ReadFrame(c, frame);
    var wire := out[..];
    seen := wire;
    UnwireKeepsStart(c, rs, wire);
    RawLength(c, rs, wire);
    var raw := wire;
    if c.parShards > 0 {
      var all := SplitShards(wire, c.dataShards + c.parShards, ShardBytes(c.frameBytes - HEADER_SIZE, c.dataShards));
      if !rs.verify(all) {
        var repaired := rs.reconstruct(all);
        if repaired.None? {
          assert false;
        }
        all := repaired.value;
      }
      raw := JoinShards(Take(all, c.dataShards));
    }
    r := ParseRaw(raw, c.maxPayload, crc32);
    forall d: Decoded
      ensures r == Success(d) <==> |d.payload| <= c.maxPayload && Message(d, crc32) <= Received(c, seen)
    {
      InterpretIff(c, rs, crc32, seen, d);
    }
  }

  lemma ReadLength(c: Codec, frame: seq<byte>, seen: bytes)
    requires Made(c) && GridSound(c) && |frame| == PIXELS && Reads(c, frame, seen)
    ensures |seen| >= c.frameBytes
  {
    MadeSound(c);
  }

  lemma StartsAlike(m: bytes, wire: bytes, seen: bytes, raw: bytes, data: nat)
    requires m <= wire <= seen && |m| <= data <= |seen| && data <= |raw| && raw[..data] == seen[..data]
    ensures m <= raw
  {
    assert forall i :: 0 <= i < |m| ==> m[i] == wire[i] == seen[i] == seen[..data][i] == raw[i];
  }

  /** What stands at the start of the wire reaches Parse, within the noise margin. */
  lemma StartSurvives(c: Codec, rs: Library, m: bytes, wire: bytes, frame: seq<byte>, seen: bytes)
    requires Made(c) && GridSound(c) && ShardsSound(c) && KeepsShards(rs)
    requires m <= wire && 8 * |wire| <= Modules(c) && |m| <= c.dataShards * c.shardSz
    requires Near(c, wire, frame, 63) && |frame| == PIXELS && Reads(c, frame, seen)
    ensures |seen| >= c.frameBytes && Unwire(c, rs, seen).Some?
    ensures |Unwire(c, rs, seen).value| >= HEADER_SIZE + c.maxPayload && m <= Unwire(c, rs, seen).value
  {
    hide New, GridSound, ShardsSound, KeepsShards, Near, Reads, Unwire;
    NoiseMargin(c, wire, frame, seen);
    ReadLength(c, frame, seen);
    UnwireKeepsStart(c, rs, seen);
    RawLength(c, rs, seen);
    StartsAlike(m, wire, seen, Unwire(c, rs, seen).value, c.dataShards * c.shardSz);
  }

  /** Decoding what encoding drew gives back the payload and both numbers, for every codec New
      accepts, every payload it accepts, and any noise of up to 63 grey levels. */
  lemma DecodeEncoded(c: Codec, rs: Library, crc32: Checksum, d: Decoded, frame: seq<byte>, seen: bytes)
    requires Made(c) && GridSound(c) && ShardsSound(c) && KeepsShards(rs) && |d.payload| <= c.maxPayload < U32
    requires Near(c, Encoded(c, rs, d, crc32), frame, 63) && |frame| == PIXELS && Reads(c, frame, seen)
    ensures |seen| >= c.frameBytes && Interpret(c, rs, crc32, seen) == Success(d)
  {
    hide New, GridSound, KeepsShards, Wire, Padded, Near, Reads, Unwire, Fields, Parse;
    WireStarts(c, rs, d, crc32);
    StartSurvives(c, rs, Message(d, crc32), Encoded(c, rs, d, crc32), frame, seen);
    ParseMessage(d, Unwire(c, rs, seen).value, c.maxPayload, crc32);
  }

  lemma ZerosMeanNothing(c: Codec, rs: Library, crc32: Checksum, wire: bytes)
    requires ShardsSound(c) && KeepsShards(rs) && |wire| >= c.frameBytes && wire == Zeros(|wire|)
    ensures Interpret(c, rs, crc32, wire) == Failure(BadMagic)
  {
    hide KeepsShards, Unwire;
    UnwireKeepsStart(c, rs, wire);
    RawLength(c, rs, wire);
    var raw, data := Unwire(c, rs, wire).value, c.dataShards * c.shardSz;
    assert raw[0..4] == raw[..data][0..4] == wire[..data][0..4] == [0, 0, 0, 0];
  }
}
