/** The videochannel transport over tiles (videochannel/transport.go, visual.go): the
    protocol of SeiArq with pictures as samples. What the video encoder, the network and the
    decoder do to a picture is a parameter; they may shift every grey level by up to 63. */
module VideoTransport {
  import opened Bytes
  import opened SeiFrames
  import opened SeiArq
  import opened TileGeometry
  import opened TileRender
  import TileCodec

  type Image = seq<byte>

  const IDLE: byte := 0xff

  datatype Tile = Tile(codec: Codec, rs: TileCodec.Library, crc32: TileCodec.Checksum)
  {
    ghost predicate Valid() { TileCodec.Made(codec) && TileCodec.KeepsShards(rs) }
  }

  ghost predicate Gentle(channel: Image -> Image) {
    forall image {:trigger channel(image)} :: Within(image, channel(image), 63)
  }

  ghost predicate Within(a: Image, b: Image, margin: nat) {
    |a| == |b| && forall i :: 0 <= i < |a| ==> a[i] - margin <= b[i] <= a[i] + margin
  }

  // Rendering

  function Idle(): Image { seq(PIXELS, _ => IDLE) }

  ghost function Drawing(t: Tile, d: TileCodec.Decoded): Image
    requires t.Valid() && |d.payload| <= t.codec.maxPayload
  {
    TileCodec.MadeSound(t.codec);
    var wire := TileCodec.Encoded(t.codec, t.rs, d, t.crc32);
    seq(PIXELS, i requires 0 <= i < PIXELS => Picture(t.codec, wire, i))
  }

  /** renderTileFrame; a frame too long for the tile is logged and not sent. */
  ghost function Render(t: Tile, payload: bytes): Option<Image>
    requires t.Valid()
  {
    if payload == [] then Some(Idle())
    else if |payload| > t.codec.maxPayload then None
    else Some(Drawing(t, TileCodec.Decoded(0, 1, payload)))
  }

  // Extracting

  /** The bytes Decode reads from an image. */
  ghost predicate Seen(t: Tile, image: Image, wire: bytes)
    requires t.Valid() && |image| == PIXELS
  {
    TileCodec.MadeSound(t.codec);
    Reads(t.codec, image, wire)
  }

  ghost function Understood(t: Tile, image: Image, wire: bytes): Result<TileCodec.Decoded, TileCodec.CodecError>
    requires t.Valid() && |image| == PIXELS && Seen(t, image, wire)
  {
    TileCodec.MadeSound(t.codec);
    TileCodec.ReadLength(t.codec, image, wire);
    TileCodec.Interpret(t.codec, t.rs, t.crc32, wire)
  }

  /** extractTilePayload, where failures and the empty payload look alike to handleFrame. */
  ghost function Extract(t: Tile, image: Image): bytes
    requires t.Valid()
  {
    if |image| == PIXELS && exists wire :: Seen(t, image, wire) then
      var wire :| Seen(t, image, wire);
      var r := Understood(t, image, wire);
      if r.Success? then r.value.payload else []
    else []
  }

  /** handleFrame, up to the frame it dispatches. */
  ghost function Frames(t: Tile, image: Image): seq<Frame>
    requires t.Valid()
  {
    var payload := Extract(t, image);
    if payload == [] then []
    else
      match Decode(VIDEO_MAGIC, payload)
      case Success(f) => [f]
      case Failure(_) => []
  }

  // Round trip

  lemma ExtractIs(t: Tile, image: Image, wire: bytes, d: TileCodec.Decoded)
    requires t.Valid() && |image| == PIXELS && Seen(t, image, wire)
    requires Understood(t, image, wire) == Success(d)
    ensures Extract(t, image) == d.payload
  {
    hide Understood, Reads;
    TileCodec.MadeSound(t.codec);
    forall w | Seen(t, image, w)
      ensures w == wire
    {
      ReadsOnce(t.codec, image, w, wire);
    }
  }

  /** What a gentle channel makes of a drawing can be read. */
  lemma Carried(t: Tile, d: TileCodec.Decoded, channel: Image -> Image) returns (seen: bytes)
    requires t.Valid() && Gentle(channel) && |d.payload| <= t.codec.maxPayload
    ensures var image := channel(Drawing(t, d));
      |image| == PIXELS && Seen(t, image, seen) && Understood(t, image, seen) == Success(d)
  {
    hide Reads, TileCodec.Wire, TileCodec.Padded, TileCodec.Message, TileCodec.Interpret;
    hide GridSound, ShardsSound, Picture, Near, Within;
    TileCodec.MadeSound(t.codec);
    var image := channel(Drawing(t, d));
    var wire := TileCodec.Encoded(t.codec, t.rs, d, t.crc32);
    WithinDrawing(t, d, image);
    TileCodec.WireStarts(t.codec, t.rs, d, t.crc32);
    NearReads(t.codec, wire, image);
    seen := wire + Zeros((Modules(t.codec) + 7) / 8 - |wire|);
    TileCodec.DecodeEncoded(t.codec, t.rs, t.crc32, d, image, seen);
  }

  lemma WithinDrawing(t: Tile, d: TileCodec.Decoded, image: Image)
    requires t.Valid() && |d.payload| <= t.codec.maxPayload && Within(Drawing(t, d), image, 63)
    requires GridSound(t.codec) && ShardsSound(t.codec) && t.codec.maxPayload < U32
    ensures |image| == PIXELS && Near(t.codec, TileCodec.Encoded(t.codec, t.rs, d, t.crc32), image, 63)
  {
    hide Tile.Valid, GridSound, ShardsSound, TileCodec.Encoded, Picture, Centre;
    forall k: nat | k < Modules(t.codec)
      ensures 0 <= Centre(t.codec, k) < PIXELS
    {
      CentreInCell(t.codec, k);
    }
  }

  /** A payload that fits, drawn and carried by a gentle channel, is extracted as it was. */
  lemma ExtractRendered(t: Tile, payload: bytes, channel: Image -> Image)
    requires t.Valid() && Gentle(channel) && 0 < |payload| <= t.codec.maxPayload
    ensures Extract(t, channel(Drawing(t, TileCodec.Decoded(0, 1, payload)))) == payload
  {
    hide Tile.Valid, Extract, Understood, Seen, Drawing;
    var d := TileCodec.Decoded(0, 1, payload);
    var seen := Carried(t, d, channel);
    ExtractIs(t, channel(Drawing(t, d)), seen, d);
  }

  lemma IdleBright(image: Image)
    requires Within(Idle(), image, 63)
    ensures |image| == PIXELS && forall i :: 0 <= i < PIXELS ==> !Dark(image, i)
  {
    assert forall i :: 0 <= i < PIXELS ==> Idle()[i] == IDLE;
  }

  lemma ZerosUnderstood(t: Tile, image: Image, wire: bytes)
    requires t.Valid() && |image| == PIXELS && Seen(t, image, wire) && wire == Zeros(|wire|)
    ensures Understood(t, image, wire).Failure?
  {
    hide Reads, GridSound, ShardsSound, TileCodec.Interpret;
    TileCodec.MadeSound(t.codec);
    TileCodec.ReadLength(t.codec, image, wire);
    TileCodec.ZerosMeanNothing(t.codec, t.rs, t.crc32, wire);
  }

  lemma BrightUnderstood(t: Tile, image: Image, wire: bytes)
    requires t.Valid() && |image| == PIXELS && Seen(t, image, wire)
    requires GridSound(t.codec) && forall i :: 0 <= i < PIXELS ==> !Dark(image, i)
    ensures Understood(t, image, wire).Failure?
  {
    hide Reads, GridSound, Dark, TileCodec.Made, TileCodec.KeepsShards, Understood;
    BrightReads(t.codec, image);
    ReadsOnce(t.codec, image, wire, Zeros((Modules(t.codec) + 7) / 8));
    ZerosUnderstood(t, image, wire);
  }

  lemma ExtractNothing(t: Tile, image: Image)
    requires t.Valid() && |image| == PIXELS
    requires forall wire :: Seen(t, image, wire) ==> Understood(t, image, wire).Failure?
    ensures Extract(t, image) == []
  {
    hide Tile.Valid, Understood, Seen;
  }

  /** The idle picture yields nothing, also after a gentle channel. */
  lemma ExtractIdle(t: Tile, channel: Image -> Image)
    requires t.Valid() && Gentle(channel)
    ensures Extract(t, channel(Idle())) == []
  {
    hide Extract, Understood, Seen, Within, Idle, Dark, GridSound, ShardsSound;
    TileCodec.MadeSound(t.codec);
    var image := channel(Idle());
    IdleBright(image);
    forall wire | Seen(t, image, wire)
      ensures Understood(t, image, wire).Failure?
    {
      BrightUnderstood(t, image, wire);
    }
    ExtractNothing(t, image);
  }

  // The medium

  /** The pictures the writer's ticks put on the video track, and what handleFrame sees. A
      frame that cannot be rendered leaves nothing but the previous picture; Idle stands for it. */
  ghost function TileWire(t: Tile, channel: Image -> Image): Wire<Image>
    requires t.Valid()
  {
    Wire(
      f => channel(Sample(t, f)),
      image => if t.Valid() then Frames(t, image) else [])
  }

  ghost function Sample(t: Tile, f: Option<Frame>): Image {
    if f.None? || !t.Valid() then Idle()
    else
      match Render(t, Encode(VIDEO_MAGIC, f.value))
      case Some(image) => image
      case None => Idle()
  }

  lemma FrameCarried(t: Tile, channel: Image -> Image, f: Frame, size: nat)
    requires t.Valid() && Gentle(channel) && size + 22 <= t.codec.maxPayload && Carriable(f, size)
    ensures Frames(t, channel(Sample(t, Some(f)))) == [f]
  {
    hide Tile.Valid, Extract, Drawing;
    var payload := Encode(VIDEO_MAGIC, f);
    EncodingFits(f, size);
    ExtractRendered(t, payload, channel);
    FrameRoundTrip(VIDEO_MAGIC, f);
  }

  lemma EncodingFits(f: Frame, size: nat)
    requires Carriable(f, size)
    ensures 0 < |Encode(VIDEO_MAGIC, f)| <= size + 22
  {
  }

  lemma TileWireFaithful(t: Tile, channel: Image -> Image, size: nat)
    requires t.Valid() && Gentle(channel) && size + 22 <= t.codec.maxPayload
    ensures Faithful(TileWire(t, channel), size)
  {
    hide Tile.Valid, Frames, Sample, Carriable;
    var w := TileWire(t, channel);
    assert w.get(w.put(None)) == [] by {
      IdleShowsNothing(t, channel);
    }
    forall f: Frame | Carriable(f, size)
      ensures w.get(w.put(Some(f))) == [f]
    {
      FrameCarried(t, channel, f, size);
    }
  }

  lemma IdleShowsNothing(t: Tile, channel: Image -> Image)
    requires t.Valid() && Gentle(channel)
    ensures Frames(t, channel(Sample(t, None))) == []
  {
    hide Tile.Valid, Extract;
    ExtractIdle(t, channel);
  }

  /** The videochannel's promise, from Send through frames, tiles and pixels to onData, for
      every codec New accepts, every fragment size that fits its tiles and any number of
      attempts, 20 included. */
  lemma VideoChannelReliable(c: SeiArq.Config, t: Tile, channel: Image -> Image, events: seq<Event>)
    requires c.Valid() && AllSendsFit(c, events)
    requires t.Valid() && Gentle(channel) && c.size + 22 <= t.codec.maxPayload
    requires InRange(Run(c, TileWire(t, channel), events))
    ensures var n := Run(c, TileWire(t, channel), events);
      && (exists picks :: Subsequence(n.right.rx.received, n.left.tx.sent, picks)
            && AckedAmong(n.left.tx.outcomes, picks))
      && (exists picks :: Subsequence(n.left.rx.received, n.right.tx.sent, picks)
            && AckedAmong(n.right.tx.outcomes, picks))
  {
    hide Run, TileWire, Faithful;
    TileWireFaithful(t, channel, c.size);
    ReliableAndOrdered(c, TileWire(t, channel), events);
  }
}
