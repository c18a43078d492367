/** The parameters of a tile codec: the grid, the shard counts and sizes, and what New
    accepts (gr/tile/codec.go and rs.go). math.Ceil of a quotient of small integers is
    modelled by exact integer division. */
module TileGeometry {
  import opened Arith
  import opened Bytes

  const FRAME_W := 1080
  const FRAME_H := 1080
  const HEADER_SIZE := 20
  const MAX_SHARDS := 256

  datatype Config = Config(side: int, rsPercent: int)

  datatype NewError = BadModule | BadPercent | FrameTooSmall | NoShard | NoPayload

  datatype Codec = Codec(
    cfg: Config, cols: int, rows: int, syncRows: int, dataRows: int, frameBytes: int,
    dataShards: int, parShards: int, shardSz: int, maxPayload: int)

  // Shards

  function CeilPercent(data: int, percent: int): int {
    (data * percent + 99) / 100
  }

  /** The last loop of rsShards. */
  function Trim(data: int, parity: int): int
    decreases data + parity
  {
    if data + parity > MAX_SHARDS then Trim(data - 1, parity) else data
  }

  function ShardsBeforeTrim(dataBytes: int, percent: int): (int, int) {
    var wanted := Max(1, dataBytes / MAX_SHARDS);
    var data := Max(1, Min(wanted, MAX_SHARDS - CeilPercent(wanted, percent)));
    (data, Max(1, CeilPercent(data, percent)))
  }

  function Shards(dataBytes: int, percent: int): (int, int) {
    if percent == 0 then (1, 0)
    else
      var (data, parity) := ShardsBeforeTrim(dataBytes, percent);
      (Trim(data, parity), parity)
  }

  /** As many data shards as the bytes make of 256, but at least one, unless these and their
      parity are more than 256; then as many as leave room for that parity, or one. */
  ghost predicate DataShardsRight(dataBytes: int, percent: int, data: int) {
    var wanted := if dataBytes < 512 then 1 else dataBytes / 256;
    var cover := (wanted * percent + 99) / 100;
    && data <= wanted
    && (wanted + cover <= 256 ==> data == wanted)
    && (wanted + cover > 256 ==> data == if cover <= 255 then 256 - cover else 1)
  }

  lemma DataShards(dataBytes: int, percent: int)
    requires dataBytes >= 0 && 0 < percent <= 200
    ensures DataShardsRight(dataBytes, percent, Shards(dataBytes, percent).0)
  {
    ShardCounts(dataBytes, percent);
  }

  method RsShards(dataBytes: int, pctParity: int) returns (data: int, parity: int)
    ensures (data, parity) == Shards(dataBytes, pctParity)
    ensures pctParity == 0 ==> data == 1 && parity == 0
    ensures dataBytes >= 0 && 0 < pctParity <= 200 ==>
      && DataShardsRight(dataBytes, pctParity, data)
      && parity >= 1 && parity * 100 >= data * pctParity && data + parity <= 256
      && (parity > 1 ==> (parity - 1) * 100 < data * pctParity)
  {
    if pctParity == 0 {
      return 1, 0;
    }
    if dataBytes >= 0 && 0 < pctParity <= 200 {
      ShardCounts(dataBytes, pctParity);
      ParityCovers(dataBytes, pctParity);
      DataShards(dataBytes, pctParity);
    }
    data := Max(1, dataBytes / 256);
    data := Min(data, 256 - CeilPercent(data, pctParity));
    if data < 1 {
      data := 1;
    }
    parity := CeilPercent(data, pctParity);
    if parity < 1 {
      parity := 1;
    }
    while data + parity > 256
      invariant Trim(data, parity) == Shards(dataBytes, pctParity).0
      decreases data + parity
    {
      data := data - 1;
    }
  }

  lemma CeilMonotone(a: int, b: int, percent: int)
    requires 0 <= a <= b && percent >= 0
    ensures 0 <= CeilPercent(a, percent) <= CeilPercent(b, percent)
  {
    Distribute(b, a, percent);
    assert (b - a) * percent >= 0;
    assert a * percent >= 0;
  }

  /** There is at least one shard of each kind and at most 256 in all; the closing loop of
      rsShards has nothing to do for any input. */
  lemma ShardCounts(dataBytes: int, percent: int)
    requires dataBytes >= 0 && 0 < percent <= 200
    ensures Shards(dataBytes, percent) == ShardsBeforeTrim(dataBytes, percent)
    ensures var (data, parity) := Shards(dataBytes, percent); data >= 1 && parity >= 1 && data + parity <= MAX_SHARDS
  {
    var wanted := Max(1, dataBytes / MAX_SHARDS);
    var data := Max(1, Min(wanted, MAX_SHARDS - CeilPercent(wanted, percent)));
    CeilMonotone(data, wanted, percent);
  }

  /** Parity covers the asked percentage of the data shards, and one shard less would not. */
  lemma ParityCovers(dataBytes: int, percent: int)
    requires dataBytes >= 0 && 0 < percent <= 200
    ensures var (data, parity) := Shards(dataBytes, percent);
      parity * 100 >= data * percent && (parity > 1 ==> (parity - 1) * 100 < data * percent)
  {
    ShardCounts(dataBytes, percent);
  }

  function ShardBytes(totalBytes: int, dataShards: int): int
    requires dataShards > 0
  {
    (totalBytes + dataShards - 1) / dataShards
  }

  // New

  function Grid(cfg: Config): (int, int, int, int)
    requires cfg.side > 0
  {
    var cols, rows := FRAME_W / cfg.side, FRAME_H / cfg.side;
    var syncRows := if rows > 4 then 2 else 0;
    (cols, rows, syncRows, rows - syncRows * 2)
  }

  function New(cfg: Config): Result<Codec, NewError> {
    if cfg.side < 1 || cfg.side > 270 then Failure(BadModule)
    else if cfg.rsPercent < 0 || cfg.rsPercent > 200 then Failure(BadPercent)
    else
      var (cols, rows, syncRows, dataRows) := Grid(cfg);
      var frameBytes := (cols * dataRows) / 8;
      if frameBytes <= HEADER_SIZE then Failure(FrameTooSmall)
      else
        var (dataShards, parShards) := Shards(frameBytes - HEADER_SIZE, cfg.rsPercent);
        var shardSz := if dataShards + parShards > 0 then (frameBytes - HEADER_SIZE) / (dataShards + parShards) else 0;
        if shardSz < 1 then Failure(NoShard)
        else
          var maxPayload := dataShards * shardSz - HEADER_SIZE;
          if maxPayload <= 0 then Failure(NoPayload)
          else
            Success(Codec(cfg, cols, rows, syncRows, dataRows, frameBytes, dataShards, parShards, shardSz, maxPayload))
  }

  /** The grid lies inside the frame, its bands do not overlap, and it has a bit per cell. */
  predicate GridSound(c: Codec) {
    && 1 <= c.cfg.side <= 270
    && c.cols >= 1 && c.dataRows >= 1 && c.syncRows >= 0
    && c.cols * c.cfg.side <= FRAME_W && c.rows * c.cfg.side <= FRAME_H
    && c.rows == c.dataRows + 2 * c.syncRows
    && 8 * c.frameBytes <= c.cols * c.dataRows
  }

  /** The shards hold the header and the payload, and data and parity fit in the frame. */
  predicate ShardsSound(c: Codec) {
    && c.frameBytes > HEADER_SIZE
    && c.dataShards >= 1 && c.parShards >= 0 && c.dataShards + c.parShards <= MAX_SHARDS
    && c.shardSz >= 1 && c.maxPayload >= 1
    && HEADER_SIZE + c.maxPayload == c.dataShards * c.shardSz
    && WireLength(c) <= c.frameBytes
    && ShardBytes(c.frameBytes - HEADER_SIZE, c.dataShards) >= c.shardSz
  }

  function WireLength(c: Codec): int {
    if c.parShards > 0 then (c.dataShards + c.parShards) * c.shardSz else c.dataShards * c.shardSz + HEADER_SIZE
  }

  lemma NewGrid(cfg: Config)
    requires New(cfg).Success?
    ensures GridSound(New(cfg).value)
  {
    var c := New(cfg).value;
    Floor(FRAME_W, cfg.side);
    Floor(FRAME_H, cfg.side);
    DivAtLeast(FRAME_H, cfg.side, 4);
    assert c.rows >= 4;
  }

  lemma SplitRoom(room: int, data: int, parity: int)
    requires room >= 0 && data >= 1 && parity >= 0
    ensures var size := room / (data + parity); size * (data + parity) <= room && ShardBytes(room, data) >= size
  {
    Floor(room, data + parity);
    FloorDivisor(room, data, data + parity);
    FloorMonotone(room, room + data - 1, data);
  }

  /** What every accepted codec can rely on, for every module size and percentage. */
  lemma NewSound(cfg: Config)
    requires New(cfg).Success?
    ensures GridSound(New(cfg).value) && ShardsSound(New(cfg).value)
  {
    hide Shards, ShardBytes;
    var c := New(cfg).value;
    var room := c.frameBytes - HEADER_SIZE;
    NewGrid(cfg);
    NewShards(cfg);
    SplitRoom(room, c.dataShards, c.parShards);
    assert (c.dataShards + c.parShards) * c.shardSz == c.shardSz * (c.dataShards + c.parShards);
  }

  lemma NewShards(cfg: Config)
    requires New(cfg).Success?
    ensures var c := New(cfg).value;
      && c.dataShards >= 1 && c.parShards >= 0 && c.dataShards + c.parShards <= MAX_SHARDS
      && (c.parShards == 0 ==> c.dataShards == 1)
  {
    var c := New(cfg).value;
    if cfg.rsPercent > 0 {
      ShardCounts(c.frameBytes - HEADER_SIZE, cfg.rsPercent);
    }
  }

  /** And nothing is wasted: no further column, row, byte or shard byte would fit. */
  lemma NewFillsFrame(cfg: Config)
    requires New(cfg).Success?
    ensures var c := New(cfg).value;
      && (c.cols + 1) * cfg.side > FRAME_W && (c.rows + 1) * cfg.side > FRAME_H
      && 8 * (c.frameBytes + 1) > c.cols * c.dataRows
      && (c.shardSz + 1) * (c.dataShards + c.parShards) > c.frameBytes - HEADER_SIZE
  {
    hide Shards;
    var c := New(cfg).value;
    NewShards(cfg);
    Filled(FRAME_W, cfg.side);
    Filled(FRAME_H, cfg.side);
    Filled(c.frameBytes - HEADER_SIZE, c.dataShards + c.parShards);
  }

  lemma Filled(n: int, d: int)
    requires n >= 0 && d > 0
    ensures (n / d + 1) * d > n
  {
    Floor(n, d);
    Distribute(n / d, 1, d);
  }
}
