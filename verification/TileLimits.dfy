/** Which configurations New accepts (gr/tile/codec.go). The range 1 to 270 that it checks, and
    that its comment names, is much wider than what can hold a header and a byte of payload. */
module TileLimits {
  import opened Arith
  import opened Bytes
  import opened TileGeometry

  /** The largest module that leaves room for a payload. */
  function Largest(percent: int): int {
    if percent == 0 then 51 else if percent <= 100 then 43 else 38
  }

  /** Cells in the data rows. */
  function Cells(side: int): int
    requires side > 0
  {
    var (cols, _, _, dataRows) := Grid(Config(side, 0));
    cols * dataRows
  }

  lemma Between(side: int, low: int, high: int)
    requires 0 < low <= side <= high
    ensures 1080 / high <= 1080 / side <= 1080 / low
  {
    FloorDivisor(1080, side, high);
    FloorDivisor(1080, low, side);
  }

  lemma ProductBetween(a: int, b: int, low: int, high: int)
    requires low >= 4 && low <= a <= high && b == a - 4
    ensures low * (low - 4) <= a * b <= high * (high - 4)
  {
    assert a * b - low * (low - 4) == (a - low) * (a + low - 4);
    assert high * (high - 4) - a * b == (high - a) * (high + a - 4);
    assert (a - low) * (a + low - 4) >= 0 && (high - a) * (high + a - 4) >= 0;
  }

  /** Between two sizes of module there is between the one and the other number of cells. */
  lemma CellsBetween(side: int, low: int, high: int)
    requires 0 < low <= side <= high <= 216
    ensures var least, most := 1080 / high, 1080 / low; least * (least - 4) <= Cells(side) <= most * (most - 4)
  {
    hide Cells;
    Between(side, low, high);
    Between(side, 1, 216);
    Between(high, high, 216);
    CellsAre(side, 1080 / side);
    ProductBetween(1080 / side, 1080 / side - 4, 1080 / high, 1080 / low);
  }

  lemma CellsAre(side: int, count: int)
    requires side > 0 && count == 1080 / side && count >= 5
    ensures Cells(side) == count * (count - 4)
  {
  }

  lemma FewCells(side: int)
    requires 216 < side <= 270
    ensures 0 <= Cells(side) <= 16
  {
    Between(side, 217, 270);
  }

  /** Bytes of the frame behind the header. */
  function Room(side: int): int
    requires side > 0
  {
    Cells(side) / 8 - 20
  }

  lemma RoomBetween(side: int, low: int, high: int)
    requires 0 < low <= side <= high <= 216
    ensures var least, most := 1080 / high, 1080 / low;
      least * (least - 4) / 8 - 20 <= Room(side) <= most * (most - 4) / 8 - 20
  {
    hide Cells;
    CellsBetween(side, low, high);
  }

  /** The room there is on either side of every limit. */
  lemma Rooms(side: int)
    requires 1 <= side <= 270
    ensures side <= 38 ==> Room(side) >= 64
    ensures side <= 43 ==> Room(side) >= 45
    ensures side <= 51 ==> Room(side) >= 24
    ensures side <= 67 ==> Room(side) >= 4
    ensures side > 38 ==> Room(side) <= 57
    ensures side > 43 ==> Room(side) <= 40
    ensures side > 51 ==> Room(side) <= 20
    ensures side > 67 ==> Room(side) <= 0
  {
    hide Cells, Room;
    if side <= 38 {
      RoomBetween(side, 1, 38);
    } else if side <= 43 {
      RoomBetween(side, 39, 43);
    } else if side <= 51 {
      RoomBetween(side, 44, 51);
    } else if side <= 67 {
      RoomBetween(side, 52, 67);
    } else if side <= 216 {
      RoomBetween(side, 68, 216);
    } else {
      FewCells(side);
      RoomIs(side);
    }
  }

  lemma RoomIs(side: int)
    requires side > 0
    ensures Room(side) == Cells(side) / 8 - 20
  {
  }

  /** Shards of one data shard. */
  lemma FewBytes(room: int, percent: int)
    requires 0 <= room < 512 && 0 <= percent <= 200
    ensures Shards(room, percent) == (1, if percent == 0 then 0 else if percent <= 100 then 1 else 2)
  {
  }

  /** With several data shards there is room enough. */
  lemma ManyBytes(room: int, percent: int)
    requires room >= 512 && 0 <= percent <= 200
    ensures var (data, parity) := Shards(room, percent);
      data >= 1 && parity >= 0 && data * (room / (data + parity)) > 20
  {
    var (data, parity) := Shards(room, percent);
    if percent > 0 {
      ShardCounts(room, percent);
      ParityCovers(room, percent);
      DataShards(room, percent);
      AtMostDouble(data, parity, percent);
      var size := room / (data + parity);
      Floor(room, data + parity);
      Thrice(data, parity, size);
    } else {
      assert room / 1 == room;
    }
  }

  lemma AtMostDouble(data: int, parity: int, percent: int)
    requires data >= 1 && 0 < percent <= 200 && parity >= 1
    requires parity > 1 ==> (parity - 1) * 100 < data * percent
    ensures parity <= 2 * data
  {
    Distribute(200, percent, data);
    assert (200 - percent) * data >= 0;
    assert data * percent == percent * data;
  }

  lemma Thrice(data: int, parity: int, size: int)
    requires data >= 1 && 0 <= parity <= 2 * data && size >= 0
    ensures size * (data + parity) + (data + parity) <= 3 * (data * size) + 3 * data
  {
    assert (2 * data - parity) * size >= 0;
    assert size * (data + parity) == 3 * (data * size) - (2 * data - parity) * size;
  }

  /** New after its two range checks. */
  lemma NewByRoom(cfg: Config)
    requires 1 <= cfg.side <= 270 && 0 <= cfg.rsPercent <= 200
    ensures Room(cfg.side) <= 0 ==> New(cfg) == Result.Failure(FrameTooSmall)
    ensures Room(cfg.side) > 0 ==>
      var (data, parity) := Shards(Room(cfg.side), cfg.rsPercent);
      data + parity > 0 ==>
        var size := Room(cfg.side) / (data + parity);
        && (size < 1 ==> New(cfg) == Result.Failure(NoShard))
        && (size >= 1 && data * size <= 20 ==> New(cfg) == Result.Failure(NoPayload))
        && (size >= 1 && data * size > 20 ==> New(cfg).Success?)
  {
    hide Shards;
    assert Grid(Config(cfg.side, 0)) == Grid(cfg);
  }

  lemma SomeRoom(cfg: Config)
    requires 1 <= cfg.side <= 67 && 0 <= cfg.rsPercent <= 200
    ensures if cfg.side <= Largest(cfg.rsPercent) then New(cfg).Success?
            else New(cfg) == Result.Failure(NoPayload)
  {
    hide Room, Shards, New;
    Rooms(cfg.side);
    NewByRoom(cfg);
    var room := Room(cfg.side);
    if room < 512 {
      FewBytes(room, cfg.rsPercent);
    } else {
      ManyBytes(room, cfg.rsPercent);
      var (data, parity) := Shards(room, cfg.rsPercent);
      Floor(room, data + parity);
      Positive(data, room / (data + parity));
    }
  }

  lemma Positive(data: int, size: int)
    requires data >= 1 && size >= 0 && data * size > 20
    ensures size >= 1
  {
  }

  /** What New answers, for any configuration: a codec exactly up to a module of 51 pixels
      without parity, 43 with up to 100 percent and 38 with more; above that there is no room
      for a payload, and from 68 on none for the header. It never lacks room for a shard. */
  lemma NewAccepts(cfg: Config)
    ensures var most := if cfg.rsPercent == 0 then 51 else if cfg.rsPercent <= 100 then 43 else 38;
      New(cfg).Success? <==> 0 <= cfg.rsPercent <= 200 && 1 <= cfg.side <= most
    ensures New(cfg) == Result.Failure(BadModule) <==> !(1 <= cfg.side <= 270)
    ensures New(cfg) == Result.Failure(BadPercent) <==> 1 <= cfg.side <= 270 && !(0 <= cfg.rsPercent <= 200)
    ensures New(cfg) == Result.Failure(FrameTooSmall) <==> 68 <= cfg.side <= 270 && 0 <= cfg.rsPercent <= 200
    ensures New(cfg) != Result.Failure(NoShard)
  {
    hide Grid, Shards;
    if 1 <= cfg.side <= 270 && 0 <= cfg.rsPercent <= 200 {
      RangesChecked(cfg);
    }
  }

  lemma RangesChecked(cfg: Config)
    requires 1 <= cfg.side <= 270 && 0 <= cfg.rsPercent <= 200
    ensures New(cfg) == Result.Failure(FrameTooSmall) <==> cfg.side >= 68
    ensures cfg.side < 68 ==>
      if cfg.side <= Largest(cfg.rsPercent) then New(cfg).Success? else New(cfg) == Result.Failure(NoPayload)
  {
    hide Room, New;
    if cfg.side >= 68 {
      Rooms(cfg.side);
      NewByRoom(cfg);
    } else {
      SomeRoom(cfg);
    }
  }

  /** The default: modules of 4 pixels and 20 percent. */
  lemma DefaultCodec()
    ensures New(Config(4, 20)) == Result.Success(Codec(Config(4, 20), 270, 270, 2, 266, 8977, 34, 7, 218, 7392))
  {
    hide Shards, Grid;
    DefaultShards();
    DefaultGrid();
  }

  lemma DefaultShards()
    ensures Shards(8957, 20) == (34, 7)
  {
    ShardCounts(8957, 20);
  }

  lemma DefaultGrid()
    ensures Grid(Config(4, 20)) == (270, 270, 2, 266)
  {
  }
}
