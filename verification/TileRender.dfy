/** Drawing a byte string as a grid of cells and reading it back (gr/tile/render.go).
    A frame is a row-major array of grey pixels; pixel i stands at column i % 1080 of row
    i / 1080. */
module TileRender {
  import opened Arith
  import opened Bytes
  import opened TileBits
  import opened TileGeometry

  const BLACK: byte := 64
  const WHITE: byte := 192
  const THRESHOLD := 128
  const PIXELS := FRAME_W * FRAME_H

  // The grid

  /** The grid column and row of a pixel; they may lie outside the grid. */
  function CellX(c: Codec, i: nat): int
    requires c.cfg.side > 0
  {
    i % FRAME_W / c.cfg.side
  }

  function CellY(c: Codec, i: nat): int
    requires c.cfg.side > 0
  {
    i / FRAME_W / c.cfg.side
  }

  function Modules(c: Codec): int { c.cols * c.dataRows }

  predicate InSyncBand(c: Codec, row: int) {
    0 <= row < c.syncRows || c.rows - c.syncRows <= row < c.rows
  }

  predicate InData(c: Codec, col: int, row: int) {
    0 <= col < c.cols && c.syncRows <= row < c.rows - c.syncRows
  }

  function SyncColor(col: int): byte { if col % 2 == 0 then BLACK else WHITE }

  /** The colour of a pixel in cell (col, row) once the modules before `upTo` are drawn. */
  function Color(c: Codec, wire: bytes, upTo: int, col: int, row: int): byte {
    if col < 0 || row < 0 || col >= c.cols || row >= c.rows then WHITE
    else if InSyncBand(c, row) then SyncColor(col)
    else
      var k := (row - c.syncRows) * c.cols + col;
      if 0 <= k < upTo && BitAt(wire, k) then BLACK else WHITE
  }

  /** The picture of a byte string. */
  function Picture(c: Codec, wire: bytes, i: nat): byte
    requires c.cfg.side > 0
  {
    Color(c, wire, Modules(c), CellX(c, i), CellY(c, i))
  }

  function Col(c: Codec, k: nat): int
    requires c.cols > 0
  {
    k % c.cols
  }

  function Row(c: Codec, k: nat): int
    requires c.cols > 0
  {
    c.syncRows + k / c.cols
  }

  /** Modules are the data cells, counted row by row: the bands never overlap the data. */
  lemma ModuleCell(c: Codec, k: nat)
    requires GridSound(c) && k < Modules(c)
    ensures InData(c, Col(c, k), Row(c, k))
    ensures !InSyncBand(c, Row(c, k))
    ensures (Row(c, k) - c.syncRows) * c.cols + Col(c, k) == k
  {
    Floor(k, c.cols);
    if k / c.cols >= c.dataRows {
      Distribute(k / c.cols, c.dataRows, c.cols);
      if k / c.cols > c.dataRows {
        ProductGap(k / c.cols - c.dataRows, c.cols);
      }
    }
  }

  lemma CellModule(c: Codec, k: nat, col: int, row: int)
    requires GridSound(c) && k < Modules(c) && InData(c, col, row)
    ensures (row - c.syncRows) * c.cols + col == k <==> col == Col(c, k) && row == Row(c, k)
    ensures 0 <= (row - c.syncRows) * c.cols + col < Modules(c)
  {
    ModuleCell(c, k);
    DivMod(row - c.syncRows, col, c.cols);
    assert (row - c.syncRows) * c.cols >= 0;
    var left := c.dataRows - 1 - (row - c.syncRows);
    assert left * c.cols >= 0;
    Distribute(c.dataRows - 1, row - c.syncRows, c.cols);
    Distribute(c.dataRows, 1, c.cols);
  }

  /** What a bit weighs in its byte, the first one most. */
  function Weight(bit: nat): int
    requires bit < 8
  {
    [128, 64, 32, 16, 8, 4, 2, 1][bit]
  }

  lemma WeightIs(bit: nat)
    requires bit < 8
    ensures Weight(bit) == Pow2(7 - bit)
  {
    assert Pow2(0) == 1 && Pow2(1) == 2 && Pow2(2) == 4 && Pow2(3) == 8;
    assert Pow2(4) == 16 && Pow2(5) == 32 && Pow2(6) == 64 && Pow2(7) == 128;
  }

  /** The picture, pixel by pixel: white outside the grid; in the first and last syncRows rows of
      cells black in the even columns and white in the odd ones; and between them the bits of the
      bytes, the most significant first and row by row, 64 for a one and 192 for a zero. */
  lemma PictureSpelled(c: Codec, wire: bytes, i: nat)
    requires GridSound(c) && i < PIXELS
    ensures var col, row := i % 1080 / c.cfg.side, i / 1080 / c.cfg.side;
      var k := (row - c.syncRows) * c.cols + col;
      && 0 <= col && 0 <= row
      && (col >= c.cols || row >= c.rows ==> Picture(c, wire, i) == 192)
      && (col < c.cols && (row < c.syncRows || c.rows - c.syncRows <= row < c.rows) ==>
            Picture(c, wire, i) == if col % 2 == 0 then 64 else 192)
      && (col < c.cols && c.syncRows <= row < c.rows - c.syncRows ==>
            k >= 0 && Picture(c, wire, i)
              == if k / 8 < |wire| && wire[k / 8] / Weight(k % 8) % 2 == 1 then 64 else 192)
  {
    hide Color, GridSound, Weight;
    CellsCounted(c, i);
    ColorSpelled(c, wire, CellX(c, i), CellY(c, i));
  }

  lemma CellsCounted(c: Codec, i: nat)
    requires GridSound(c) && i < PIXELS
    ensures c.cfg.side > 0 && CellX(c, i) == i % 1080 / c.cfg.side >= 0 && CellY(c, i) == i / 1080 / c.cfg.side >= 0
  {
    Floor(i % 1080, c.cfg.side);
    Floor(i / 1080, c.cfg.side);
  }

  lemma ColorSpelled(c: Codec, wire: bytes, col: int, row: int)
    requires GridSound(c) && col >= 0 && row >= 0
    ensures var k := (row - c.syncRows) * c.cols + col; var color := Color(c, wire, Modules(c), col, row);
      && (col >= c.cols || row >= c.rows ==> color == 192)
      && (col < c.cols && (row < c.syncRows || c.rows - c.syncRows <= row < c.rows) ==>
            color == if col % 2 == 0 then 64 else 192)
      && (col < c.cols && c.syncRows <= row < c.rows - c.syncRows ==>
            k >= 0 && color == if k / 8 < |wire| && wire[k / 8] / Weight(k % 8) % 2 == 1 then 64 else 192)
  {
    hide Weight;
    if InData(c, col, row) {
      ModuleAt(c, col, row);
      BitSpelled(wire, (row - c.syncRows) * c.cols + col);
    }
  }

  lemma BitSpelled(wire: bytes, k: nat)
    ensures BitAt(wire, k) <==> k / 8 < |wire| && wire[k / 8] / Weight(k % 8) % 2 == 1
  {
    hide Weight;
    WeightIs(k % 8);
  }

  lemma ModuleAt(c: Codec, col: int, row: int)
    requires GridSound(c) && InData(c, col, row)
    ensures 0 <= (row - c.syncRows) * c.cols + col < Modules(c)
  {
    ModulesSome(c);
    CellModule(c, 0, col, row);
  }

  lemma ModulesSome(c: Codec)
    requires GridSound(c)
    ensures Modules(c) > 0
  {
    Distribute(c.dataRows - 1, 1, c.cols);
    assert (c.dataRows - 1) * c.cols >= 0;
  }

  // Drawing

  method FillRow(frame: array<byte>, x0: nat, y: nat, width: nat, color: byte)
    requires frame.Length == PIXELS && x0 + width <= FRAME_W && y < FRAME_H
    modifies frame
    ensures forall i :: 0 <= i < PIXELS ==>
      frame[i] == if i / FRAME_W == y && x0 <= i % FRAME_W < x0 + width then color else old(frame[i])
  {
    var base := y * FRAME_W + x0;
    for dx := 0 to width
      invariant forall i :: 0 <= i < PIXELS ==>
        frame[i] == if base <= i < base + dx then color else old(frame[i])
    {
      frame[base + dx] := color;
    }
  }

  method FillSquare(frame: array<byte>, x0: nat, y0: nat, side: nat, color: byte)
    requires frame.Length == PIXELS && x0 + side <= FRAME_W && y0 + side <= FRAME_H
    modifies frame
    ensures forall i :: 0 <= i < PIXELS ==>
      frame[i] == if y0 <= i / FRAME_W < y0 + side && x0 <= i % FRAME_W < x0 + side then color else old(frame[i])
  {
    for dy := 0 to side
      invariant forall i :: 0 <= i < PIXELS ==>
        frame[i] == if y0 <= i / FRAME_W < y0 + dy && x0 <= i % FRAME_W < x0 + side then color else old(frame[i])
    {
      FillRow(frame, x0, y0 + dy, side, color);
    }
  }

  lemma CellRange(x: nat, side: int, col: int)
    requires side > 0 && col >= 0
    ensures x / side == col <==> col * side <= x < col * side + side
  {
    Floor(x, side);
    if col * side <= x < col * side + side {
      DivMod(col, x - col * side, side);
    }
  }

  lemma CellFits(side: int, col: int, cols: int, width: int)
    requires side > 0 && 0 <= col < cols && cols * side <= width
    ensures 0 <= col * side && col * side + side <= width
  {
    assert col * side >= 0;
    assert (cols - col - 1) * side >= 0;
    Distribute(cols - col, 1, side);
    Distribute(cols, col, side);
  }

  method FillCell(c: Codec, frame: array<byte>, col: int, row: int, color: byte)
    requires GridSound(c) && frame.Length == PIXELS && 0 <= col < c.cols && 0 <= row < c.rows
    modifies frame
    ensures forall i :: 0 <= i < PIXELS ==>
      frame[i] == if CellX(c, i) == col && CellY(c, i) == row then color else old(frame[i])
  {
    var m := c.cfg.side;
    CellFits(m, col, c.cols, FRAME_W);
    CellFits(m, row, c.rows, FRAME_H);
    FillSquare(frame, col * m, row * m, m, color);
    forall i | 0 <= i < PIXELS
      ensures frame[i] == if CellX(c, i) == col && CellY(c, i) == row then color else old(frame[i])
    {
      CellRange(i % FRAME_W, m, col);
      CellRange(i / FRAME_W, m, row);
    }
  }

  method RenderSyncRow(c: Codec, frame: array<byte>, row: int)
    requires GridSound(c) && frame.Length == PIXELS && 0 <= row < c.rows
    modifies frame
    ensures forall i :: 0 <= i < PIXELS ==>
      frame[i] == if CellY(c, i) == row && 0 <= CellX(c, i) < c.cols then SyncColor(CellX(c, i)) else old(frame[i])
  {
    hide CellX, CellY;
    for col := 0 to c.cols
      invariant forall i :: 0 <= i < PIXELS ==>
        frame[i] == if CellY(c, i) == row && 0 <= CellX(c, i) < col then SyncColor(CellX(c, i)) else old(frame[i])
    {
      var color := WHITE;
      if col % 2 == 0 {
        color := BLACK;
      }
      FillCell(c, frame, col, row, color);
    }
  }

  method RenderSync(c: Codec, frame: array<byte>, rowStart: int, rowEnd: int)
    requires GridSound(c) && frame.Length == PIXELS && 0 <= rowStart <= rowEnd <= c.rows
    modifies frame
    ensures forall i :: 0 <= i < PIXELS ==>
      frame[i] == if rowStart <= CellY(c, i) < rowEnd && 0 <= CellX(c, i) < c.cols then SyncColor(CellX(c, i))
                  else old(frame[i])
  {
    hide CellX, CellY, SyncColor;
    for row := rowStart to rowEnd
      invariant forall i :: 0 <= i < PIXELS ==>
        frame[i] == if rowStart <= CellY(c, i) < row && 0 <= CellX(c, i) < c.cols then SyncColor(CellX(c, i))
                    else old(frame[i])
    {
      RenderSyncRow(c, frame, row);
    }
  }

  // The data area

  /** The frame shows the modules before `upTo`. */
  ghost predicate Shows(c: Codec, wire: bytes, upTo: int, frame: seq<byte>)
    requires c.cfg.side > 0
  {
    |frame| == PIXELS && forall i :: 0 <= i < PIXELS ==> frame[i] == Color(c, wire, upTo, CellX(c, i), CellY(c, i))
  }

  lemma ColorNext(c: Codec, wire: bytes, k: nat, col: int, row: int)
    requires GridSound(c) && k < Modules(c)
    ensures Color(c, wire, k + 1, col, row)
         == if BitAt(wire, k) && col == Col(c, k) && row == Row(c, k) then BLACK else Color(c, wire, k, col, row)
  {
    hide BitAt;
    ModuleCell(c, k);
    if InData(c, col, row) {
      CellModule(c, k, col, row);
    }
  }

  /** A module whose bit is zero leaves the frame as it is. */
  lemma ClearModules(c: Codec, wire: bytes, from: nat, upTo: nat, frame: seq<byte>)
    requires GridSound(c) && from <= upTo && Shows(c, wire, from, frame)
    requires forall k :: from <= k < upTo ==> !BitAt(wire, k)
    ensures Shows(c, wire, upTo, frame)
  {
    hide BitAt;
  }

  method DrawModule(c: Codec, wire: bytes, frame: array<byte>, k: nat)
    requires GridSound(c) && k < Modules(c) && BitAt(wire, k) && Shows(c, wire, k, frame[..])
    modifies frame
    ensures Shows(c, wire, k + 1, frame[..])
  {
    hide BitAt, Color, CellX, CellY;
    ModuleCell(c, k);
    var col := k % c.cols;
    var row := c.syncRows + k / c.cols;
    FillCell(c, frame, col, row, BLACK);
    forall i | 0 <= i < PIXELS
      ensures frame[i] == Color(c, wire, k + 1, CellX(c, i), CellY(c, i))
    {
      assert old(frame[..])[i] == old(frame[i]);
      ColorNext(c, wire, k, CellX(c, i), CellY(c, i));
    }
  }

  method DrawByte(c: Codec, wire: bytes, frame: array<byte>, byteIdx: nat)
    requires GridSound(c) && byteIdx < |wire| && byteIdx * 8 < Modules(c)
    requires Shows(c, wire, byteIdx * 8, frame[..])
    modifies frame
    ensures Shows(c, wire, Min(byteIdx * 8 + 8, Modules(c)), frame[..])
  {
    hide Shows, Bit;
    var b := wire[byteIdx];
    var maxMod := c.cols * c.dataRows;
    for bit := 0 to 8
      invariant byteIdx * 8 + bit <= maxMod
      invariant Shows(c, wire, byteIdx * 8 + bit, frame[..])
    {
      var modIdx := byteIdx * 8 + bit;
      if modIdx >= maxMod {
        break;
      }
      assert modIdx / 8 == byteIdx && modIdx % 8 == bit;
      if !Bit(b, bit) {
        ClearModules(c, wire, modIdx, modIdx + 1, frame[..]);
        continue;
      }
      DrawModule(c, wire, frame, modIdx);
    }
  }

  lemma ZeroByte(wire: bytes, byteIdx: nat, k: nat)
    requires byteIdx < |wire| && wire[byteIdx] == 0 && byteIdx * 8 <= k < byteIdx * 8 + 8
    ensures !BitAt(wire, k)
  {
    ZeroHasNoBit(k % 8);
  }

  method RenderFrame(c: Codec, wire: bytes) returns (frame: array<byte>)
    requires GridSound(c)
    ensures fresh(frame) && frame.Length == PIXELS
    ensures forall i :: 0 <= i < PIXELS ==> frame[i] == Picture(c, wire, i)
  {
    hide Bit, CellX, CellY;
    frame := new byte[PIXELS](_ => WHITE);
    RenderSync(c, frame, 0, c.syncRows);
    RenderSync(c, frame, c.rows - c.syncRows, c.rows);
    assert Shows(c, wire, 0, frame[..]);
    var maxMod := c.cols * c.dataRows;
    var byteIdx := 0;
    while byteIdx < |wire| && byteIdx * 8 < maxMod
      invariant 0 <= byteIdx <= |wire|
      invariant Shows(c, wire, Min(byteIdx * 8, maxMod), frame[..])
    {
      var b := wire[byteIdx];
      if b == 0 {
        ZeroBytes(c, wire, byteIdx, frame[..]);
      } else {
        DrawByte(c, wire, frame, byteIdx);
      }
      byteIdx := byteIdx + 1;
    }
    if byteIdx * 8 < maxMod {
      ClearModules(c, wire, byteIdx * 8, maxMod, frame[..]);
    }
    assert forall i :: 0 <= i < PIXELS ==> frame[i] == frame[..][i];
  }

  lemma ZeroBytes(c: Codec, wire: bytes, byteIdx: nat, frame: seq<byte>)
    requires GridSound(c) && byteIdx < |wire| && wire[byteIdx] == 0 && byteIdx * 8 < Modules(c)
    requires Shows(c, wire, byteIdx * 8, frame)
    ensures Shows(c, wire, Min(byteIdx * 8 + 8, Modules(c)), frame)
  {
    hide Shows, BitAt;
    var upTo := Min(byteIdx * 8 + 8, Modules(c));
    forall k | byteIdx * 8 <= k < upTo
      ensures !BitAt(wire, k)
    {
      ZeroByte(wire, byteIdx, k);
    }
    ClearModules(c, wire, byteIdx * 8, upTo, frame);
  }

  // Reading

  /** The pixel that readFrame samples for module k, clamped to the frame as there. */
  function Centre(c: Codec, k: nat): int
    requires GridSound(c)
  {
    var half := c.cfg.side / 2;
    Min(Row(c, k) * c.cfg.side + half, FRAME_H - 1) * FRAME_W + Min(Col(c, k) * c.cfg.side + half, FRAME_W - 1)
  }

  /** The sampled pixel lies in the module's own cell, so the clamps never act. */
  lemma CentreInCell(c: Codec, k: nat)
    requires GridSound(c) && k < Modules(c)
    ensures 0 <= Centre(c, k) < PIXELS
    ensures CellX(c, Centre(c, k)) == Col(c, k) && CellY(c, Centre(c, k)) == Row(c, k)
    ensures Centre(c, k)
         == (Row(c, k) * c.cfg.side + c.cfg.side / 2) * FRAME_W + Col(c, k) * c.cfg.side + c.cfg.side / 2
  {
    ModuleCell(c, k);
    var m, col, row := c.cfg.side, Col(c, k), Row(c, k);
    CellFits(m, col, c.cols, FRAME_W);
    CellFits(m, row, c.rows, FRAME_H);
    var x, y := col * m + m / 2, row * m + m / 2;
    CellRange(x, m, col);
    CellRange(y, m, row);
    assert Centre(c, k) == y * FRAME_W + x;
    assert (y * FRAME_W + x) % FRAME_W == x && (y * FRAME_W + x) / FRAME_W == y;
  }

  predicate Dark(frame: seq<byte>, i: int)
    requires 0 <= i < |frame|
  {
    frame[i] < THRESHOLD
  }

  /** The bits of s are the modules of the frame, read at their centres; the rest is zero. */
  ghost predicate Reads(c: Codec, frame: seq<byte>, s: bytes)
    requires GridSound(c) && |frame| == PIXELS
  {
    && |s| == (Modules(c) + 7) / 8
    && forall k: nat :: BitAt(s, k) <==> k < Modules(c) && 0 <= Centre(c, k) < PIXELS && Dark(frame, Centre(c, k))
  }

  method ReadFrame(c: Codec, frame: array<byte>) returns (out: array<byte>)
    requires GridSound(c) && frame.Length == PIXELS
    ensures fresh(out) && Reads(c, frame[..], out[..])
  {
    hide GridSound, Bit;
    var m := c.cfg.side;
    var half := m / 2;
    var totalMods := c.cols * c.dataRows;
    ModulesPositive(c);
    out := new byte[(totalMods + 7) / 8](_ => 0);
    forall k: nat
      ensures !BitAt(out[..], k)
    {
      ZeroHasNoBit(k % 8);
    }
    for modIdx := 0 to totalMods
      invariant forall k: nat ::
        BitAt(out[..], k) <==> k < modIdx && 0 <= Centre(c, k) < PIXELS && Dark(frame[..], Centre(c, k))
    {
      var col := modIdx % c.cols;
      var row := c.syncRows + modIdx / c.cols;
      var cx := col * m + half;
      var cy := row * m + half;
      if cx >= FRAME_W {
        cx := FRAME_W - 1;
      }
      if cy >= FRAME_H {
        cy := FRAME_H - 1;
      }
      CentreInCell(c, modIdx);
      if frame[cy * FRAME_W + cx] < 128 {
        ghost var before := out[..];
        out[modIdx / 8] := SetBit(out[modIdx / 8], modIdx % 8);
        OneBitSet(before, out[..], modIdx);
      }
    }
  }

  lemma ModulesPositive(c: Codec)
    requires GridSound(c)
    ensures c.cfg.side > 0 && c.cols > 0 && Modules(c) > 0
  {
    assert c.cols * c.dataRows >= c.cols by {
      Distribute(c.dataRows - 1, 1, c.cols);
      assert (c.dataRows - 1) * c.cols >= 0;
    }
  }

  lemma OneBitSet(before: bytes, after: bytes, k: nat)
    requires k / 8 < |before| && after == before[k / 8 := SetBit(before[k / 8], k % 8)]
    ensures forall j: nat :: BitAt(after, j) <==> j == k || BitAt(before, j)
  {
    hide Bit, SetBit;
    forall j: nat
      ensures BitAt(after, j) <==> j == k || BitAt(before, j)
    {
      if j / 8 == k / 8 {
        SetBitSets(before[k / 8], k % 8, j % 8);
      }
    }
  }

  // What reading gives

  lemma CentreColor(c: Codec, wire: bytes, k: nat)
    requires GridSound(c) && k < Modules(c)
    ensures 0 <= Centre(c, k) < PIXELS
    ensures Picture(c, wire, Centre(c, k)) == if BitAt(wire, k) then BLACK else WHITE
  {
    hide BitAt, CellX, CellY, Centre;
    ModuleCell(c, k);
    CentreInCell(c, k);
  }

  /** A frame is read as the wire, padded with zeros, exactly when every module's sampled
      pixel is on the side of the threshold that its bit asks for. */
  lemma ReadsWire(c: Codec, wire: bytes, frame: seq<byte>, s: bytes)
    requires GridSound(c) && 8 * |wire| <= Modules(c) && |frame| == PIXELS && Reads(c, frame, s)
    ensures |s| >= |wire|
    ensures s == wire + Zeros(|s| - |wire|) <==>
      forall k: nat :: k < Modules(c) ==> 0 <= Centre(c, k) < PIXELS && (Dark(frame, Centre(c, k)) <==> BitAt(wire, k))
  {
    hide GridSound, Centre, BitAt, Dark;
    var padded := wire + Zeros(|s| - |wire|);
    forall k: nat
      ensures BitAt(padded, k) == BitAt(wire, k)
      ensures BitAt(wire, k) ==> k < Modules(c)
    {
      PaddedBits(wire, |s| - |wire|, k);
      BitsEnd(wire, k);
    }
    forall k: nat | k < Modules(c)
      ensures 0 <= Centre(c, k) < PIXELS
    {
      CentreInCell(c, k);
    }
    if forall k: nat :: k < Modules(c) ==> (Dark(frame, Centre(c, k)) <==> BitAt(wire, k)) {
      SameBits(s, padded);
    }
  }

  lemma BitsEnd(wire: bytes, k: nat)
    ensures BitAt(wire, k) ==> k < 8 * |wire|
  {
  }

  /** The picture with noise of at most `margin` at the sampled pixels. */
  ghost predicate Near(c: Codec, wire: bytes, frame: seq<byte>, margin: nat)
    requires GridSound(c)
  {
    && |frame| == PIXELS
    && forall k: nat :: k < Modules(c) ==>
         0 <= Centre(c, k) < PIXELS
         && Picture(c, wire, Centre(c, k)) - margin <= frame[Centre(c, k)] <= Picture(c, wire, Centre(c, k)) + margin
  }

  /** Noise of up to 63 grey levels at the sampled pixels is harmless, whatever the others are. */
  lemma NoiseMargin(c: Codec, wire: bytes, frame: seq<byte>, s: bytes)
    requires GridSound(c) && 8 * |wire| <= Modules(c)
    requires Near(c, wire, frame, 63) && Reads(c, frame, s)
    ensures |s| >= |wire| && s == wire + Zeros(|s| - |wire|)
  {
    hide GridSound, Centre, BitAt, Picture;
    forall k: nat | k < Modules(c)
      ensures 0 <= Centre(c, k) < PIXELS && (Dark(frame, Centre(c, k)) <==> BitAt(wire, k))
    {
      CentreColor(c, wire, k);
    }
    ReadsWire(c, wire, frame, s);
  }

  /** And 63 is the exact margin: 64 levels at the centre of a single black cell break it. */
  lemma NoiseMarginIsExact(c: Codec, wire: bytes, frame: seq<byte>, s: bytes, k: nat)
    requires GridSound(c) && 8 * |wire| <= Modules(c) && k < Modules(c) && BitAt(wire, k)
    requires |frame| == PIXELS && Reads(c, frame, s) && 0 <= Centre(c, k) < PIXELS
    requires frame[Centre(c, k)] == Picture(c, wire, Centre(c, k)) + 64
    ensures |s| >= |wire| && s != wire + Zeros(|s| - |wire|)
  {
    hide GridSound, Centre, BitAt, Picture;
    CentreColor(c, wire, k);
    ReadsWire(c, wire, frame, s);
  }

  /** Such a frame can be read, and only one way. */
  lemma NearReads(c: Codec, wire: bytes, frame: seq<byte>)
    requires GridSound(c) && 8 * |wire| <= Modules(c) && Near(c, wire, frame, 63)
    ensures (Modules(c) + 7) / 8 >= |wire|
    ensures Reads(c, frame, wire + Zeros((Modules(c) + 7) / 8 - |wire|))
  {
    hide GridSound, Centre, BitAt, Picture;
    var n := (Modules(c) + 7) / 8 - |wire|;
    forall k: nat
      ensures BitAt(wire + Zeros(n), k) <==>
        k < Modules(c) && 0 <= Centre(c, k) < PIXELS && Dark(frame, Centre(c, k))
    {
      PaddedBits(wire, n, k);
      BitsEnd(wire, k);
      if k < Modules(c) {
        CentreColor(c, wire, k);
      }
    }
  }

  lemma ReadsOnce(c: Codec, frame: seq<byte>, s: bytes, t: bytes)
    requires GridSound(c) && |frame| == PIXELS && Reads(c, frame, s) && Reads(c, frame, t)
    ensures s == t
  {
    hide GridSound, Centre, BitAt, Dark;
    SameBits(s, t);
  }

  /** A frame with no dark pixel reads as zeros. */
  lemma BrightReads(c: Codec, frame: seq<byte>)
    requires GridSound(c) && |frame| == PIXELS && forall i :: 0 <= i < PIXELS ==> !Dark(frame, i)
    ensures (Modules(c) + 7) / 8 >= 0 && Reads(c, frame, Zeros((Modules(c) + 7) / 8))
  {
    hide GridSound, Centre, BitAt;
    ModulesPositive(c);
    var zeros := Zeros((Modules(c) + 7) / 8);
    forall k: nat
      ensures !BitAt(zeros, k)
    {
      ZerosHaveNoBit(|zeros|, k);
    }
  }
}
