/**
 Map sizes, the server's wrap geometry, and the 5x5 block neighbourhood a
 hash query covers.

 Sizes come in two units: tiles (what the server sends and what the default
 size table holds) and blocks of 8x8 tiles (`MapBlocksSize`). Blocks are
 numbered column-major: `block = x * heightInBlocks + y`.
 */
module Geometry {
  import opened Base

  /** Number of map slots the live client allocates (`sbyte.MaxValue`). */
  const MapSlots := 127

  /** A width and height, in tiles or in blocks depending on the table it sits in. */
  datatype Extent = Extent(width: nat, height: nat)

  /** One row of `MapSizeWrapSize`: the real size and the wrap size, in tiles. */
  datatype WrapSize = WrapSize(realWidth: u16, realHeight: u16, wrapWidth: u16, wrapHeight: u16)

  const NoWrapSize := WrapSize(0, 0, 0, 0)

  /** One entry of a map-definition message, as sent. */
  datatype MapEntry = MapEntry(mapId: byte, realWidth: u16, realHeight: u16, wrapWidth: u16, wrapHeight: u16)

  /** Tiles to blocks: `size >> 3`. */
  function Blocks(tiles: nat): nat {
    tiles / 8
  }

  /** `MapBlocksSize` for a map of the given size in tiles. */
  function BlockExtent(tiles: Extent): (b: Extent)
    ensures b.width * 8 <= tiles.width < b.width * 8 + 8
    ensures b.height * 8 <= tiles.height < b.height * 8 + 8
  {
    Extent(Blocks(tiles.width), Blocks(tiles.height))
  }

  /** A size table row read through `(ushort)` casts: each dimension keeps its low 16 bits. */
  function CastExtent(e: Extent): (r: Extent)
    ensures r.width < 0x1_0000 && r.height < 0x1_0000
    ensures e.width < 0x1_0000 ==> r.width == e.width
    ensures e.height < 0x1_0000 ==> r.height == e.height
    ensures (e.width - r.width) % 0x1_0000 == 0 && (e.height - r.height) % 0x1_0000 == 0
  {
    Extent(e.width % 0x1_0000, e.height % 0x1_0000)
  }

  function BlockCount(e: Extent): nat {
    e.width * e.height
  }

  /**
   The block count as the handlers compute it, `width * height` in 32-bit
   signed arithmetic: the true count while it fits, and otherwise a wrapped
   value that is negative or smaller than the true count.
   */
  function BlockCount32(e: Extent): (n: i32)
    ensures BlockCount(e) < 0x8000_0000 ==> n == BlockCount(e)
    ensures n <= BlockCount(e)
    ensures (n - BlockCount(e)) % TwoTo32 == 0
  {
    ToI32(BlockCount(e))
  }

  /** A 65536 x 32768-block row has 2^31 blocks, which the 32-bit count reads as -2^31. */
  lemma WrappedBlockCount()
    ensures BlockCount(Extent(0x1_0000, 0x8000)) == 0x8000_0000
    ensures BlockCount32(Extent(0x1_0000, 0x8000)) == -0x8000_0000
  {
  }

  /**
   The live loader's default-size table: `maps` rows, the old table's row where
   it has one and the old table's first row past its end.
   */
  function ExtendDefaultSizes(previous: seq<Extent>, maps: nat): (sizes: seq<Extent>)
    requires |previous| > 0 || maps == 0
    ensures |sizes| == maps
    ensures forall i | 0 <= i < maps && i < |previous| :: sizes[i] == previous[i]
    ensures forall i | |previous| <= i < maps :: sizes[i] == previous[0]
  {
    seq(maps, i requires 0 <= i < maps => if i < |previous| then previous[i] else previous[0])
  }

  /**
   The stored geometry for one entry: the real size is clamped to the default
   size of map 0 (whatever the entry's map id) and the wrap size to that
   clamped real size.
   */
  function ClampEntry(map0: Extent, e: MapEntry): (g: WrapSize)
    requires map0.width < 0x1_0000 && map0.height < 0x1_0000
    ensures g.realWidth <= map0.width && g.realHeight <= map0.height
    ensures g.realWidth <= e.realWidth && g.realHeight <= e.realHeight
    ensures g.realWidth == e.realWidth || g.realWidth == map0.width
    ensures g.realHeight == e.realHeight || g.realHeight == map0.height
    ensures g.wrapWidth == Min(e.wrapWidth, g.realWidth)
    ensures g.wrapHeight == Min(e.wrapHeight, g.realHeight)
    ensures WrapWithinReal(g)
  {
    var realWidth := Min(map0.width, e.realWidth);
    var realHeight := Min(map0.height, e.realHeight);
    WrapSize(realWidth, realHeight, Min(e.wrapWidth, realWidth), Min(e.wrapHeight, realHeight))
  }

  predicate WrapWithinReal(g: WrapSize) {
    g.wrapWidth <= g.realWidth && g.wrapHeight <= g.realHeight
  }

  // ---------------------------------------------------------------------------
  // Hash-query neighbourhood
  // ---------------------------------------------------------------------------

  /**
   A queried block split into coordinates, with the extent each axis wraps at:
   the wrap size in blocks while the coordinate is below it, the real block
   count otherwise.
   */
  datatype Frame = Frame(blockX: nat, blockY: nat, width: nat, height: nat)

  /** `wrap >> 3` when the coordinate is below it, otherwise the real extent. */
  function AxisExtent(coordinate: nat, wrapTiles: u16, realBlocks: nat): nat {
    if coordinate < Blocks(wrapTiles) then Blocks(wrapTiles) else realBlocks
  }

  predicate ValidFrame(f: Frame) {
    f.blockX < f.width && f.blockY < f.height
  }

  function QueryFrame(block: nat, blocks: Extent, wrap: WrapSize): (f: Frame)
    requires block < BlockCount(blocks)
    ensures ValidFrame(f)
    ensures f.blockX * blocks.height + f.blockY == block
    ensures f.width == (if f.blockX < wrap.wrapWidth / 8 then wrap.wrapWidth / 8 else blocks.width)
    ensures f.height == (if f.blockY < wrap.wrapHeight / 8 then wrap.wrapHeight / 8 else blocks.height)
  {
    var x := block / blocks.height;
    var y := block % blocks.height;
    assert x < blocks.width by { DivBelow(block, blocks.width, blocks.height); }
    Frame(x, y, AxisExtent(x, wrap.wrapWidth, blocks.width), AxisExtent(y, wrap.wrapHeight, blocks.height))
  }

  lemma DivBelow(n: nat, w: nat, h: nat)
    requires n < w * h
    ensures h > 0 && n / h < w
  {
    assert h > 0;
  }

  /** Slot `k` of the reply holds the neighbour at offset `(k / 5 - 2, k % 5 - 2)`. */
  function SlotDx(k: nat): int { k / 5 - 2 }
  function SlotDy(k: nat): int { k % 5 - 2 }

  /** The x coordinate the query uses for offset `dx`. */
  function NeighbourX(f: Frame, dx: int): int
    requires ValidFrame(f)
  {
    var r := CsRem(f.blockX + dx, f.width);
    if r < 0 && r > -3 then r + f.width else r
  }

  /** The y coordinate the query uses for offset `dy`; this axis is fixed up unconditionally. */
  function NeighbourY(f: Frame, dy: int): int
    requires ValidFrame(f)
  {
    var r := CsRem(f.blockY + dy, f.height);
    if r < 0 then r + f.height else r
  }

  /** `(uint)(xBlockItr * mapHeightInBlocks + yBlockItr)`, with the wrap-adjusted height. */
  function NeighbourBlock(f: Frame, k: nat): u32
    requires ValidFrame(f)
  {
    ToU32(NeighbourX(f, SlotDx(k)) * f.height + NeighbourY(f, SlotDy(k)))
  }

  /** Walking x from -2 to 2 and y from -2 to 2 fills the slots in order. */
  lemma SlotOrder(dx: int, dy: int)
    requires -2 <= dx <= 2 && -2 <= dy <= 2
    ensures 0 <= (dx + 2) * 5 + (dy + 2) < 25
    ensures SlotDx((dx + 2) * 5 + (dy + 2)) == dx && SlotDy((dx + 2) * 5 + (dy + 2)) == dy
  {
  }

  /**
   For offsets within two blocks both axes reduce to the true modulus: the
   source's `> -3` guard on x never decides anything, and every coordinate lies
   inside its axis extent.
   */
  lemma NeighbourIsModulus(f: Frame, dx: int, dy: int)
    requires ValidFrame(f)
    requires -2 <= dx <= 2 && -2 <= dy <= 2
    ensures NeighbourX(f, dx) == (f.blockX + dx) % f.width
    ensures NeighbourY(f, dy) == (f.blockY + dy) % f.height
    ensures 0 <= NeighbourX(f, dx) < f.width && 0 <= NeighbourY(f, dy) < f.height
  {
    RemFixup(f.blockX + dx, f.width);
    RemFixup(f.blockY + dy, f.height);
  }

  lemma RemFixup(a: int, b: int)
    requires b > 0 && a >= -2
    ensures CsRem(a, b) > -3
    ensures (if CsRem(a, b) < 0 then CsRem(a, b) + b else CsRem(a, b)) == a % b
  {
    if a < 0 && a < -b {
      assert b == 1;
      assert -a % b == 0;
    }
  }

  /**
   The block number of every slot is a valid index into a table of
   `width * height` blocks, so the `(uint)` cast never wraps.
   */
  lemma NeighbourBlockInFrame(f: Frame, k: nat)
    requires ValidFrame(f) && k < 25
    requires f.width * f.height <= TwoTo32
    ensures NeighbourBlock(f, k) == NeighbourX(f, SlotDx(k)) * f.height + NeighbourY(f, SlotDy(k))
    ensures NeighbourBlock(f, k) < f.width * f.height
  {
    NeighbourIsModulus(f, SlotDx(k), SlotDy(k));
    var x, y := NeighbourX(f, SlotDx(k)), NeighbourY(f, SlotDy(k));
    assert 0 <= x < f.width && 0 <= y < f.height;
    ColumnMajorBelow(x, y, f.width, f.height);
    var v := x * f.height + y;
    assert 0 <= v < f.width * f.height;
    ToU32Small(v);
    assert NeighbourBlock(f, k) == ToU32(v);
  }

  lemma ToU32Small(v: int)
    requires 0 <= v < TwoTo32
    ensures ToU32(v) == v
  {
  }

  /** A column-major index of a cell inside a `w` by `h` grid is below `w * h`. */
  lemma ColumnMajorBelow(x: nat, y: nat, w: nat, h: nat)
    requires x < w && y < h
    ensures 0 <= x * h + y < w * h
  {
    calc {
      x * h + y;
    <
      x * h + h;
    ==
      (x + 1) * h;
    <= { MulLeftMono(x + 1, w, h); }
      w * h;
    }
  }

  lemma MulLeftMono(a: nat, b: nat, h: nat)
    requires a <= b
    ensures a * h <= b * h
  {
  }
}
