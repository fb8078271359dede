/**
 The blank map the client synthesises when no source data exists for a map id
 (`CreateNewPersistantMap`): every terrain block is the same default land
 block, every index record says "no statics", and the payload pool is empty.
 */
module BlankMap {
  import opened Base
  import opened Geometry
  import opened MapStore

  /** `n` copies of `s`, one after the other. */
  function Repeat<T>(s: seq<T>, n: nat): (r: seq<T>)
    ensures |r| == n * |s|
  {
    if n == 0 then [] else Repeat(s, n - 1) + s
  }

  /** A zero header followed by 64 identical tile cells `44 02 00`. */
  function DefaultLandBlock(): seq<byte> {
    [0x00, 0x00, 0x00, 0x00] + seq(LandBlockLength, i requires 0 <= i => [0x44, 0x02, 0x00][i % 3])
  }

  /** No statics, zero length, zero reserved word. */
  const EmptyIndexBlock: seq<byte> := [0xFF, 0xFF, 0xFF, 0xFF, 0x00, 0x00, 0x00, 0x00, 0x00, 0x00, 0x00, 0x00]

  /** The block extent the blank map is built with: the map's own row of `MapBlocksSize`, or row 0 past the table's end. */
  function BlankMapExtent(blockSizes: seq<Extent>, mapId: nat): (e: Extent)
    requires |blockSizes| > 0
    ensures mapId < |blockSizes| ==> e == blockSizes[mapId]
    ensures mapId >= |blockSizes| ==> e == blockSizes[0]
  {
    blockSizes[if |blockSizes| > mapId then mapId else 0]
  }

  /**
   The three files of a blank map with block extent `e`: a vertical strip of
   `height` blocks written `width` times, for terrain and for the index, and
   an empty payload pool. These are the files as written to disk, not the
   mapped views the store later works on: the empty pool here is the file,
   whose mapped view is the fixed-capacity region the store describes.
   */
  function BlankFiles(e: Extent): MapFiles {
    MapFiles(
      Repeat(Repeat(DefaultLandBlock(), e.height), e.width),
      Repeat(Repeat(EmptyIndexBlock, e.height), e.width),
      [])
  }

  /**
   The blank map of `mapId`, sized by that map's row of the block-size table
   (row 0 past the table's end): one default land block and one empty index
   record per block, and no statics.
   */
  function CreateNewPersistentMap(blockSizes: seq<Extent>, mapId: nat): (f: MapFiles)
    requires |blockSizes| > 0
    ensures |f.terrain| == BlockCount(BlankMapExtent(blockSizes, mapId)) * MapBlockSize
    ensures |f.index| == BlockCount(BlankMapExtent(blockSizes, mapId)) * IndexRecordSize
    ensures f.statics == []
  {
    var e := BlankMapExtent(blockSizes, mapId);
    RepeatNested(DefaultLandBlock(), e.height, e.width);
    RepeatNested(EmptyIndexBlock, e.height, e.width);
    DefaultLandBlockLast();
    BlankFiles(e)
  }

  // ---------------------------------------------------------------------------
  // Repetition
  // ---------------------------------------------------------------------------

  lemma {:induction false} RepeatAdd<T>(s: seq<T>, a: nat, b: nat)
    ensures Repeat(s, a + b) == Repeat(s, a) + Repeat(s, b)
    decreases b
  {
    if b > 0 {
      RepeatAdd(s, a, b - 1);
      assert Repeat(s, a + b) == Repeat(s, a + (b - 1)) + s;
    }
  }

  /** Writing a strip of `h` copies `w` times is writing `w * h` copies. */
  lemma {:induction false} RepeatNested<T>(s: seq<T>, h: nat, w: nat)
    ensures Repeat(Repeat(s, h), w) == Repeat(s, w * h)
    decreases w
  {
    if w > 0 {
      RepeatNested(s, h, w - 1);
      RepeatAdd(s, (w - 1) * h, h);
      assert (w - 1) * h + h == w * h;
    }
  }

  /** Copy number `b` sits at offset `b * |s|`. */
  lemma {:induction false} RepeatSlice<T>(s: seq<T>, n: nat, b: nat)
    requires b < n
    ensures b * |s| + |s| <= n * |s|
    ensures Repeat(s, n)[b * |s|..b * |s| + |s|] == s
    decreases n
  {
    MulLeftMono(b + 1, n, |s|);
    if b < n - 1 {
      RepeatSlice(s, n - 1, b);
      assert Repeat(s, n) == Repeat(s, n - 1) + s;
    } else {
      assert Repeat(s, n) == Repeat(s, n - 1) + s;
      assert |Repeat(s, n - 1)| == b * |s|;
    }
  }

  // ---------------------------------------------------------------------------
  // What a blank map holds
  // ---------------------------------------------------------------------------

  /** The default land block ends in the zero byte of its last tile cell. */
  lemma DefaultLandBlockLast()
    ensures |DefaultLandBlock()| == MapBlockSize && DefaultLandBlock()[MapBlockSize - 1] == 0x00
  {
  }

  /** Each of the `width * height` terrain blocks of a blank map is the default land block. */
  lemma BlankTerrainBlock(e: Extent, block: nat)
    requires block < BlockCount(e)
    ensures |BlankFiles(e).terrain| == BlockCount(e) * MapBlockSize
    ensures block * MapBlockSize + MapBlockSize <= |BlankFiles(e).terrain|
    ensures BlankFiles(e).terrain[block * MapBlockSize..block * MapBlockSize + MapBlockSize] == DefaultLandBlock()
  {
    DefaultLandBlockLast();
    RepeatNested(DefaultLandBlock(), e.height, e.width);
    RepeatSlice(DefaultLandBlock(), BlockCount(e), block);
  }

  /** Each of the `width * height` index records of a blank map is the empty record. */
  lemma BlankIndexRecord(e: Extent, block: nat)
    requires block < BlockCount(e)
    ensures |BlankFiles(e).index| == BlockCount(e) * IndexRecordSize
    ensures HasRecord(BlankFiles(e).index, block)
    ensures ReadRecord(BlankFiles(e).index, block) == EmptyRecord
  {
    var index := BlankFiles(e).index;
    RepeatNested(EmptyIndexBlock, e.height, e.width);
    RepeatSlice(EmptyIndexBlock, BlockCount(e), block);
    var o := RecordOffset(block);
    assert index[o..o + 8] == index[o..o + IndexRecordSize][..8];
    EmptyRecordBytes();
    ReadEncodedRecord(index, block, EmptyRecord);
  }

  /**
   Every block of a blank map has the same checksum input, the default tile
   cells and no statics: even the last block, whose final byte the copy skips,
   because that byte is already 0.
   */
  lemma BlankMapChecksumInput(e: Extent, block: nat)
    requires block < BlockCount(e)
    ensures HasRecord(BlankFiles(e).index, block)
    ensures ChecksumInput(BlankFiles(e), block) == DefaultLandBlock()[LandHeaderLength..]
  {
    var f := BlankFiles(e);
    BlankTerrainBlock(e, block);
    BlankIndexRecord(e, block);
    ChecksumInputAt(f, block);
    var input := ChecksumInput(f, block);
    var land := DefaultLandBlock()[LandHeaderLength..];
    assert |input| == |land|;
    var o := block * MapBlockSize;
    DefaultLandBlockLast();
    forall x | 0 <= x < LandBlockLength
      ensures input[x] == land[x]
    {
      GuardedLandByte(f.terrain, o, DefaultLandBlock(), x);
    }
  }

  /**
   The checksum reads tile byte `x` of a block laid out as `d`, except that
   the region's very last byte reads as 0, which is what `d` ends in.
   */
  lemma GuardedLandByte(t: seq<byte>, o: nat, d: seq<byte>, x: nat)
    requires o + MapBlockSize <= |t| && t[o..o + MapBlockSize] == d
    requires x < LandBlockLength && d[MapBlockSize - 1] == 0x00
    ensures GuardedByte(t, o + LandHeaderLength + x) == d[LandHeaderLength + x]
  {
    assert t[o + LandHeaderLength + x] == d[LandHeaderLength + x];
  }

  /** Reloading a blank block points at its terrain and at no statics. */
  lemma BlankMapReload(e: Extent, block: nat)
    requires block < BlockCount(e)
    ensures HasRecord(BlankFiles(e).index, block)
    ensures ReloadBlock(BlankFiles(e), block) == BlockData(Some(block * MapBlockSize), None, 0)
  {
    BlankTerrainBlock(e, block);
    BlankIndexRecord(e, block);
  }

  /**
   Every block of the blank map of `mapId` holds the default land block and
   the empty index record, and checksums the template's tile bytes.
   */
  lemma PersistentMapBlock(blockSizes: seq<Extent>, mapId: nat, block: nat)
    requires |blockSizes| > 0
    requires block < BlockCount(BlankMapExtent(blockSizes, mapId))
    ensures var f := CreateNewPersistentMap(blockSizes, mapId);
      && block * MapBlockSize + MapBlockSize <= |f.terrain|
      && f.terrain[block * MapBlockSize..block * MapBlockSize + MapBlockSize] == DefaultLandBlock()
      && HasRecord(f.index, block)
      && ReadRecord(f.index, block) == EmptyRecord
      && ChecksumInput(f, block) == DefaultLandBlock()[LandHeaderLength..]
  {
    var e := BlankMapExtent(blockSizes, mapId);
    assert CreateNewPersistentMap(blockSizes, mapId) == BlankFiles(e);
    BlankTerrainBlock(e, block);
    BlankIndexRecord(e, block);
    BlankMapChecksumInput(e, block);
  }
}
