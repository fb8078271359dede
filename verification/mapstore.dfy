/**
 The per-map persistent store: a terrain region of 196-byte blocks, a static
 index region of 12-byte records and a static payload pool.

 Each region is the byte sequence its memory-mapped view exposes. The payload
 pool's view is the fixed-capacity mapping (`STATICS_MEMORY_SIZE`), so its
 length is the view's capacity, not the length of the file behind it; the
 file's end (`_EOF`) is kept by the session, not here.
 */
module MapStore {
  import opened Base
  import opened Fletcher

  /** Header in front of the tile cells of a terrain block. */
  const LandHeaderLength := 4
  /** Tile cells of one terrain block: 64 cells of 3 bytes (`LandBlockLenght`). */
  const LandBlockLength := 192
  /** A whole terrain block, header included (`sizeof(MapBlock)`). */
  const MapBlockSize := 196
  /** One static index record: offset, length, reserved word (`sizeof(StaidxBlock)`). */
  const IndexRecordSize := 12
  /** One static entry in the payload pool (`sizeof(StaticsBlock)`). */
  const StaticRecordSize := 7
  /** Offset of an index record that has no statics. */
  const NoStatics: u32 := 0xFFFF_FFFF
  /** At most this many statics are handed to a reloaded chunk. */
  const MaxReloadedStatics := 1024

  datatype MapFiles = MapFiles(terrain: seq<byte>, index: seq<byte>, statics: seq<byte>)

  /** The offset and length words of a static index record. */
  datatype IndexRecord = IndexRecord(lookup: u32, length: u32)

  const EmptyRecord := IndexRecord(NoStatics, 0)

  /** Where the 192 tile bytes of `block` start in the terrain region. */
  function LandOffset(block: nat): nat {
    block * MapBlockSize + LandHeaderLength
  }

  /** Where the index record of `block` starts in the index region. */
  function RecordOffset(block: nat): nat {
    block * IndexRecordSize
  }

  /** The offset and length words of `block`'s record lie inside the index region. */
  predicate HasRecord(index: seq<byte>, block: nat) {
    RecordOffset(block) + 8 <= |index|
  }

  function ReadRecord(index: seq<byte>, block: nat): IndexRecord
    requires HasRecord(index, block)
  {
    IndexRecord(ReadU32(index, RecordOffset(block)), ReadU32(index, RecordOffset(block) + 4))
  }

  /** The eight bytes the client writes for a record: offset then length, both little-endian. */
  function EncodeRecord(r: IndexRecord): (bs: seq<byte>)
    ensures |bs| == 8
  {
    LittleEndian32(r.lookup) + LittleEndian32(r.length)
  }

  /** The literal the client writes for an emptied block is the encoding of the empty record. */
  lemma EmptyRecordBytes()
    ensures EncodeRecord(EmptyRecord) == [0xFF, 0xFF, 0xFF, 0xFF, 0x00, 0x00, 0x00, 0x00]
  {
  }

  /** Writes `block`'s record; the reserved word and every other record are left alone. */
  function WriteRecord(index: seq<byte>, block: nat, r: IndexRecord): (index': seq<byte>)
    requires HasRecord(index, block)
    ensures |index'| == |index|
    ensures ReadRecord(index', block) == r
    ensures forall i | 0 <= i < |index| && !(RecordOffset(block) <= i < RecordOffset(block) + 8) :: index'[i] == index[i]
  {
    var bs := EncodeRecord(r);
    var index' := Overwrite(index, RecordOffset(block), bs);
    ReadAfterOverwrite(index, RecordOffset(block), bs, RecordOffset(block));
    ReadAfterOverwrite(index, RecordOffset(block), bs, RecordOffset(block) + 4);
    ReadLittleEndian32(r.lookup);
    assert bs[4..] == LittleEndian32(r.length);
    ReadLittleEndian32(r.length);
    index'
  }

  /** A record region whose eight bytes at `block` are the encoding of `r` reads back as `r`. */
  lemma ReadEncodedRecord(index: seq<byte>, block: nat, r: IndexRecord)
    requires HasRecord(index, block)
    requires index[RecordOffset(block)..RecordOffset(block) + 8] == EncodeRecord(r)
    ensures ReadRecord(index, block) == r
  {
    var o := RecordOffset(block);
    var bs := EncodeRecord(r);
    assert ReadU32(index, o) == ReadU32(bs, 0) by {
      assert index[o] == bs[0] && index[o + 1] == bs[1] && index[o + 2] == bs[2] && index[o + 3] == bs[3];
    }
    assert ReadU32(index, o + 4) == ReadU32(bs, 4) by {
      assert index[o + 4] == bs[4] && index[o + 5] == bs[5] && index[o + 6] == bs[6] && index[o + 7] == bs[7];
    }
    ReadLittleEndian32(r.lookup);
    assert bs[4..] == LittleEndian32(r.length);
    ReadLittleEndian32(r.length);
  }

  /** Writing one block's record leaves every other block's record as it was. */
  lemma WriteRecordKeepsOthers(index: seq<byte>, block: nat, r: IndexRecord, other: nat)
    requires HasRecord(index, block) && HasRecord(index, other) && other != block
    ensures ReadRecord(WriteRecord(index, block, r), other) == ReadRecord(index, other)
  {
    var index' := WriteRecord(index, block, r);
    assert other < block || block < other;
    assert RecordOffset(other) + 8 <= RecordOffset(block) || RecordOffset(block) + 8 <= RecordOffset(other);
    assert forall i | RecordOffset(other) <= i < RecordOffset(other) + 8 :: index'[i] == index[i];
  }

  // ---------------------------------------------------------------------------
  // Block checksum (GetBlockCrc)
  // ---------------------------------------------------------------------------

  /** The statics length the checksum uses: the length word read signed, negatives as 0. */
  function ChecksumLength(r: IndexRecord): nat {
    Max(0, ToI32(r.length))
  }

  /** The record's statics are copied into the checksum input. */
  predicate StaticsIncluded(f: MapFiles, r: IndexRecord) {
    r.lookup != NoStatics && ChecksumLength(r) > 0 && r.lookup < |f.statics|
  }

  /**
   Byte `pos` of a region as the bounds-checked copy sees it: the copy stops as
   soon as `Position + 1 >= Length`, so the region's last byte is never read and
   every byte from there on stays 0.
   */
  function GuardedByte(region: seq<byte>, pos: nat): byte {
    if pos + 1 < |region| then region[pos] else 0
  }

  /** Byte `k` of the statics part of the checksum input. */
  function StaticsByte(f: MapFiles, r: IndexRecord, k: nat): byte {
    if StaticsIncluded(f, r) then GuardedByte(f.statics, r.lookup + k) else 0
  }

  /** The bytes `block`'s checksum covers: its 192 tile bytes, then its statics. */
  function ChecksumInput(f: MapFiles, block: nat): seq<byte>
    requires HasRecord(f.index, block)
  {
    var r := ReadRecord(f.index, block);
    var n := ChecksumLength(r);
    var land := seq<byte>(LandBlockLength, x requires 0 <= x => GuardedByte(f.terrain, LandOffset(block) + x));
    var statics := seq<byte>(n, k requires 0 <= k => StaticsByte(f, r, k));
    land + statics
  }

  /** Byte by byte, what `ChecksumInput` holds. */
  lemma ChecksumInputAt(f: MapFiles, block: nat)
    requires HasRecord(f.index, block)
    ensures |ChecksumInput(f, block)| == LandBlockLength + ChecksumLength(ReadRecord(f.index, block))
    ensures forall x | 0 <= x < LandBlockLength ::
      ChecksumInput(f, block)[x] == GuardedByte(f.terrain, LandOffset(block) + x)
    ensures forall x | LandBlockLength <= x < |ChecksumInput(f, block)| ::
      ChecksumInput(f, block)[x] ==
        if StaticsIncluded(f, ReadRecord(f.index, block))
        then GuardedByte(f.statics, ReadRecord(f.index, block).lookup + x - LandBlockLength)
        else 0
  {
  }

  function BlockChecksum(f: MapFiles, block: nat): u16
    requires HasRecord(f.index, block)
  {
    Fletcher16(ChecksumInput(f, block))
  }

  /**
   The source's two copy loops with their early `break`s, followed by the
   checksum. The buffer has exactly `192 + max(0, length)` bytes; statics are
   copied only for a live record whose offset lies inside the pool, and a byte
   the copy does not reach stays 0.
   */
  method GetBlockCrc(f: MapFiles, block: nat) returns (blockData: seq<byte>, crc: u16)
    requires HasRecord(f.index, block)
    ensures |blockData| == LandBlockLength + ChecksumLength(ReadRecord(f.index, block))
    ensures forall x | 0 <= x < LandBlockLength ::
      blockData[x] == if LandOffset(block) + x + 1 < |f.terrain| then f.terrain[LandOffset(block) + x] else 0
    ensures !StaticsIncluded(f, ReadRecord(f.index, block)) ==>
      forall x | LandBlockLength <= x < |blockData| :: blockData[x] == 0
    ensures StaticsIncluded(f, ReadRecord(f.index, block)) ==>
      forall x | LandBlockLength <= x < |blockData| ::
        blockData[x] == GuardedByte(f.statics, ReadRecord(f.index, block).lookup + x - LandBlockLength)
    ensures blockData == ChecksumInput(f, block)
    ensures crc == BlockChecksum(f, block) && crc != 0xFFFF
  {
    var r := ReadRecord(f.index, block);
    var bytecount := ChecksumLength(r);
    blockData := seq(LandBlockLength + bytecount, _ => 0);
    var position := LandOffset(block);
    var x := 0;
    while x < LandBlockLength
      invariant 0 <= x <= LandBlockLength
      invariant |blockData| == LandBlockLength + bytecount
      invariant position == LandOffset(block) + x
      invariant forall i | 0 <= i < x :: blockData[i] == GuardedByte(f.terrain, LandOffset(block) + i)
      invariant forall i | x <= i < |blockData| :: blockData[i] == 0
    {
      if position + 1 >= |f.terrain| {
        break;
      }
      blockData := blockData[x := f.terrain[position]];
      position := position + 1;
      x := x + 1;
    }
    assert forall i | 0 <= i < LandBlockLength :: blockData[i] == GuardedByte(f.terrain, LandOffset(block) + i);
    if r.lookup != NoStatics && bytecount > 0 {
      if r.lookup < |f.statics| {
        position := r.lookup;
        x := LandBlockLength;
        while x < |blockData|
          invariant LandBlockLength <= x <= |blockData|
          invariant |blockData| == LandBlockLength + bytecount
          invariant position == r.lookup + x - LandBlockLength
          invariant forall i | 0 <= i < LandBlockLength :: blockData[i] == GuardedByte(f.terrain, LandOffset(block) + i)
          invariant forall i | LandBlockLength <= i < x :: blockData[i] == GuardedByte(f.statics, r.lookup + i - LandBlockLength)
          invariant forall i | x <= i < |blockData| :: blockData[i] == 0
        {
          if position + 1 >= |f.statics| {
            break;
          }
          blockData := blockData[x := f.statics[position]];
          position := position + 1;
          x := x + 1;
        }
        assert forall i | LandBlockLength <= i < |blockData| ::
          blockData[i] == GuardedByte(f.statics, r.lookup + i - LandBlockLength);
      }
    }
    ChecksumInputAt(f, block);
    assert blockData == ChecksumInput(f, block);
    crc := ComputeFletcher16(blockData);
  }

  /** The quirk of the `Position + 1 >= Length` test: the terrain region's last byte never reaches any checksum. */
  lemma LastTerrainByteIgnored(f: MapFiles, block: nat, b: byte)
    requires HasRecord(f.index, block) && |f.terrain| > 0
    ensures BlockChecksum(f.(terrain := f.terrain[|f.terrain| - 1 := b]), block) == BlockChecksum(f, block)
  {
    var f' := f.(terrain := f.terrain[|f.terrain| - 1 := b]);
    ChecksumInputAt(f, block);
    ChecksumInputAt(f', block);
    assert ChecksumInput(f', block) == ChecksumInput(f, block);
  }

  // ---------------------------------------------------------------------------
  // Chunk reload (ReloadBlock)
  // ---------------------------------------------------------------------------

  /**
   What `ReloadBlock` stores for a block, as offsets into the regions instead
   of raw addresses: `None` stands for the 0 address.
   */
  datatype BlockData = BlockData(mapOffset: Option<nat>, staticsOffset: Option<nat>, staticsCount: nat)

  /** The index record names statics the reload can point at. */
  predicate ReloadsStatics(f: MapFiles, block: nat) {
    && RecordOffset(block) < |f.index|
    && HasRecord(f.index, block)
    && ReadRecord(f.index, block).length > 0
    && ReadRecord(f.index, block).lookup != NoStatics
    && ReadRecord(f.index, block).lookup < |f.statics|
  }

  /**
   The map and statics pointers a reloaded chunk receives. The index record is
   read through a raw pointer once its offset is below the region's end, so the
   whole record must then lie inside the region.
   */
  function ReloadBlock(f: MapFiles, block: nat): (d: BlockData)
    requires RecordOffset(block) < |f.index| ==> HasRecord(f.index, block)
    ensures d.mapOffset == (if block * MapBlockSize < |f.terrain| then Some(block * MapBlockSize) else None)
    ensures d.staticsOffset.Some? <==> ReloadsStatics(f, block)
    ensures ReloadsStatics(f, block) ==>
      && d.staticsOffset == Some(ReadRecord(f.index, block).lookup as nat)
      && d.staticsCount == Min(ReadRecord(f.index, block).length / StaticRecordSize, MaxReloadedStatics)
    ensures d.staticsOffset.None? ==> d.staticsCount == 0
    ensures d.staticsCount <= MaxReloadedStatics
  {
    var address := block * MapBlockSize;
    var mapOffset := if address < |f.terrain| then Some(address) else None;
    if RecordOffset(block) < |f.index| then
      var r := ReadRecord(f.index, block);
      if r.length > 0 && r.lookup != NoStatics && r.lookup < |f.statics| then
        var count := r.length / StaticRecordSize;
        BlockData(mapOffset, Some(r.lookup), if count > MaxReloadedStatics then MaxReloadedStatics else count)
      else
        BlockData(mapOffset, None, 0)
    else
      BlockData(mapOffset, None, 0)
  }
}
