/**
 The terrain update (packet 0x40): the server sends the 192 tile bytes of one
 block; the client writes them over the block's land in the terrain region,
 marks the block's checksum stale, reloads the chunks around the block and
 refreshes the minimap.
 */
module TerrainUpdate {
  import opened Base
  import opened Geometry
  import opened MapStore
  import opened ChecksumCache
  import opened Session

  /** The 64 tile cells of a block, 3 bytes each, as the message carries them. */
  type LandBlock = s: seq<byte> | |s| == LandBlockLength witness seq(LandBlockLength, _ => 0)

  /** A decoded terrain update: the block number as sent, its land, and the map id. */
  datatype TerrainMsg = TerrainMsg(block: u32, land: LandBlock, mapId: byte)

  /** The range test `block >= 0 && block < width * height`, the product taken in 32-bit arithmetic. */
  predicate InMap(block: i32, e: Extent) {
    0 <= block < BlockCount32(e)
  }

  /**
   For a cast row the 32-bit product never lets a block through that the true
   product would refuse: when it wraps it turns negative.
   */
  lemma InMapBelowCount(block: i32, e: Extent)
    requires e.width < 0x1_0000 && e.height < 0x1_0000
    ensures InMap(block, e) ==> block < BlockCount(e) && e.width > 0 && e.height > 0
    ensures 0 <= block < BlockCount(e) && BlockCount(e) < 0x8000_0000 ==> InMap(block, e)
  {
    MulLeftMono(e.width, 0xFFFF, e.height);
    MulLeftMono(e.height, 0xFFFF, 0xFFFF);
    if BlockCount(e) < 0x8000_0000 {
      SmallToI32(BlockCount(e));
    }
  }

  // ---------------------------------------------------------------------------
  // The terrain write
  // ---------------------------------------------------------------------------

  /** The files after `land` is written over the tile bytes of `block`, past its 4-byte header. */
  function WriteLand(f: MapFiles, block: nat, land: LandBlock): MapFiles
    requires LandOffset(block) + LandBlockLength <= |f.terrain|
  {
    f.(terrain := Overwrite(f.terrain, LandOffset(block), land))
  }

  /**
   The write puts the land exactly over the block's tile bytes; the block
   header, every other block, the index and the statics pool are untouched.
   */
  lemma WriteLandRoundTrip(f: MapFiles, block: nat, land: LandBlock)
    requires LandOffset(block) + LandBlockLength <= |f.terrain|
    ensures var f' := WriteLand(f, block, land);
      && |f'.terrain| == |f.terrain| && f'.index == f.index && f'.statics == f.statics
      && f'.terrain[LandOffset(block)..LandOffset(block) + LandBlockLength] == land
      && forall i | 0 <= i < |f.terrain| && !(LandOffset(block) <= i < LandOffset(block) + LandBlockLength) ::
           f'.terrain[i] == f.terrain[i]
  {
    var f' := WriteLand(f, block, land);
    assert f'.terrain[LandOffset(block)..LandOffset(block) + LandBlockLength] == land;
  }

  /** The tile bytes of two different blocks do not overlap. */
  lemma LandRangesDisjoint(block: nat, other: nat, x: nat)
    requires other != block && x < LandBlockLength
    ensures !(LandOffset(block) <= LandOffset(other) + x < LandOffset(block) + LandBlockLength)
  {
    if other < block {
      MulLeftMono(other + 1, block, MapBlockSize);
    } else {
      MulLeftMono(block + 1, other, MapBlockSize);
    }
  }

  /** No other block's checksum changes: its tile bytes and its statics are where they were. */
  lemma WriteLandKeepsOtherChecksums(f: MapFiles, block: nat, land: LandBlock, other: nat)
    requires LandOffset(block) + LandBlockLength <= |f.terrain|
    requires HasRecord(f.index, other) && other != block
    ensures HasRecord(WriteLand(f, block, land).index, other)
    ensures ChecksumInput(WriteLand(f, block, land), other) == ChecksumInput(f, other)
    ensures BlockChecksum(WriteLand(f, block, land), other) == BlockChecksum(f, other)
  {
    var f' := WriteLand(f, block, land);
    ChecksumInputAt(f, other);
    ChecksumInputAt(f', other);
    var a := ChecksumInput(f', other);
    var b := ChecksumInput(f, other);
    forall x | 0 <= x < LandBlockLength
      ensures a[x] == b[x]
    {
      LandRangesDisjoint(block, other, x);
    }
    assert a == b;
  }

  /**
   The block's own checksum then covers the new land followed by its statics
   as before, provided the block is not the last bytes of the region (whose
   final byte the bounds-checked copy never reads).
   */
  lemma WriteLandChecksumInput(f: MapFiles, block: nat, land: LandBlock)
    requires LandOffset(block) + LandBlockLength < |f.terrain|
    requires HasRecord(f.index, block)
    ensures var f' := WriteLand(f, block, land);
      && HasRecord(f'.index, block)
      && ChecksumInput(f', block) == land + ChecksumInput(f, block)[LandBlockLength..]
  {
    var f' := WriteLand(f, block, land);
    ChecksumInputAt(f, block);
    ChecksumInputAt(f', block);
    var a := ChecksumInput(f', block);
    var b := land + ChecksumInput(f, block)[LandBlockLength..];
    assert |a| == |b|;
    forall x | 0 <= x < |a|
      ensures a[x] == b[x]
    {
    }
  }

  // ---------------------------------------------------------------------------
  // The reload loop
  // ---------------------------------------------------------------------------

  /** The chunk index the loop computes for column `x`, row `y`: `x * height + y`. */
  function Cell(x: int, y: int, h: int): int {
    x * h + y
  }

  /** One column of the loop: rows `top` down to `bottom`. */
  function ColumnVisits(x: int, top: int, bottom: int, h: int): seq<int>
    decreases top - bottom + 1
  {
    if top < bottom then [] else [Cell(x, top, h)] + ColumnVisits(x, top - 1, bottom, h)
  }

  /** The whole loop: columns `right` down to `left`, each from `top` down to `bottom`. */
  function LoopVisits(right: int, left: int, top: int, bottom: int, h: int): seq<int>
    decreases right - left + 1
  {
    if right < left then [] else ColumnVisits(right, top, bottom, h) + LoopVisits(right - 1, left, top, bottom, h)
  }

  /**
   The chunk indices the handler visits for `block`, in order. The upper
   bounds are clamped to the width and height themselves, not to one less.
   */
  function ReloadIndices(block: nat, e: Extent): seq<int>
    requires e.height > 0
  {
    var col := block / e.height;
    var row := block % e.height;
    LoopVisits(Min(e.width, col + 1), Max(0, col - 1), Min(e.height, row + 1), Max(0, row - 1), e.height)
  }

  lemma {:induction false} ColumnVisitsIff(x: int, top: int, bottom: int, h: int, n: int)
    ensures n in ColumnVisits(x, top, bottom, h) <==> exists y | bottom <= y <= top :: n == Cell(x, y, h)
    decreases top - bottom + 1
  {
    if top >= bottom {
      ColumnVisitsIff(x, top - 1, bottom, h, n);
      if n != Cell(x, top, h) && exists y | bottom <= y <= top :: n == Cell(x, y, h) {
        var y :| bottom <= y <= top && n == Cell(x, y, h);
        assert y <= top - 1;
      }
    }
  }

  /** The loop visits exactly the cells of the rectangle its bounds span. */
  lemma {:induction false} LoopVisitsIff(right: int, left: int, top: int, bottom: int, h: int, n: int)
    ensures n in LoopVisits(right, left, top, bottom, h) <==>
      exists x, y | left <= x <= right && bottom <= y <= top :: n == Cell(x, y, h)
    decreases right - left + 1
  {
    if right >= left {
      LoopVisitsIff(right - 1, left, top, bottom, h, n);
      ColumnVisitsIff(right, top, bottom, h, n);
      if exists x, y | left <= x <= right && bottom <= y <= top :: n == Cell(x, y, h) {
        var x, y :| left <= x <= right && bottom <= y <= top && n == Cell(x, y, h);
        if x < right {
          assert n in LoopVisits(right - 1, left, top, bottom, h);
        } else {
          assert n in ColumnVisits(right, top, bottom, h);
        }
      }
    }
  }

  /**
   Reloads the visited chunks that are loaded, in visiting order; `None` when
   a visited index lies outside the chunk table, which throws.
   */
  function ReloadChunks(visits: seq<int>, chunks: seq<bool>): Option<seq<Effect>> {
    if |visits| == 0 then Some([])
    else if !(0 <= visits[0] < |chunks|) then None
    else
      var rest := ReloadChunks(visits[1..], chunks);
      if rest.None? then None
      else Some((if chunks[visits[0]] then [ReloadChunk(visits[0])] else []) + rest.value)
  }

  /**
   The loop throws iff it visits an index outside the chunk table; otherwise
   it reloads exactly the visited chunks that are loaded, and does nothing else.
   */
  lemma {:induction false} ReloadChunksIff(visits: seq<int>, chunks: seq<bool>)
    ensures ReloadChunks(visits, chunks).None? <==> exists i | 0 <= i < |visits| :: !(0 <= visits[i] < |chunks|)
    ensures var r := ReloadChunks(visits, chunks);
      r.Some? ==>
        && (forall k | 0 <= k < |r.value| :: r.value[k].ReloadChunk? && r.value[k].index in visits)
        && (forall n: nat :: ReloadChunk(n) in r.value <==> n in visits && n < |chunks| && chunks[n])
    decreases |visits|
  {
    if |visits| > 0 {
      var tail := visits[1..];
      ReloadChunksIff(tail, chunks);
      assert forall i | 1 <= i < |visits| :: visits[i] == tail[i - 1];
      if exists i | 0 <= i < |visits| :: !(0 <= visits[i] < |chunks|) {
        var i :| 0 <= i < |visits| && !(0 <= visits[i] < |chunks|);
        if i > 0 {
          assert !(0 <= tail[i - 1] < |chunks|);
        }
      }
      assert visits == [visits[0]] + tail;
    }
  }

  // ---------------------------------------------------------------------------
  // The handler
  // ---------------------------------------------------------------------------

  /**
   Packet 0x40. Ignored unless the world shows the message's map; then the
   size row is read (throwing past the table), and a block outside the cast
   size is ignored. There is no check that live sync is on: a missing
   session, store, file, cache or chunk index throws.
   */
  function OnTerrainUpdate(c: Client, env: Env, m: TerrainMsg): Outcome {
    if env.worldMap != Some(m.mapId as nat) then Done(c, [])
    else if m.mapId >= |c.loader.blockSizes| then Threw(c, IndexOutOfRange)
    else
      var e := CastExtent(c.loader.blockSizes[m.mapId]);
      var block := ToI32(m.block);
      if !InMap(block, e) then Done(c, [])
      else if c.live.None? || c.live.value.store.None? then Threw(c, NullReference)
      else
        var s := c.live.value;
        var store := s.store.value;
        if m.mapId >= |store.files| then Threw(c, IndexOutOfRange)
        else if store.files[m.mapId].None? then Threw(c, NullReference)
        else
          var f := store.files[m.mapId].value;
          if LandOffset(block) + LandBlockLength > |f.terrain| then Threw(c, WriteOutOfRange)
          else
            var written := s.(store := Some(store.(files := store.files[m.mapId := Some(WriteLand(f, block, m.land))])));
            if s.caches.None? then Threw(WithSession(c, written), NullReference)
            else if m.mapId >= |s.caches.value| then Threw(WithSession(c, written), IndexOutOfRange)
            else if s.caches.value[m.mapId].None? then Threw(WithSession(c, written), NullReference)
            else
              var cache := s.caches.value[m.mapId].value;
              if block >= |cache| then Threw(WithSession(c, written), IndexOutOfRange)
              else
                var s' := written.(caches := Some(s.caches.value[m.mapId := Some(cache[block := Stale])]));
                InMapBelowCount(block, e);
                match ReloadChunks(ReloadIndices(block, e), env.chunks)
                case None => Threw(WithSession(c, s'), IndexOutOfRange)
                case Some(reloads) => Done(WithSession(c, s'), reloads + [RefreshMinimap])
  }

  /** The update gets past the terrain write and the stale mark. */
  predicate Applies(c: Client, env: Env, m: TerrainMsg) {
    && env.worldMap == Some(m.mapId as nat)
    && m.mapId < |c.loader.blockSizes|
    && InMap(ToI32(m.block), CastExtent(c.loader.blockSizes[m.mapId]))
    && c.live.Some? && c.live.value.store.Some?
    && m.mapId < |c.live.value.store.value.files|
    && c.live.value.store.value.files[m.mapId].Some?
    && LandOffset(ToI32(m.block)) + LandBlockLength <= |c.live.value.store.value.files[m.mapId].value.terrain|
    && c.live.value.caches.Some? && m.mapId < |c.live.value.caches.value|
    && c.live.value.caches.value[m.mapId].Some?
    && ToI32(m.block) < |c.live.value.caches.value[m.mapId].value|
  }

  /** An update for a map the world does not show, or for a block outside the map, changes nothing. */
  lemma TerrainUpdateIgnored(c: Client, env: Env, m: TerrainMsg)
    requires env.worldMap != Some(m.mapId as nat) ||
      (m.mapId < |c.loader.blockSizes| && !InMap(ToI32(m.block), CastExtent(c.loader.blockSizes[m.mapId])))
    ensures OnTerrainUpdate(c, env, m) == Done(c, [])
  {
  }

  /**
   An applied update replaces the map's files by `WriteLand` of the block,
   marks exactly that block's cache entry stale, and throws only when the
   reload loop leaves the chunk table; otherwise it reloads the visited
   loaded chunks and then refreshes the minimap. The loader, the other maps
   and the rest of the session are untouched.
   */
  lemma TerrainUpdateApplies(c: Client, env: Env, m: TerrainMsg)
    requires Applies(c, env, m)
    ensures var o := OnTerrainUpdate(c, env, m);
      var s := c.live.value;
      var block := ToI32(m.block);
      var e := CastExtent(c.loader.blockSizes[m.mapId]);
      var f := s.store.value.files[m.mapId].value;
      var cache := s.caches.value[m.mapId].value;
      && e.height > 0
      && After(o) == WithSession(c, s.(
           store := Some(s.store.value.(files := s.store.value.files[m.mapId := Some(WriteLand(f, block, m.land))])),
           caches := Some(s.caches.value[m.mapId := Some(cache[block := Stale])])))
      && (o.Threw? <==> exists i | 0 <= i < |ReloadIndices(block, e)| :: !(0 <= ReloadIndices(block, e)[i] < |env.chunks|))
      && (o.Threw? ==> o.exception == IndexOutOfRange)
      && (o.Done? ==>
            && |o.effects| > 0 && o.effects[|o.effects| - 1] == RefreshMinimap
            && forall n: nat :: ReloadChunk(n) in o.effects <==>
                 n in ReloadIndices(block, e) && n < |env.chunks| && env.chunks[n])
  {
    var block := ToI32(m.block);
    var e := CastExtent(c.loader.blockSizes[m.mapId]);
    InMapBelowCount(block, e);
    ReloadChunksIff(ReloadIndices(block, e), env.chunks);
  }

  /**
   Over a coherent cache an applied update leaves a coherent cache: every
   other block's checksum is unchanged by the write, and the written block's
   entry is stale.
   */
  lemma TerrainUpdateKeepsCacheCoherent(c: Client, env: Env, m: TerrainMsg)
    requires Applies(c, env, m)
    requires Coherent(c.live.value.store.value.files[m.mapId].value, c.live.value.caches.value[m.mapId].value)
    ensures var s' := After(OnTerrainUpdate(c, env, m)).live.value;
      && s'.store.Some? && m.mapId < |s'.store.value.files| && s'.store.value.files[m.mapId].Some?
      && s'.caches.Some? && m.mapId < |s'.caches.value| && s'.caches.value[m.mapId].Some?
      && Coherent(s'.store.value.files[m.mapId].value, s'.caches.value[m.mapId].value)
  {
    TerrainUpdateApplies(c, env, m);
    var s := c.live.value;
    var block := ToI32(m.block);
    var f := s.store.value.files[m.mapId].value;
    var cache := s.caches.value[m.mapId].value;
    var f' := WriteLand(f, block, m.land);
    var cache' := cache[block := Stale];
    forall i | 0 <= i < |cache'| && cache'[i] != Stale
      ensures cache'[i] == BlockChecksum(f', i)
    {
      WriteLandKeepsOtherChecksums(f, block, m.land, i);
    }
  }

  /**
   The clamp of the loop bounds to the width rather than the last column: a
   block in the last column makes the loop visit index `width * height + y`,
   which throws when the chunk table has one chunk per block.
   */
  lemma TerrainLastColumnThrows(c: Client, env: Env, m: TerrainMsg)
    requires Applies(c, env, m)
    requires var e := CastExtent(c.loader.blockSizes[m.mapId]);
      e.height > 0 && ToI32(m.block) / e.height == e.width - 1 && |env.chunks| <= BlockCount(e)
    ensures OnTerrainUpdate(c, env, m).Threw?
    ensures OnTerrainUpdate(c, env, m).exception == IndexOutOfRange
  {
    var block := ToI32(m.block);
    var e := CastExtent(c.loader.blockSizes[m.mapId]);
    var row := block % e.height;
    TerrainUpdateApplies(c, env, m);
    LoopVisitsIff(Min(e.width, e.width), Max(0, e.width - 2), Min(e.height, row + 1), Max(0, row - 1), e.height, Cell(e.width, row, e.height));
    var visits := ReloadIndices(block, e);
    var i :| 0 <= i < |visits| && visits[i] == Cell(e.width, row, e.height);
    assert !(0 <= visits[i] < |env.chunks|);
  }

  /**
   Away from the right and bottom edges the loop reloads the 3 by 3 blocks
   around the updated one (clipped at the left and top edges), each block
   named by its column-major index.
   */
  lemma TerrainInteriorReloadsNeighbours(block: nat, e: Extent, n: int)
    requires e.height > 0
    requires block / e.height + 1 < e.width && block % e.height + 1 < e.height
    ensures n in ReloadIndices(block, e) <==>
      exists x, y | 0 <= x && 0 <= y && block / e.height - 1 <= x <= block / e.height + 1 && block % e.height - 1 <= y <= block % e.height + 1 ::
        n == Cell(x, y, e.height)
  {
    var col := block / e.height;
    var row := block % e.height;
    LoopVisitsIff(col + 1, Max(0, col - 1), row + 1, Max(0, row - 1), e.height, n);
  }

  /**
   The clamp to the height instead: updating the bottom block of column 0
   visits index `height`, the top block of column 1, which is not a neighbour
   of it, and index `2 * height`, which is not even in a column next to it.
   In a 4 by 4 map, block 3 visits 8, 7, 6, 4, 3, 2.
   */
  lemma TerrainBottomRowWrapsColumn(e: Extent)
    requires e.width >= 2 && e.height >= 2
    ensures var h := e.height;
      ReloadIndices(h - 1, e) == [2 * h, 2 * h - 1, 2 * h - 2, h, h - 1, h - 2]
  {
    var h: int := e.height;
    assert (h - 1) / h == 0 && (h - 1) % h == h - 1;
    assert ReloadIndices(h - 1, e) == LoopVisits(1, 0, h, h - 2, h);
    ColumnOfThree(0, h, h);
    ColumnOfThree(1, h, h);
    assert LoopVisits(-1, 0, h, h - 2, h) == [];
    assert LoopVisits(0, 0, h, h - 2, h) == [h, h - 1, h - 2];
  }

  /** A column whose bounds span three rows visits them top to bottom. */
  lemma ColumnOfThree(x: int, top: int, h: int)
    ensures ColumnVisits(x, top, top - 2, h) == [Cell(x, top, h), Cell(x, top - 1, h), Cell(x, top - 2, h)]
  {
    assert ColumnVisits(x, top - 3, top - 2, h) == [];
    assert ColumnVisits(x, top - 2, top - 2, h) == [Cell(x, top - 2, h)];
    assert ColumnVisits(x, top - 1, top - 2, h) == [Cell(x, top - 1, h), Cell(x, top - 2, h)];
  }

  /** The update never touches the loader and keeps a client well-formed. */
  lemma TerrainUpdateKeepsWellFormed(c: Client, env: Env, m: TerrainMsg)
    requires WellFormed(c)
    ensures After(OnTerrainUpdate(c, env, m)).loader == c.loader
    ensures WellFormed(After(OnTerrainUpdate(c, env, m)))
  {
    var block := ToI32(m.block);
    if env.worldMap == Some(m.mapId as nat) && m.mapId < |c.loader.blockSizes|
      && InMap(block, CastExtent(c.loader.blockSizes[m.mapId]))
      && c.live.Some? && c.live.value.store.Some? && m.mapId < |c.live.value.store.value.files|
      && c.live.value.store.value.files[m.mapId].Some?
      && LandOffset(block) + LandBlockLength <= |c.live.value.store.value.files[m.mapId].value.terrain|
    {
      var s := c.live.value;
      var store := s.store.value;
      var f' := WriteLand(store.files[m.mapId].value, block, m.land);
      ReplaceFilesFits(s, c.loader, m.mapId, f', store.eof, store.queue);
      var written := s.(store := Some(Store(store.files[m.mapId := Some(f')], store.eof, store.queue)));
      assert written == s.(store := Some(store.(files := store.files[m.mapId := Some(f')])));
      if Applies(c, env, m) {
        TerrainUpdateApplies(c, env, m);
        MarkStaleFits(written, c.loader, m.mapId, block);
      }
    }
  }
}
