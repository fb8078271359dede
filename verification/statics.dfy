/**
 The statics update (sub-command 0x00): the server sends a block's complete
 list of statics, 7 bytes each, and the client stores it in the statics pool
 of that map, rewrites the block's index record, reloads the block's chunk and
 marks its checksum stale.
 */
module StaticsUpdate {
  import opened Base
  import opened Geometry
  import opened MapStore
  import opened ChecksumCache
  import opened Session

  /** The shortest statics update accepted before its payload length is known. */
  const MinUpdateLength := 15

  /**
   A decoded statics update: the message length, the block number and the
   statics count as sent, the map id, and the bytes that follow the header.
   */
  datatype Update = Update(packetLength: nat, block: u32, count: u32, mapId: byte, body: seq<byte>)

  /** `totallen`: the count read as a signed int and multiplied by 7 in 32-bit arithmetic. */
  function TotalLength(count: u32): i32 {
    ToI32(ToI32(count) * StaticRecordSize)
  }

  /** The payload is read only when the message is at least `totallen + 15` bytes, that sum also in 32 bits. */
  predicate LongEnough(m: Update) {
    m.packetLength >= ToI32(TotalLength(m.count) + MinUpdateLength)
  }

  /**
   Where a payload of `length` bytes goes, and the end-of-file offset
   afterwards: the recorded slot when it is in use and at least as long,
   otherwise the end of the pool, which then grows by `length` (in unsigned
   32-bit arithmetic).
   */
  function Placement(r: IndexRecord, eof: u32, length: nat): (p: (u32, u32))
    ensures p.1 != eof ==> p.0 == eof
    ensures (p.0 == r.lookup && p.1 == eof) || (p.0 == eof && p.1 == ToU32(eof + length))
    ensures r.lookup == NoStatics ==> p.0 == eof
  {
    if r.length >= length && r.lookup != NoStatics then (r.lookup, eof)
    else (eof, ToU32(eof + length))
  }

  /**
   The end of file never moves back while the sum fits 32 bits, and grows by
   at most `length`; past 2^32 it wraps round to a smaller offset.
   */
  lemma PlacementEof(r: IndexRecord, eof: u32, length: nat)
    requires length < TwoTo32
    ensures eof + length < TwoTo32 ==> eof <= Placement(r, eof, length).1 <= eof + length
    ensures eof + length >= TwoTo32 ==>
      Placement(r, eof, length).1 == eof || Placement(r, eof, length).1 == eof + length - TwoTo32
  {
  }

  /** Marks `block` of map `mapId` stale, which throws when that map's cache was never allocated. */
  function Invalidate(c: Client, s: Session, mapId: nat, block: nat, effects: seq<Effect>): (o: Outcome)
    requires s.caches.Some? ==> |s.caches.value| == MapSlots
    requires mapId < MapSlots
    requires s.caches.Some? && s.caches.value[mapId].Some? ==> block < |s.caches.value[mapId].value|
    ensures o.Threw? <==> s.caches.None? || s.caches.value[mapId].None?
    ensures After(o).loader == c.loader && After(o).live.Some?
    ensures After(o).live.value.store == s.store
    ensures o.Done? ==> o.effects == effects && After(o).live.value.caches.Some?
    ensures o.Done? ==> var cs := After(o).live.value.caches.value;
      && |cs| == |s.caches.value| && cs[mapId].Some?
      && |cs[mapId].value| == |s.caches.value[mapId].value| && cs[mapId].value[block] == Stale
      && (forall i | 0 <= i < |cs| && i != mapId :: cs[i] == s.caches.value[i])
      && (forall j | 0 <= j < |cs[mapId].value| && j != block :: cs[mapId].value[j] == s.caches.value[mapId].value[j])
  {
    if s.caches.None? || s.caches.value[mapId].None? then Threw(WithSession(c, s), NullReference)
    else
      var cache := s.caches.value[mapId].value;
      Done(WithSession(c, s.(caches := Some(s.caches.value[mapId := Some(cache[block := Stale])]))), effects)
  }

  /**
   Sub-command 0x00. Drops the update when there is no session, the message is
   short for its header or for its payload, the map id is unsupported
   (possibly warning) or not the current map, or the block is out of range.
   */
  function OnStaticsUpdate(c: Client, env: Env, m: Update): Outcome
    requires WellFormed(c)
  {
    if c.live.None? || m.packetLength < MinUpdateLength || !LongEnough(m) then Done(c, [])
    else
      var s := c.live.value;
      match CheckMapId(s, env, m.mapId)
      case StoreMissing => Threw(c, NullReference)
      case Unsupported =>
        var w := Warn(s, env.ticks, m.mapId);
        Done(WithSession(c, w.0), w.1)
      case NotCurrent => Done(c, [])
      case Current => StoreUpdate(c, env, m)
  }

  /** The block of an update whose map id passed its guard, when it is in range. */
  predicate InRangeBlock(c: Client, m: Update) {
    m.mapId < |c.loader.blockSizes| && 0 <= ToI32(m.block) < BlockCount32(c.loader.blockSizes[m.mapId])
  }

  /** The update reaches the store write for bound files of the current map. */
  predicate Reaches(c: Client, env: Env, m: Update)
    requires WellFormed(c)
  {
    && c.live.Some? && m.packetLength >= MinUpdateLength && LongEnough(m)
    && CheckMapId(c.live.value, env, m.mapId) == Current
    && TotalLength(m.count) <= |m.body|
    && InRangeBlock(c, m)
    && c.live.value.store.value.files[m.mapId].Some?
  }

  /** The rest of the update, once the map id has passed its guard. */
  function StoreUpdate(c: Client, env: Env, m: Update): Outcome
    requires WellFormed(c) && c.live.Some? && c.live.value.store.Some?
    requires m.mapId < |c.live.value.store.value.files|
  {
    var s := c.live.value;
    var store := s.store.value;
    var totallen := TotalLength(m.count);
    if totallen > |m.body| then Threw(c, ReadPastPacket)
    else if ToI32(m.block) >= 0 && m.mapId >= |c.loader.blockSizes| then Threw(c, IndexOutOfRange)
    else if !InRangeBlock(c, m) then Done(c, [])
    else if store.files[m.mapId].None? then Threw(c, NullReference)
    else
      var block := ToI32(m.block);
      var f := store.files[m.mapId].value;
      if totallen <= 0 then
        var f' := f.(index := WriteRecord(f.index, block, EmptyRecord));
        var s' := s.(store := Some(store.(files := store.files[m.mapId := Some(f')])));
        Invalidate(c, s', m.mapId, block, [RefreshMinimap])
      else
        var data := m.body[..totallen];
        var placed := Placement(ReadRecord(f.index, block), store.eof[m.mapId], totallen);
        var lookup := placed.0;
        var grown := s.(store := Some(store.(eof := store.eof[m.mapId := placed.1])));
        if lookup as int + totallen > |f.statics| then Threw(WithSession(c, grown), WriteOutOfRange)
        else
          var f'' := WriteStatics(f, block, lookup, data);
          var s' := s.(store := Some(Store(
            store.files[m.mapId := Some(f'')],
            store.eof[m.mapId := placed.1],
            store.queue + [PendingWrite(m.mapId, lookup as nat, data)])));
          if block >= |env.chunks| then Threw(WithSession(c, s'), IndexOutOfRange)
          else if !env.chunks[block] then Done(WithSession(c, s'), [])
          else
            Invalidate(c, s', m.mapId, block,
              [Reindex(m.mapId, block, ReloadBlock(f'', block)), ReloadChunk(block), RefreshMinimap])
  }

  // ---------------------------------------------------------------------------
  // What an update does to the store
  // ---------------------------------------------------------------------------

  /**
   The files after `data` is written into the statics pool at `lookup` and
   the block's index record is rewritten to name it: the offset, then the
   length, both little-endian, with the reserved word untouched.
   */
  function WriteStatics(f: MapFiles, block: nat, lookup: u32, data: seq<byte>): (f': MapFiles)
    requires HasRecord(f.index, block)
    requires lookup as int + |data| <= |f.statics| && |data| < TwoTo32
    ensures f'.terrain == f.terrain && |f'.index| == |f.index| && |f'.statics| == |f.statics|
    ensures ReadRecord(f'.index, block) == IndexRecord(lookup, |data|)
  {
    var f' := f.(statics := Overwrite(f.statics, lookup, data));
    f'.(index := WriteRecord(f'.index, block, IndexRecord(lookup, |data|)))
  }

  /**
   After the write the record reads back as (slot, length), the payload sits
   at the slot, nothing else in the three regions changes, and reloading the
   block points at exactly those statics, at most 1024 of them.
   */
  lemma WriteStaticsRoundTrip(f: MapFiles, block: nat, lookup: u32, data: seq<byte>, other: nat)
    requires HasRecord(f.index, block) && HasRecord(f.index, other) && other != block
    requires lookup as int + |data| <= |f.statics| && 0 < |data| < TwoTo32
    requires lookup != NoStatics
    ensures var f' := WriteStatics(f, block, lookup, data);
      && f'.terrain == f.terrain
      && |f'.index| == |f.index| && |f'.statics| == |f.statics|
      && HasRecord(f'.index, block) && ReadRecord(f'.index, block) == IndexRecord(lookup, |data|)
      && HasRecord(f'.index, other) && ReadRecord(f'.index, other) == ReadRecord(f.index, other)
      && f'.statics[lookup..lookup as int + |data|] == data
      && (forall i | 0 <= i < |f.statics| && !(lookup <= i < lookup as int + |data|) :: f'.statics[i] == f.statics[i])
      && ReloadBlock(f', block).staticsOffset == Some(lookup as nat)
      && ReloadBlock(f', block).staticsCount == Min(|data| / StaticRecordSize, MaxReloadedStatics)
  {
    var f1 := f.(statics := Overwrite(f.statics, lookup, data));
    WriteRecordKeepsOthers(f1.index, block, IndexRecord(lookup, |data|), other);
    assert WriteStatics(f, block, lookup, data).statics[lookup..lookup as int + |data|] == data;
  }

  /**
   The block's checksum then covers the 192 tile bytes followed by exactly the
   new payload, provided the payload ends before the pool's last byte (which
   the bounds-checked copy never reads).
   */
  lemma WriteStaticsChecksumInput(f: MapFiles, block: nat, lookup: u32, data: seq<byte>)
    requires HasRecord(f.index, block)
    requires lookup as int + |data| < |f.statics| && 0 < |data| < 0x8000_0000
    requires lookup != NoStatics
    ensures var f' := WriteStatics(f, block, lookup, data);
      && HasRecord(f'.index, block)
      && ChecksumInput(f', block) == ChecksumInput(f, block)[..LandBlockLength] + data
  {
    var f' := WriteStatics(f, block, lookup, data);
    var f1 := f.(statics := Overwrite(f.statics, lookup, data));
    assert ReadRecord(f'.index, block) == IndexRecord(lookup, |data|);
    SmallToI32(|data|);
    ChecksumInputAt(f, block);
    ChecksumInputAt(f', block);
    var a := ChecksumInput(f', block);
    var b := ChecksumInput(f, block)[..LandBlockLength] + data;
    assert |a| == |b|;
    forall x | 0 <= x < |a|
      ensures a[x] == b[x]
    {
      if x >= LandBlockLength {
        assert f'.statics[lookup as int + x - LandBlockLength] == data[x - LandBlockLength];
      }
    }
  }

  /** The files of the updated map before the update. */
  function FilesBefore(c: Client, env: Env, m: Update): MapFiles
    requires WellFormed(c) && Reaches(c, env, m)
  {
    c.live.value.store.value.files[m.mapId].value
  }

  /** The slot the update chooses for a non-empty payload, and the end of file afterwards. */
  function PlacementOf(c: Client, env: Env, m: Update): (u32, u32)
    requires WellFormed(c) && Reaches(c, env, m) && TotalLength(m.count) > 0
  {
    var f := FilesBefore(c, env, m);
    assert HasRecord(f.index, ToI32(m.block));
    Placement(ReadRecord(f.index, ToI32(m.block)), c.live.value.store.value.eof[m.mapId], TotalLength(m.count))
  }

  /**
   A non-empty payload that fits the statics view: it reuses the block's
   recorded slot iff that slot is in use and at least as long, and otherwise
   goes to the end of file, which grows by exactly the payload length (modulo
   2^32). The map's files become `WriteStatics` of the chosen slot, the
   payload joins the mirror queue, and every other map is untouched.
   */
  lemma StaticsUpdateStores(c: Client, env: Env, m: Update)
    requires WellFormed(c) && Reaches(c, env, m) && TotalLength(m.count) > 0
    requires PlacementOf(c, env, m).0 as int + TotalLength(m.count) <= |FilesBefore(c, env, m).statics|
    ensures var before := c.live.value.store.value;
      var f := FilesBefore(c, env, m);
      var block := ToI32(m.block);
      var r := ReadRecord(f.index, block);
      var eof := before.eof[m.mapId];
      var totallen := TotalLength(m.count);
      var data := m.body[..totallen];
      var reuse := r.length >= totallen && r.lookup != NoStatics;
      var lookup: u32 := if reuse then r.lookup else eof;
      && After(OnStaticsUpdate(c, env, m)).live.Some?
      && After(OnStaticsUpdate(c, env, m)).live.value.store == Some(Store(
           before.files[m.mapId := Some(WriteStatics(f, block, lookup, data))],
           before.eof[m.mapId := if reuse then eof else ToU32(eof + totallen)],
           before.queue + [PendingWrite(m.mapId, lookup as nat, data)]))
  {
  }

  /**
   A non-empty payload that does not fit the statics view throws, but the
   end of file has already moved: the pool's bookkeeping advances with
   nothing written.
   */
  lemma StaticsOverflowAdvancesEof(c: Client, env: Env, m: Update)
    requires WellFormed(c) && Reaches(c, env, m) && TotalLength(m.count) > 0
    requires PlacementOf(c, env, m).0 as int + TotalLength(m.count) > |FilesBefore(c, env, m).statics|
    ensures var o := OnStaticsUpdate(c, env, m);
      var before := c.live.value.store.value;
      && o.Threw? && o.exception == WriteOutOfRange
      && o.client.live.Some?
      && o.client.live.value.store == Some(before.(eof := before.eof[m.mapId := PlacementOf(c, env, m).1]))
  {
  }

  /**
   An empty or negative payload length writes the empty record
   `FF FF FF FF 00 00 00 00` and touches neither the statics pool, nor the end
   of file, nor the mirror queue. It then refreshes the minimap and marks
   exactly that block's checksum stale, or throws on a cache never allocated.
   */
  lemma StaticsEmptyPayload(c: Client, env: Env, m: Update)
    requires WellFormed(c) && Reaches(c, env, m) && TotalLength(m.count) <= 0
    ensures var before := c.live.value.store.value;
      var f := FilesBefore(c, env, m);
      var block := ToI32(m.block);
      && After(OnStaticsUpdate(c, env, m)).live.Some?
      && var after := After(OnStaticsUpdate(c, env, m)).live.value.store.value;
      && after.eof == before.eof && after.queue == before.queue
      && after.files[m.mapId].Some?
      && after.files[m.mapId].value.terrain == f.terrain
      && after.files[m.mapId].value.statics == f.statics
      && HasRecord(after.files[m.mapId].value.index, block)
      && ReadRecord(after.files[m.mapId].value.index, block) == EmptyRecord
      && after.files[m.mapId].value.index[RecordOffset(block)..RecordOffset(block) + 8] == [0xFF, 0xFF, 0xFF, 0xFF, 0x00, 0x00, 0x00, 0x00]
    ensures var caches := c.live.value.caches;
      var o := OnStaticsUpdate(c, env, m);
      caches.Some? && caches.value[m.mapId].Some? ==>
        && o.Done? && o.effects == [RefreshMinimap]
        && o.client.live.value.caches ==
             Some(caches.value[m.mapId := Some(caches.value[m.mapId].value[ToI32(m.block) := Stale])])
    ensures var caches := c.live.value.caches;
      var o := OnStaticsUpdate(c, env, m);
      caches.None? || caches.value[m.mapId].None? ==> o.Threw? && o.exception == NullReference
  {
    var f := FilesBefore(c, env, m);
    var block := ToI32(m.block);
    var index' := WriteRecord(f.index, block, EmptyRecord);
    EmptyRecordBytes();
    assert index'[RecordOffset(block)..RecordOffset(block) + 8] == EncodeRecord(EmptyRecord);
  }

  // ---------------------------------------------------------------------------
  // Checksums of the other blocks
  // ---------------------------------------------------------------------------

  /**
   The statics bytes `block`'s checksum reads lie outside `[lo, lo + n)`:
   its record names no statics, or its window ends before or starts after.
   */
  predicate StaticsWindowApart(f: MapFiles, block: nat, lo: nat, n: nat)
    requires HasRecord(f.index, block)
  {
    var r := ReadRecord(f.index, block);
    !StaticsIncluded(f, r) || r.lookup as int + ChecksumLength(r) <= lo || lo + n <= r.lookup as int
  }

  /** Emptying one block's record changes no other block's checksum. */
  lemma EmptyRecordKeepsOtherChecksums(f: MapFiles, block: nat, other: nat)
    requires HasRecord(f.index, block) && HasRecord(f.index, other) && other != block
    ensures var f' := f.(index := WriteRecord(f.index, block, EmptyRecord));
      HasRecord(f'.index, other) && BlockChecksum(f', other) == BlockChecksum(f, other)
  {
    var f' := f.(index := WriteRecord(f.index, block, EmptyRecord));
    WriteRecordKeepsOthers(f.index, block, EmptyRecord, other);
    ChecksumInputAt(f, other);
    ChecksumInputAt(f', other);
    assert ChecksumInput(f', other) == ChecksumInput(f, other);
  }

  /**
   Writing a payload changes no other block's checksum whose statics window
   lies apart from the written slot.
   */
  lemma WriteStaticsKeepsOtherChecksums(f: MapFiles, block: nat, lookup: u32, data: seq<byte>, other: nat)
    requires HasRecord(f.index, block) && HasRecord(f.index, other) && other != block
    requires lookup as int + |data| <= |f.statics| && |data| < TwoTo32
    requires StaticsWindowApart(f, other, lookup, |data|)
    ensures var f' := WriteStatics(f, block, lookup, data);
      HasRecord(f'.index, other) && BlockChecksum(f', other) == BlockChecksum(f, other)
  {
    var f' := WriteStatics(f, block, lookup, data);
    var f1 := f.(statics := Overwrite(f.statics, lookup, data));
    WriteRecordKeepsOthers(f1.index, block, IndexRecord(lookup, |data|), other);
    var r := ReadRecord(f.index, other);
    assert ReadRecord(f'.index, other) == r;
    ChecksumInputAt(f, other);
    ChecksumInputAt(f', other);
    var a := ChecksumInput(f', other);
    var b := ChecksumInput(f, other);
    forall x | 0 <= x < |a|
      ensures a[x] == b[x]
    {
      if x >= LandBlockLength && StaticsIncluded(f, r) {
        assert !(lookup <= r.lookup as int + x - LandBlockLength < lookup as int + |data|);
      }
    }
    assert a == b;
  }

  /**
   An emptied block's update keeps the map's cache coherent with its files:
   the block is marked stale and no other checksum moves.
   */
  lemma StaticsEmptyKeepsCacheCoherent(c: Client, env: Env, m: Update)
    requires WellFormed(c) && Reaches(c, env, m) && TotalLength(m.count) <= 0
    requires c.live.value.caches.Some? && c.live.value.caches.value[m.mapId].Some?
    requires Coherent(FilesBefore(c, env, m), c.live.value.caches.value[m.mapId].value)
    ensures var s' := After(OnStaticsUpdate(c, env, m)).live.value;
      && s'.store.Some? && m.mapId < |s'.store.value.files| && s'.store.value.files[m.mapId].Some?
      && s'.caches.Some? && m.mapId < |s'.caches.value| && s'.caches.value[m.mapId].Some?
      && Coherent(s'.store.value.files[m.mapId].value, s'.caches.value[m.mapId].value)
  {
    StaticsEmptyPayload(c, env, m);
    var f := FilesBefore(c, env, m);
    var block := ToI32(m.block);
    var cache := c.live.value.caches.value[m.mapId].value;
    var f' := f.(index := WriteRecord(f.index, block, EmptyRecord));
    var cache' := cache[block := Stale];
    forall i | 0 <= i < |cache'| && cache'[i] != Stale
      ensures cache'[i] == BlockChecksum(f', i)
    {
      EmptyRecordKeepsOtherChecksums(f, block, i);
    }
  }

  /**
   A stored payload whose chunk is loaded keeps the map's cache coherent,
   provided the written slot overlaps the statics window of no other block
   the cache still holds a checksum for: the source marks only the updated
   block stale.
   */
  lemma StaticsPayloadKeepsCacheCoherent(c: Client, env: Env, m: Update)
    requires WellFormed(c) && StoresPayload(c, env, m) && env.chunks[ToI32(m.block)]
    requires c.live.value.caches.Some? && c.live.value.caches.value[m.mapId].Some?
    requires Coherent(FilesBefore(c, env, m), c.live.value.caches.value[m.mapId].value)
    requires var cache := c.live.value.caches.value[m.mapId].value;
      forall i | 0 <= i < |cache| && i != ToI32(m.block) && cache[i] != Stale ::
        StaticsWindowApart(FilesBefore(c, env, m), i, PlacementOf(c, env, m).0 as nat, TotalLength(m.count))
    ensures var s' := After(OnStaticsUpdate(c, env, m)).live.value;
      && s'.store.Some? && m.mapId < |s'.store.value.files| && s'.store.value.files[m.mapId].Some?
      && s'.caches.Some? && m.mapId < |s'.caches.value| && s'.caches.value[m.mapId].Some?
      && Coherent(s'.store.value.files[m.mapId].value, s'.caches.value[m.mapId].value)
  {
    StaticsUpdateReloadsAndInvalidates(c, env, m);
    var f := FilesBefore(c, env, m);
    var block := ToI32(m.block);
    var cache := c.live.value.caches.value[m.mapId].value;
    var lookup := PlacementOf(c, env, m).0;
    var data := m.body[..TotalLength(m.count)];
    var f' := WriteStatics(f, block, lookup, data);
    var cache' := cache[block := Stale];
    assert After(OnStaticsUpdate(c, env, m)).live.value.store.value.files[m.mapId] == Some(f');
    forall i | 0 <= i < |cache'| && cache'[i] != Stale
      ensures cache'[i] == BlockChecksum(f', i)
    {
      WriteStaticsKeepsOtherChecksums(f, block, lookup, data, i);
    }
  }

  // ---------------------------------------------------------------------------
  // Reload, invalidation and the null-chunk return
  // ---------------------------------------------------------------------------

  /** The update stores a non-empty payload that fits, for a block inside the chunk table. */
  predicate StoresPayload(c: Client, env: Env, m: Update)
    requires WellFormed(c)
  {
    && Reaches(c, env, m) && TotalLength(m.count) > 0
    && PlacementOf(c, env, m).0 as int + TotalLength(m.count) <= |FilesBefore(c, env, m).statics|
    && ToI32(m.block) < |env.chunks|
  }

  /**
   When the block's chunk is loaded and the map's cache allocated, the update
   reindexes the block from the rewritten record, reloads the chunk, refreshes
   the minimap and marks exactly that block's checksum stale.
   */
  lemma StaticsUpdateReloadsAndInvalidates(c: Client, env: Env, m: Update)
    requires WellFormed(c) && StoresPayload(c, env, m)
    requires env.chunks[ToI32(m.block)]
    requires c.live.value.caches.Some? && c.live.value.caches.value[m.mapId].Some?
    ensures var o := OnStaticsUpdate(c, env, m);
      var block := ToI32(m.block);
      var cache := c.live.value.caches.value[m.mapId].value;
      var f' := After(o).live.value.store.value.files[m.mapId].value;
      && o.Done?
      && o.client.live.Some? && o.client.live.value.store.Some?
      && m.mapId < |o.client.live.value.store.value.files| && o.client.live.value.store.value.files[m.mapId].Some?
      && o.effects == [Reindex(m.mapId, block, ReloadBlock(f', block)), ReloadChunk(block), RefreshMinimap]
      && o.client.live.value.caches == Some(c.live.value.caches.value[m.mapId := Some(cache[block := Stale])])
  {
  }

  /**
   When the block's chunk is not loaded the handler returns right after the
   store write: no reload, no minimap refresh, and the cached checksum is left
   as it was although the block's statics changed.
   */
  lemma StaticsUpdateNullChunk(c: Client, env: Env, m: Update)
    requires WellFormed(c) && StoresPayload(c, env, m)
    requires !env.chunks[ToI32(m.block)]
    ensures var o := OnStaticsUpdate(c, env, m);
      && o.Done? && o.effects == []
      && o.client.live.Some? && o.client.live.value.caches == c.live.value.caches
  {
  }

  /**
   A block number outside the map, read as a signed int, changes nothing at
   all, once the map id has been accepted.
   */
  lemma StaticsUpdateOutOfRange(c: Client, env: Env, m: Update)
    requires WellFormed(c) && c.live.Some? && m.packetLength >= MinUpdateLength && LongEnough(m)
    requires CheckMapId(c.live.value, env, m.mapId) == Current && TotalLength(m.count) <= |m.body|
    requires m.mapId < |c.loader.blockSizes| && !InRangeBlock(c, m)
    ensures OnStaticsUpdate(c, env, m) == Done(c, [])
  {
  }

  /** The update never touches the loader and keeps a client well-formed. */
  lemma StaticsUpdateKeepsWellFormed(c: Client, env: Env, m: Update)
    requires WellFormed(c)
    ensures After(OnStaticsUpdate(c, env, m)).loader == c.loader
    ensures WellFormed(After(OnStaticsUpdate(c, env, m)))
  {
    if c.live.Some? && m.packetLength >= MinUpdateLength && LongEnough(m) && CheckMapId(c.live.value, env, m.mapId) == Current {
      assert OnStaticsUpdate(c, env, m) == StoreUpdate(c, env, m);
      StoreUpdateKeepsWellFormed(c, env, m);
    }
  }

  lemma StoreUpdateKeepsWellFormed(c: Client, env: Env, m: Update)
    requires WellFormed(c) && c.live.Some? && m.packetLength >= MinUpdateLength && LongEnough(m)
    requires CheckMapId(c.live.value, env, m.mapId) == Current
    ensures After(StoreUpdate(c, env, m)).loader == c.loader
    ensures WellFormed(After(StoreUpdate(c, env, m)))
  {
    if !Reaches(c, env, m) {
      UnreachedKeepsClient(c, env, m);
    } else if TotalLength(m.count) <= 0 {
      EmptyPayloadKeepsWellFormed(c, env, m);
    } else {
      PayloadKeepsWellFormed(c, env, m);
    }
  }

  lemma UnreachedKeepsClient(c: Client, env: Env, m: Update)
    requires WellFormed(c) && c.live.Some? && m.packetLength >= MinUpdateLength && LongEnough(m)
    requires CheckMapId(c.live.value, env, m.mapId) == Current
    requires !Reaches(c, env, m)
    ensures After(StoreUpdate(c, env, m)) == c
  {
  }

  lemma EmptyPayloadKeepsWellFormed(c: Client, env: Env, m: Update)
    requires WellFormed(c) && Reaches(c, env, m) && TotalLength(m.count) <= 0
    ensures After(StoreUpdate(c, env, m)).loader == c.loader
    ensures WellFormed(After(StoreUpdate(c, env, m)))
  {
    var s := c.live.value;
    var store := s.store.value;
    var f := store.files[m.mapId].value;
    var block := ToI32(m.block);
    var f' := f.(index := WriteRecord(f.index, block, EmptyRecord));
    ReplaceFilesFits(s, c.loader, m.mapId, f', store.eof, store.queue);
    var s' := s.(store := Some(Store(store.files[m.mapId := Some(f')], store.eof, store.queue)));
    assert s' == s.(store := Some(store.(files := store.files[m.mapId := Some(f')])));
    if s.caches.Some? && s.caches.value[m.mapId].Some? {
      MarkStaleFits(s', c.loader, m.mapId, block);
    }
  }

  lemma PayloadKeepsWellFormed(c: Client, env: Env, m: Update)
    requires WellFormed(c) && Reaches(c, env, m) && TotalLength(m.count) > 0
    ensures After(StoreUpdate(c, env, m)).loader == c.loader
    ensures WellFormed(After(StoreUpdate(c, env, m)))
  {
    var s := c.live.value;
    var store := s.store.value;
    var f := store.files[m.mapId].value;
    var block := ToI32(m.block);
    var p := PlacementOf(c, env, m);
    if p.0 as int + TotalLength(m.count) <= |f.statics| {
      var data := m.body[..TotalLength(m.count)];
      var f' := WriteStatics(f, block, p.0, data);
      var eof' := store.eof[m.mapId := p.1];
      var queue' := store.queue + [PendingWrite(m.mapId, p.0 as nat, data)];
      var s' := s.(store := Some(Store(store.files[m.mapId := Some(f')], eof', queue')));
      ReplaceFilesFits(s, c.loader, m.mapId, f', eof', queue');
      if s.caches.Some? && s.caches.value[m.mapId].Some? {
        MarkStaleFits(s', c.loader, m.mapId, block);
      }
    }
  }
}
