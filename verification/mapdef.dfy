/**
 The map definition (sub-command 0x01): the server lists the maps it serves,
 9 bytes per map (id, real width and height, wrap width and height). The
 client resets its checksum caches and wrap geometry, records each map's
 clamped geometry, and rebuilds its store when the list names a map it did
 not know or grows.
 */
module MapDefinition {
  import opened Base
  import opened Geometry
  import opened Session

  /** The shortest map definition accepted before its map count is known. */
  const MinDefinitionLength := 15

  /** The bytes one map takes in the message. */
  const EntrySize := 9

  /**
   A decoded map definition: the message length, the length word at offset 7,
   and the 9-byte entries that follow offset 15.
   */
  datatype MapDef = MapDef(packetLength: nat, declared: u32, entries: seq<MapEntry>)

  /** `maps`: the length word times 7, then divided by 9, both in unsigned 32-bit arithmetic. */
  function MapCount(declared: u32): (maps: u32)
    ensures maps * EntrySize <= ToU32(declared * 7) < maps * EntrySize + EntrySize
    ensures declared * 7 < TwoTo32 ==> maps == declared * 7 / EntrySize
    ensures maps <= TwoTo32 / EntrySize
  {
    ToU32(declared * 7) / EntrySize
  }

  // ---------------------------------------------------------------------------
  // The entry loop
  // ---------------------------------------------------------------------------

  /** The loop's end: the maps it listed and the geometry table, or the exception that cut it short. */
  datatype Defined =
    | Listed(valid: seq<nat>, geometry: seq<WrapSize>)
    | Stopped(geometry: seq<WrapSize>, exception: Exception)

  /**
   Reads `count` entries: each map id is listed, then its row of the geometry
   table is set to the entry clamped against `map0`. An id past the table
   throws (after being listed, which the exception discards); so does
   running out of entries.
   */
  function DefineMaps(map0: Extent, entries: seq<MapEntry>, count: nat, geometry: seq<WrapSize>): (r: Defined)
    requires map0.width < 0x1_0000 && map0.height < 0x1_0000
    requires |geometry| == MapSlots
    ensures |r.geometry| == MapSlots
    ensures r.Stopped? ==> r.exception == ReadPastPacket || r.exception == IndexOutOfRange
    decreases count
  {
    if count == 0 then Listed([], geometry)
    else if |entries| == 0 then Stopped(geometry, ReadPastPacket)
    else if entries[0].mapId >= MapSlots then Stopped(geometry, IndexOutOfRange)
    else
      var rest := DefineMaps(map0, entries[1..], count - 1, geometry[entries[0].mapId := ClampEntry(map0, entries[0])]);
      if rest.Stopped? then rest else Listed([entries[0].mapId as nat] + rest.valid, rest.geometry)
  }

  /** The loop completes iff the message has `count` entries and every listed id fits the 127-slot table. */
  lemma {:induction false} DefineMapsIff(map0: Extent, entries: seq<MapEntry>, count: nat, geometry: seq<WrapSize>)
    requires map0.width < 0x1_0000 && map0.height < 0x1_0000
    requires |geometry| == MapSlots
    ensures DefineMaps(map0, entries, count, geometry).Listed? <==>
      count <= |entries| && forall i | 0 <= i < count :: entries[i].mapId < MapSlots
    decreases count
  {
    if count > 0 && |entries| > 0 && entries[0].mapId < MapSlots {
      var tail := entries[1..];
      DefineMapsIff(map0, tail, count - 1, geometry[entries[0].mapId := ClampEntry(map0, entries[0])]);
      assert forall i | 1 <= i < count && i < |entries| :: entries[i] == tail[i - 1];
      if count <= |entries| && forall i | 0 <= i < count - 1 :: tail[i].mapId < MapSlots {
        assert forall i | 0 <= i < count :: i == 0 || entries[i] == tail[i - 1];
      }
    }
  }

  /**
   A completed loop lists the ids of the first `count` entries in message
   order, duplicates included.
   */
  lemma {:induction false} DefineMapsValid(map0: Extent, entries: seq<MapEntry>, count: nat, geometry: seq<WrapSize>)
    requires map0.width < 0x1_0000 && map0.height < 0x1_0000
    requires |geometry| == MapSlots
    ensures var r := DefineMaps(map0, entries, count, geometry);
      r.Listed? ==> count <= |entries| && r.valid == ListedIds(entries, count)
    decreases count
  {
    var r := DefineMaps(map0, entries, count, geometry);
    if count > 0 && r.Listed? {
      var tail := entries[1..];
      DefineMapsValid(map0, tail, count - 1, geometry[entries[0].mapId := ClampEntry(map0, entries[0])]);
      assert ListedIds(entries, count) == [entries[0].mapId as nat] + ListedIds(tail, count - 1);
    }
  }

  /** A completed loop leaves every row that no entry names as it was. */
  lemma {:induction false} DefineMapsUnlisted(map0: Extent, entries: seq<MapEntry>, count: nat, geometry: seq<WrapSize>, j: nat)
    requires map0.width < 0x1_0000 && map0.height < 0x1_0000
    requires |geometry| == MapSlots && j < MapSlots
    requires forall i | 0 <= i < count && i < |entries| :: entries[i].mapId != j
    ensures DefineMaps(map0, entries, count, geometry).geometry[j] == geometry[j]
    decreases count
  {
    if count > 0 && |entries| > 0 && entries[0].mapId < MapSlots {
      var tail := entries[1..];
      assert forall i | 0 <= i < count - 1 && i < |tail| :: tail[i] == entries[i + 1];
      DefineMapsUnlisted(map0, tail, count - 1, geometry[entries[0].mapId := ClampEntry(map0, entries[0])], j);
    }
  }

  /**
   Each listed row holds the clamp of the last entry naming it, even when
   the loop throws later: no later entry touches that row.
   */
  lemma {:induction false} DefineMapsLastWins(map0: Extent, entries: seq<MapEntry>, count: nat, geometry: seq<WrapSize>, i: nat)
    requires map0.width < 0x1_0000 && map0.height < 0x1_0000
    requires |geometry| == MapSlots
    requires i < count && i < |entries|
    requires forall k | 0 <= k <= i :: entries[k].mapId < MapSlots
    requires forall k | i < k < count && k < |entries| :: entries[k].mapId != entries[i].mapId
    ensures DefineMaps(map0, entries, count, geometry).geometry[entries[i].mapId] == ClampEntry(map0, entries[i])
    decreases count
  {
    var tail := entries[1..];
    if entries[0].mapId < MapSlots {
      var g := geometry[entries[0].mapId := ClampEntry(map0, entries[0])];
      if i == 0 {
        assert forall k | 0 <= k < count - 1 && k < |tail| :: tail[k].mapId != entries[0].mapId by {
          forall k | 0 <= k < count - 1 && k < |tail| ensures tail[k].mapId != entries[0].mapId {
            assert tail[k] == entries[k + 1];
          }
        }
        DefineMapsUnlisted(map0, tail, count - 1, g, entries[0].mapId);
      } else {
        assert entries[i] == tail[i - 1];
        assert forall k | i - 1 < k < count - 1 && k < |tail| :: tail[k].mapId != tail[i - 1].mapId by {
          forall k | i - 1 < k < count - 1 && k < |tail| ensures tail[k].mapId != tail[i - 1].mapId {
            assert tail[k] == entries[k + 1];
          }
        }
        DefineMapsLastWins(map0, tail, count - 1, g, i - 1);
      }
    }
  }

  /** Whether it completes or not, the loop leaves every wrap size within its real size. */
  lemma {:induction false} DefineMapsWithinReal(map0: Extent, entries: seq<MapEntry>, count: nat, geometry: seq<WrapSize>)
    requires map0.width < 0x1_0000 && map0.height < 0x1_0000
    requires |geometry| == MapSlots
    requires forall j | 0 <= j < MapSlots :: WrapWithinReal(geometry[j])
    ensures forall j | 0 <= j < MapSlots :: WrapWithinReal(DefineMaps(map0, entries, count, geometry).geometry[j])
    decreases count
  {
    if count > 0 && |entries| > 0 && entries[0].mapId < MapSlots {
      DefineMapsWithinReal(map0, entries[1..], count - 1, geometry[entries[0].mapId := ClampEntry(map0, entries[0])]);
    }
  }

  // ---------------------------------------------------------------------------
  // The rebuild
  // ---------------------------------------------------------------------------

  /**
   The rebuild test: no maps known yet, more maps listed than known, or a
   listed map that is not known.
   */
  predicate Rebuilds(known: seq<nat>, valid: seq<nat>) {
    |known| == 0 || |valid| > |known| || exists i | 0 <= i < |valid| :: valid[i] !in known
  }

  /**
   The new loader: a default-size table of 127 rows extended from the base
   table, and block sizes of `size >> 3` for the listed maps.
   */
  function BuildLoader(base: seq<Extent>, valid: seq<nat>): (l: Loader)
    requires |base| > 0
    ensures |l.defaultSizes| == MapSlots && |l.blockSizes| == MapSlots
    ensures forall i | 0 <= i < MapSlots && i !in valid :: l.blockSizes[i] == Extent(0, 0)
    ensures forall i | 0 <= i < MapSlots && i in valid :: l.blockSizes[i] == BlockExtent(l.defaultSizes[i])
  {
    Loader(ExtendDefaultSizes(base, MapSlots), ListedBlockSizes(ExtendDefaultSizes(base, MapSlots), valid))
  }

  /** `MapBlocksSize` after a load: `size >> 3` for the listed maps, nothing for the others. */
  function ListedBlockSizes(sizes: seq<Extent>, valid: seq<nat>): seq<Extent>
    requires |sizes| == MapSlots
  {
    seq(MapSlots, i requires 0 <= i < MapSlots => if i in valid then BlockExtent(sizes[i]) else Extent(0, 0))
  }

  /**
   The store bound after a rebuild: the loaded files of the listed maps and
   null for every other slot, the loaded end-of-file offsets of the listed
   maps and 0 for the others, and the new writer's empty queue.
   */
  function BindFiles(valid: seq<nat>, ls: LoadedStore): (st: Store)
    ensures |st.files| == MapSlots && |st.eof| == MapSlots && st.queue == []
    ensures forall i | 0 <= i < MapSlots && i !in valid :: st.files[i].None? && st.eof[i] == 0
    ensures forall i | 0 <= i < MapSlots && i in valid && i < |ls.files| :: st.files[i] == ls.files[i]
  {
    Store(
      seq(MapSlots, i requires 0 <= i < MapSlots => if i in valid && i < |ls.files| then ls.files[i] else None),
      seq(MapSlots, i requires 0 <= i < MapSlots => if i in valid && i < |ls.eof| then ls.eof[i] else 0),
      [])
  }

  // ---------------------------------------------------------------------------
  // The handler
  // ---------------------------------------------------------------------------

  /** The caches as the handler resets them: 127 null caches. */
  function NoCaches(): (caches: seq<Option<seq<u16>>>)
    ensures |caches| == MapSlots
  {
    seq(MapSlots, _ => None)
  }

  /** The geometry table as the handler resets it: 127 zero rows. */
  function NoGeometry(): (geometry: seq<WrapSize>)
    ensures |geometry| == MapSlots
  {
    seq(MapSlots, _ => NoWrapSize)
  }

  /**
   Sub-command 0x01. Ignored without a session, with an empty shard name, or
   for a message short of its header or of its `maps` entries. Creating a
   missing shard directory may throw, which keeps the session; when it
   returns without the directory existing, the session ends.
   */
  function OnMapDefinition(c: Client, env: Env, m: MapDef): Outcome
    requires WellFormed(c)
  {
    if c.live.None? then Done(c, [])
    else
      var s := c.live.value;
      if s.shardName == "" || m.packetLength < MinDefinitionLength then Done(c, [])
      else if env.shardDirectory.DirectoryCreateFails? then Threw(c, IOFailure)
      else if env.shardDirectory.DirectoryAbsent? then Done(c.(live := None), [])
      else
        var maps := MapCount(m.declared);
        if m.packetLength < ToU32(maps * EntrySize + MinDefinitionLength) then Done(c, [])
        else
          var r := DefineMaps(CastExtent(c.loader.defaultSizes[0]), m.entries, maps, NoGeometry());
          var defined := s.(caches := Some(NoCaches()), geometry := Some(r.geometry));
          if r.Stopped? then Threw(WithSession(c, defined), r.exception)
          else if !Rebuilds(s.validMaps, r.valid) then Done(WithSession(c, defined), [])
          else Rebuild(c, env, defined.(validMaps := r.valid))
  }

  /**
   The rebuild once the listed maps are the valid maps: a new loader whose
   size table is extended from the base table (which throws when that table
   is empty), the store bootstrap, and the files it bound for the valid maps.
   */
  function Rebuild(c: Client, env: Env, listed: Session): Outcome {
    if |env.baseSizes| == 0 then Threw(WithSession(c, listed), IndexOutOfRange)
    else if env.load.None? then Threw(WithSession(c, listed), LoadFailed)
    else Done(Client(Some(listed.(store := Some(BindFiles(listed.validMaps, env.load.value)))), BuildLoader(env.baseSizes, listed.validMaps)), [])
  }

  /** The message passes every guard before the entry loop. */
  predicate Accepted(c: Client, env: Env, m: MapDef) {
    && c.live.Some? && c.live.value.shardName != "" && m.packetLength >= MinDefinitionLength
    && env.shardDirectory.DirectoryPresent?
    && m.packetLength >= ToU32(MapCount(m.declared) * EntrySize + MinDefinitionLength)
  }

  /** The map ids of the first `count` entries, which the loop lists when it completes. */
  function ListedIds(entries: seq<MapEntry>, count: nat): (ids: seq<nat>)
    requires count <= |entries|
    ensures |ids| == count
  {
    seq(count, i requires 0 <= i < count => entries[i].mapId as nat)
  }

  /**
   A session with no shard name, or a short message, changes nothing; a
   shard directory that cannot be created throws with the session kept, and
   one that is still absent after creation ends the session.
   */
  lemma MapDefinitionGuards(c: Client, env: Env, m: MapDef)
    requires WellFormed(c) && c.live.Some?
    ensures c.live.value.shardName == "" || m.packetLength < MinDefinitionLength ==>
      OnMapDefinition(c, env, m) == Done(c, [])
    ensures c.live.value.shardName != "" && m.packetLength >= MinDefinitionLength && env.shardDirectory.DirectoryCreateFails? ==>
      OnMapDefinition(c, env, m) == Threw(c, IOFailure)
    ensures c.live.value.shardName != "" && m.packetLength >= MinDefinitionLength && env.shardDirectory.DirectoryAbsent? ==>
      OnMapDefinition(c, env, m) == Done(c.(live := None), [])
    ensures c.live.value.shardName != "" && m.packetLength >= MinDefinitionLength && env.shardDirectory.DirectoryPresent?
      && m.packetLength < ToU32(MapCount(m.declared) * EntrySize + MinDefinitionLength)
      ==> OnMapDefinition(c, env, m) == Done(c, [])
  {
    if c.live.value.shardName != "" && m.packetLength >= MinDefinitionLength && env.shardDirectory.DirectoryPresent?
      && m.packetLength < ToU32(MapCount(m.declared) * EntrySize + MinDefinitionLength)
    {
      assert OnMapDefinition(c, env, m) == Done(c, []);
    }
  }

  /**
   An accepted definition always resets every checksum cache to null. When
   the message lacks entries or lists an id past the 127-slot table the loop
   throws, and the valid maps, the loader and the store stay as they were.
   */
  lemma MapDefinitionResets(c: Client, env: Env, m: MapDef)
    requires WellFormed(c) && Accepted(c, env, m)
    ensures var o := OnMapDefinition(c, env, m);
      var maps := MapCount(m.declared);
      && After(o).live.Some?
      && After(o).live.value.caches == Some(NoCaches())
      && (!(maps <= |m.entries| && forall i | 0 <= i < maps :: m.entries[i].mapId < MapSlots) ==>
            && o.Threw? && o.exception in {ReadPastPacket, IndexOutOfRange}
            && After(o).loader == c.loader
            && After(o).live.value.validMaps == c.live.value.validMaps
            && After(o).live.value.store == c.live.value.store)
  {
    DefineMapsIff(CastExtent(c.loader.defaultSizes[0]), m.entries, MapCount(m.declared), NoGeometry());
  }

  /**
   When the loop completes, each listed map's geometry row is its last
   entry clamped against map 0's default size, and every other row is zero.
   */
  lemma MapDefinitionGeometry(c: Client, env: Env, m: MapDef)
    requires WellFormed(c) && Accepted(c, env, m)
    requires MapCount(m.declared) <= |m.entries|
    requires forall i | 0 <= i < MapCount(m.declared) :: m.entries[i].mapId < MapSlots
    ensures var g := After(OnMapDefinition(c, env, m)).live.value.geometry;
      var maps := MapCount(m.declared);
      var map0 := CastExtent(c.loader.defaultSizes[0]);
      && After(OnMapDefinition(c, env, m)).live.Some?
      && g.Some? && |g.value| == MapSlots
      && (forall j | 0 <= j < MapSlots && (forall i | 0 <= i < maps :: m.entries[i].mapId != j) :: g.value[j] == NoWrapSize)
      && (forall i | 0 <= i < maps && (forall k | i < k < maps :: m.entries[k].mapId != m.entries[i].mapId) ::
            g.value[m.entries[i].mapId] == ClampEntry(map0, m.entries[i]))
  {
    var map0 := CastExtent(c.loader.defaultSizes[0]);
    var maps := MapCount(m.declared);
    DefineMapsIff(map0, m.entries, maps, NoGeometry());
    forall j | 0 <= j < MapSlots && (forall i | 0 <= i < maps :: m.entries[i].mapId != j)
      ensures DefineMaps(map0, m.entries, maps, NoGeometry()).geometry[j] == NoWrapSize
    {
      DefineMapsUnlisted(map0, m.entries, maps, NoGeometry(), j);
    }
    forall i | 0 <= i < maps && (forall k | i < k < maps :: m.entries[k].mapId != m.entries[i].mapId)
      ensures DefineMaps(map0, m.entries, maps, NoGeometry()).geometry[m.entries[i].mapId] == ClampEntry(map0, m.entries[i])
    {
      DefineMapsLastWins(map0, m.entries, maps, NoGeometry(), i);
    }
  }

  /**
   A completed loop rebuilds iff `Rebuilds` holds of the known and the listed
   maps. Without a rebuild the valid maps, the loader and the store stay;
   with one the listed maps become the valid maps, the loader is rebuilt and
   the store binds the loaded files of exactly the listed maps.
   */
  lemma MapDefinitionRebuild(c: Client, env: Env, m: MapDef)
    requires WellFormed(c) && Accepted(c, env, m)
    requires MapCount(m.declared) <= |m.entries|
    requires forall i | 0 <= i < MapCount(m.declared) :: m.entries[i].mapId < MapSlots
    requires |env.baseSizes| > 0 && env.load.Some?
    ensures var o := OnMapDefinition(c, env, m);
      var valid := ListedIds(m.entries, MapCount(m.declared));
      var s := c.live.value;
      && o.Done? && o.effects == [] && o.client.live.Some?
      && (!Rebuilds(s.validMaps, valid) ==>
            && o.client.loader == c.loader
            && o.client.live.value.validMaps == s.validMaps
            && o.client.live.value.store == s.store)
      && (Rebuilds(s.validMaps, valid) ==>
            && o.client.loader == BuildLoader(env.baseSizes, valid)
            && o.client.live.value.validMaps == valid
            && o.client.live.value.store == Some(BindFiles(valid, env.load.value)))
  {
    var map0 := CastExtent(c.loader.defaultSizes[0]);
    var maps := MapCount(m.declared);
    var valid := ListedIds(m.entries, maps);
    var s := c.live.value;
    DefineMapsIff(map0, m.entries, maps, NoGeometry());
    DefineMapsValid(map0, m.entries, maps, NoGeometry());
    var r := DefineMaps(map0, m.entries, maps, NoGeometry());
    var defined := s.(caches := Some(NoCaches()), geometry := Some(r.geometry));
    CompletedDefinition(c, env, m);
    if Rebuilds(s.validMaps, valid) {
      RebuildBinds(c, env, defined.(validMaps := valid));
    }
  }

  /** An accepted definition whose loop completes ends in the rebuild decision on the listed maps. */
  lemma CompletedDefinition(c: Client, env: Env, m: MapDef)
    requires WellFormed(c) && Accepted(c, env, m)
    requires DefineMaps(CastExtent(c.loader.defaultSizes[0]), m.entries, MapCount(m.declared), NoGeometry()).Listed?
    ensures var r := DefineMaps(CastExtent(c.loader.defaultSizes[0]), m.entries, MapCount(m.declared), NoGeometry());
      var s := c.live.value;
      var defined := s.(caches := Some(NoCaches()), geometry := Some(r.geometry));
      OnMapDefinition(c, env, m) ==
        if Rebuilds(s.validMaps, r.valid) then Rebuild(c, env, defined.(validMaps := r.valid))
        else Done(WithSession(c, defined), [])
  {
  }

  /** With a base table and a successful bootstrap, the rebuild installs the new loader and binds the loaded files. */
  lemma RebuildBinds(c: Client, env: Env, listed: Session)
    requires |env.baseSizes| > 0 && env.load.Some?
    ensures var o := Rebuild(c, env, listed);
      && o.Done? && o.effects == [] && o.client.live.Some?
      && o.client.loader == BuildLoader(env.baseSizes, listed.validMaps)
      && o.client.live.value.validMaps == listed.validMaps
      && o.client.live.value.store == Some(BindFiles(listed.validMaps, env.load.value))
  {
  }

  /**
   Re-advertising a subset of the known maps, no longer than the known list,
   rebuilds nothing: a map dropped by the server stays bound.
   */
  lemma ReadvertisedSubsetKeepsStore(known: seq<nat>, valid: seq<nat>)
    requires |known| > 0 && |valid| <= |known|
    requires forall i | 0 <= i < |valid| :: valid[i] in known
    ensures !Rebuilds(known, valid)
  {
  }

  /** Any listed map that is not known, or a longer list, or no known maps, forces a rebuild. */
  lemma NewMapRebuilds(known: seq<nat>, valid: seq<nat>, i: nat)
    requires i < |valid| && valid[i] !in known
    ensures Rebuilds(known, valid)
  {
  }

  /**
   Maps 0 and 1, then 0, 1 and 2, then 0 and 1 again: the second list
   rebuilds, the third does not, so map 2 stays a valid map.
   */
  lemma GrowThenShrink()
    ensures Rebuilds([0, 1], [0, 1, 2])
    ensures !Rebuilds([0, 1, 2], [0, 1])
  {
    assert 2 !in [0, 1];
  }

  /**
   The length test counts entries, duplicates included: after maps 0 and 1,
   a list naming map 0 three times rebuilds, and map 1 loses its files.
   */
  lemma DuplicatesUnbindMaps(ls: LoadedStore)
    ensures Rebuilds([0, 1], [0, 0, 0])
    ensures BindFiles([0, 0, 0], ls).files[1] == None
  {
  }

  /**
   The loader a rebuild installs has 127 rows of default sizes, copied from
   the base table and padded with its row 0, and block sizes of `size >> 3`
   for the listed maps only.
   */
  lemma BuildLoaderSizes(base: seq<Extent>, valid: seq<nat>)
    requires |base| > 0
    ensures var l := BuildLoader(base, valid);
      && |l.defaultSizes| == MapSlots && |l.blockSizes| == MapSlots
      && (forall i | 0 <= i < MapSlots :: l.defaultSizes[i] == if i < |base| then base[i] else base[0])
      && (forall i | 0 <= i < MapSlots && i in valid ::
            l.blockSizes[i].width * 8 <= l.defaultSizes[i].width < l.blockSizes[i].width * 8 + 8
            && l.blockSizes[i].height * 8 <= l.defaultSizes[i].height < l.blockSizes[i].height * 8 + 8)
      && (forall i | 0 <= i < MapSlots && i !in valid :: BlockCount(l.blockSizes[i]) == 0)
  {
    var l := BuildLoader(base, valid);
    forall i | 0 <= i < MapSlots && i in valid
      ensures l.blockSizes[i].width * 8 <= l.defaultSizes[i].width < l.blockSizes[i].width * 8 + 8
      ensures l.blockSizes[i].height * 8 <= l.defaultSizes[i].height < l.blockSizes[i].height * 8 + 8
    {
      assert l.blockSizes[i] == BlockExtent(l.defaultSizes[i]);
    }
  }

  /**
   The loaded files fit the loader a rebuild would build from the base
   table: each loaded index region covers its map's blocks.
   */
  predicate LoadFits(env: Env) {
    |env.baseSizes| > 0 && env.load.Some? ==>
      forall i | 0 <= i < MapSlots && i < |env.load.value.files| && env.load.value.files[i].Some? ::
        ChecksumCache.IndexCovers(env.load.value.files[i].value, BlockCount(BlockExtent(ExtendDefaultSizes(env.baseSizes, MapSlots)[i])))
  }

  /** A definition keeps a client well-formed, given files that fit their maps. */
  lemma MapDefinitionKeepsWellFormed(c: Client, env: Env, m: MapDef)
    requires WellFormed(c) && LoadFits(env)
    ensures WellFormed(After(OnMapDefinition(c, env, m)))
  {
    if Accepted(c, env, m) {
      var map0 := CastExtent(c.loader.defaultSizes[0]);
      DefineMapsWithinReal(map0, m.entries, MapCount(m.declared), NoGeometry());
      var r := DefineMaps(map0, m.entries, MapCount(m.declared), NoGeometry());
      if r.Listed? && Rebuilds(c.live.value.validMaps, r.valid) && |env.baseSizes| > 0 && env.load.Some? {
        var l := BuildLoader(env.baseSizes, r.valid);
        var st := BindFiles(r.valid, env.load.value);
        assert FilesFit(st.files, l) by {
          forall i | 0 <= i < MapSlots && st.files[i].Some?
            ensures i < |l.blockSizes| && ChecksumCache.IndexCovers(st.files[i].value, BlockCount(l.blockSizes[i]))
          {
          }
        }
      }
    }
  }
}
