/**
 The live-sync session state the packet handlers work on, and the outcome
 every handler produces.

 The source keeps this state in one static `UltimaLive` instance (`_UL`) and
 in the global map loader; here both are plain values. A handler either
 finishes (`Done`) with the effects it had on the world outside the store, or
 stops with the exception the source would raise (`Threw`), keeping every
 change it made before that point.
 */
module Session {
  import opened Base
  import opened Geometry
  import opened MapStore
  import opened ChecksumCache

  /** The exceptions a handler can stop with. */
  datatype Exception =
    | NullReference     // a field or array element that is still null
    | IndexOutOfRange   // an array index past the end
    | WriteOutOfRange   // a mapped-view write that does not fit the view
    | ReadPastPacket    // a read past the end of the decoded message
    | LoadFailed        // the store bootstrap threw
    | IOFailure         // the file system refused to create a directory

  /** A write queued for the background mirror of the statics file. */
  datatype PendingWrite = PendingWrite(mapId: nat, position: nat, data: seq<byte>)

  /**
   The files bound by the last store rebuild, one slot per map id, with the
   end-of-file offset of each statics pool (`_EOF`) and the mirror queue.
   */
  datatype Store = Store(files: seq<Option<MapFiles>>, eof: seq<u32>, queue: seq<PendingWrite>)

  /** The map loader's size tables, in tiles (`MapsDefaultSize`) and in blocks (`MapBlocksSize`). */
  datatype Loader = Loader(defaultSizes: seq<Extent>, blockSizes: seq<Extent>)

  /**
   One live session. `caches` is `MapCRCs`, `geometry` is `MapSizeWrapSize`;
   both, and the store, are null until the first map definition.
   */
  datatype Session = Session(
    shardName: string,
    displayName: string,
    validMaps: seq<nat>,
    sentWarning: u32,
    caches: Option<seq<Option<seq<u16>>>>,
    geometry: Option<seq<WrapSize>>,
    store: Option<Store>)

  /** The session (null when live sync is off) and the installed map loader. */
  datatype Client = Client(live: Option<Session>, loader: Loader)

  /** The shard directory as a map definition finds it. */
  datatype ShardDirectory =
    | DirectoryPresent      // it exists, or `CreateDirectory` made it
    | DirectoryAbsent       // `CreateDirectory` returned, yet the directory still does not exist
    | DirectoryCreateFails  // `CreateDirectory` threw: permissions, I/O, an invalid path

  /** What the store bootstrap yields: one slot per map id and the statics file lengths. */
  datatype LoadedStore = LoadedStore(files: seq<Option<MapFiles>>, eof: seq<u32>)

  /**
   Everything a handler reads from outside the session: the clock, the world's
   current map and which of its chunks are loaded, the file system, and the
   platform's path rules.
   */
  datatype Env = Env(
    ticks: u32,
    worldMap: Option<nat>,
    chunks: seq<bool>,
    shardDirectory: ShardDirectory,
    baseSizes: seq<Extent>,
    load: Option<LoadedStore>,
    separators: set<char>,
    resolve: string -> Option<string>)

  /** What a handler does to the world outside the session. */
  datatype Effect =
    | HashResponse(queried: u32, mapId: nat, crcs: seq<u16>)
    | WarnUnknownMap(mapId: nat)
    | Reindex(mapId: nat, block: nat, data: BlockData)
    | ReloadChunk(index: nat)
    | RefreshMinimap

  datatype Outcome = Done(client: Client, effects: seq<Effect>) | Threw(client: Client, exception: Exception)

  /** The client a handler leaves behind, whichever way it ends. */
  function After(o: Outcome): Client {
    match o
    case Done(c, _) => c
    case Threw(c, _) => c
  }

  /** Replaces the session and keeps the loader. */
  function WithSession(c: Client, s: Session): Client {
    c.(live := Some(s))
  }

  /** How the map-id guard shared by the hash query and the statics update ends. */
  datatype MapCheck = StoreMissing | Unsupported | NotCurrent | Current

  /**
   The store must exist (the file table is dereferenced for its length), the
   map id must lie inside the file table, and it must be the world's current map.
   */
  function CheckMapId(s: Session, env: Env, mapId: nat): MapCheck {
    if s.store.None? then StoreMissing
    else if mapId >= |s.store.value.files| then Unsupported
    else if env.worldMap != Some(mapId) then NotCurrent
    else Current
  }

  // ---------------------------------------------------------------------------
  // The rate-limited "unknown map" warning
  // ---------------------------------------------------------------------------

  const WarningCooldown := 100000

  /**
   Logs the warning only when the clock has reached the stored deadline, and
   then pushes the deadline 100000 ticks ahead in unsigned 32-bit arithmetic.
   */
  function Warn(s: Session, ticks: u32, mapId: nat): (r: (Session, seq<Effect>))
    ensures r.0.(sentWarning := s.sentWarning) == s
    ensures r.1 == [] || r.1 == [WarnUnknownMap(mapId)]
  {
    if ticks >= s.sentWarning then (s.(sentWarning := ToU32(ticks + WarningCooldown)), [WarnUnknownMap(mapId)])
    else (s, [])
  }

  /**
   The warning is logged iff the deadline has passed; after a warning at
   `ticks` none is logged again before `ticks + 100000`, as long as that sum
   does not wrap.
   */
  lemma WarningRateLimited(s: Session, ticks: u32, later: u32, mapId: nat, other: nat)
    requires ticks + WarningCooldown < TwoTo32
    ensures Warn(s, ticks, mapId).1 != [] <==> ticks >= s.sentWarning
    ensures ticks >= s.sentWarning && ticks <= later < ticks + WarningCooldown ==>
      Warn(Warn(s, ticks, mapId).0, later, other).1 == []
    ensures ticks >= s.sentWarning && later >= ticks + WarningCooldown ==>
      Warn(Warn(s, ticks, mapId).0, later, other).1 == [WarnUnknownMap(other)]
  {
  }

  // ---------------------------------------------------------------------------
  // Reachable states
  // ---------------------------------------------------------------------------

  /** Every allocated cache has one entry per block of its map, as the 32-bit count has it. */
  predicate CachesFit(caches: seq<Option<seq<u16>>>, l: Loader) {
    |caches| == MapSlots &&
    forall i | 0 <= i < MapSlots && caches[i].Some? ::
      i < |l.blockSizes| && |caches[i].value| == BlockCount32(l.blockSizes[i])
  }

  /** Every bound index region holds a record for each block of its map. */
  predicate FilesFit(files: seq<Option<MapFiles>>, l: Loader) {
    |files| == MapSlots &&
    forall i | 0 <= i < MapSlots && files[i].Some? ::
      i < |l.blockSizes| && IndexCovers(files[i].value, BlockCount(l.blockSizes[i]))
  }

  predicate SessionFits(s: Session, l: Loader) {
    && (s.caches.Some? ==> CachesFit(s.caches.value, l))
    && (s.geometry.Some? ==>
         |s.geometry.value| == MapSlots && forall i | 0 <= i < MapSlots :: WrapWithinReal(s.geometry.value[i]))
    && (s.store.Some? ==> FilesFit(s.store.value.files, l) && |s.store.value.eof| == MapSlots)
  }

  /**
   The states the handlers can reach: the loader has a default-size row 0,
   and the session's tables have one slot per map id and fit the loader.
   */
  predicate WellFormed(c: Client) {
    |c.loader.defaultSizes| > 0 &&
    (c.live.Some? ==> SessionFits(c.live.value, c.loader))
  }

  /** Replacing one map's files by files with an index of the same length keeps a store fitting the loader. */
  lemma ReplaceFilesFits(s: Session, l: Loader, mapId: nat, f: MapFiles, eof: seq<u32>, queue: seq<PendingWrite>)
    requires SessionFits(s, l) && s.store.Some? && mapId < MapSlots
    requires s.store.value.files[mapId].Some? && |f.index| == |s.store.value.files[mapId].value.index|
    requires |eof| == MapSlots
    ensures SessionFits(s.(store := Some(Store(s.store.value.files[mapId := Some(f)], eof, queue))), l)
  {
  }

  /** Marking one entry of an allocated cache stale keeps the caches fitting the loader. */
  lemma MarkStaleFits(s: Session, l: Loader, mapId: nat, block: nat)
    requires SessionFits(s, l) && s.caches.Some? && mapId < MapSlots
    requires s.caches.value[mapId].Some? && block < |s.caches.value[mapId].value|
    ensures SessionFits(s.(caches := Some(s.caches.value[mapId := Some(s.caches.value[mapId].value[block := ChecksumCache.Stale])])), l)
  {
  }
}
