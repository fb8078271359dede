/**
 The hash query (sub-command 0xFF): the server names a block, and the client
 answers with the checksums of the 5x5 blocks around it, computing and caching
 the ones it has not computed since the block was last written.
 */
module HashQuery {
  import opened Base
  import opened Geometry
  import opened MapStore
  import opened ChecksumCache
  import opened Session

  /** The shortest message the query and the statics update accept. */
  const MinMessageLength := 15

  /** A decoded hash query: the message length, the block number as sent, the map id. */
  datatype Query = Query(packetLength: nat, block: u32, mapId: byte)

  /**
   Sub-command 0xFF. Drops the query when there is no session, the message is
   short, the map id is unsupported (possibly warning) or not the current
   map, or the block number is out of range; otherwise allocates the map's
   cache on first use and answers the neighbourhood.
   */
  function OnHashQuery(c: Client, env: Env, m: Query): Outcome
    requires WellFormed(c)
  {
    if c.live.None? || m.packetLength < MinMessageLength then Done(c, [])
    else
      var s := c.live.value;
      match CheckMapId(s, env, m.mapId)
      case StoreMissing => Threw(c, NullReference)
      case Unsupported =>
        var w := Warn(s, env.ticks, m.mapId);
        Done(WithSession(c, w.0), w.1)
      case NotCurrent => Done(c, [])
      case Current => AnswerCurrent(c, m)
  }

  /** The rest of the query, once the map id has passed its guard. */
  function AnswerCurrent(c: Client, m: Query): Outcome
    requires WellFormed(c) && c.live.Some? && c.live.value.store.Some?
    requires m.mapId < |c.live.value.store.value.files|
  {
    var s := c.live.value;
    if m.mapId >= |c.loader.blockSizes| then Threw(c, IndexOutOfRange)
    else
      var dims := c.loader.blockSizes[m.mapId];
      var blocks := BlockCount32(dims);
      var block := ToI32(m.block);
      if block < 0 || block >= blocks then Done(c, [])
      else if s.caches.None? then Threw(c, NullReference)
      else
        var caches := s.caches.value;
        var cache := if caches[m.mapId].Some? then caches[m.mapId].value else NewCache(blocks);
        var withCache := s.(caches := Some(caches[m.mapId := Some(cache)]));
        if s.geometry.None? then Threw(WithSession(c, withCache), NullReference)
        else
          var frame := QueryFrame(block, dims, s.geometry.value[m.mapId]);
          var answer := AnswerSlots(s.store.value.files[m.mapId], Neighbourhood(frame), cache, 0);
          if answer.MissingFiles? then Threw(WithSession(c, withCache), NullReference)
          else
            Done(WithSession(c, s.(caches := Some(caches[m.mapId := Some(answer.cache)]))),
                 [HashResponse(m.block, m.mapId, answer.crcs)])
  }

  /** The query reaches the neighbourhood answer for map `m.mapId` and block `m.block`. */
  predicate Answers(c: Client, env: Env, m: Query)
    requires WellFormed(c)
  {
    && c.live.Some? && m.packetLength >= MinMessageLength
    && CheckMapId(c.live.value, env, m.mapId) == Current
    && m.mapId < |c.loader.blockSizes|
    && 0 <= ToI32(m.block) < BlockCount32(c.loader.blockSizes[m.mapId])
    && c.live.value.caches.Some? && c.live.value.geometry.Some?
  }

  /**
   A map whose block count wraps to zero or below in 32 bits drops every
   query, whatever the block number.
   */
  lemma WrappedCountDropsQuery(c: Client, env: Env, m: Query)
    requires WellFormed(c) && c.live.Some? && m.packetLength >= MinMessageLength
    requires CheckMapId(c.live.value, env, m.mapId) == Current && m.mapId < |c.loader.blockSizes|
    requires BlockCount32(c.loader.blockSizes[m.mapId]) <= 0
    ensures !Answers(c, env, m)
    ensures OnHashQuery(c, env, m) == Done(c, [])
  {
  }

  /** The cache the query starts from: the stored one, or a fresh all-stale one. */
  function StartCache(c: Client, m: Query): seq<u16>
    requires WellFormed(c) && c.live.Some? && c.live.value.caches.Some?
    requires m.mapId < MapSlots && m.mapId < |c.loader.blockSizes|
    requires 0 <= ToI32(m.block) < BlockCount32(c.loader.blockSizes[m.mapId])
  {
    var caches := c.live.value.caches.value;
    if caches[m.mapId].Some? then caches[m.mapId].value else NewCache(BlockCount32(c.loader.blockSizes[m.mapId]))
  }

  /** The neighbourhood frame of an answered query. */
  function QueryFrameOf(c: Client, m: Query): Frame
    requires WellFormed(c) && c.live.Some? && c.live.value.geometry.Some?
    requires m.mapId < MapSlots && m.mapId < |c.loader.blockSizes|
    requires 0 <= ToI32(m.block) < BlockCount32(c.loader.blockSizes[m.mapId])
  {
    QueryFrame(ToI32(m.block), c.loader.blockSizes[m.mapId], c.live.value.geometry.value[m.mapId])
  }

  /**
   Over bound files and a coherent (or not yet allocated) cache, the query
   answers with exactly 25 checksums in slot order: the true checksum of each
   in-range neighbour and 0 for the rest, none of them 0xFFFF; afterwards every
   in-range neighbour's entry is filled and the cache is still coherent.
   */
  lemma HashQueryReply(c: Client, env: Env, m: Query)
    requires WellFormed(c) && Answers(c, env, m)
    requires c.live.value.store.value.files[m.mapId].Some?
    requires Coherent(c.live.value.store.value.files[m.mapId].value, StartCache(c, m))
    ensures var o := OnHashQuery(c, env, m);
      var files := c.live.value.store.value.files[m.mapId].value;
      var f := QueryFrameOf(c, m);
      var blocks := BlockCount32(c.loader.blockSizes[m.mapId]);
      && o.Done? && |o.effects| == 1 && o.effects[0].HashResponse?
      && o.effects[0].queried == m.block && o.effects[0].mapId == m.mapId
      && |o.effects[0].crcs| == ReplySlots
      && (forall k | 0 <= k < ReplySlots ::
            o.effects[0].crcs[k] == (if NeighbourBlock(f, k) < blocks then BlockChecksum(files, NeighbourBlock(f, k)) else 0))
      && (forall k | 0 <= k < ReplySlots :: o.effects[0].crcs[k] != Stale)
      && o.client.live.Some? && o.client.live.value.caches.Some?
      && o.client.live.value.caches.value[m.mapId].Some?
      && Coherent(files, o.client.live.value.caches.value[m.mapId].value)
      && (forall k | 0 <= k < ReplySlots && NeighbourBlock(f, k) < blocks ::
            o.client.live.value.caches.value[m.mapId].value[NeighbourBlock(f, k)] != Stale)
  {
    var files := c.live.value.store.value.files[m.mapId].value;
    var f := QueryFrameOf(c, m);
    var cache := StartCache(c, m);
    var slots := Neighbourhood(f);
    NeighbourhoodInside(f);
    AnswerIsTrueChecksums(files, f, cache);
    AnswerSlotValues(Some(files), slots, cache, 0);
    AnswerKeepsFresh(Some(files), slots, cache, 0);
  }

  /**
   A map whose files were never bound can still answer from a cache that has
   every in-range neighbour; a single stale in-range neighbour makes the
   query throw, with the cache already allocated.
   */
  lemma HashQueryWithoutFiles(c: Client, env: Env, m: Query)
    requires WellFormed(c) && Answers(c, env, m)
    requires c.live.value.store.value.files[m.mapId].None?
    ensures var cache := StartCache(c, m);
      var slots := Neighbourhood(QueryFrameOf(c, m));
      var o := OnHashQuery(c, env, m);
      && (o.Threw? <==> exists j | 0 <= j < ReplySlots :: InRange(slots, |cache|, j) && cache[slots[j].block] == Stale)
      && (o.Threw? ==>
            && o.exception == NullReference
            && o.client == WithSession(c, c.live.value.(caches := Some(c.live.value.caches.value[m.mapId := Some(cache)]))))
  {
    var cache := StartCache(c, m);
    AnswerFailsIff(None, Neighbourhood(QueryFrameOf(c, m)), cache, 0);
  }

  /** The query never touches the loader or the store, and keeps a client well-formed. */
  lemma HashQueryKeepsWellFormed(c: Client, env: Env, m: Query)
    requires WellFormed(c)
    ensures After(OnHashQuery(c, env, m)).loader == c.loader
    ensures c.live.Some? ==>
      After(OnHashQuery(c, env, m)).live.Some? && After(OnHashQuery(c, env, m)).live.value.store == c.live.value.store
    ensures WellFormed(After(OnHashQuery(c, env, m)))
  {
    if c.live.Some? && Answers(c, env, m) {
      var s := c.live.value;
      var cache := StartCache(c, m);
      var f := QueryFrameOf(c, m);
      var r := AnswerSlots(s.store.value.files[m.mapId], Neighbourhood(f), cache, 0);
      if r.Answered? {
        var caches' := s.caches.value[m.mapId := Some(r.cache)];
        assert CachesFit(caches', c.loader);
      }
    }
  }

  /**
   Inside the wrap area the block number is formed with the wrapped height:
   on a 64x64-block map wrapped at 128x128 tiles (16x16 blocks), the query for
   block (15, 15) = 975 reports in its centre slot block 15 * 16 + 15 = 255,
   and its corner slot (+2, +2) wraps round to block 1 * 16 + 1 = 17.
   */
  lemma WrappedNeighbourhood()
    ensures var f := QueryFrame(15 * 64 + 15, Extent(64, 64), WrapSize(512, 512, 128, 128));
      && f == Frame(15, 15, 16, 16)
      && NeighbourBlock(f, 12) == 255
      && NeighbourBlock(f, 24) == 17
  {
    var f := QueryFrame(15 * 64 + 15, Extent(64, 64), WrapSize(512, 512, 128, 128));
    assert f == Frame(15, 15, 16, 16);
    NeighbourIsModulus(f, SlotDx(12), SlotDy(12));
    NeighbourIsModulus(f, SlotDx(24), SlotDy(24));
  }
}
