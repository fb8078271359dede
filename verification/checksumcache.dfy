/**
 The per-map checksum cache and the neighbourhood answer of a hash query.

 A cache holds one 16-bit entry per block; 0xFFFF marks an entry as stale.
 A query walks the 25 slots of the 5x5 neighbourhood in order; a slot whose
 block number is out of range reports 0, any other slot reports the cached
 entry, computing and storing the block's checksum first when it is stale.
 */
module ChecksumCache {
  import opened Base
  import opened Fletcher
  import opened MapStore
  import opened Geometry

  /** The "recompute on the next query" marker (`ushort.MaxValue`). */
  const Stale: u16 := 0xFFFF

  /** Number of checksums in a reply (`CRCLength`). */
  const ReplySlots := 25

  /** The cache a map gets on its first query: one stale entry per block. */
  function NewCache(blocks: nat): (c: seq<u16>)
    ensures |c| == blocks
    ensures forall i | 0 <= i < blocks :: c[i] == Stale
  {
    seq(blocks, _ => Stale)
  }

  /** The index region holds a record for each of the first `blocks` blocks. */
  predicate IndexCovers(f: MapFiles, blocks: nat) {
    blocks * IndexRecordSize <= |f.index|
  }

  /** Every entry that is not stale holds its block's checksum over the current store. */
  predicate Coherent(f: MapFiles, cache: seq<u16>) {
    IndexCovers(f, |cache|) &&
    forall i | 0 <= i < |cache| :: cache[i] != Stale ==> cache[i] == BlockChecksum(f, i)
  }

  /** A query either answers or dereferences a map whose files were never bound. */
  datatype Answer = Answered(cache: seq<u16>, crcs: seq<u16>) | MissingFiles

  /**
   One slot of the neighbourhood: the block number the query computes for it,
   and whether its coordinates fall outside the axis extents (in which case the
   source reports 0 instead of a checksum).
   */
  datatype Slot = Slot(block: nat, outside: bool)

  /** The 25 slots of a query, in reply order: x offset major, y offset minor. */
  function Neighbourhood(f: Frame): (s: seq<Slot>)
    requires ValidFrame(f)
    ensures |s| == ReplySlots
  {
    seq(ReplySlots, k requires 0 <= k < ReplySlots =>
      Slot(NeighbourBlock(f, k), NeighbourX(f, SlotDx(k)) >= f.width || NeighbourY(f, SlotDy(k)) >= f.height))
  }

  /** Every slot lies inside the extents, and its block number is the column-major neighbour. */
  lemma NeighbourhoodInside(f: Frame)
    requires ValidFrame(f)
    ensures forall k | 0 <= k < ReplySlots ::
      Neighbourhood(f)[k] == Slot(NeighbourBlock(f, k), false)
  {
    forall k | 0 <= k < ReplySlots
      ensures Neighbourhood(f)[k] == Slot(NeighbourBlock(f, k), false)
    {
      NeighbourIsModulus(f, SlotDx(k), SlotDy(k));
    }
  }

  /** The checksum computed for a slot whose cache entry is stale. */
  function SlotChecksum(files: MapFiles, slot: Slot): u16
    requires HasRecord(files.index, slot.block)
  {
    if slot.outside then 0 else BlockChecksum(files, slot.block)
  }

  /** The block number of slot `j` is a valid cache index. */
  predicate InRange(slots: seq<Slot>, blocks: nat, j: nat)
    requires j < |slots|
  {
    slots[j].block < blocks
  }

  /**
   Slots `k` onwards of a query. The reply for slot `k + i` is stored at `i`;
   `files` is `None` when the map's file reference is null.
   */
  function AnswerSlots(files: Option<MapFiles>, slots: seq<Slot>, cache: seq<u16>, k: nat): (r: Answer)
    requires k <= |slots|
    requires files.Some? ==> IndexCovers(files.value, |cache|)
    decreases |slots| - k
    ensures r.Answered? ==> |r.cache| == |cache| && |r.crcs| == |slots| - k
  {
    if k == |slots| then Answered(cache, [])
    else
      var nb := slots[k].block;
      if nb < |cache| then
        if cache[nb] == Stale then
          if files.None? then MissingFiles
          else
            var crc := SlotChecksum(files.value, slots[k]);
            var rest := AnswerSlots(files, slots, cache[nb := crc], k + 1);
            if rest.MissingFiles? then rest else Answered(rest.cache, [crc] + rest.crcs)
        else
          var rest := AnswerSlots(files, slots, cache, k + 1);
          if rest.MissingFiles? then rest else Answered(rest.cache, [cache[nb]] + rest.crcs)
      else
        var rest := AnswerSlots(files, slots, cache, k + 1);
        if rest.MissingFiles? then rest else Answered(rest.cache, [0] + rest.crcs)
  }

  /** The cache after slot `k` has been looked at, when the query survives it. */
  function AfterSlot(files: Option<MapFiles>, slots: seq<Slot>, cache: seq<u16>, k: nat): seq<u16>
    requires k < |slots|
    requires files.Some? ==> IndexCovers(files.value, |cache|)
  {
    var nb := slots[k].block;
    if nb < |cache| && cache[nb] == Stale && files.Some?
    then cache[nb := SlotChecksum(files.value, slots[k])] else cache
  }

  /** One step of a query that answers: slot `k`'s reply is put in front of the rest. */
  lemma AnswerStep(files: Option<MapFiles>, slots: seq<Slot>, cache: seq<u16>, k: nat)
    requires k < |slots|
    requires files.Some? ==> IndexCovers(files.value, |cache|)
    requires !slots[k].outside
    requires AnswerSlots(files, slots, cache, k).Answered?
    ensures var c' := AfterSlot(files, slots, cache, k);
      var rest := AnswerSlots(files, slots, c', k + 1);
      var r := AnswerSlots(files, slots, cache, k);
      && rest.Answered?
      && r.cache == rest.cache
      && r.crcs == [if InRange(slots, |cache|, k) then c'[slots[k].block] else 0] + rest.crcs
      && (InRange(slots, |cache|, k) ==> c'[slots[k].block] != Stale)
  {
  }

  /**
   A query fails exactly when the map has no files and some in-range
   neighbour's entry is stale: a fully cached neighbourhood is answered even
   without files.
   */
  lemma {:induction false} AnswerFailsIff(files: Option<MapFiles>, slots: seq<Slot>, cache: seq<u16>, k: nat)
    requires k <= |slots|
    requires files.Some? ==> IndexCovers(files.value, |cache|)
    decreases |slots| - k
    ensures AnswerSlots(files, slots, cache, k).MissingFiles? <==>
      files.None? && exists j | k <= j < |slots| :: InRange(slots, |cache|, j) && cache[slots[j].block] == Stale
  {
    if k < |slots| {
      AnswerFailsIff(files, slots, AfterSlot(files, slots, cache, k), k + 1);
      if files.None? && exists j | k <= j < |slots| :: InRange(slots, |cache|, j) && cache[slots[j].block] == Stale {
        var j :| k <= j < |slots| && InRange(slots, |cache|, j) && cache[slots[j].block] == Stale;
        if j != k {
          assert k + 1 <= j;
        }
      }
    }
  }

  /** Entries that are not stale survive a query unchanged. */
  lemma {:induction false} AnswerKeepsFresh(files: Option<MapFiles>, slots: seq<Slot>, cache: seq<u16>, k: nat)
    requires k <= |slots|
    requires files.Some? ==> IndexCovers(files.value, |cache|)
    decreases |slots| - k
    ensures var r := AnswerSlots(files, slots, cache, k);
      r.Answered? ==> forall i | 0 <= i < |cache| && cache[i] != Stale :: r.cache[i] == cache[i]
  {
    if k < |slots| {
      AnswerKeepsFresh(files, slots, AfterSlot(files, slots, cache, k), k + 1);
    }
  }

  /**
   The cache after a query differs from the one before only in entries that
   were stale, that belong to a queried slot, and that now hold the slot's
   checksum.
   */
  lemma {:induction false} AnswerFillsOnlyStale(files: Option<MapFiles>, slots: seq<Slot>, cache: seq<u16>, k: nat)
    requires k <= |slots|
    requires files.Some? ==> IndexCovers(files.value, |cache|)
    decreases |slots| - k
    ensures var r := AnswerSlots(files, slots, cache, k);
      r.Answered? ==> forall i | 0 <= i < |cache| && r.cache[i] != cache[i] ::
        && cache[i] == Stale
        && files.Some?
        && exists j | k <= j < |slots| :: slots[j].block == i && r.cache[i] == SlotChecksum(files.value, slots[j])
  {
    if k < |slots| {
      var c' := AfterSlot(files, slots, cache, k);
      AnswerFillsOnlyStale(files, slots, c', k + 1);
      AnswerKeepsFresh(files, slots, c', k + 1);
    }
  }

  /**
   Each reply slot holds the cache entry of its block (0 for an out-of-range
   block number), and that entry is no longer stale.
   */
  lemma {:induction false} AnswerSlotValues(files: Option<MapFiles>, slots: seq<Slot>, cache: seq<u16>, k: nat)
    requires k <= |slots|
    requires files.Some? ==> IndexCovers(files.value, |cache|)
    requires forall j | k <= j < |slots| :: !slots[j].outside
    decreases |slots| - k
    ensures var r := AnswerSlots(files, slots, cache, k);
      r.Answered? ==> forall i | 0 <= i < |slots| - k ::
        && r.crcs[i] == (if InRange(slots, |cache|, k + i) then r.cache[slots[k + i].block] else 0)
        && r.crcs[i] != Stale
  {
    if k < |slots| {
      var r := AnswerSlots(files, slots, cache, k);
      var c' := AfterSlot(files, slots, cache, k);
      if r.Answered? {
        AnswerStep(files, slots, cache, k);
        AnswerSlotValues(files, slots, c', k + 1);
        AnswerKeepsFresh(files, slots, c', k + 1);
      }
    }
  }

  /**
   Over a coherent cache a query of a real neighbourhood reports every
   in-range neighbour's true checksum, and the cache it leaves behind is still
   coherent.
   */
  lemma AnswerIsTrueChecksums(files: MapFiles, f: Frame, cache: seq<u16>)
    requires ValidFrame(f) && Coherent(files, cache)
    ensures AnswerSlots(Some(files), Neighbourhood(f), cache, 0).Answered?
    ensures Coherent(files, AnswerSlots(Some(files), Neighbourhood(f), cache, 0).cache)
    ensures forall j | 0 <= j < ReplySlots && NeighbourBlock(f, j) < |cache| ::
      AnswerSlots(Some(files), Neighbourhood(f), cache, 0).crcs[j] == BlockChecksum(files, NeighbourBlock(f, j))
  {
    var slots := Neighbourhood(f);
    NeighbourhoodInside(f);
    var r := AnswerSlots(Some(files), slots, cache, 0);
    AnswerFailsIff(Some(files), slots, cache, 0);
    AnswerFillsOnlyStale(Some(files), slots, cache, 0);
    AnswerKeepsFresh(Some(files), slots, cache, 0);
    AnswerSlotValues(Some(files), slots, cache, 0);
    forall i | 0 <= i < |cache| && r.cache[i] != Stale
      ensures r.cache[i] == BlockChecksum(files, i)
    {
      if r.cache[i] == cache[i] {
        assert cache[i] != Stale;
      }
    }
  }
}
