# UltimaLive client core, modelled in Dafny

UltimaLive is the map-synchronisation extension the ClassicUO client speaks
with a shard. The server can rewrite the world while a player is connected.
It sends the terrain of a block (packet 0x40) and the statics of a block
(packet 0x3F, sub-command 0x00). It announces which maps exist and how they
wrap (sub-command 0x01), and it confirms the shard a player logged in to
(sub-command 0x02). To decide what to send, it asks the client for the
checksums of the 5 x 5 blocks around a block (sub-command 0xFF). The client
answers from a per-map cache of Fletcher-16 checksums. It keeps its own copy
of every map in three memory-mapped files per map: the terrain (196 bytes per
block), the statics index (12 bytes per block) and the statics pool.

This project models that core as pure functions over immutable values:

- **Regions.** The three files of a map are byte sequences (`MapStore.MapFiles`).
- **Session.** The session (`_UL`) and the installed map loader form a
  `Session.Client`.
- **Environment.** Everything a handler reads from outside the session is a
  `Session.Env`. That covers the clock, the map the world shows, which chunks
  are loaded, the file system's answers and the platform's path rules.
- **Handlers.** Each packet handler maps a client, an environment and a
  decoded message to an `Outcome`. The outcome is either `Done` with the
  effects the handler had on the world outside the store, or `Threw` with the
  exception the C# code raises there. Either way it carries the state reached
  at that point: the source has no transactions, so a handler that throws
  keeps every change it made before the throw.
- **Arithmetic.** C# integer semantics are written out: 32-bit wrap-around
  (`Base.ToU32`, `Base.ToI32`), the block count `width * height` taken in
  32 bits (`Geometry.BlockCount32`), truncating remainder (`Base.CsRem`) and
  `(ushort)` casts (`Geometry.CastExtent`). The few places where the model
  keeps an unbounded integer are listed under "Left out".

The modules follow the program's structure:

| module | file | what it holds |
|---|---|---|
| `Base` | base.dfy | integer widths, C# remainder, little-endian words, region overwrite |
| `Fletcher` | fletcher.dfy | `Fletcher16`, as a function and as the source's loop |
| `MapStore` | mapstore.dfy | block layout, index records, `GetBlockCrc`, `ReloadBlock` |
| `Geometry` | geometry.dfy | size tables, geometry clamping, the hash-query frame |
| `BlankMap` | blankmap.dfy | `CreateNewPersistantMap` |
| `ChecksumCache` | checksumcache.dfy | the 0xFFFF-sentinel cache and the 25-slot answer |
| `Session` | session.dfy | session and client state, outcomes, the rate-limited warning, reachable states |
| `HashQuery` | hashquery.dfy | sub-command 0xFF |
| `StaticsUpdate` | statics.dfy | sub-command 0x00 |
| `MapDefinition` | mapdef.dfy | sub-command 0x01 and the store rebuild |
| `Login` | login.dfy | sub-command 0x02 and `ValidatePath` |
| `TerrainUpdate` | terrain.dfy | packet 0x40 |
| `Protocol` | protocol.dfy | dispatch, and runs of many packets |

`Session.WellFormed` is the invariant the handlers keep:

- the loader has a row 0;
- the caches, the geometry table and the file table each have 127 slots;
- every allocated cache has one entry per block of its map, as the 32-bit block count has it;
- every bound index covers its map's blocks;
- every wrap size lies within its real size.

Every handler keeps it (`Protocol.HandleKeepsWellFormed`), so `Protocol.Run`
can feed a client any sequence of packets.

The model reproduces several quirks of the source as written:

- **Null chunk.** A statics update for a block whose chunk is not loaded
  returns before it marks the checksum stale.
- **End of file.** A statics payload that does not fit the mapped view moves
  the end-of-file offset before it throws.
- **Terrain reload loop.** Its upper bounds are clamped to the width and the
  height rather than to one less. A block in the last column therefore makes
  the loop leave the chunk table, and a block in the bottom row reloads the
  top of the next column.
- **Hash-query axes.** The x axis of the neighbourhood wraps only for
  remainders above -3.
- **Checksum input.** A block's checksum never reads the last byte of a region.
- **Map list.** The rebuild test counts duplicate map ids.
- **Block count.** The hash query and the statics update multiply a map's
  width and height in 32 bits. A map of 2^31 blocks or more can count zero
  or fewer blocks, and then every query for it is dropped.
- **Login.** A refused login name ends the session and then throws. A resolved path made of separators only throws too, but keeps the session it had.

Each quirk has a lemma that shows it.

## Model

| member | source | states |
|---|---|---|
| `Base.CsRem` | Assets/Scripts/ClassicUO/src/IO/UltimaLive.cs:124-132 | C#'s `%` truncates toward zero: its result lies strictly between `-b` and `b` and takes the sign of the dividend. It agrees with the mathematical remainder on non-negative operands and returns `a` itself for `-b < a < 0`. |
| `Base.ReadLittleEndian32` | Assets/Scripts/ClassicUO/src/IO/UltimaLive.cs:216-224 | Reading back the four little-endian bytes written for a 32-bit word yields that word. |
| `Base.LittleEndianOfRead` | Assets/Scripts/ClassicUO/src/IO/UltimaLive.cs:199-201 | Conversely, encoding a word read from four bytes gives those four bytes back. |
| `Base.Overwrite` | Assets/Scripts/ClassicUO/src/IO/UltimaLive.cs:619-626 | A view write that fits replaces exactly the written range with the data and keeps every other byte and the length. |
| `Base.ReadAfterOverwrite` | Assets/Scripts/ClassicUO/src/IO/UltimaLive.cs:199-226 | A word read inside a written range reads the written data. |
| `Base.ReadBesideOverwrite` | Assets/Scripts/ClassicUO/src/IO/UltimaLive.cs:199-226 | A word read wholly outside a written range reads what was there before. |
| `Fletcher.Fletcher16` | Assets/Scripts/ClassicUO/src/IO/UltimaLive.cs:492-505 | Both bytes of the checksum are below 255. The checksum is therefore never 0xFFFF, the cache's stale sentinel, and the empty input checksums to 0. |
| `Fletcher.ComputeFletcher16` | Assets/Scripts/ClassicUO/src/IO/UltimaLive.cs:492-505 | The source's loop, with its two running sums reduced mod 255 at every step, computes the recursive definition, and never returns 0xFFFF. |
| `Fletcher.SumsClosedForm` | Assets/Scripts/ClassicUO/src/IO/UltimaLive.cs:498-502 | The first running sum is the byte total mod 255. The second is the total of all prefix totals mod 255. |
| `Fletcher.TotalOfUpdate` | Assets/Scripts/ClassicUO/src/IO/UltimaLive.cs:498-502 | Replacing one byte changes the byte total by exactly the difference of the two bytes. |
| `Fletcher.DetectsSingleByteChange` | Assets/Scripts/ClassicUO/src/IO/UltimaLive.cs:492-505 | Changing any one byte to a value different mod 255 changes the checksum. |
| `Fletcher.FoldBytes` | Assets/Scripts/ClassicUO/src/IO/UltimaLive.cs:504 | The low byte of `(sum2 << 8) \| sum1` is `sum1` and the high byte is `sum2`. |
| `MapStore.EncodeRecord` | Assets/Scripts/ClassicUO/src/IO/UltimaLive.cs:216-224 | An index record encodes to exactly 8 bytes. |
| `MapStore.EmptyRecordBytes` | Assets/Scripts/ClassicUO/src/IO/UltimaLive.cs:194 | The empty record (no statics, length 0) encodes to `FF FF FF FF 00 00 00 00`. |
| `MapStore.WriteRecord` | Assets/Scripts/ClassicUO/src/IO/UltimaLive.cs:216-226 | After a record is written at `block * 12`, it reads back as written. The index keeps its length, and every byte outside those 8 is unchanged, the 4 reserved bytes included. |
| `MapStore.ReadEncodedRecord` | Assets/Scripts/ClassicUO/src/IO/UltimaLive.cs:199-201 | Bytes at a record's offset that are the encoding of a record decode to that record. |
| `MapStore.WriteRecordKeepsOthers` | Assets/Scripts/ClassicUO/src/IO/UltimaLive.cs:226 | Rewriting one block's record leaves every other block's record as it was. |
| `MapStore.ChecksumInputAt` | Assets/Scripts/ClassicUO/src/IO/UltimaLive.cs:456-485 | The checksum input holds `192 + max(0, length)` bytes. The first 192 are the block's tile bytes. The rest are the statics bytes at the recorded offset, but only when the record is in use, its length is positive and the offset is inside the pool; otherwise they are 0. A byte at or past a region's last position reads as 0. |
| `MapStore.GetBlockCrc` | Assets/Scripts/ClassicUO/src/IO/UltimaLive.cs:453-490 | The source's two bounded copy loops build exactly that input: the tile bytes, then the statics bytes or zeros. The result is the Fletcher-16 of that buffer, never 0xFFFF. |
| `MapStore.LastTerrainByteIgnored` | Assets/Scripts/ClassicUO/src/IO/UltimaLive.cs:465-466 | Changing the last byte of the terrain region changes no block's checksum: the `Position + 1 >= Length` test stops before it. |
| `MapStore.ReloadBlock` | Assets/Scripts/ClassicUO/src/IO/UltimaLive.cs:887-911 | The map offset is `block * 196` when that lies inside the terrain region, and absent otherwise. A statics offset is present iff the record lies inside the index, its length is positive, it is in use and its offset is inside the pool; it is then that offset. The statics count is `length / 7` capped at 1024, and 0 when no statics offset is present. |
| `Geometry.BlockExtent` | Assets/Scripts/ClassicUO/src/IO/UltimaLive.cs:734-735 | Block sizes are tile sizes shifted right by 3: each is the largest count of whole 8-tile blocks. |
| `Geometry.CastExtent` | Assets/Scripts/ClassicUO/src/IO/UltimaLive.cs:395-396 | The `(ushort)` casts keep the low 16 bits of each dimension: the result is below 65536, differs from the input by a multiple of 65536, and so equals any value that already fits. |
| `Geometry.BlockCount32` | Assets/Scripts/ClassicUO/src/IO/UltimaLive.cs:105-107 | The block count as the handlers compute it, `width * height` in 32-bit signed arithmetic: congruent to the true count mod 2^32, never above it, and equal to it while it fits 31 bits. |
| `Geometry.WrappedBlockCount` | Assets/Scripts/ClassicUO/src/IO/UltimaLive.cs:107 | A 65536 x 32768-block row has 2^31 blocks, which the 32-bit product reads as -2^31. |
| `Geometry.ExtendDefaultSizes` | Assets/Scripts/ClassicUO/src/IO/UltimaLive.cs:640-647 | The new loader's default-size table has one row per map. Rows the old table had are copied, and every further row repeats the old row 0. |
| `Geometry.ClampEntry` | Assets/Scripts/ClassicUO/src/IO/UltimaLive.cs:315-318 | The real size is the smaller of the sent size and map 0's default size, on each axis. The wrap size is the smaller of the sent wrap size and that real size, so wrap never exceeds real. |
| `Geometry.QueryFrame` | Assets/Scripts/ClassicUO/src/IO/UltimaLive.cs:117-121 | A block splits column-major into a column and a row that lie inside the frame and rebuild the block number. Each axis extends to `wrap >> 3` when the coordinate is below it, and to the real block count otherwise. |
| `Geometry.SlotOrder` | Assets/Scripts/ClassicUO/src/IO/UltimaLive.cs:149 | The reply slot `(x + 2) * 5 + (y + 2)` lies in 0..24 and gives back the offsets `x` and `y`. |
| `Geometry.NeighbourIsModulus` | Assets/Scripts/ClassicUO/src/IO/UltimaLive.cs:124-132 | For offsets in -2..2, both wrapped coordinates, including the x axis with its `> -3` guard, equal the mathematical remainder and lie inside the frame. |
| `Geometry.RemFixup` | Assets/Scripts/ClassicUO/src/IO/UltimaLive.cs:126-132 | Adding the divisor to a negative C# remainder of a number at least -2 gives the mathematical remainder, and that remainder is above -3. |
| `Geometry.NeighbourBlockInFrame` | Assets/Scripts/ClassicUO/src/IO/UltimaLive.cs:134-136 | The `(uint)` block number of a neighbour is its column-major index under the wrapped height, and lies below the frame's block count. |
| `BlankMap.CreateNewPersistentMap` | Assets/Scripts/ClassicUO/src/IO/UltimaLive.cs:792-841 | The blank map of a map id is sized by that id's block-size row, or row 0 past the table's end: 196 terrain bytes and 12 index bytes per block, and an empty statics file. The lemmas on `BlankMap.BlankFiles` state the contents for any extent. |
| `BlankMap.PersistentMapBlock` | Assets/Scripts/ClassicUO/src/IO/UltimaLive.cs:792-841 | Every block of a map id's blank map is the template land block with the empty index record, and checksums the template's 192 tile bytes. |
| `BlankMap.BlankMapExtent` | Assets/Scripts/ClassicUO/src/IO/UltimaLive.cs:794-795 | A blank map takes the block size of its own map id when the table has that row, and row 0's otherwise. |
| `BlankMap.DefaultLandBlockLast` | Assets/Scripts/ClassicUO/src/IO/UltimaLive.cs:799-810 | The template block is exactly 196 bytes, a zero header and 64 tile cells `44 02 00`, so its last byte is 0. |
| `BlankMap.BlankTerrainBlock` | Assets/Scripts/ClassicUO/src/IO/UltimaLive.cs:811-822 | A blank terrain file holds 196 bytes per block, and every block of it is the template block. |
| `BlankMap.BlankIndexRecord` | Assets/Scripts/ClassicUO/src/IO/UltimaLive.cs:824-837 | A blank index holds 12 bytes per block, and every block's record is the empty record. |
| `BlankMap.BlankMapChecksumInput` | Assets/Scripts/ClassicUO/src/IO/UltimaLive.cs:792-841 | In a blank map every block checksums exactly the template's 192 tile bytes. |
| `BlankMap.BlankMapReload` | Assets/Scripts/ClassicUO/src/IO/UltimaLive.cs:792-841 | In a blank map every block reloads with its terrain at `block * 196` and no statics. |
| `BlankMap.RepeatNested` | Assets/Scripts/ClassicUO/src/IO/UltimaLive.cs:811-820 | Writing a strip of `h` copies `w` times is `w * h` copies in a row. |
| `ChecksumCache.NewCache` | Assets/Scripts/ClassicUO/src/IO/UltimaLive.cs:111-115 | A first-use cache has one entry per block, all stale (0xFFFF). |
| `ChecksumCache.NeighbourhoodInside` | Assets/Scripts/ClassicUO/src/IO/UltimaLive.cs:124-136 | All 25 slots are in slot order, and each names its neighbour's wrapped block number. |
| `ChecksumCache.AnswerSlots` | Assets/Scripts/ClassicUO/src/IO/UltimaLive.cs:122-153 | The slot loop. An answer keeps the cache's length and has one value per remaining slot; the `Answer*` lemmas below state which values and which cache entries. |
| `ChecksumCache.AnswerStep` | Assets/Scripts/ClassicUO/src/IO/UltimaLive.cs:136-152 | One slot contributes the cache entry of an in-range block, after a miss is filled, or 0 for a block out of range. A filled entry is never stale. |
| `ChecksumCache.AnswerFailsIff` | Assets/Scripts/ClassicUO/src/IO/UltimaLive.cs:138-147 | The answer throws iff the map has no files and some in-range slot's entry is stale, so that the missing files get dereferenced. |
| `ChecksumCache.AnswerKeepsFresh` | Assets/Scripts/ClassicUO/src/IO/UltimaLive.cs:138-147 | An entry that is not stale is never overwritten. |
| `ChecksumCache.AnswerFillsOnlyStale` | Assets/Scripts/ClassicUO/src/IO/UltimaLive.cs:138-147 | Every entry the answer changes was stale. It now holds the checksum of a block some slot named. |
| `ChecksumCache.AnswerSlotValues` | Assets/Scripts/ClassicUO/src/IO/UltimaLive.cs:136-152 | Each reply value is the final cache entry of an in-range slot, or 0. None is 0xFFFF. |
| `ChecksumCache.AnswerIsTrueChecksums` | Assets/Scripts/ClassicUO/src/IO/UltimaLive.cs:122-153 | From a cache whose non-stale entries are true checksums, the answer succeeds. Every in-range value is the block's true checksum, and the cache afterwards is still true. |
| `Session.Warn` | Assets/Scripts/ClassicUO/src/IO/UltimaLive.cs:96-100 | The warning changes nothing in the session but its deadline, and produces either nothing or exactly one warning for the map id. `Session.WarningRateLimited` states when. |
| `Session.WarningRateLimited` | Assets/Scripts/ClassicUO/src/IO/UltimaLive.cs:96-100 | The unknown-map warning is logged iff the clock has reached the deadline. After a warning, none follows within 100000 ticks, and one follows again once they have passed, provided the deadline does not wrap. |
| `HashQuery.OnHashQuery` | Assets/Scripts/ClassicUO/src/IO/UltimaLive.cs:85-158 | The hash query handler. It has no contract of its own: `HashQuery.HashQueryReply`, `HashQuery.HashQueryWithoutFiles`, `HashQuery.WrappedCountDropsQuery`, `HashQuery.HashQueryKeepsWellFormed` and `Protocol.NoSessionIgnoresLiveCommands` characterise it. |
| `HashQuery.HashQueryReply` | Assets/Scripts/ClassicUO/src/IO/UltimaLive.cs:85-158 | Over bound files and a cache with no wrong entries, a query answers with one response: the queried block, the map id and 25 values in slot order. Each value is the true checksum of an in-range neighbour or 0 for the others, never 0xFFFF. Every in-range neighbour's entry is then filled, and the cache is still true. |
| `HashQuery.HashQueryWithoutFiles` | Assets/Scripts/ClassicUO/src/IO/UltimaLive.cs:138-147 | For a map with no bound files, the query throws iff an in-range neighbour is stale. It throws a null reference, with the cache already allocated. |
| `HashQuery.HashQueryKeepsWellFormed` | Assets/Scripts/ClassicUO/src/IO/UltimaLive.cs:85-158 | The query leaves the loader and the store as they were, and keeps the client well-formed. |
| `HashQuery.WrappedCountDropsQuery` | Assets/Scripts/ClassicUO/src/IO/UltimaLive.cs:105-109 | A map whose 32-bit block count is zero or less answers no query: the range test drops every block number. |
| `HashQuery.WrappedNeighbourhood` | Assets/Scripts/ClassicUO/src/IO/UltimaLive.cs:117-134 | On a 64 x 64-block map wrapping at 16 x 16 blocks, block (15, 15) has frame 16 x 16. Its centre slot reports block 255, and its (+2, +2) corner wraps to block 17. |
| `StaticsUpdate.OnStaticsUpdate` | Assets/Scripts/ClassicUO/src/IO/UltimaLive.cs:160-274 | The statics update handler. It has no contract of its own: the `StaticsUpdate` lemmas below characterise each of its paths, and `StaticsUpdate.StaticsUpdateKeepsWellFormed` what it keeps. |
| `StaticsUpdate.StoreUpdate` | Assets/Scripts/ClassicUO/src/IO/UltimaLive.cs:185-270 | The part of the statics update after the map-id guard. It has no contract of its own; `StaticsUpdate.StoreUpdateKeepsWellFormed` and the lemmas below characterise it. |
| `StaticsUpdate.Placement` | Assets/Scripts/ClassicUO/src/IO/UltimaLive.cs:200-212 | The payload goes to the recorded slot, with the end of file unchanged, or to the end of file, which then grows by the length mod 2^32. A record not in use always sends it to the end, and the end of file moves only when the payload goes there. |
| `StaticsUpdate.Invalidate` | Assets/Scripts/ClassicUO/src/IO/UltimaLive.cs:270 | Marking the block stale throws a null reference iff the map's cache was never allocated. Otherwise exactly that entry becomes 0xFFFF, every other entry and every other map's cache stay, and the effects pass through. The loader and the store are untouched either way. |
| `StaticsUpdate.WriteStatics` | Assets/Scripts/ClassicUO/src/IO/UltimaLive.cs:213-226 | The payload write and the record rewrite keep the terrain and the lengths of the index and the pool, and the block's record reads back as (slot, payload length). |
| `StaticsUpdate.PlacementEof` | Assets/Scripts/ClassicUO/src/IO/UltimaLive.cs:204-211 | The end of file never moves back and grows by at most the payload length, while the sum fits 32 bits. Past that it wraps round. |
| `StaticsUpdate.WriteStaticsRoundTrip` | Assets/Scripts/ClassicUO/src/IO/UltimaLive.cs:213-226 | After the write, the block's record reads back as (slot, length) and the payload sits at the slot. The terrain, every other record and the rest of the pool are unchanged. Reloading the block then finds exactly those statics, at most 1024. |
| `StaticsUpdate.WriteStaticsChecksumInput` | Assets/Scripts/ClassicUO/src/IO/UltimaLive.cs:213-226 | After the write, the block's checksum covers its 192 tile bytes followed by exactly the new payload. |
| `StaticsUpdate.StaticsUpdateStores` | Assets/Scripts/ClassicUO/src/IO/UltimaLive.cs:185-226 | A non-empty payload reuses the block's slot iff the slot is in use and at least as long. Otherwise it goes to the end of file, which grows by the payload length mod 2^32. The store after it is pinned down exactly: the written files, the end of file, and the queue with the payload appended. |
| `StaticsUpdate.StaticsOverflowAdvancesEof` | Assets/Scripts/ClassicUO/src/IO/UltimaLive.cs:206-213 | A payload that does not fit the mapped view throws, yet the end of file has already advanced, and nothing else in the store changes. |
| `StaticsUpdate.StaticsEmptyPayload` | Assets/Scripts/ClassicUO/src/IO/UltimaLive.cs:187-270 | A payload length of zero or less writes the empty record `FF FF FF FF 00 00 00 00`. It touches neither the terrain, nor the pool, nor the end of file, nor the queue. It then refreshes the minimap and marks exactly that block's checksum stale when the map's cache is allocated, and throws a null reference when it is not. |
| `StaticsUpdate.EmptyRecordKeepsOtherChecksums` | Assets/Scripts/ClassicUO/src/IO/UltimaLive.cs:194 | Emptying one block's record changes no other block's checksum. |
| `StaticsUpdate.WriteStaticsKeepsOtherChecksums` | Assets/Scripts/ClassicUO/src/IO/UltimaLive.cs:213-226 | Writing a payload changes no other block's checksum whose statics window lies apart from the written slot. |
| `StaticsUpdate.StaticsEmptyKeepsCacheCoherent` | Assets/Scripts/ClassicUO/src/IO/UltimaLive.cs:187-270 | An emptying update keeps the map's cache coherent with its files: the block is marked stale and no other checksum moves. |
| `StaticsUpdate.StaticsPayloadKeepsCacheCoherent` | Assets/Scripts/ClassicUO/src/IO/UltimaLive.cs:198-270 | A stored payload whose chunk is loaded keeps the map's cache coherent, as long as the written slot overlaps the statics of no other block the cache still holds a checksum for; only the updated block is marked stale. |
| `StaticsUpdate.StaticsUpdateReloadsAndInvalidates` | Assets/Scripts/ClassicUO/src/IO/UltimaLive.cs:228-270 | With the chunk loaded, the update reindexes the block from its new record, reloads the chunk, refreshes the minimap and marks exactly that block stale. |
| `StaticsUpdate.StaticsUpdateNullChunk` | Assets/Scripts/ClassicUO/src/IO/UltimaLive.cs:228-230 | With the chunk not loaded, the update returns after the store write. It has no effects and leaves the cache as it was, though the block's statics changed. |
| `StaticsUpdate.StaticsUpdateOutOfRange` | Assets/Scripts/ClassicUO/src/IO/UltimaLive.cs:187 | A block outside the map, read as a signed int, changes nothing. |
| `StaticsUpdate.StaticsUpdateKeepsWellFormed` | Assets/Scripts/ClassicUO/src/IO/UltimaLive.cs:160-273 | The update never touches the loader and keeps the client well-formed. |
| `Login.OnLogin` | Assets/Scripts/ClassicUO/src/IO/UltimaLive.cs:350-374 | The login handler. It has no contract of its own: `Login.LoginRefusesSeparator`, `Login.LoginSameShardKeepsSession`, `Login.LoginStartsSession`, `Login.LoginSeparatorsOnlyThrows` and `Login.LoginKeepsWellFormed` characterise it. |
| `Login.ValidatePath` | Assets/Scripts/ClassicUO/src/IO/UltimaLive.cs:507-523 | A name is accepted iff it holds no separator and resolves to a non-empty path, and the result is then that path. |
| `Login.Split` | Assets/Scripts/ClassicUO/src/IO/UltimaLive.cs:365 | Every component is non-empty and holds no separator. `Login.SplitEmptyIff` and `Login.SplitLast` relate the components to the string. |
| `Login.SplitEmptyIff` | Assets/Scripts/ClassicUO/src/IO/UltimaLive.cs:365 | Splitting with empty entries removed yields nothing iff the string is separators only. |
| `Login.SplitLast` | Assets/Scripts/ClassicUO/src/IO/UltimaLive.cs:365-369 | The last split component is a maximal separator-free run: it starts the string or follows a separator, and only separators come after it. |
| `Login.TokenLength` | Assets/Scripts/ClassicUO/src/IO/UltimaLive.cs:365 | A component is the longest separator-free prefix. It ends at the string's end or at a separator. |
| `Login.LoginRefusesSeparator` | Assets/Scripts/ClassicUO/src/IO/UltimaLive.cs:357-365 | A name holding a path separator is refused. The session ends, and the split of the refused name throws a null reference. |
| `Login.LoginSameShardKeepsSession` | Assets/Scripts/ClassicUO/src/IO/UltimaLive.cs:362-363 | Confirming the shard the session already runs on changes nothing. |
| `Login.LoginStartsSession` | Assets/Scripts/ClassicUO/src/IO/UltimaLive.cs:359-370 | An accepted name that is new, or blank, starts a fresh session on the resolved path, with no maps, caches, geometry or store. Its display name is the path's last component. The loader is kept. |
| `Login.LoginSeparatorsOnlyThrows` | Assets/Scripts/ClassicUO/src/IO/UltimaLive.cs:359-369 | A resolved path made of separators only has no last component, so the split's last element is out of range and the handler throws before the new session is assigned. A non-blank path leaves the client exactly as it was (or returns early when it names the current shard); a blank one has already cleared the session. |
| `Login.LoginKeepsWellFormed` | Assets/Scripts/ClassicUO/src/IO/UltimaLive.cs:350-374 | Login never touches the loader, and keeps the client well-formed. |
| `TerrainUpdate.OnTerrainUpdate` | Assets/Scripts/ClassicUO/src/IO/UltimaLive.cs:383-451 | The terrain update handler. It has no contract of its own: `TerrainUpdate.TerrainUpdateIgnored`, `TerrainUpdate.TerrainUpdateApplies`, `TerrainUpdate.TerrainUpdateKeepsCacheCoherent` and `TerrainUpdate.TerrainUpdateKeepsWellFormed` characterise it. |
| `TerrainUpdate.WriteLand` | Assets/Scripts/ClassicUO/src/IO/UltimaLive.cs:400 | The terrain write. It has no contract of its own; `TerrainUpdate.WriteLandRoundTrip` states what it writes and what it keeps. |
| `TerrainUpdate.ReloadIndices` | Assets/Scripts/ClassicUO/src/IO/UltimaLive.cs:403-411 | The chunk indices the reload loop visits. It has no contract of its own; `TerrainUpdate.LoopVisitsIff` states which they are. |
| `TerrainUpdate.InMapBelowCount` | Assets/Scripts/ClassicUO/src/IO/UltimaLive.cs:395-398 | The range test with its 32-bit product admits only blocks below the true block count, because a wrapped product turns negative. It admits every such block while the count fits 31 bits. |
| `TerrainUpdate.WriteLandRoundTrip` | Assets/Scripts/ClassicUO/src/IO/UltimaLive.cs:400 | The 192 land bytes land exactly at `block * 196 + 4`. The header, every other byte, the index and the pool are untouched. |
| `TerrainUpdate.WriteLandKeepsOtherChecksums` | Assets/Scripts/ClassicUO/src/IO/UltimaLive.cs:400-402 | A terrain write leaves every other block's checksum input and checksum unchanged. |
| `TerrainUpdate.WriteLandChecksumInput` | Assets/Scripts/ClassicUO/src/IO/UltimaLive.cs:400 | The written block's checksum then covers the new land followed by its statics as before. |
| `TerrainUpdate.ColumnVisitsIff` | Assets/Scripts/ClassicUO/src/IO/UltimaLive.cs:409-411 | The inner loop visits exactly `x * height + y` for every row `y` between its bounds. |
| `TerrainUpdate.LoopVisitsIff` | Assets/Scripts/ClassicUO/src/IO/UltimaLive.cs:403-411 | The two loops visit exactly the column-major indices of the rectangle their bounds span. |
| `TerrainUpdate.ReloadChunksIff` | Assets/Scripts/ClassicUO/src/IO/UltimaLive.cs:407-413 | The loop throws iff it visits an index outside the chunk table. Otherwise it reloads exactly the visited indices whose chunk is loaded, and nothing else. |
| `TerrainUpdate.TerrainUpdateIgnored` | Assets/Scripts/ClassicUO/src/IO/UltimaLive.cs:392-398 | An update for a map the world does not show, or for a block outside the cast map size, changes nothing. |
| `TerrainUpdate.TerrainUpdateApplies` | Assets/Scripts/ClassicUO/src/IO/UltimaLive.cs:383-450 | An applied update leaves exactly the land written and that block's cache entry stale; the loader, the other maps and the rest of the session are untouched. It throws iff the reload loop leaves the chunk table. Otherwise it reloads exactly the visited loaded chunks and ends with a minimap refresh. |
| `TerrainUpdate.TerrainUpdateKeepsCacheCoherent` | Assets/Scripts/ClassicUO/src/IO/UltimaLive.cs:400-402 | A cache with no wrong entries before the update has none after it. |
| `TerrainUpdate.TerrainLastColumnThrows` | Assets/Scripts/ClassicUO/src/IO/UltimaLive.cs:405-411 | For a block in the last column, with a chunk table of at most one chunk per block, the loop reads past the table and the update throws. |
| `TerrainUpdate.TerrainInteriorReloadsNeighbours` | Assets/Scripts/ClassicUO/src/IO/UltimaLive.cs:403-411 | Away from the right and bottom edges, the loop visits exactly the 3 x 3 blocks around the updated one, clipped at the left and top edges. |
| `TerrainUpdate.TerrainBottomRowWrapsColumn` | Assets/Scripts/ClassicUO/src/IO/UltimaLive.cs:404-411 | On any map at least 2 blocks wide and 2 high, updating the bottom block of column 0 visits `2h, 2h-1, 2h-2, h, h-1, h-2` in that order, with `h` the height. Index `h` is the top of column 1 and `2h` the top of column 2; neither is a neighbour (4 x 4 map, block 3: 8, 7, 6, 4, 3, 2). |
| `TerrainUpdate.TerrainUpdateKeepsWellFormed` | Assets/Scripts/ClassicUO/src/IO/UltimaLive.cs:383-450 | The update never touches the loader and keeps the client well-formed. |
| `MapDefinition.OnMapDefinition` | Assets/Scripts/ClassicUO/src/IO/UltimaLive.cs:275-349 | The map definition handler. It has no contract of its own: `MapDefinition.MapDefinitionGuards`, `MapDefinition.MapDefinitionResets`, `MapDefinition.MapDefinitionGeometry`, `MapDefinition.MapDefinitionRebuild` and `MapDefinition.MapDefinitionKeepsWellFormed` characterise it. |
| `MapDefinition.MapCount` | Assets/Scripts/ClassicUO/src/IO/UltimaLive.cs:299 | `maps` is the largest count of whole 9-byte entries in the length word times 7, taken mod 2^32. It is the exact quotient when the product does not wrap, and never above 2^32 / 9. |
| `MapDefinition.Rebuild` | Assets/Scripts/ClassicUO/src/IO/UltimaLive.cs:321-345 | The rebuild. It has no contract of its own; `MapDefinition.MapDefinitionRebuild` states its outcomes. |
| `MapDefinition.BindFiles` | Assets/Scripts/ClassicUO/src/IO/UltimaLive.cs:333-345 | The rebuilt store has 127 slots and an empty queue. A listed map gets the files the bootstrap loaded for it; every other map gets none and an end of file of 0. |
| `MapDefinition.BuildLoader` | Assets/Scripts/ClassicUO/src/IO/UltimaLive.cs:636-647 | The new loader has 127 default-size rows. Listed maps get the block sizes `size >> 3` that lines 734-735 set, and unlisted maps 0 x 0. |
| `MapDefinition.DefineMaps` | Assets/Scripts/ClassicUO/src/IO/UltimaLive.cs:309-319 | The geometry table keeps its 127 rows. A loop cut short stops on a read past the message or an index past the table. |
| `MapDefinition.DefineMapsIff` | Assets/Scripts/ClassicUO/src/IO/UltimaLive.cs:311-319 | The entry loop completes iff the message holds `maps` entries and every id among them is below 127. |
| `MapDefinition.DefineMapsValid` | Assets/Scripts/ClassicUO/src/IO/UltimaLive.cs:310-314 | A completed loop lists the first `maps` ids in message order, duplicates included. |
| `MapDefinition.DefineMapsUnlisted` | Assets/Scripts/ClassicUO/src/IO/UltimaLive.cs:308-319 | A row no entry names keeps its value. |
| `MapDefinition.DefineMapsLastWins` | Assets/Scripts/ClassicUO/src/IO/UltimaLive.cs:315-318 | A row holds the clamp of the last entry naming it, even when the loop throws later. |
| `MapDefinition.DefineMapsWithinReal` | Assets/Scripts/ClassicUO/src/IO/UltimaLive.cs:317-318 | Whether the loop completes or throws, every wrap size stays within its real size. |
| `MapDefinition.MapDefinitionGuards` | Assets/Scripts/ClassicUO/src/IO/UltimaLive.cs:277-302 | An empty shard name or a message shorter than 15 bytes changes nothing. When creating the missing shard directory throws, the handler throws with the session kept; when it returns and the directory is still absent, the session ends. A message shorter than `maps * 9 + 15` (in 32-bit arithmetic) changes nothing. |
| `MapDefinition.MapDefinitionResets` | Assets/Scripts/ClassicUO/src/IO/UltimaLive.cs:307-319 | An accepted definition always resets all 127 caches to null. When the entries run out or an id is past the table, it throws with the valid maps, the loader and the store as they were. |
| `MapDefinition.MapDefinitionGeometry` | Assets/Scripts/ClassicUO/src/IO/UltimaLive.cs:308-319 | After a completed loop, each listed map's geometry row is its last entry clamped against map 0's default size. Every other row is zero. |
| `MapDefinition.MapDefinitionRebuild` | Assets/Scripts/ClassicUO/src/IO/UltimaLive.cs:321-345 | A completed loop rebuilds iff no maps were known, more maps are listed than known, or a listed map is unknown. Without a rebuild, the valid maps, loader and store stay. With one, the listed maps become valid, the loader is rebuilt, and the store binds the loaded files of exactly the listed maps, as on a first rebuild (see "Left out"). |
| `MapDefinition.ReadvertisedSubsetKeepsStore` | Assets/Scripts/ClassicUO/src/IO/UltimaLive.cs:321 | Re-advertising a subset of the known maps, no longer than the known list, rebuilds nothing. |
| `MapDefinition.NewMapRebuilds` | Assets/Scripts/ClassicUO/src/IO/UltimaLive.cs:321 | A listed map that is not known forces a rebuild. |
| `MapDefinition.GrowThenShrink` | Assets/Scripts/ClassicUO/src/IO/UltimaLive.cs:321 | Going from maps {0, 1} to {0, 1, 2} rebuilds. Going back to {0, 1} does not, so map 2 stays valid. |
| `MapDefinition.DuplicatesUnbindMaps` | Assets/Scripts/ClassicUO/src/IO/UltimaLive.cs:321-343 | After maps 0 and 1, a list naming map 0 three times rebuilds, and map 1 loses its files. |
| `MapDefinition.BuildLoaderSizes` | Assets/Scripts/ClassicUO/src/IO/UltimaLive.cs:636-647 | The new loader has 127 default-size rows, copied from the base table and padded with its row 0. Listed maps get block sizes of `size >> 3`, and unlisted maps none. |
| `MapDefinition.MapDefinitionKeepsWellFormed` | Assets/Scripts/ClassicUO/src/IO/UltimaLive.cs:275-349 | A definition keeps the client well-formed, given loaded files that fit their maps. |
| `Protocol.Handle` | Assets/Scripts/ClassicUO/src/IO/UltimaLive.cs:70-84 | The dispatch: packet 0x40 goes to the terrain update, and packet 0x3F by its sub-command byte to the hash query (0xFF), the statics update (0x00), the map definition (0x01) or the login (0x02); any other sub-command does nothing. It has no contract of its own: `Protocol.HandleKeepsWellFormed` and `Protocol.NoSessionIgnoresLiveCommands` state what it keeps. |
| `Protocol.HandleKeepsWellFormed` | Assets/Scripts/ClassicUO/src/IO/UltimaLive.cs:78-84 | Whatever sub-command or packet arrives, the client stays well-formed. |
| `Protocol.Run` | Assets/Scripts/ClassicUO/src/IO/UltimaLive.cs:70-75 | Any sequence of packets leaves a well-formed client well-formed, including packets whose handlers throw. |
| `Protocol.RunAppend` | Assets/Scripts/ClassicUO/src/IO/UltimaLive.cs:70-75 | Running two packet sequences one after the other equals running their concatenation. |
| `Protocol.NoSessionIgnoresLiveCommands` | Assets/Scripts/ClassicUO/src/IO/UltimaLive.cs:78-87 | Without a session, a hash query, statics update, map definition or unknown sub-command changes nothing and has no effect. |

## Left out

- Memory-mapped files, view accessors and pointers (`ULFileMul`, lines 539-612). Each region is a byte sequence. A view write that does not fit throws `WriteOutOfRange`, where .NET's accessor would throw.
- The background writer (`AsyncWriterTasked`, its task and its cancellation). The queue of pending statics writes is modelled as a list that updates append to. Nothing drains it.
- The file-system bootstrap in `Load` and `CheckForShardMapFile`: file-existence tests, `CopyFile` and the UOP extraction. It is I/O. The model takes its result, the files bound per map and the statics file lengths, from `Env.load`, and takes a failed bootstrap as `LoadFailed`.
- The partial state of a failed bootstrap. The model keeps the old loader and end-of-file table. The source, by the time the file walk throws, has already installed the new loader (`UOFileManager.MapLoaderReLoad`) and reset `_EOF` (lines 686-687). What else it has bound by then depends on which files exist.
- `Load`'s early return (line 683). `Load` returns at once when the installed loader is already a `ULMapLoader`, which holds on every rebuild after the first. The model does not distinguish the first rebuild from later ones. Every rebuild installs the new loader's block sizes, resets the end-of-file table and binds the files `Env.load` supplies.
- `MapDefinition.Rebuild`: describes a rebuild made while the base loader is installed (the first one). On a later rebuild the source skips `MapLoaderReLoad`, the `_EOF` reset and the `MapBlocksSize` update (lines 683-735). The old `ULMapLoader` stays installed with its block sizes and end-of-file table, and lines 333-345 take the file references from the new loader, which never loaded. That loader is outside this model, so what it hands out is not modelled.
- `MapDefinition.MapDefinitionRebuild`: its rebuilt loader and store are those of a first rebuild, for the reason above. Its rebuild decision (line 321) and the kept state without a rebuild hold on every definition. The same limit applies to `MapDefinition.MapDefinitionKeepsWellFormed` and `Protocol.HandleKeepsWellFormed` after a later rebuild. The geometry rows (`MapDefinition.MapDefinitionGeometry`, lines 306-317) are written before the decision and hold on every definition.
- The `MapBlocksSize` rows of maps outside the valid list after a rebuild. The base `MapLoader` that sets them is not part of this model, so they are modelled as 0 x 0.
- `Constants.MAPS_COUNT = 127` (line 324). It is a global of code outside this model; the model's tables simply have 127 slots.
- Chunk objects (lines 228-261 and 411-444). Detaching and re-attaching game objects, `Chunk.Clear` and `Chunk.Load` are world and rendering code. The model records only which chunk indices get reloaded (`ReloadChunk`). It also records the block re-indexing as the `BlockData` that `ReloadBlock` computes (`Reindex`).
- The UOP branch of `ReloadBlock` (lines 873-884). Files bound by a live-sync rebuild are always `ULFileMul`.
- UI, network and logging calls: the minimap gump, `NetClient.Send`, `Log.Trace`. They are effects (`RefreshMinimap`, `HashResponse`, `WarnUnknownMap`). The wire framing of `UltimaLiveHashResponse` (lines 525-537) is not modelled.
- Packet byte decoding. Messages arrive decoded, with their length and the header fields the handlers read. `ReadArray` with a negative length is taken as an empty read. A read past the end of the decoded message is modelled as the throw `ReadPastPacket`.
- `Path.GetFullPath` and the special-folder lookup in `ValidatePath`. These are platform path rules, so the environment supplies them as `Env.resolve` (with `None` where they throw) and `Env.separators`.
- `char.IsWhiteSpace` beyond Latin-1. `Login.IsWhiteSpace` lists the whitespace characters up to U+00FF only.
- Effects that come before an exception are not recorded. A handler that throws yields the state it reached and the exception, not the effects it had already produced.
- `MapStore.GetBlockCrc`: does not model the int32 overflow of `192 + bytecount` (line 459). A length word above 2^31 - 193 makes that sum negative and the array allocation throw; the model builds the full `192 + max(0, length)` bytes instead. Such a length means a block with nearly 2 GiB of statics.
- The int32 overflow of the offsets `block * 196 + 4` and `block * 12`. Both are unbounded here: the blocks that reach them are below the map's block count, and the index and terrain regions must hold them.
- `HashQuery.HashQueryReply`: requires that the cache holds no wrong checksums (`Coherent`). The source promises nothing for a cache whose entries disagree with the files.
- `MapDefinition.MapDefinitionKeepsWellFormed`: requires that the loaded index regions cover their maps' blocks (`LoadFits`). This is the layout the bootstrap creates, and the model does not derive it from the file system.
- `Protocol.HandleKeepsWellFormed`: requires `LoadFits` for the same reason.
- `Protocol.Run`: requires `LoadFits` of every step's environment for the same reason.
- `StaticsUpdate.StaticsUpdateStores`: covers only payloads that fit the mapped statics view. The other case is `StaticsUpdate.StaticsOverflowAdvancesEof`.
- `StaticsUpdate.StaticsPayloadKeepsCacheCoherent`: requires that the written slot overlaps no other cached block's statics. The source marks only the updated block stale. When two records share statics bytes, which the server or the bootstrap files can produce, the other block's cached checksum goes wrong, and nothing in the source rules that out.
- `StaticsUpdate.PlacementEof`: the end-of-file offset is promised never to decrease only while `eof + totallen` fits 32 bits. Past that the source's `uint` addition wraps, and the lemma states the wrapped value instead.
