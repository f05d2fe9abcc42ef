# A verified model of the p4 key-value store and its log file system

The p4 component of this repository has three parts:

- a key-value database (`p4/kvdb.c`) that keeps every version of every key
  in an append-only record store (`kvraw`), with an index from each key to
  its newest record;
- a log file system (`p4/logfs.c`) that presents a block device as one
  append-only byte stream, through a circular write buffer of 32 blocks and
  a read cache of 256 block slots;
- a hex dump helper (`p4/utils.c`).

This Dafny project models each part as pure functions over immutable
datatypes. It then proves what the code promises of them.

- **Key-value database** (`Kvdb`, `KvdbProofs`). Each operation refines the
  key-value map that the record log denotes: `RecordLog.Contents`, the
  newest record per key, with an empty value acting as a tombstone. Insert,
  update, replace and remove change that map exactly as their names say.
  They return +1 exactly when the source refuses the call. The `size`
  counter equals the number of keys. Every record is live, counted in
  `waste`, or a tombstone. An invariant (`KvdbProofs.Inv`) holds from
  `Open` on and is kept by every call of the model, successful, refused or
  failed, under any collaborator failure (`KvdbProofs.MutateKeepsInv`).
  The model's update bumps its counter only after a successful append. The
  source bumps it before the append, and that order breaks the invariant
  when the append fails (see Findings).
- **Write buffer** (`WriteBuffer`). Its state is a ring `buf` with an
  append head and a write head. `Pending` is the bytes the ring still owes
  the device, oldest first. Appending extends `Pending` by the data.
  Flushing writes whole blocks to their device addresses and keeps the
  end address. The buffer read returns the pending bytes of the region.
- **Read cache** (`ReadCache`). Slot selection (first free slot, else
  round-robin eviction), lookup, invalidation and the multi-block read.
  The cache stays coherent with the device, and a read returns the
  device's bytes.
- **Log file system** (`LogFs`). `Coherent(fs, L)` ties a state to the
  stream `L` appended so far, whose device addresses are `u64` values. Open gives the empty stream. Append extends
  it, flush keeps it, and `Read(off, len)` returns exactly
  `L[off..off + len]`.
- **Hex dump** (`HexDump`). `dump_bytes` prints two upper-case hex digits
  per byte, with a space after a byte whenever an even number of bytes
  follows it. Reading the digits back gives the input. The output fits the
  `4 * count + 1` bytes the source allocates.

The collaborators whose code is not part of the model enter as abstractions:

- `RecordLog` stands for the record store behind `p4/kvraw.h`.
  Offsets are 1-based record numbers, and 0 means "none".
- `KvIndex` stands for the index behind `p4/index.h`, as a map.
- `Device` is a block device: a map from block number to block contents,
  where an unwritten block reads as zeros.
- `Kvdb.Faults` is a parameter that says whether `index_update` fails to
  allocate and whether `kvraw_append` fails.
- `kvdb.h` is not part of this model. `KVDB_MAX_KEY_LEN` and
  `KVDB_MAX_VAL_LEN` are therefore the fields of the `Kvdb.Limits`
  parameter.

The `uint64_t` counters and the `u64` address arithmetic wrap explicitly
where the code relies on them: `Inc`, `Dec`, the offset in `Locate`,
`region_end` (`LogMeta.WrappedEnd`) and the strategy tests of `wb_analyze`
that use it, the disk size of a split plan, the read address
`off + block_size` in `logfs_read`, and `getsize`. The products
`current_block * block_size` and `page_no * block_size` are different. The
source computes them on `int` operands, and they overflow once the log
passes 2^31 - 1 bytes. The model computes them exactly, so it describes
logs below that size (see Left out).

`logfs_close` does not save the write cursor: the three lines that would do
so (`p4/logfs.c:591-593`) are commented out. The metadata therefore keeps
its open-time cursor, so `logfs_getsize` reports 0 for as long as the file
system is open (`LogFs.Open`, `LogFs.Append`, `LogFs.Flush`).

## Model

| member | source | states |
|---|---|---|
| Kvdb.ChainLookup | p4/kvdb.c:39-101 | The backward walk from `off` yields 0 exactly when no record on the chain carries the key. Otherwise it yields the first (newest) record on the chain with that key, and no later record on the chain has the key. It fails exactly when the walk starts past the last record. |
| KvdbProofs.ChainLookupOneStep | p4/kvdb.c:39-101 | On a log whose chains are strict, the walk stops at `off` when that record has the key, and otherwise reports 0. |
| KvIndex.Update | p4/kvdb.c:118-122 | `index_update` is get-or-insert. The keys gain exactly `key`, a new cell holds 0, and no other cell changes. |
| Kvdb.Mutate | p4/kvdb.c:105-198 | Update follows the corrected order of Findings: it bumps its counter only after the append succeeds. An allocation failure returns -1 with the database unchanged. Any result other than 0 leaves the log, both counters and the key's cell value unchanged. A success appends exactly one record (a tombstone for remove) linked to the cell's old value, and points the cell at it. Update never answers +1. Other keys' cells never move. |
| Kvdb.UpdateAsWritten | p4/kvdb.c:167-181 | The update branch in the source's order agrees with `Mutate` when the append succeeds. When the append fails, it returns -1 with the log unchanged but `size` or `waste` already bumped. |
| Kvdb.Lookup | p4/kvdb.c:327-364 | A key without a cell, or with cell 0, is not found. A found value is non-empty and is stored in some record under the key. |
| KvdbProofs.OpenInv | p4/kvdb.c:200-229 | A freshly opened database (no records, no cells, counters 0) satisfies the invariant. |
| KvdbProofs.CellIsNewest | p4/kvdb.c:118-122 | Under the invariant, a key's cell (0 when it has none) names its newest record. |
| KvdbProofs.LookupRefines | p4/kvdb.c:327-364 | Lookup returns the denoted map's value for a present key and "not found" for an absent one. It never reports -1 on a reachable state. |
| KvdbProofs.InsertShape | p4/kvdb.c:153-166 | On a reachable state, insert answers +1 for a present key and changes nothing but a zero cell. Otherwise it appends the record and bumps `size`. |
| KvdbProofs.InsertRefines | p4/kvdb.c:267-285 | Insert keeps the invariant and never fails. It is refused exactly when the key is present. It adds the key with its value exactly when the key is absent. |
| KvdbProofs.UpdateShape | p4/kvdb.c:167-181 | On a reachable state, update always appends. It bumps `waste` for a present key and `size` for an absent one. |
| KvdbProofs.UpdateRefines | p4/kvdb.c:287-305 | Update keeps the invariant and always succeeds. The key then maps to the new value. `size` grows by one for a new key, and `waste` grows by one for an overwritten key. |
| KvdbProofs.UpdateExisting | p4/kvdb.c:170-172 | Updating a present key leaves `size` unchanged and grows `waste` by one. |
| KvdbProofs.UpdateNew | p4/kvdb.c:168-169 | Updating an absent key grows `size` by one and leaves `waste` unchanged. |
| KvdbProofs.ReplaceShape | p4/kvdb.c:182-196 | On a reachable state, replace answers +1 for an absent key. Otherwise it appends the record and bumps `waste`. |
| KvdbProofs.ReplaceRefines | p4/kvdb.c:307-325 | Replace keeps the invariant and never fails. It is refused exactly when the key is absent, and otherwise sets the key to the new value. |
| KvdbProofs.RemoveShape | p4/kvdb.c:135-152 | On a reachable state, remove answers +1 for an absent key. Otherwise it appends a tombstone, decrements `size`, increments `waste`, and reports the removed value's length. |
| KvdbProofs.RemoveLive | p4/kvdb.c:135-152 | Removing a present key appends a tombstone and reports the length of the key's current value. |
| KvdbProofs.RemoveRefines | p4/kvdb.c:253-265 | Remove keeps the invariant and never fails. It is refused exactly when the key is absent. It deletes the key from the map. On success it reports the length of the removed value. |
| KvdbProofs.MutateKeepsInv | p4/kvdb.c:105-198 | Every call of the model keeps the invariant under any combination of collaborator failures, including a refusal while the append would fail. |
| KvdbProofs.UnfailedIsFaultFree | p4/kvdb.c:116-131 | A call that does not answer -1 has the outcome of the same call with no collaborator failure: insert, replace and remove refuse before appending. |
| KvdbProofs.FailureKeepsState | p4/kvdb.c:116-131 | Under any combination of collaborator failures, a -1 answer of the model (update in the corrected order) leaves the log and both counters unchanged and keeps the invariant. |
| KvdbProofs.InsertThenLookup | p4/kvdb.c:267-285 | Round trip: after inserting an absent key, lookup returns the inserted value. |
| KvdbProofs.UpdateSupersedes | p4/kvdb.c:287-305 | After insert(k, v1) then update(k, v2), lookup returns v2. `size` has grown by one and `waste` by one. |
| KvdbProofs.RemoveLeavesTombstone | p4/kvdb.c:135-152 | After insert then remove, the last record is a tombstone and the key is not found. A second remove is refused. The counters are back to the original `size`, with one more `waste`. |
| KvdbProofs.InsertExistingRefused | p4/kvdb.c:153-156 | A second insert of the same key is refused, appends nothing, and the first value stays visible. |
| KvdbProofs.ReplaceMissingRefused | p4/kvdb.c:182-185 | Replacing a key that has no record is refused and appends nothing. |
| KvdbProofs.UpdateAsWrittenMiscounts | p4/kvdb.c:167-181 | From every reachable state, the source's update with a failing append returns -1 with the log unchanged, but the counters no longer count the log. |
| KvdbProofs.UpdateFailureKeepsCount | p4/kvdb.c:167-181 | The corrected update with a failing append returns -1 and keeps the invariant, counters included. |
| RecordLog.ContentsNewest | p4/kvdb.c:357-359 | A key is in the denoted map exactly when its newest record exists and is not a tombstone, and then it maps to that record's value. |
| RecordLog.AppendKeepsChainLinked | p4/kvdb.c:139-144 | Appending a record linked to the key's newest record keeps every key's records in one strict backward chain. |
| LogMeta.InitSizeZero | p4/logfs.c:73-81 | `meta_init` puts the cursor at block `RESERVED_BLOCKS`, offset 0, which is stream size 0 for every block size. |
| LogMeta.SizeOfCursor | p4/logfs.c:608-610 | `getsize` reads back the stream position a cursor encodes, and the cursor of position 0 is the initial metadata. |
| WriteBuffer.Init | p4/logfs.c:152-187 | The new buffer is well formed and starts at the cursor's block. Its pending bytes are exactly the first `current_offset` bytes of that block on the device. |
| WriteBuffer.UsedSpace | p4/logfs.c:193-200 | The used space is the forward ring distance from the write head to the append head, always below the capacity. |
| WriteBuffer.FreeSpace | p4/logfs.c:214-216 | The free space is the capacity minus the used space, and is never 0. |
| WriteBuffer.Locate | p4/logfs.c:224-230 | The position is always inside the ring. For an address between `Start` and `End` it lies that many bytes past the write head. |
| WriteBuffer.Analyze | p4/logfs.c:255-288 | The region's end is `region_end`'s wrapping `u64` sum. The cache plan is chosen exactly when that end is before `Start` or the region starts after `End`. The buffer plan is chosen exactly when both the address and that end lie in `[Start, End]`. A split gives the buffer the part from `Start` to that end and the disk the rest, with sizes adding up modulo 2^64. |
| LogMeta.WrappedEndCases | p4/logfs.c:54-56 | For `u64` address and size, `region_end` is the exact end when that is below 2^64. Otherwise it wraps to the exact end minus 2^64, which is below the address. |
| WriteBuffer.AnalyzeWrapToCache | p4/logfs.c:264-268 | With `region_end` (`p4/logfs.c:54-56`) wrapping, a region whose end passes 2^64 to below `Start` goes whole to the read cache, wherever it starts. |
| WriteBuffer.AnalyzeSplitsExactly | p4/logfs.c:285-287 | On a buffer whose `End` is below 2^64, for a region ending inside the log, the end does not wrap. The disk part is the prefix before `Start` and the buffer part is the contiguous rest inside the buffered bytes. The sizes add up exactly, as the source asserts. |
| WriteBuffer.Read | p4/logfs.c:296-316 | The read is refused exactly for an address outside `[Start, End]`. Otherwise it returns `size` bytes, which are the pending bytes of the region when it ends by `End`. |
| WriteBuffer.AppendRaw | p4/logfs.c:318-351 | With the source's admission test, the append head moves by `size` modulo the capacity. The write head and the block number stay. The used space becomes the old used space plus `size`, modulo the capacity. |
| WriteBuffer.AppendRawWrites | p4/logfs.c:338-344 | The position `d < size` past the old append head holds data byte `d`, and every other position keeps its byte. |
| WriteBuffer.AppendFullLosesData | p4/logfs.c:320-345 | Admitting `size == freespace` puts the append head on the write head. The buffer then reads as empty, and the old pending bytes and the data are lost. |
| WriteBuffer.Append | p4/logfs.c:338-345 | With room to spare, the pending bytes become the old pending bytes followed by the data, and `End` moves by `size`. |
| WriteBuffer.AppendExtends | p4/logfs.c:338-345 | Copying into the ring and moving the append head appends the data to the pending bytes. |
| WriteBuffer.FlushPage | p4/logfs.c:372-383 | The block a flush step writes, recombined in the virtual page when it reaches the end of the ring, is the first block of pending bytes. |
| WriteBuffer.StepArith | p4/logfs.c:384-385 | Advancing the block number and the write head by one block frees exactly one block, moves `Start` by one block, and drops that block from the pending bytes. |
| WriteBuffer.FlushStep | p4/logfs.c:371-386 | One loop iteration keeps the flush invariant: flushed bytes sit at their addresses, the rest are pending, and no block before the first flushed one changes. |
| WriteBuffer.FlushBlock | p4/logfs.c:371-386 | One iteration writes the first pending block to `current_block` and advances by one block. |
| WriteBuffer.FlushBlocks | p4/logfs.c:371-386 | The loop ends with less than one block pending, the flush invariant intact, and the virtual page one block long. |
| WriteBuffer.FlushTail | p4/logfs.c:387-390 | A partial flush of an unwrapped tail writes the remaining pending bytes at their addresses, without disturbing the flushed ones. |
| WriteBuffer.FlushPartialBytes | p4/logfs.c:387-390 | A virtual page that starts with the unwrapped tail, written to `current_block`, holds the pending bytes at their addresses. |
| WriteBuffer.FlushCount | p4/logfs.c:368-386 | The loop writes exactly `usedspace / block_size` blocks: the source's `target_blocks`. |
| WriteBuffer.Flush | p4/logfs.c:359-395 | After a flush, less than a block is pending and `End` is unchanged. The block number has advanced by the number of whole blocks. Every flushed byte sits at its device address, and so does the unwrapped tail when a partial flush is asked for. The remaining pending bytes are the old ones past the flushed part. No block before the old `current_block` changes. Exactly `usedspace % block_size` bytes stay buffered, even when the tail is also written, so the free space afterwards is the capacity less that remainder. |
| ReadCache.Init | p4/logfs.c:443-452 | Every slot is free and the eviction cursor is 0, so the cache holds no block. |
| ReadCache.Find | p4/logfs.c:460-464 | The scan finds the first slot at or after `from` with the tag, or reports that none has it. |
| ReadCache.GetFreePage | p4/logfs.c:459-468 | It returns the first free slot when one exists, leaving the cache unchanged. Otherwise it returns the slot under the eviction cursor and moves the cursor by one, modulo 256. |
| ReadCache.GetPage | p4/logfs.c:486-498 | A hit returns the first slot holding the block, with the cache unchanged. A miss takes the slot `get_free_page` picks, tags it and fills it from the device. No other slot changes. The slot then holds the block, and coherence is kept. |
| ReadCache.Invalidate | p4/logfs.c:470-476 | Every slot tagged with the block becomes free. All other tags, all slot contents and the cursor stay. |
| ReadCache.InvalidateKeeps | p4/logfs.c:470-476 | Invalidation keeps the cache coherent and leaves no slot holding the block. |
| ReadCache.Read | p4/logfs.c:508-528 | The read returns exactly `size` bytes, the device's bytes of the region, however many blocks it spans. The cache stays coherent. Every slot whose tag changes holds a block the region touches, from the block of `region.address` to the block of its last byte. Every held block therefore stays below any bound the region's end respects. |
| LogFs.Open | p4/logfs.c:575-587 | A freshly opened file system holds the empty stream, and `getsize` is 0. |
| LogFs.Append | p4/logfs.c:569-573 | After the cached copy of the current block is dropped and the data appended, the state holds `L + data`. The metadata and the device are unchanged. On a coherent state the cache holds no copy of the current block, so the drop frees nothing. |
| LogFs.Flush | p4/logfs.c:359-395 | A flush keeps the stream. Less than a block stays buffered, and the cache and the metadata are unchanged. |
| LogFs.Read | p4/logfs.c:540-567 | A read inside the stream returns exactly `L[off..off + len]`, and the state keeps holding `L`. |
| LogFs.ReadDisk | p4/logfs.c:558-560 | The cache part of a plan is the stream's bytes from `off`, and the new cache keeps the state coherent. |
| LogFs.ReadBuffered | p4/logfs.c:561-564 | The buffer part of a plan is the stream's bytes after the disk part, up to `off + len`. |
| LogFs.ReadPlanDisk | p4/logfs.c:540-546 | For a read inside the stream, the disk part of the plan starts at the region and lies wholly on flushed blocks. |
| LogFs.ReadPlanBuffered | p4/logfs.c:540-546 | For a read inside the stream, the buffer part of the plan lies inside the pending bytes, and those bytes are the stream's bytes there. |
| LogFs.FlushCoherent | p4/logfs.c:359-395 | What the buffer-level flush guarantees keeps the file system holding the same stream. |
| HexDump.DumpBytes | p4/utils.c:8-19 | The loop produces `Dump(s)`, which parses back to `s` and fits the `count * 4 + 1` bytes allocated. |
| HexDump.DumpShape | p4/utils.c:12-17 | The dump has two characters per byte plus one space per pair of bytes, rounded up. It is empty exactly for empty input, and otherwise ends in a space. |
| HexDump.DumpRoundTrip | p4/utils.c:12-16 | Dropping the spaces and reading the digits two per byte gives back the input. |
| HexDump.DumpLayout | p4/utils.c:12-16 | Byte `j` appears as its `%.2X` digits at a fixed position. A space follows it exactly when the number of bytes after it is even. |

## Left out

- The locks, condition variables and the worker thread (`worker_loop`, `wb_shutdown`). The wait for space in `wb_append` is left out as well. The model is sequential: the background flush is the explicit `LogFs.Flush` step, and an append is taken to run once its wait is over.
- WriteBuffer.Append: the wait in `wb_append` (`p4/logfs.c:320-334`) can last forever, and the model does not say so. Only a flush frees space. A flush leaves `usedspace % block_size` bytes buffered, since the partial write does not move `write_head` (`p4/logfs.c:387-390`), so free space never exceeds the capacity less that remainder (`WriteBuffer.Flush`). An append larger than that, and in particular any append larger than `buf_size`, waits forever. The model's requires `size < FreeSpace` takes only appends whose wait has ended.
- The device (`device_open`, `device_read`, `device_write`): its code is not part of this model. It is a map from block number to block, and an unwritten block reads as zeros.
- `meta_save`, `meta_load`, `logfs_close`, `logfs_setmeta` and `logfs_readindex`. Persistence is disabled in `logfs_open` and the cursor is never saved, so none of them affects the stream.
- Index persistence in `kvdb_open_persistent` and `kvdb_close` (`index_serialize`, `index_deserialize`, `kvraw_saveindex`, `kvraw_getindex`). `Kvdb.Open` is the non-persistent open.
- Kvdb.ChainLookup: the key comparison is modelled as equality of the whole key. The source first reads at most 256 bytes of the key into a stack buffer. Its first `memcmp` compares `MIN(key_len, sizeof(key_))` bytes, and `key_` is a pointer, so that is 8 bytes (`p4/kvdb.c:58-59`). The re-read test `key_len_ > sizeof(key_)` (`p4/kvdb.c:67`) is likewise against the pointer's size. So every candidate key longer than 8 bytes whose length and first 8 bytes match is re-read into a fresh `malloc`, not only keys longer than the 256-byte buffer. Whenever the lengths agree, the final `memcmp` (`p4/kvdb.c:88`) decides on the whole key, so the outcome is the same.
- Kvdb.Mutate: the update branch bumps `size` or `waste` only after a successful append. This is the corrected order; the source's order is `Kvdb.UpdateAsWritten` (see Findings).
- Kvdb.FoundLen: `kvraw_lookup` is taken to report the stored value's full length whatever capacity the caller passes. Insert, update and replace set the capacity to 0 (`p4/kvdb.c:125-126`). `chain_lookup` hands it on (`p4/kvdb.c:45-52`), and mutate reads only the reported length. `p4/kvraw.c` is not part of this model, so this is an assumption about it.
- HexDump.DumpBytes: the result of `malloc` (`p4/utils.c:9`) is not checked in the source, so an allocation failure would be written through a null pointer. The model has no allocation failure.
- Kvdb.Mutate: the out-buffers of remove and lookup are not modelled. Remove reports the removed value's length (`removedLen`), and lookup returns the value itself.
- Kvdb.Mutate: memory allocation failures other than `index_update`'s are not modelled. These are the `malloc` in `chain_lookup` (`p4/kvdb.c:68`), which runs for every candidate record whose key is longer than 8 bytes and matches in length and in its first 8 bytes, and the allocations in `open`. `kvraw_lookup` fails only when it reads an offset that holds no record.
- WriteBuffer.Start: `current_block * block_size` is computed exactly here. In the source both operands are `int` (`p4/logfs.c:121-123`), so the product at `p4/logfs.c:177`, 225, 261, 297, 378, 381 and 389 overflows, which is undefined behaviour, once the log passes 2^31 - 1 bytes (about 2 GiB). The model therefore describes only logs below that size.
- WriteBuffer.UsedSpace: `int size` in `wb_usedspace` and the `int` fragment lengths in `wb_read` and `wb_flush` are exact here. The model's invariant bounds the ring by `INT_MAX`, so they cannot overflow.
- ReadCache.Read: page numbers and page addresses are computed exactly here. In the source, `page_no * rc->block_size` (`p4/logfs.c:496`) multiplies two `int`s, so it overflows for addresses from 2^31 bytes on, and `int current_page` (`p4/logfs.c:510`) truncates the page number soon after. The model describes only reads below 2^31 bytes.
- ReadCache.Init: the slot memory that `rc_init` leaves uninitialised is modelled as zeros. No slot is read before a block is loaded into it.
- LogFs.Append: uses the corrected admission test `size < freespace` (see Findings). With the source's `size <= freespace`, a call that exactly fills the buffer loses the buffered bytes.
- LogFs.Append: also requires the stream's device end, `block_size + |L| + size`, to stay below 2^64. This keeps every device address of the stream a `u64` value. The source's `int` products overflow at 2^31 - 1 bytes, long before that (see WriteBuffer.Start).
- LogFs.Read: the model takes only reads inside the stream (`off + len <= |L|`), which is what the database above it issues. The return value of `wb_read` is ignored in the source, and for such reads it is always true. For such reads neither `off + block_size` nor `region_end` wraps.
- The `log`, `printf` and `TRACE` output, `index_print`, and `safe_strlen` on the path name.

## Findings

| source | as written | input that shows it | evidently intended | confidence | as-written member | corrected member |
|---|---|---|---|---|---|---|
| p4/kvdb.c:167-181 | `MUTATE_UPDATE` increments `size` (new key) or `waste` (existing key) before calling `kvraw_append`, and returns -1 on an append failure without undoing the increment | any reachable database, any key, with `kvraw_append` failing: the call returns -1, the log is unchanged, and `size` or `waste` is one higher, so `size` no longer equals the number of keys | bump the counter only after a successful append, as the other three modes do | not executed | KvdbProofs.UpdateAsWrittenMiscounts | KvdbProofs.UpdateFailureKeepsCount |
| p4/logfs.c:320, 338-345 | `wb_append` waits only while `freespace < size`, so it admits `size == freespace` and then moves `append_head` onto `write_head` | a buffer of capacity 32·bs holding u bytes, appended with 32·bs − u bytes: afterwards `usedspace` is 0, so the flush writes nothing and the buffered bytes and the new data are gone | admit an append only when `size < freespace`, so that a full buffer stays distinguishable from an empty one | not executed | WriteBuffer.AppendFullLosesData | WriteBuffer.Append |
