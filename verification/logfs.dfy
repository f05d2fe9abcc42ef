/**
 * The log file system of `p4/logfs.c`: a write buffer, a read cache and the
 * metadata record over one block device, presenting a single append-only
 * byte stream. Logical offset `o` lives at device address `o + block_size`,
 * past the reserved metadata block.
 *
 * `Coherent(fs, L)` ties a state to the stream `L` appended so far: the
 * bytes before the write buffer's first block are on the device at their
 * addresses, the rest are exactly the buffer's pending bytes, and every
 * block the read cache holds lies before the buffer and matches the device.
 * Opening gives the empty stream, appending extends it, flushing keeps it,
 * and reading returns a slice of it.
 */
module LogFs {
  import opened Bytes
  import opened LogMeta
  import WriteBuffer
  import ReadCache
  import Device

  datatype Fs = Fs(wb: WriteBuffer.Wb, cache: ReadCache.Rc, meta: Metadata, dev: Device.Disk)

  /** The number of stream bytes before the write buffer's first block. */
  function Flushed(wb: WriteBuffer.Wb): nat
    requires wb.currentBlock >= RESERVED_BLOCKS
  {
    (wb.currentBlock - RESERVED_BLOCKS) * wb.blockSize
  }

  lemma FlushedStart(wb: WriteBuffer.Wb)
    requires wb.currentBlock >= RESERVED_BLOCKS
    ensures WriteBuffer.Start(wb) == wb.blockSize + Flushed(wb)
  {
    assert wb.currentBlock * wb.blockSize == (wb.currentBlock - 1) * wb.blockSize + wb.blockSize;
  }

  /**
   * The state holds the stream `L`, and every device address of it is a
   * `u64` value.
   */
  ghost predicate Coherent(fs: Fs, L: seq<byte>) {
    && WriteBuffer.Valid(fs.wb) && fs.wb.currentBlock >= RESERVED_BLOCKS
    && ReadCache.Valid(fs.cache) && fs.cache.blockSize == fs.wb.blockSize
    && ReadCache.Coherent(fs.cache, fs.dev) && ReadCache.HeldBelow(fs.cache, fs.wb.currentBlock)
    && fs.wb.blockSize + |L| < U64_LIMIT
    && Flushed(fs.wb) + WriteBuffer.UsedSpace(fs.wb) == |L|
    && WriteBuffer.Pending(fs.wb) == L[Flushed(fs.wb)..]
    && Device.Holds(fs.dev, fs.wb.blockSize, fs.wb.blockSize, L[..Flushed(fs.wb)])
  }

  /** `logfs_getsize`: the metadata cursor as a stream length. */
  function GetSize(fs: Fs): u64 {
    Size(fs.meta, fs.wb.blockSize)
  }

  /**
   * `logfs_open` with persistence off: fresh metadata, a write buffer at its
   * cursor and an empty cache over the device `dev` with blocks of `bs`
   * bytes. Whatever the device holds, the state holds the empty stream.
   */
  function Open(dev: Device.Disk, bs: nat): (fs: Fs)
    requires bs > 0 && bs * WriteBuffer.WCACHE_BLOCKS <= WriteBuffer.INT_MAX
    ensures Coherent(fs, [])
    ensures GetSize(fs) == 0
  {
    var meta := MetaInit();
    var fs := Fs(WriteBuffer.Init(meta, dev, bs), ReadCache.Init(bs), meta, dev);
    OpenEmpty(fs);
    InitSizeZero(bs);
    fs
  }

  /** A state with nothing flushed, nothing buffered and nothing cached holds the empty stream. */
  lemma OpenEmpty(fs: Fs)
    requires WriteBuffer.Valid(fs.wb) && fs.wb.currentBlock == RESERVED_BLOCKS
    requires WriteBuffer.Pending(fs.wb) == []
    requires ReadCache.Valid(fs.cache) && fs.cache.blockSize == fs.wb.blockSize
    requires ReadCache.HeldBelow(fs.cache, 0)
    ensures Coherent(fs, [])
  {
    ReadCache.EmptyCoherent(fs.cache, fs.dev);
    assert Flushed(fs.wb) == 0;
    assert WriteBuffer.UsedSpace(fs.wb) == 0;
    var empty: seq<byte> := [];
    assert empty[..0] == [] && empty[0..] == [];
  }

  /**
   * `logfs_append`: drop the cached copy of the current block, then append
   * to the write buffer, here with room to spare (`size < FreeSpace`) and
   * with the stream's end staying a `u64` device address. The stream grows
   * by exactly `data`; the metadata and the device are untouched.
   */
  method Append(fs: Fs, ghost L: seq<byte>, data: seq<byte>) returns (fs': Fs)
    requires Coherent(fs, L) && |data| < WriteBuffer.FreeSpace(fs.wb)
    requires fs.wb.blockSize + |L| + |data| < U64_LIMIT
    ensures Coherent(fs', L + data)
    ensures fs'.meta == fs.meta && fs'.dev == fs.dev && GetSize(fs') == GetSize(fs)
  {
    // The cache holds only blocks before `currentBlock`, so on a coherent
    // state this invalidation frees nothing; it matters only after reads
    // past the stream, which this model does not take.
    var cache := ReadCache.Invalidate(fs.cache, fs.wb.currentBlock);
    ReadCache.InvalidateKeeps(fs.cache, cache, fs.dev, fs.wb.currentBlock, fs.wb.currentBlock);
    var wb := WriteBuffer.Append(fs.wb, data);
    fs' := fs.(wb := wb, cache := cache);
    var f := Flushed(fs.wb);
    assert (L + data)[..f] == L[..f];
    assert (L + data)[f..] == L[f..] + data;
  }

  /**
   * The background flush (`wb_flush`): whole blocks move from the write
   * buffer to the device. The state keeps holding the same stream, and
   * less than a block stays buffered.
   */
  method Flush(fs: Fs, ghost L: seq<byte>, flushPartial: bool) returns (fs': Fs)
    requires Coherent(fs, L)
    ensures Coherent(fs', L)
    ensures WriteBuffer.UsedSpace(fs'.wb) < fs'.wb.blockSize
    ensures fs'.meta == fs.meta && fs'.cache == fs.cache && GetSize(fs') == GetSize(fs)
  {
    var wb, dev := WriteBuffer.Flush(fs.wb, fs.dev, flushPartial);
    fs' := fs.(wb := wb, dev := dev);
    FlushCoherent(fs, L, wb, dev);
  }

  /** What the buffer-level flush guarantees is enough to keep the stream. */
  lemma FlushCoherent(fs: Fs, L: seq<byte>, wb: WriteBuffer.Wb, dev: Device.Disk)
    requires Coherent(fs, L)
    requires WriteBuffer.Valid(wb) && wb.buf == fs.wb.buf && wb.appendHead == fs.wb.appendHead
    requires wb.blockSize == fs.wb.blockSize
    requires WriteBuffer.End(wb) == WriteBuffer.End(fs.wb) && WriteBuffer.Start(fs.wb) <= WriteBuffer.Start(wb)
    requires fs.wb.currentBlock <= wb.currentBlock
    requires WriteBuffer.Pending(wb) == WriteBuffer.Pending(fs.wb)[WriteBuffer.Start(wb) - WriteBuffer.Start(fs.wb)..]
    requires Device.Holds(dev, wb.blockSize, WriteBuffer.Start(fs.wb),
               WriteBuffer.Pending(fs.wb)[..WriteBuffer.Start(wb) - WriteBuffer.Start(fs.wb)])
    requires Device.SameBelow(fs.dev, dev, wb.blockSize, fs.wb.currentBlock)
    ensures Coherent(fs.(wb := wb, dev := dev), L)
  {
    FlushedStart(fs.wb);
    FlushedStart(wb);
    StreamSplit(L, Flushed(fs.wb), Flushed(wb), WriteBuffer.Pending(fs.wb));
    Device.HoldsKept(fs.dev, dev, wb.blockSize, wb.blockSize, L[..Flushed(fs.wb)], fs.wb.currentBlock);
    Device.HoldsConcat(dev, wb.blockSize, wb.blockSize, L[..Flushed(fs.wb)], WriteBuffer.Start(fs.wb),
                       L[Flushed(fs.wb)..Flushed(wb)]);
    assert ReadCache.HeldBelow(fs.cache, wb.currentBlock);
  }

  /** Moving the boundary between the flushed prefix and the pending rest from `f` to `f'`. */
  lemma StreamSplit(L: seq<byte>, f: nat, f': nat, pending: seq<byte>)
    requires f <= f' <= |L| && pending == L[f..]
    ensures pending[..f' - f] == L[f..f'] && pending[f' - f..] == L[f'..]
    ensures L[..f] + L[f..f'] == L[..f']
  {
  }

  /**
   * `logfs_read` of `len` bytes at logical offset `off` inside the stream:
   * plan the read at device address `off + block_size`, take the disk part
   * through the read cache and the buffered part from the write buffer, and
   * lay them out one after the other. The bytes are exactly the stream's
   * bytes there; the state keeps holding the stream.
   */
  method Read(fs: Fs, ghost L: seq<byte>, off: nat, len: nat) returns (fs': Fs, out: seq<byte>)
    requires Coherent(fs, L) && off + len <= |L| && len < U64_LIMIT
    ensures Coherent(fs', L)
    ensures out == L[off..off + len]
    ensures fs'.wb == fs.wb && fs'.meta == fs.meta && fs'.dev == fs.dev
  {
    var address := (off + fs.wb.blockSize) % U64_LIMIT;
    DivModUnique(off + fs.wb.blockSize, U64_LIMIT, 0, off + fs.wb.blockSize);
    var region := Region(address, len);
    var plan := WriteBuffer.Analyze(fs.wb, region);
    var cache, diskPart := ReadDisk(fs, L, off, len, plan);
    var wbPart := ReadBuffered(fs, L, off, len, plan);
    out := diskPart + wbPart;
    fs' := fs.(cache := cache);
    Adjacent(L, off, plan.disk.size, len);
  }

  /** The disk part of a read, through the read cache (nothing for a buffer-only plan). */
  method ReadDisk(fs: Fs, ghost L: seq<byte>, off: nat, len: nat, plan: WriteBuffer.FetchPlan)
      returns (cache: ReadCache.Rc, diskPart: seq<byte>)
    requires Coherent(fs, L) && off + len <= |L| && len < U64_LIMIT
    requires plan == WriteBuffer.Analyze(fs.wb, Region(off + fs.wb.blockSize, len))
    ensures Coherent(fs.(cache := cache), L)
    ensures plan.disk.size <= len && diskPart == L[off..off + plan.disk.size]
  {
    ReadPlanDisk(fs, L, off, len, plan);
    if plan.strategy == WriteBuffer.WriteBufferPlan {
      cache, diskPart := fs.cache, [];
      assert L[off..off + plan.disk.size] == [];
    } else {
      cache, diskPart := ReadCache.Read(fs.cache, fs.dev, plan.disk, fs.wb.currentBlock);
      FlushedSpan(fs, L, off, plan.disk.size);
      assert diskPart == Device.Span(fs.dev, fs.wb.blockSize, off + fs.wb.blockSize, plan.disk.size);
    }
    CacheSwap(fs, L, cache);
  }

  /** The device bytes of the flushed part of the stream, at their addresses. */
  lemma FlushedSpan(fs: Fs, L: seq<byte>, off: nat, m: nat)
    requires Coherent(fs, L) && off + m <= Flushed(fs.wb)
    ensures Device.Span(fs.dev, fs.wb.blockSize, off + fs.wb.blockSize, m) == L[off..off + m]
  {
    Device.SpanOfHeld(fs.dev, fs.wb.blockSize, fs.wb.blockSize, L[..Flushed(fs.wb)], off, m);
    assert fs.wb.blockSize + off == off + fs.wb.blockSize;
    assert L[..Flushed(fs.wb)][off..off + m] == L[off..off + m];
  }

  /** The buffered part of a read, from the write buffer (nothing for a cache-only plan). */
  method ReadBuffered(fs: Fs, ghost L: seq<byte>, off: nat, len: nat, plan: WriteBuffer.FetchPlan)
      returns (wbPart: seq<byte>)
    requires Coherent(fs, L) && off + len <= |L| && len < U64_LIMIT
    requires plan == WriteBuffer.Analyze(fs.wb, Region(off + fs.wb.blockSize, len))
    ensures plan.disk.size <= len && wbPart == L[off + plan.disk.size..off + len]
  {
    ReadPlanBuffered(fs, L, off, len, plan);
    wbPart := [];
    if plan.strategy == WriteBuffer.WriteBufferPlan || plan.strategy == WriteBuffer.BothPlan {
      var got := WriteBuffer.Read(fs.wb, plan.wbRegion);
      wbPart := got.value;
    }
  }

  /** Replacing the cache by another coherent one that holds only flushed blocks keeps the stream. */
  lemma CacheSwap(fs: Fs, L: seq<byte>, cache: ReadCache.Rc)
    requires Coherent(fs, L)
    requires ReadCache.Valid(cache) && cache.blockSize == fs.wb.blockSize
    requires ReadCache.Coherent(cache, fs.dev) && ReadCache.HeldBelow(cache, fs.wb.currentBlock)
    ensures Coherent(fs.(cache := cache), L)
  {
  }

  lemma Adjacent(L: seq<byte>, off: nat, d: nat, len: nat)
    requires d <= len && off + len <= |L|
    ensures L[off..off + d] + L[off + d..off + len] == L[off..off + len]
  {
  }

  /**
   * The disk part of the plan for a read inside the stream: the prefix of
   * the region before the write buffer, all of it on flushed blocks.
   */
  lemma ReadPlanDisk(fs: Fs, L: seq<byte>, off: nat, len: nat, plan: WriteBuffer.FetchPlan)
    requires Coherent(fs, L) && off + len <= |L| && len < U64_LIMIT
    requires plan == WriteBuffer.Analyze(fs.wb, Region(off + fs.wb.blockSize, len))
    ensures plan.disk.size <= len
    ensures plan.strategy == WriteBuffer.WriteBufferPlan ==> plan.disk.size == 0
    ensures plan.strategy != WriteBuffer.WriteBufferPlan ==>
      && plan.disk.address == off + fs.wb.blockSize && off + plan.disk.size <= Flushed(fs.wb)
      && RegionEnd(plan.disk) <= fs.wb.currentBlock * fs.wb.blockSize
  {
    FlushedStart(fs.wb);
    WriteBuffer.AnalyzeSplitsExactly(fs.wb, Region(off + fs.wb.blockSize, len));
  }

  /**
   * The buffered part of the plan: the rest of the region, inside the
   * pending bytes, which are the stream's bytes there.
   */
  lemma ReadPlanBuffered(fs: Fs, L: seq<byte>, off: nat, len: nat, plan: WriteBuffer.FetchPlan)
    requires Coherent(fs, L) && off + len <= |L| && len < U64_LIMIT
    requires plan == WriteBuffer.Analyze(fs.wb, Region(off + fs.wb.blockSize, len))
    ensures plan.disk.size <= len
    ensures plan.strategy == WriteBuffer.CachePlan ==> plan.disk.size == len
    ensures plan.strategy != WriteBuffer.CachePlan ==>
      && plan.wbRegion.size <= |fs.wb.buf|
      && WriteBuffer.Start(fs.wb) <= plan.wbRegion.address
      && RegionEnd(plan.wbRegion) <= WriteBuffer.End(fs.wb)
      && WriteBuffer.Pending(fs.wb)[plan.wbRegion.address - WriteBuffer.Start(fs.wb)..RegionEnd(plan.wbRegion) - WriteBuffer.Start(fs.wb)]
           == L[off + plan.disk.size..off + len]
  {
    FlushedStart(fs.wb);
    WriteBuffer.AnalyzeSplitsExactly(fs.wb, Region(off + fs.wb.blockSize, len));
    if plan.strategy != WriteBuffer.CachePlan {
      assert plan.wbRegion.address - WriteBuffer.Start(fs.wb) == off + plan.disk.size - Flushed(fs.wb);
      assert RegionEnd(plan.wbRegion) - WriteBuffer.Start(fs.wb) == off + len - Flushed(fs.wb);
      SliceOfSlice(L, Flushed(fs.wb), off + plan.disk.size - Flushed(fs.wb), off + len - Flushed(fs.wb));
    }
  }

  lemma SliceOfSlice(s: seq<byte>, f: nat, x: nat, y: nat)
    requires f <= |s| && x <= y <= |s| - f
    ensures s[f..][x..y] == s[f + x..f + y]
  {
  }
}
