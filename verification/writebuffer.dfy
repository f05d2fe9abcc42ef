/**
 * The write buffer of `p4/logfs.c` without its locks and worker thread: a
 * circular buffer of `WCACHE_BLOCKS` device blocks holding the tail of the
 * log that is not yet on the device. Bytes are appended at `appendHead`,
 * whole blocks are written out from `writeHead`, and the buffered bytes
 * are those at device addresses `[Start, End)`, where `Start` is the
 * address of `currentBlock`.
 */
module WriteBuffer {
  import opened Bytes
  import opened LogMeta
  import Ring
  import Device

  /** `WCACHE_BLOCKS`: the buffer's capacity in blocks. */
  const WCACHE_BLOCKS: nat := 32

  /** The largest value of the source's `int` fields. */
  const INT_MAX: nat := 0x7fff_ffff

  datatype Wb = Wb(blockSize: nat, currentBlock: nat, buf: seq<byte>, appendHead: nat, writeHead: nat)

  /** The shape every write buffer keeps: both heads inside a buffer of 32 blocks. */
  predicate Valid(wb: Wb) {
    && wb.blockSize > 0
    && |wb.buf| == wb.blockSize * WCACHE_BLOCKS
    && |wb.buf| <= INT_MAX
    && wb.appendHead < |wb.buf|
    && wb.writeHead < |wb.buf|
  }

  /** `wb_usedspace`: the distance from the write head forward to the append head. */
  function UsedSpace(wb: Wb): (r: nat)
    requires Valid(wb)
    ensures r < |wb.buf|
    ensures r == (wb.appendHead - wb.writeHead) % |wb.buf|
  {
    var size := wb.appendHead - wb.writeHead;
    if size < 0 then
      Ring.ModNegOnce(size, |wb.buf|);
      size + |wb.buf|
    else
      Ring.ModSmall(size, |wb.buf|);
      size
  }

  /** `wb_freespace`: never zero, because the used space stays below the capacity. */
  function FreeSpace(wb: Wb): (r: nat)
    requires Valid(wb)
    ensures 0 < r <= |wb.buf|
    ensures r + UsedSpace(wb) == |wb.buf|
  {
    |wb.buf| - UsedSpace(wb)
  }

  /** `wb_start`: the device address of the first buffered byte. */
  function Start(wb: Wb): nat {
    wb.currentBlock * wb.blockSize
  }

  /** `wb_end`: one past the device address of the last buffered byte. */
  function End(wb: Wb): nat
    requires Valid(wb)
  {
    Start(wb) + UsedSpace(wb)
  }

  /** The buffered bytes, oldest first: what the device is still owed. */
  function Pending(wb: Wb): (r: seq<byte>)
    requires Valid(wb)
    ensures |r| == UsedSpace(wb)
  {
    Ring.Slice(wb.buf, wb.writeHead, UsedSpace(wb))
  }

  /**
   * `wb_init`: an empty buffer positioned at the metadata's cursor. When the
   * cursor is inside a block, that block is read back from the device so
   * that appending resumes right after its first `currentOffset` bytes.
   */
  function Init(meta: Metadata, dev: Device.Disk, bs: nat): (r: Wb)
    requires bs > 0 && bs * WCACHE_BLOCKS <= INT_MAX && meta.currentOffset < bs
    ensures Valid(r) && r.blockSize == bs && r.currentBlock == meta.currentBlock
    ensures Pending(r) == Device.ReadBlock(dev, meta.currentBlock, bs)[..meta.currentOffset]
  {
    var n := bs * WCACHE_BLOCKS;
    var r :=
      if meta.currentOffset > 0 then
        Wb(bs, meta.currentBlock, Device.ReadBlock(dev, meta.currentBlock, bs) + Zeros(n - bs), meta.currentOffset, 0)
      else
        Wb(bs, meta.currentBlock, Zeros(n), 0, 0);
    Ring.ModSmall(r.appendHead, n);
    HeadRun(r.buf, r.appendHead);
    r
  }

  /**
   * `wb_locate`: the buffer position of device address `address`, computed
   * in `uint64_t` arithmetic. It is always inside the buffer, and for an
   * address in `[Start, End]` it is that many positions past the write head.
   */
  function Locate(wb: Wb, address: nat): (r: nat)
    requires Valid(wb)
    ensures r < |wb.buf|
    ensures Start(wb) <= address <= End(wb) ==> r == (wb.writeHead + (address - Start(wb))) % |wb.buf|
  {
    var offset := (address - Start(wb)) % U64_LIMIT;
    if Start(wb) <= address <= End(wb) then
      Ring.ModSmall(address - Start(wb), U64_LIMIT);
      Ring.ModSmall(wb.writeHead + offset, U64_LIMIT);
      ((wb.writeHead + offset) % U64_LIMIT) % |wb.buf|
    else
      ((wb.writeHead + offset) % U64_LIMIT) % |wb.buf|
  }

  /** Where a read is served from. */
  datatype Strategy = WriteBufferPlan | CachePlan | BothPlan

  /** The disk part and the buffer part of a read; a part not used has size 0. */
  datatype FetchPlan = FetchPlan(disk: Region, wbRegion: Region, strategy: Strategy)

  /**
   * `wb_analyze`: a region entirely before the buffered bytes or starting
   * after them goes to the read cache; one inside `[Start, End]` goes to the
   * buffer; anything else is split at `Start`, the buffer taking the part
   * from `Start` to the region's end and the disk the remaining size. The
   * region's end is `region_end`'s wrapping `u64` sum, and so is the disk
   * size.
   */
  function Analyze(wb: Wb, region: Region): (p: FetchPlan)
    requires Valid(wb) && region.address < U64_LIMIT && region.size < U64_LIMIT
    ensures p.strategy == CachePlan <==> WrappedEnd(region) < Start(wb) || region.address > End(wb)
    ensures p.strategy == WriteBufferPlan <==>
      Start(wb) <= region.address <= End(wb) && Start(wb) <= WrappedEnd(region) <= End(wb)
    ensures p.strategy == CachePlan ==> p.disk == region && p.wbRegion.size == 0
    ensures p.strategy == WriteBufferPlan ==> p.wbRegion == region && p.disk.size == 0
    ensures p.strategy == BothPlan ==>
      && p.wbRegion.address == Start(wb) && RegionEnd(p.wbRegion) == WrappedEnd(region)
      && p.disk.address == region.address
      && (p.disk.size + p.wbRegion.size) % U64_LIMIT == region.size % U64_LIMIT
  {
    var start := Start(wb);
    var end := End(wb);
    if WrappedEnd(region) < start || region.address > end then
      FetchPlan(region, Region(0, 0), CachePlan)
    else if region.address >= start && WrappedEnd(region) <= end then
      FetchPlan(Region(0, 0), region, WriteBufferPlan)
    else
      var wbRegion := Region(start, WrappedEnd(region) - start);
      var diskSize := (region.size - wbRegion.size) % U64_LIMIT;
      ModOfModSum(region.size - wbRegion.size, wbRegion.size, U64_LIMIT);
      FetchPlan(Region(region.address, diskSize), wbRegion, BothPlan)
  }

  /**
   * A region whose `u64` end wraps past 2^64 to below `Start` goes to the
   * read cache whole, wherever it starts, although its exact end lies
   * beyond the buffered bytes.
   */
  lemma AnalyzeWrapToCache(wb: Wb, region: Region)
    requires Valid(wb) && region.address < U64_LIMIT && region.size < U64_LIMIT
    requires U64_LIMIT <= RegionEnd(region) < U64_LIMIT + Start(wb)
    ensures Analyze(wb, region).strategy == CachePlan && Analyze(wb, region).disk == region
    ensures End(wb) < U64_LIMIT ==> End(wb) < RegionEnd(region)
  {
    WrappedEndCases(region);
  }

  /**
   * For a region that ends within the log, on a buffer whose addresses are
   * `u64` values, the plan is an exact split: the disk part is the region's
   * prefix before `Start`, the buffer part is the rest, within the buffered
   * bytes, and the sizes add up without wrapping.
   */
  lemma AnalyzeSplitsExactly(wb: Wb, region: Region)
    requires Valid(wb) && End(wb) < U64_LIMIT && RegionEnd(region) <= End(wb)
    ensures region.address < U64_LIMIT && region.size < U64_LIMIT
    ensures var p := Analyze(wb, region);
      && p.disk.size + p.wbRegion.size == region.size
      && (p.strategy != WriteBufferPlan ==> p.disk.address == region.address && RegionEnd(p.disk) <= Start(wb))
      && (p.strategy != CachePlan ==>
            && p.wbRegion.address == region.address + p.disk.size
            && Start(wb) <= p.wbRegion.address && RegionEnd(p.wbRegion) <= End(wb))
  {
    WrappedEndCases(region);
    var p := Analyze(wb, region);
    if p.strategy == BothPlan {
      assert region.address < Start(wb) <= RegionEnd(region);
      Ring.ModSmall(region.size - p.wbRegion.size, U64_LIMIT);
    }
  }

  /**
   * `wb_read`: refuses an address outside `[Start, End]`; otherwise copies
   * `region.size` bytes from the address's buffer position, in two pieces
   * when they wrap. A region inside the buffered bytes reads exactly those.
   */
  function Read(wb: Wb, region: Region): (r: Option<seq<byte>>)
    requires Valid(wb) && region.size <= |wb.buf|
    ensures r.None? <==> region.address < Start(wb) || region.address > End(wb)
    ensures r.Some? ==> |r.value| == region.size
    ensures r.Some? && RegionEnd(region) <= End(wb) ==>
      r.value == Pending(wb)[region.address - Start(wb)..RegionEnd(region) - Start(wb)]
  {
    if region.address < Start(wb) || region.address > End(wb) then None
    else
      var location := Locate(wb, region.address);
      var n := |wb.buf|;
      Ring.TwoPieces(wb.buf, location, region.size);
      ReadInBuffer(wb, region);
      if location + region.size > n then
        var firstPartLen := n - location;
        Some(wb.buf[location..] + wb.buf[..region.size - firstPartLen])
      else
        Some(wb.buf[location..location + region.size])
  }

  /** The bytes at a region inside `[Start, End]` are the matching run of the ring. */
  lemma ReadInBuffer(wb: Wb, region: Region)
    requires Valid(wb) && Start(wb) <= region.address <= End(wb)
    ensures RegionEnd(region) <= End(wb) ==>
      Ring.Slice(wb.buf, Locate(wb, region.address), region.size)
        == Pending(wb)[region.address - Start(wb)..RegionEnd(region) - Start(wb)]
  {
    if RegionEnd(region) <= End(wb) {
      var k := region.address - Start(wb);
      var used := UsedSpace(wb);
      Ring.SliceDrop(wb.buf, wb.writeHead, used, k);
      assert Pending(wb)[k..][..region.size] == Pending(wb)[k..k + region.size];
      SlicePrefix(wb.buf, (wb.writeHead + k) % |wb.buf|, used - k, region.size);
    }
  }

  /** A run from position 0 that does not wrap is a prefix of the buffer. */
  lemma HeadRun(buf: seq<byte>, len: nat)
    requires len <= |buf| && |buf| > 0
    ensures Ring.Slice(buf, 0, len) == buf[..len]
  {
    forall j | 0 <= j < len
      ensures Ring.Slice(buf, 0, len)[j] == buf[j]
    {
      Ring.ModSmall(j, |buf|);
    }
  }

  /** The first `m` bytes of a run are the run of length `m`. */
  lemma SlicePrefix(buf: seq<byte>, from: nat, len: nat, m: nat)
    requires |buf| > 0 && m <= len
    ensures Ring.Slice(buf, from, len)[..m] == Ring.Slice(buf, from, m)
  {
  }

  /**
   * `wb_append` once its wait for space is over, with the admission test the
   * source uses: `size <= FreeSpace`. The data is copied in at the append
   * head, wrapping past the end of the ring, and the append head advances by
   * `size` modulo the capacity. Positions outside the written run keep their
   * bytes.
   */
  function AppendRaw(wb: Wb, data: seq<byte>): (r: Wb)
    requires Valid(wb) && |data| <= FreeSpace(wb)
    ensures Valid(r) && r.blockSize == wb.blockSize && r.currentBlock == wb.currentBlock && r.writeHead == wb.writeHead
    ensures r.appendHead == (wb.appendHead + |data|) % |wb.buf|
    ensures UsedSpace(r) == (UsedSpace(wb) + |data|) % |wb.buf|
  {
    AppendUsed(wb, |data|);
    wb.(buf := Ring.CopyIn(wb.buf, wb.appendHead, data), appendHead := (wb.appendHead + |data|) % |wb.buf|)
  }

  /**
   * The ring after `AppendRaw`: a position at distance `d < size` past the
   * old append head holds data byte `d`; every other position keeps its byte.
   */
  lemma AppendRawWrites(wb: Wb, data: seq<byte>)
    requires Valid(wb) && |data| <= FreeSpace(wb)
    ensures forall p :: 0 <= p < |wb.buf| && (p - wb.appendHead) % |wb.buf| >= |data| ==>
      AppendRaw(wb, data).buf[p] == wb.buf[p]
    ensures forall p :: 0 <= p < |wb.buf| && (p - wb.appendHead) % |wb.buf| < |data| ==>
      AppendRaw(wb, data).buf[p] == data[(p - wb.appendHead) % |wb.buf|]
  {
    Ring.CopyInWrites(wb.buf, wb.appendHead, data);
  }

  /** The used space after advancing the append head by `k`. */
  lemma AppendUsed(wb: Wb, k: nat)
    requires Valid(wb)
    ensures var a := (wb.appendHead + k) % |wb.buf|;
      (a - wb.writeHead) % |wb.buf| == (UsedSpace(wb) + k) % |wb.buf|
  {
    var n := |wb.buf|;
    Ring.ModSmall(wb.writeHead, n);
    Ring.ModSub(wb.appendHead + k, wb.writeHead, n);
    ModOfModSum(wb.appendHead - wb.writeHead, k, n);
    assert wb.appendHead - wb.writeHead + k == wb.appendHead + k - wb.writeHead;
  }

  /**
   * Filling the buffer exactly, which the source admits, leaves the append
   * head on the write head: the buffer then reads as empty and everything
   * it held, the new data included, is no longer pending.
   */
  lemma AppendFullLosesData(wb: Wb, data: seq<byte>)
    requires Valid(wb) && |data| == FreeSpace(wb)
    ensures var r := AppendRaw(wb, data);
      && r.appendHead == r.writeHead
      && UsedSpace(r) == 0 && Pending(r) == [] && End(r) == Start(wb)
      && Pending(r) != Pending(wb) + data
  {
    var r := AppendRaw(wb, data);
    assert UsedSpace(wb) + |data| == |wb.buf|;
    assert |wb.buf| % |wb.buf| == 0;
    assert UsedSpace(r) == 0;
    Ring.ModSmall(wb.writeHead, |wb.buf|);
    Ring.ModSub(wb.appendHead + |data|, wb.writeHead, |wb.buf|);
  }

  /**
   * `wb_append` with the admission test corrected to `size < FreeSpace`:
   * the appended bytes follow the pending ones and nothing is lost.
   */
  function Append(wb: Wb, data: seq<byte>): (r: Wb)
    requires Valid(wb) && |data| < FreeSpace(wb)
    ensures Valid(r) && r.blockSize == wb.blockSize && r.currentBlock == wb.currentBlock
    ensures Pending(r) == Pending(wb) + data
    ensures End(r) == End(wb) + |data|
  {
    var r := AppendRaw(wb, data);
    AppendExtends(wb, data);
    r
  }

  /** The pending bytes after an append that leaves room are the old ones followed by the data. */
  lemma AppendExtends(wb: Wb, data: seq<byte>)
    requires Valid(wb) && |data| < FreeSpace(wb)
    ensures Pending(AppendRaw(wb, data)) == Pending(wb) + data
  {
    var r := AppendRaw(wb, data);
    var n, u, k := |wb.buf|, UsedSpace(wb), |data|;
    Ring.ModSmall(u + k, n);
    assert UsedSpace(r) == u + k;
    forall j | 0 <= j < u + k
      ensures Pending(r)[j] == (Pending(wb) + data)[j]
    {
      AppendPendingAt(wb, data, j);
    }
  }

  /** One position of the pending bytes after an append. */
  lemma AppendPendingAt(wb: Wb, data: seq<byte>, j: nat)
    requires Valid(wb) && |data| < FreeSpace(wb)
    requires j < UsedSpace(wb) + |data|
    ensures var r := AppendRaw(wb, data);
      UsedSpace(r) == UsedSpace(wb) + |data| && Pending(r)[j] == (Pending(wb) + data)[j]
  {
    var r := AppendRaw(wb, data);
    var n, u, k := |wb.buf|, UsedSpace(wb), |data|;
    var w, a := wb.writeHead, wb.appendHead;
    Ring.ModSmall(u + k, n);
    var p := (w + j) % n;
    // the append head sits `u` positions past the write head
    ModOfModSum(a - w, w, n);
    Ring.ModSmall(a, n);
    assert a == (w + u) % n;
    Ring.ModSub(w + j, w + u, n);
    assert (p - a) % n == (j - u) % n;
    Ring.CopyInAt(wb.buf, a, data, p);
    if j < u {
      Ring.ModNegOnce(j - u, n);
      assert r.buf[p] == wb.buf[p];
    } else {
      Ring.ModSmall(j - u, n);
      assert r.buf[p] == data[j - u];
    }
  }

  /** The block `wb_flush` writes in one step is the first block of pending bytes. */
  lemma FlushPage(r: Wb)
    requires Valid(r) && UsedSpace(r) >= r.blockSize
    ensures r.writeHead + r.blockSize >= |r.buf| ==>
      r.buf[r.writeHead..] + r.buf[..r.blockSize - (|r.buf| - r.writeHead)] == Pending(r)[..r.blockSize]
    ensures r.writeHead + r.blockSize < |r.buf| ==>
      r.buf[r.writeHead..r.writeHead + r.blockSize] == Pending(r)[..r.blockSize]
  {
    var n, w, bs := |r.buf|, r.writeHead, r.blockSize;
    Ring.TwoPieces(r.buf, w, bs);
    SlicePrefix(r.buf, w, UsedSpace(r), bs);
    if w + bs == n {
      assert r.buf[w..] + r.buf[..0] == r.buf[w..w + bs];
    }
  }

  /** What the flush loop keeps, relative to the buffer `wb` it started from. */
  ghost predicate FlushInv(wb: Wb, dev: Device.Disk, r: Wb, dev': Device.Disk)
    requires Valid(wb)
  {
    && Valid(r) && r.buf == wb.buf && r.appendHead == wb.appendHead && r.blockSize == wb.blockSize
    && End(r) == End(wb) && Start(wb) <= Start(r) && wb.currentBlock <= r.currentBlock
    && Pending(r) == Pending(wb)[Start(r) - Start(wb)..]
    && Device.Holds(dev', wb.blockSize, Start(wb), Pending(wb)[..Start(r) - Start(wb)])
    && Device.SameBelow(dev, dev', wb.blockSize, wb.currentBlock)
  }

  lemma FlushInvIntro(wb: Wb, dev: Device.Disk, r: Wb, dev': Device.Disk)
    requires Valid(wb) && Valid(r) && r.buf == wb.buf && r.appendHead == wb.appendHead && r.blockSize == wb.blockSize
    requires End(r) == End(wb) && Start(wb) <= Start(r) && wb.currentBlock <= r.currentBlock
    requires Pending(r) == Pending(wb)[Start(r) - Start(wb)..]
    requires Device.Holds(dev', wb.blockSize, Start(wb), Pending(wb)[..Start(r) - Start(wb)])
    requires Device.SameBelow(dev, dev', wb.blockSize, wb.currentBlock)
    ensures FlushInv(wb, dev, r, dev')
  {
  }

  /** One step of the flush loop: the next block is written, so the write head and the block number move on. */
  function Advance(r: Wb): Wb
    requires Valid(r)
  {
    r.(currentBlock := r.currentBlock + 1, writeHead := (r.writeHead + r.blockSize) % |r.buf|)
  }

  /** Advancing the write head by one block frees one block and moves `Start` one block on. */
  lemma StepArith(r: Wb)
    requires Valid(r) && UsedSpace(r) >= r.blockSize
    ensures var r' := Advance(r);
      && Valid(r')
      && UsedSpace(r') == UsedSpace(r) - r.blockSize
      && Start(r') == Start(r) + r.blockSize
      && Pending(r') == Pending(r)[r.blockSize..]
  {
    StepUsed(r);
    assert (r.currentBlock + 1) * r.blockSize == r.currentBlock * r.blockSize + r.blockSize;
    Ring.SliceDrop(r.buf, r.writeHead, UsedSpace(r), r.blockSize);
  }

  lemma StepUsed(r: Wb)
    requires Valid(r) && UsedSpace(r) >= r.blockSize
    ensures Valid(Advance(r)) && UsedSpace(Advance(r)) == UsedSpace(r) - r.blockSize
  {
    DistanceAfterStep(r.appendHead, r.writeHead, r.blockSize, |r.buf|);
  }

  /** Moving the back of a ring distance forward by `b` shortens it by `b`, when it was at least `b`. */
  lemma DistanceAfterStep(a: int, w: int, b: int, n: int)
    requires 0 <= a < n && 0 <= w < n && 0 < b <= (a - w) % n
    ensures (w + b) % n < n
    ensures (a - (w + b) % n) % n == (a - w) % n - b
  {
    if a >= w {
      Ring.ModSmall(a - w, n);
      Ring.ModSmall(w + b, n);
      Ring.ModSmall(a - (w + b), n);
    } else {
      Ring.ModNegOnce(a - w, n);
      if w + b < n {
        Ring.ModSmall(w + b, n);
        Ring.ModNegOnce(a - (w + b), n);
      } else {
        Ring.ModOnce(w + b, n);
        Ring.ModSmall(a - (w + b - n), n);
      }
    }
  }

  /** Cutting one block of `bs` bytes out of `s` at `off`. */
  lemma SeqBlock(s: seq<byte>, off: nat, bs: nat)
    requires off + bs <= |s|
    ensures s[off..][..bs] == s[off..off + bs]
    ensures s[off..][bs..] == s[off + bs..]
    ensures s[..off] + s[off..off + bs] == s[..off + bs]
  {
  }

  /** One block written out: the invariant survives, and the used space drops by a block. */
  lemma FlushStep(wb: Wb, dev: Device.Disk, r: Wb, dev': Device.Disk, page: seq<byte>)
    requires Valid(wb) && FlushInv(wb, dev, r, dev')
    requires UsedSpace(r) >= r.blockSize && page == Pending(r)[..r.blockSize]
    ensures FlushInv(wb, dev, Advance(r), Device.WriteBlock(dev', r.currentBlock, page))
    ensures UsedSpace(Advance(r)) == UsedSpace(r) - r.blockSize
  {
    StepArith(r);
    SeqBlock(Pending(wb), Start(r) - Start(wb), r.blockSize);
    assert page == Pending(wb)[Start(r) - Start(wb)..Start(Advance(r)) - Start(wb)];
    Device.WriteNextBlock(dev', r.blockSize, Start(wb), Pending(wb)[..Start(r) - Start(wb)], r.currentBlock, page);
    Device.SameBelowTrans(dev, dev', Device.WriteBlock(dev', r.currentBlock, page), r.blockSize, wb.currentBlock, r.currentBlock);
    FlushInvIntro(wb, dev, Advance(r), Device.WriteBlock(dev', r.currentBlock, page));
  }

  /**
   * `wb_flush` without the locks: while a whole block is buffered, write the
   * block at the write head to `currentBlock` (recombined in the virtual
   * page when it sits at the end of the ring) and advance both by one
   * block. Then, if asked and the remaining bytes do not wrap, write them
   * over the start of the virtual page and that page to `currentBlock`.
   * Flushed bytes land at their addresses, the end address of the buffered
   * bytes does not move, and no block before the first one flushed changes.
   */
  method Flush(wb: Wb, dev: Device.Disk, flushPartial: bool) returns (r: Wb, dev': Device.Disk)
    requires Valid(wb)
    ensures Valid(r) && r.buf == wb.buf && r.appendHead == wb.appendHead && r.blockSize == wb.blockSize
    ensures UsedSpace(r) < r.blockSize
    ensures End(r) == End(wb) && Start(wb) <= Start(r)
    ensures r.currentBlock == wb.currentBlock + UsedSpace(wb) / wb.blockSize
    ensures Pending(r) == Pending(wb)[Start(r) - Start(wb)..]
    ensures Device.Holds(dev', wb.blockSize, Start(wb), Pending(wb)[..Start(r) - Start(wb)])
    ensures flushPartial && r.writeHead < r.appendHead ==> Device.Holds(dev', wb.blockSize, Start(r), Pending(r))
    ensures Device.SameBelow(dev, dev', wb.blockSize, wb.currentBlock)
    ensures UsedSpace(r) == UsedSpace(wb) % wb.blockSize
    ensures FreeSpace(r) == |wb.buf| - UsedSpace(wb) % wb.blockSize
  {
    var virtualPage;
    r, dev', virtualPage := FlushBlocks(wb, dev);
    if flushPartial && r.writeHead < r.appendHead {
      dev' := FlushTail(wb, dev, r, dev', virtualPage);
    }
    FlushDone(wb, dev, r, dev');
    FlushRemainder(wb, r);
  }

  /**
   * A flush leaves the partial last block buffered, even when it also
   * writes that block out, so it raises the free space to at most the
   * capacity less that partial block.
   */
  lemma FlushRemainder(wb: Wb, r: Wb)
    requires Valid(wb) && Valid(r) && r.blockSize == wb.blockSize
    requires End(r) == End(wb) && r.currentBlock == wb.currentBlock + UsedSpace(wb) / wb.blockSize
    ensures UsedSpace(r) == UsedSpace(wb) % wb.blockSize
    ensures FreeSpace(r) == |wb.buf| - UsedSpace(wb) % wb.blockSize
  {
    RemainderLeft(wb.currentBlock, wb.blockSize, UsedSpace(wb), UsedSpace(r));
  }

  /** Moving the block number past `used / bs` whole blocks, with the end fixed, leaves `used % bs`. */
  lemma RemainderLeft(c: nat, bs: nat, used: nat, left: int)
    requires bs > 0 && c * bs + used == (c + used / bs) * bs + left
    ensures left == used % bs
  {
    var q := used / bs;
    assert (c + q) * bs == c * bs + q * bs;
    assert used == q * bs + used % bs;
  }

  /** The loop of `wb_flush`: whole blocks go out while at least one is buffered. */
  method FlushBlocks(wb: Wb, dev: Device.Disk) returns (r: Wb, dev': Device.Disk, virtualPage: seq<byte>)
    requires Valid(wb)
    ensures FlushInv(wb, dev, r, dev') && UsedSpace(r) < r.blockSize
    ensures |virtualPage| == wb.blockSize
  {
    virtualPage := Zeros(wb.blockSize);
    r, dev' := wb, dev;
    FlushInvStart(wb, dev);
    while UsedSpace(r) >= wb.blockSize
      invariant FlushInv(wb, dev, r, dev') && |virtualPage| == wb.blockSize
      decreases UsedSpace(r)
    {
      r, dev', virtualPage := FlushBlock(wb, dev, r, dev', virtualPage);
    }
  }

  lemma FlushInvStart(wb: Wb, dev: Device.Disk)
    requires Valid(wb)
    ensures FlushInv(wb, dev, wb, dev)
  {
    assert Pending(wb)[0..] == Pending(wb);
  }

  /** What the invariant says once less than a block is left. */
  lemma FlushDone(wb: Wb, dev: Device.Disk, r: Wb, dev': Device.Disk)
    requires Valid(wb) && FlushInv(wb, dev, r, dev') && UsedSpace(r) < r.blockSize
    ensures Valid(r) && r.buf == wb.buf && r.appendHead == wb.appendHead && r.blockSize == wb.blockSize
    ensures End(r) == End(wb) && Start(wb) <= Start(r)
    ensures r.currentBlock == wb.currentBlock + UsedSpace(wb) / wb.blockSize
    ensures Pending(r) == Pending(wb)[Start(r) - Start(wb)..]
    ensures Device.Holds(dev', wb.blockSize, Start(wb), Pending(wb)[..Start(r) - Start(wb)])
    ensures Device.SameBelow(dev, dev', wb.blockSize, wb.currentBlock)
  {
    FlushCount(wb, r);
  }

  /**
   * One pass of the flush loop: the block at the write head, recombined in
   * the virtual page when it wraps, goes to `currentBlock`, and both move on
   * by one block.
   */
  method FlushBlock(wb: Wb, dev: Device.Disk, r: Wb, dev': Device.Disk, virtualPage: seq<byte>)
      returns (r': Wb, dev'': Device.Disk, virtualPage': seq<byte>)
    requires Valid(wb) && FlushInv(wb, dev, r, dev') && UsedSpace(r) >= r.blockSize
    requires |virtualPage| == r.blockSize
    ensures r' == Advance(r) && dev'' == Device.WriteBlock(dev', r.currentBlock, Pending(r)[..r.blockSize])
    ensures FlushInv(wb, dev, r', dev'') && UsedSpace(r') == UsedSpace(r) - r.blockSize
    ensures |virtualPage'| == r.blockSize
  {
    var page;
    FlushPage(r);
    if r.writeHead + r.blockSize >= |r.buf| {
      virtualPage' := r.buf[r.writeHead..] + r.buf[..r.blockSize - (|r.buf| - r.writeHead)];
      page := virtualPage';
    } else {
      virtualPage' := virtualPage;
      page := r.buf[r.writeHead..r.writeHead + r.blockSize];
    }
    FlushStep(wb, dev, r, dev', page);
    dev'' := Device.WriteBlock(dev', r.currentBlock, page);
    r' := Advance(r);
  }

  /**
   * The partial flush: the remaining bytes, when they do not wrap, are
   * written over the start of the virtual page, and that page goes to
   * `currentBlock`; the write head stays where it is.
   */
  method FlushTail(wb: Wb, dev: Device.Disk, r: Wb, dev': Device.Disk, virtualPage: seq<byte>)
      returns (dev'': Device.Disk)
    requires Valid(wb) && FlushInv(wb, dev, r, dev') && UsedSpace(r) < r.blockSize
    requires r.writeHead < r.appendHead && |virtualPage| == r.blockSize
    ensures FlushInv(wb, dev, r, dev'') && Device.Holds(dev'', r.blockSize, Start(r), Pending(r))
  {
    var length := r.appendHead - r.writeHead;
    var page := r.buf[r.writeHead..r.appendHead] + virtualPage[length..];
    FlushPartialBytes(wb, dev, r, dev', page);
    dev'' := Device.WriteBlock(dev', r.currentBlock, page);
  }

  /** The number of blocks a flush writes is the used space in whole blocks. */
  lemma FlushCount(wb: Wb, r: Wb)
    requires Valid(wb) && Valid(r) && r.blockSize == wb.blockSize
    requires End(r) == End(wb) && wb.currentBlock <= r.currentBlock && UsedSpace(r) < r.blockSize
    ensures r.currentBlock == wb.currentBlock + UsedSpace(wb) / wb.blockSize
  {
    var bs := wb.blockSize;
    var d := r.currentBlock - wb.currentBlock;
    assert Start(r) == Start(wb) + d * bs by {
      assert r.currentBlock * bs == wb.currentBlock * bs + d * bs;
    }
    DivModUnique(UsedSpace(wb), bs, d, UsedSpace(r));
  }

  /** The partial page holds the remaining pending bytes at the start of `currentBlock`. */
  lemma FlushPartialBytes(wb: Wb, dev: Device.Disk, r: Wb, dev': Device.Disk, page: seq<byte>)
    requires Valid(wb) && FlushInv(wb, dev, r, dev') && UsedSpace(r) < r.blockSize
    requires r.writeHead < r.appendHead && |page| == r.blockSize
    requires page[..r.appendHead - r.writeHead] == r.buf[r.writeHead..r.appendHead]
    ensures var dev'' := Device.WriteBlock(dev', r.currentBlock, page);
      && FlushInv(wb, dev, r, dev'')
      && Device.Holds(dev'', r.blockSize, Start(r), Pending(r))
  {
    var bs := r.blockSize;
    var dev'' := Device.WriteBlock(dev', r.currentBlock, page);
    var length := r.appendHead - r.writeHead;
    Ring.TwoPieces(r.buf, r.writeHead, length);
    assert Pending(r) == page[..length];
    Device.WriteBlockKeeps(dev', bs, r.currentBlock, page, Start(wb), Pending(wb)[..Start(r) - Start(wb)]);
    Device.WriteBlockHolds(dev', bs, r.currentBlock, page);
  }
}
