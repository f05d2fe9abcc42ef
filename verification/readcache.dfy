/**
 * The read cache of `p4/logfs.c` without its lock: `RCACHE_BLOCKS` slots,
 * each either free or holding a copy of one device block, filled on a miss
 * into the first free slot or, when none is free, the slot under a
 * round-robin eviction cursor.
 */
module ReadCache {
  import opened Bytes
  import opened LogMeta
  import Device

  /** `RCACHE_BLOCKS`: the number of slots. */
  const RCACHE_BLOCKS: nat := 256

  /** A slot's tag: free (the source's -1) or the number of the block it holds. */
  datatype Tag = Free | Holds(block: nat)

  datatype Rc = Rc(blockSize: nat, tags: seq<Tag>, pages: seq<seq<byte>>, evictionIndex: nat)

  /** A slot choice and the cache after making it. */
  datatype Picked = Picked(slot: nat, rc: Rc)

  predicate Valid(rc: Rc) {
    && rc.blockSize > 0
    && |rc.tags| == RCACHE_BLOCKS && |rc.pages| == RCACHE_BLOCKS
    && rc.evictionIndex < RCACHE_BLOCKS
    && forall i :: 0 <= i < RCACHE_BLOCKS ==> |rc.pages[i]| == rc.blockSize
  }

  /** Every slot that holds a block holds that block's contents on `dev`. */
  ghost predicate Coherent(rc: Rc, dev: Device.Disk)
    requires Valid(rc)
  {
    forall i :: 0 <= i < RCACHE_BLOCKS && rc.tags[i].Holds? ==>
      rc.pages[i] == Device.ReadBlock(dev, rc.tags[i].block, rc.blockSize)
  }

  /** Every block the cache holds is numbered below `limit`. */
  ghost predicate HeldBelow(rc: Rc, limit: nat) {
    forall i :: 0 <= i < |rc.tags| && rc.tags[i].Holds? ==> rc.tags[i].block < limit
  }

  /**
   * `rc_init`: every slot free and the eviction cursor on slot 0. The slot
   * memory is left uninitialised by the source; zeros stand in for it.
   */
  function Init(bs: nat): (r: Rc)
    requires bs > 0
    ensures Valid(r) && r.blockSize == bs && r.evictionIndex == 0
    ensures HeldBelow(r, 0)
  {
    Rc(bs, seq(RCACHE_BLOCKS, _ => Free), seq(RCACHE_BLOCKS, _ => Zeros(bs)), 0)
  }

  /** A cache that holds nothing agrees with every device. */
  lemma EmptyCoherent(rc: Rc, dev: Device.Disk)
    requires Valid(rc) && HeldBelow(rc, 0)
    ensures Coherent(rc, dev)
  {
  }

  /** The first slot at or after `from` tagged `t`: the source's linear scans. */
  function Find(tags: seq<Tag>, t: Tag, from: nat): (r: Option<nat>)
    ensures r.Some? ==> from <= r.value < |tags| && tags[r.value] == t
    ensures r.Some? ==> forall j :: from <= j < r.value ==> tags[j] != t
    ensures r.None? <==> forall j :: from <= j < |tags| ==> tags[j] != t
    decreases |tags| - from
  {
    if from >= |tags| then None
    else if tags[from] == t then Some(from)
    else Find(tags, t, from + 1)
  }

  /**
   * `get_free_page`: the first free slot, leaving the cache as it is; when
   * every slot is taken, the slot under the eviction cursor, which moves on
   * by one modulo `RCACHE_BLOCKS`.
   */
  function GetFreePage(rc: Rc): (r: Picked)
    requires Valid(rc)
    ensures r.slot < RCACHE_BLOCKS && Valid(r.rc)
    ensures r.rc.tags == rc.tags && r.rc.pages == rc.pages && r.rc.blockSize == rc.blockSize
    ensures (exists i :: 0 <= i < RCACHE_BLOCKS && rc.tags[i] == Free) ==>
      && rc.tags[r.slot] == Free && r.rc == rc
      && forall j :: 0 <= j < r.slot ==> rc.tags[j] != Free
    ensures (forall i :: 0 <= i < RCACHE_BLOCKS ==> rc.tags[i] != Free) ==>
      && r.slot == rc.evictionIndex
      && r.rc.evictionIndex == (rc.evictionIndex + 1) % RCACHE_BLOCKS
  {
    match Find(rc.tags, Free, 0)
    case Some(i) => Picked(i, rc)
    case None => Picked(rc.evictionIndex, rc.(evictionIndex := (rc.evictionIndex + 1) % RCACHE_BLOCKS))
  }

  /**
   * `rc_getpage`: on a hit, the first slot tagged with the block and the
   * cache unchanged; on a miss, the slot `get_free_page` picks, retagged
   * with the block and filled from the device, every other slot untouched.
   * Either way the slot then holds the block's device contents.
   */
  function GetPage(rc: Rc, dev: Device.Disk, page: nat): (r: Picked)
    requires Valid(rc)
    ensures Valid(r.rc) && r.rc.blockSize == rc.blockSize
    ensures r.slot < RCACHE_BLOCKS && r.rc.tags[r.slot] == Holds(page)
    ensures (exists i :: 0 <= i < RCACHE_BLOCKS && rc.tags[i] == Holds(page)) ==>
      r.rc == rc && forall j :: 0 <= j < r.slot ==> rc.tags[j] != Holds(page)
    ensures (forall i :: 0 <= i < RCACHE_BLOCKS ==> rc.tags[i] != Holds(page)) ==>
      && r.slot == GetFreePage(rc).slot
      && r.rc.evictionIndex == GetFreePage(rc).rc.evictionIndex
      && r.rc.pages[r.slot] == Device.ReadBlock(dev, page, rc.blockSize)
    ensures forall i :: 0 <= i < RCACHE_BLOCKS && i != r.slot ==>
      r.rc.tags[i] == rc.tags[i] && r.rc.pages[i] == rc.pages[i]
    ensures Coherent(rc, dev) ==>
      Coherent(r.rc, dev) && r.rc.pages[r.slot] == Device.ReadBlock(dev, page, rc.blockSize)
  {
    match Find(rc.tags, Holds(page), 0)
    case Some(i) => Picked(i, rc)
    case None =>
      var free := GetFreePage(rc);
      var slot := free.slot;
      Picked(slot, free.rc.(tags := free.rc.tags[slot := Holds(page)],
                            pages := free.rc.pages[slot := Device.ReadBlock(dev, page, rc.blockSize)]))
  }

  /**
   * `rc_invalidate`: every slot tagged with the block becomes free, and
   * every other tag, the slot contents and the cursor are unchanged.
   */
  method Invalidate(rc: Rc, page: nat) returns (r: Rc)
    requires Valid(rc)
    ensures Valid(r) && r.blockSize == rc.blockSize && r.pages == rc.pages && r.evictionIndex == rc.evictionIndex
    ensures forall i :: 0 <= i < RCACHE_BLOCKS ==>
      r.tags[i] == if rc.tags[i] == Holds(page) then Free else rc.tags[i]
  {
    r := rc;
    for i := 0 to RCACHE_BLOCKS
      invariant Valid(r) && r.blockSize == rc.blockSize && r.pages == rc.pages && r.evictionIndex == rc.evictionIndex
      invariant forall j :: 0 <= j < i ==> r.tags[j] == if rc.tags[j] == Holds(page) then Free else rc.tags[j]
      invariant forall j :: i <= j < RCACHE_BLOCKS ==> r.tags[j] == rc.tags[j]
    {
      if r.tags[i] == Holds(page) {
        r := r.(tags := r.tags[i := Free]);
      }
    }
  }

  /** Freeing slots keeps the cache coherent and keeps every held block below its bound. */
  lemma InvalidateKeeps(rc: Rc, r: Rc, dev: Device.Disk, page: nat, limit: nat)
    requires Valid(rc) && Valid(r) && r.blockSize == rc.blockSize && r.pages == rc.pages
    requires forall i :: 0 <= i < RCACHE_BLOCKS ==>
      r.tags[i] == if rc.tags[i] == Holds(page) then Free else rc.tags[i]
    ensures Coherent(rc, dev) ==> Coherent(r, dev)
    ensures HeldBelow(rc, limit) ==> HeldBelow(r, limit)
    ensures forall i :: 0 <= i < RCACHE_BLOCKS ==> r.tags[i] != Holds(page)
  {
  }

  /** A page that starts below `limit` blocks is one of the first `limit` pages. */
  lemma PageBelow(page: nat, bs: nat, address: nat, limit: nat)
    requires bs > 0 && page * bs <= address < limit * bs
    ensures page < limit
  {
    Device.BlockBelow(page * bs, bs, limit);
    Device.InBlock(bs, page, 0);
  }

  /**
   * When every retagged slot holds a page starting before `end`, a bound on
   * the held blocks that `end` respects survives the retagging.
   */
  lemma TouchedBelow(rc: Rc, r: Rc, end: nat, limit: nat)
    requires Valid(rc) && Valid(r) && r.blockSize == rc.blockSize
    requires forall i :: 0 <= i < RCACHE_BLOCKS && r.tags[i] != rc.tags[i] ==>
      r.tags[i].Holds? && r.tags[i].block * rc.blockSize < end
    requires HeldBelow(rc, limit) && end <= limit * rc.blockSize
    ensures HeldBelow(r, limit)
  {
    forall i | 0 <= i < |r.tags| && r.tags[i].Holds?
      ensures r.tags[i].block < limit
    {
      if r.tags[i] != rc.tags[i] {
        PageBelow(r.tags[i].block, rc.blockSize, r.tags[i].block * rc.blockSize, limit);
      }
    }
  }

  /**
   * `rc_read`: starting in the block holding `region.address`, copy from
   * each block in turn the bytes up to its end or up to `region.size` in
   * total, fetching blocks through the cache. The bytes returned are the
   * device's bytes of the region, exactly `region.size` of them, and the
   * cache stays coherent. Every slot whose tag changes ends up holding a
   * block the region touches, from the one holding `region.address` to the
   * one holding its last byte, so every held block stays below any bound
   * the region's end respects.
   */
  method Read(rc: Rc, dev: Device.Disk, region: Region, ghost limit: nat) returns (r: Rc, out: seq<byte>)
    requires Valid(rc) && Coherent(rc, dev)
    ensures Valid(r) && Coherent(r, dev) && r.blockSize == rc.blockSize
    ensures |out| == region.size
    ensures out == Device.Span(dev, rc.blockSize, region.address, region.size)
    ensures forall i :: 0 <= i < RCACHE_BLOCKS && r.tags[i] != rc.tags[i] ==>
      && r.tags[i].Holds?
      && region.address / rc.blockSize <= r.tags[i].block
      && r.tags[i].block * rc.blockSize < RegionEnd(region)
    ensures HeldBelow(rc, limit) && RegionEnd(region) <= limit * rc.blockSize ==> HeldBelow(r, limit)
  {
    var bs := rc.blockSize;
    var currentPage: nat := region.address / bs;
    var pageOffset: nat := region.address % bs;
    var copied: nat := 0;
    out := [];
    r := rc;
    while copied < region.size
      invariant Valid(r) && Coherent(r, dev) && r.blockSize == bs
      invariant copied <= region.size && pageOffset < bs
      invariant copied < region.size ==> currentPage * bs + pageOffset == region.address + copied
      invariant out == Device.Span(dev, bs, region.address, copied)
      invariant region.address / bs <= currentPage
      invariant forall i :: 0 <= i < RCACHE_BLOCKS && r.tags[i] != rc.tags[i] ==>
        && r.tags[i].Holds?
        && region.address / bs <= r.tags[i].block
        && r.tags[i].block * bs < RegionEnd(region)
      decreases region.size - copied
    {
      var got := GetPage(r, dev, currentPage);
      r := got.rc;
      var pageData := r.pages[got.slot];
      var length: nat := Min(region.size - copied, bs - pageOffset);
      Device.SpanExtend(dev, bs, region.address, copied, currentPage, pageOffset, length);
      out := out + pageData[pageOffset..pageOffset + length];
      pageOffset := 0;
      copied := copied + length;
      currentPage := currentPage + 1;
    }
    if HeldBelow(rc, limit) && RegionEnd(region) <= limit * bs {
      TouchedBelow(rc, r, RegionEnd(region), limit);
    }
  }
}
