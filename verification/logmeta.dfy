/**
 * Regions and the metadata record of `p4/logfs.c`. Block 0 of the device
 * is reserved for the metadata; the log itself starts at block 1, so the
 * write cursor `(current_block, current_offset)` names the position
 * `(current_block - 1) * block_size + current_offset` of the logical stream.
 */
module LogMeta {
  import opened Bytes

  /** A byte range of the device. Addresses are unbounded here. */
  datatype Region = Region(address: nat, size: nat)

  /** One past the region's last byte, exactly. */
  function RegionEnd(r: Region): nat {
    r.address + r.size
  }

  /** `region_end` as the source computes it: a `u64` sum, which wraps. */
  function WrappedEnd(r: Region): u64 {
    RegionEnd(r) % U64_LIMIT
  }

  /**
   * For a region whose fields are `u64` values, `region_end` is the exact
   * end unless that end passes 2^64; then it wraps to below the address.
   */
  lemma WrappedEndCases(r: Region)
    requires r.address < U64_LIMIT && r.size < U64_LIMIT
    ensures RegionEnd(r) < U64_LIMIT ==> WrappedEnd(r) == RegionEnd(r)
    ensures RegionEnd(r) >= U64_LIMIT ==> WrappedEnd(r) == RegionEnd(r) - U64_LIMIT < r.address
  {
    if RegionEnd(r) < U64_LIMIT {
      DivModUnique(RegionEnd(r), U64_LIMIT, 0, RegionEnd(r));
    } else {
      DivModUnique(RegionEnd(r), U64_LIMIT, 1, RegionEnd(r) - U64_LIMIT);
    }
  }

  /** `RESERVED_BLOCKS`: the blocks in front of the log. */
  const RESERVED_BLOCKS: nat := 1

  datatype Metadata = Metadata(tag: string, currentBlock: u64, currentOffset: u64, index: Region)

  /** `meta_init`: the cursor at the start of the first log block, no persisted index. */
  function MetaInit(): Metadata {
    Metadata("LOGFS", RESERVED_BLOCKS, 0, Region(0, 0))
  }

  /** The metadata cursor naming logical position `n` for blocks of `bs` bytes. */
  function CursorAt(n: nat, bs: nat): (m: Metadata)
    requires bs > 0 && n + RESERVED_BLOCKS < U64_LIMIT
  {
    DivAtMost(n, bs);
    Metadata("LOGFS", n / bs + RESERVED_BLOCKS, n % bs, Region(0, 0))
  }

  /** `logfs_getsize`: the cursor as a stream length, in `uint64_t` arithmetic. */
  function Size(m: Metadata, bs: nat): u64 {
    ((m.currentBlock - RESERVED_BLOCKS) * bs + m.currentOffset) % U64_LIMIT
  }

  /** Reading a cursor back gives the position it was made from, and an initial cursor is position 0. */
  lemma SizeOfCursor(n: nat, bs: nat)
    requires bs > 0 && n + RESERVED_BLOCKS < U64_LIMIT
    ensures Size(CursorAt(n, bs), bs) == n
    ensures CursorAt(0, bs) == MetaInit()
  {
    var m := CursorAt(n, bs);
    assert m.currentBlock - RESERVED_BLOCKS == n / bs;
    assert (n / bs) * bs + n % bs == n;
  }

  /** A fresh metadata record puts the log at size 0 whatever the block size. */
  lemma InitSizeZero(bs: nat)
    ensures Size(MetaInit(), bs) == 0
    ensures MetaInit().currentBlock == RESERVED_BLOCKS
  {
  }
}
