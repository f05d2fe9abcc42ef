/**
 * The block device under the log, reduced to what the log needs: a map
 * from block number to that block's bytes. A block never written reads as
 * zeros, and a write replaces one whole block.
 */
module Device {
  import opened Bytes

  type Disk = map<nat, seq<byte>>

  /** `device_read` of one whole block. */
  function ReadBlock(dev: Disk, n: nat, bs: nat): (r: seq<byte>)
    ensures |r| == bs
  {
    if n in dev && |dev[n]| == bs then dev[n] else Zeros(bs)
  }

  /** `device_write` of one whole block. */
  function WriteBlock(dev: Disk, n: nat, page: seq<byte>): (r: Disk)
    ensures ReadBlock(r, n, |page|) == page
    ensures forall k :: k != n ==> ReadBlock(r, k, |page|) == ReadBlock(dev, k, |page|)
  {
    dev[n := page]
  }

  /** The byte at device address `a`. */
  function ByteAt(dev: Disk, bs: nat, a: nat): byte
    requires bs > 0
  {
    ReadBlock(dev, a / bs, bs)[a % bs]
  }

  /** The `len` bytes starting at device address `a`. */
  function Span(dev: Disk, bs: nat, a: nat, len: nat): (r: seq<byte>)
    requires bs > 0
    ensures |r| == len
    ensures forall i :: 0 <= i < len ==> r[i] == ByteAt(dev, bs, a + i)
  {
    seq<byte>(len, i requires 0 <= i < len => ByteAt(dev, bs, a + i))
  }

  /** The device holds `data` at addresses `from`, `from + 1`, ... */
  ghost predicate Holds(dev: Disk, bs: nat, from: nat, data: seq<byte>)
    requires bs > 0
  {
    forall a: nat :: from <= a < from + |data| ==> ByteAt(dev, bs, a) == data[a - from]
  }

  /** Blocks below `below` read the same on both devices. */
  ghost predicate SameBelow(dev: Disk, dev': Disk, bs: nat, below: nat) {
    forall k: nat :: k < below ==> ReadBlock(dev', k, bs) == ReadBlock(dev, k, bs)
  }

  /** The address `t` bytes into block `k`. */
  lemma InBlock(bs: nat, k: nat, t: nat)
    requires t < bs
    ensures (k * bs + t) / bs == k && (k * bs + t) % bs == t
  {
    DivModUnique(k * bs + t, bs, k, t);
  }

  /** An address below block `k`'s first byte lies in an earlier block. */
  lemma BlockBelow(address: nat, bs: nat, k: nat)
    requires bs > 0 && address < k * bs
    ensures address / bs < k
  {
    var q := address / bs;
    var t := address % bs;
    assert address == q * bs + t;
  }

  /** A written block holds its page at its own addresses. */
  lemma WriteBlockHolds(dev: Disk, bs: nat, k: nat, page: seq<byte>)
    requires bs > 0 && |page| == bs
    ensures Holds(WriteBlock(dev, k, page), bs, k * bs, page)
  {
    forall a: nat | k * bs <= a < k * bs + |page|
      ensures ByteAt(WriteBlock(dev, k, page), bs, a) == page[a - k * bs]
    {
      InBlock(bs, k, a - k * bs);
    }
  }

  /** Writing block `k` keeps every byte stored below it. */
  lemma WriteBlockKeeps(dev: Disk, bs: nat, k: nat, page: seq<byte>, from: nat, data: seq<byte>)
    requires bs > 0 && |page| == bs && Holds(dev, bs, from, data) && from + |data| <= k * bs
    ensures Holds(WriteBlock(dev, k, page), bs, from, data)
    ensures SameBelow(dev, WriteBlock(dev, k, page), bs, k)
  {
    forall a: nat | from <= a < from + |data|
      ensures ByteAt(WriteBlock(dev, k, page), bs, a) == data[a - from]
    {
      BlockBelow(a, bs, k);
      assert ByteAt(dev, bs, a) == data[a - from];
    }
  }

  /** Two adjacent stored runs are one stored run. */
  lemma HoldsConcat(dev: Disk, bs: nat, from: nat, a: seq<byte>, mid: nat, b: seq<byte>)
    requires bs > 0 && from + |a| == mid && Holds(dev, bs, from, a) && Holds(dev, bs, mid, b)
    ensures Holds(dev, bs, from, a + b)
  {
    forall x: nat | from <= x < from + |a + b|
      ensures ByteAt(dev, bs, x) == (a + b)[x - from]
    {
      if x < mid {
        assert ByteAt(dev, bs, x) == a[x - from];
      } else {
        assert ByteAt(dev, bs, x) == b[x - mid];
      }
    }
  }

  /** Writing the block right after a stored run extends the run by the page. */
  lemma WriteNextBlock(dev: Disk, bs: nat, from: nat, data: seq<byte>, k: nat, page: seq<byte>)
    requires bs > 0 && |page| == bs && Holds(dev, bs, from, data) && from + |data| == k * bs
    ensures Holds(WriteBlock(dev, k, page), bs, from, data + page)
    ensures SameBelow(dev, WriteBlock(dev, k, page), bs, k)
  {
    var dev' := WriteBlock(dev, k, page);
    WriteBlockKeeps(dev, bs, k, page, from, data);
    WriteBlockHolds(dev, bs, k, page);
    HoldsConcat(dev', bs, from, data, k * bs, page);
  }

  lemma SameBelowTrans(d1: Disk, d2: Disk, d3: Disk, bs: nat, below: nat, below': nat)
    requires SameBelow(d1, d2, bs, below) && SameBelow(d2, d3, bs, below') && below <= below'
    ensures SameBelow(d1, d3, bs, below)
  {
  }

  /**
   * Appending the next `len` bytes of block `k`, starting `off` bytes in,
   * to a span that ends at that position extends the span by `len` bytes.
   */
  lemma SpanExtend(dev: Disk, bs: nat, a: nat, c: nat, k: nat, off: nat, len: nat)
    requires bs > 0 && k * bs + off == a + c && off + len <= bs
    ensures Span(dev, bs, a, c) + ReadBlock(dev, k, bs)[off..off + len] == Span(dev, bs, a, c + len)
  {
    var s := Span(dev, bs, a, c) + ReadBlock(dev, k, bs)[off..off + len];
    forall j | c <= j < c + len
      ensures s[j] == ByteAt(dev, bs, a + j)
    {
      InBlock(bs, k, off + (j - c));
      assert a + j == k * bs + (off + (j - c));
    }
  }

  /** Bytes stored below block `k` survive any change that keeps the blocks below `k`. */
  lemma HoldsKept(dev: Disk, dev': Disk, bs: nat, from: nat, data: seq<byte>, k: nat)
    requires bs > 0 && Holds(dev, bs, from, data) && SameBelow(dev, dev', bs, k) && from + |data| <= k * bs
    ensures Holds(dev', bs, from, data)
  {
    forall a: nat | from <= a < from + |data|
      ensures ByteAt(dev', bs, a) == data[a - from]
    {
      BlockBelow(a, bs, k);
      assert ByteAt(dev, bs, a) == data[a - from];
    }
  }

  /** Reading part of a stored run gives that part of the run. */
  lemma SpanOfHeld(dev: Disk, bs: nat, from: nat, data: seq<byte>, k: nat, m: nat)
    requires bs > 0 && Holds(dev, bs, from, data) && k + m <= |data|
    ensures Span(dev, bs, from + k, m) == data[k..k + m]
  {
    var s, d := Span(dev, bs, from + k, m), data[k..k + m];
    forall j | 0 <= j < m
      ensures s[j] == d[j]
    {
      assert ByteAt(dev, bs, from + k + j) == data[k + j];
    }
  }
}
