/**
 * Positions in a circular byte buffer: the bytes a run of positions covers
 * when it wraps past the end, and the two-copy forms the source uses to
 * read and write such a run.
 */
module Ring {
  import opened Bytes

  /** The `len` bytes starting at position `from`, continuing at 0 past the end. */
  function Slice(buf: seq<byte>, from: nat, len: nat): (r: seq<byte>)
    requires |buf| > 0
    ensures |r| == len
    ensures forall j :: 0 <= j < len ==> r[j] == buf[(from + j) % |buf|]
  {
    seq<byte>(len, j requires 0 <= j < len => buf[(from + j) % |buf|])
  }

  /** Subtracting reduced operands gives the remainder of the difference. */
  lemma ModSub(x: int, y: int, n: int)
    requires 0 < n
    ensures (x % n - y % n) % n == (x - y) % n
  {
    var qx, rx := x / n, x % n;
    var qy, ry := y / n, y % n;
    var d := qx - qy;
    assert x - y == (rx - ry) + d * n by {
      assert x == qx * n + rx;
      assert y == qy * n + ry;
      assert d * n == qx * n - qy * n;
    }
    ModAddMultiple(rx - ry, d, n);
  }

  /** Dropping the first `k` bytes of a run starts it `k` positions later. */
  lemma SliceDrop(buf: seq<byte>, from: nat, len: nat, k: nat)
    requires |buf| > 0 && k <= len
    ensures Slice(buf, from, len)[k..] == Slice(buf, (from + k) % |buf|, len - k)
  {
    var whole := Slice(buf, from, len);
    var rest := Slice(buf, (from + k) % |buf|, len - k);
    forall j | 0 <= j < len - k
      ensures whole[k..][j] == rest[j]
    {
      SliceDropAt(buf, from, len, k, j);
    }
  }

  lemma SliceDropAt(buf: seq<byte>, from: nat, len: nat, k: nat, j: nat)
    requires |buf| > 0 && k + j < len
    ensures Slice(buf, from, len)[k + j] == Slice(buf, (from + k) % |buf|, len - k)[j]
  {
    ModOfModSum(from + k, j, |buf|);
    assert ((from + k) % |buf| + j) % |buf| == (from + k + j) % |buf|;
  }

  /** `x` lies in `[n, 2n)`: its remainder is `x - n`. */
  lemma ModOnce(x: int, n: int)
    requires 0 < n <= x < 2 * n
    ensures x % n == x - n
  {
    DivModUnique(x, n, 1, x - n);
  }

  /** `x` lies in `[-n, 0)`: its remainder is `x + n`. */
  lemma ModNegOnce(x: int, n: int)
    requires 0 < n && -n <= x < 0
    ensures x % n == x + n
  {
    DivModUnique(x, n, -1, x + n);
  }

  /** `x` lies in `[0, n)`: it is its own remainder. */
  lemma ModSmall(x: int, n: int)
    requires 0 <= x < n
    ensures x % n == x
  {
    DivModUnique(x, n, 0, x);
  }

  /**
   * A read of `len <= |buf|` bytes at `from` either is one contiguous piece
   * or, when it runs past the end, the tail of the buffer followed by its head.
   */
  lemma TwoPieces(buf: seq<byte>, from: nat, len: nat)
    requires from < |buf| && len <= |buf|
    ensures from + len > |buf| ==> buf[from..] + buf[..len - (|buf| - from)] == Slice(buf, from, len)
    ensures from + len <= |buf| ==> buf[from..from + len] == Slice(buf, from, len)
  {
    var n := |buf|;
    var s := Slice(buf, from, len);
    if from + len > n {
      var t := buf[from..] + buf[..len - (n - from)];
      forall j | 0 <= j < len
        ensures t[j] == s[j]
      {
        if from + j < n {
          ModSmall(from + j, n);
        } else {
          ModOnce(from + j, n);
        }
      }
    } else {
      forall j | 0 <= j < len
        ensures buf[from..from + len][j] == s[j]
      {
        ModSmall(from + j, n);
      }
    }
  }

  /**
   * `data` copied into the ring at `at` as `wb_append` does it: one copy when
   * it fits before the end, otherwise the part that fits and then the rest
   * from position 0.
   */
  function CopyIn(buf: seq<byte>, at: nat, data: seq<byte>): (r: seq<byte>)
    requires at < |buf| && |data| <= |buf|
    ensures |r| == |buf|
  {
    if at + |data| > |buf| then
      var first := |buf| - at;
      data[first..] + buf[|data| - first..at] + data[..first]
    else
      buf[..at] + data + buf[at + |data|..]
  }

  /**
   * After the copy, position `p` holds the data byte at distance
   * `(p - at) mod |buf|` from `at` when that distance is inside the data,
   * and its old byte otherwise.
   */
  lemma CopyInAt(buf: seq<byte>, at: nat, data: seq<byte>, p: nat)
    requires at < |buf| && |data| <= |buf| && p < |buf|
    ensures (p - at) % |buf| < |data| ==> CopyIn(buf, at, data)[p] == data[(p - at) % |buf|]
    ensures (p - at) % |buf| >= |data| ==> CopyIn(buf, at, data)[p] == buf[p]
  {
    var n := |buf|;
    var k := |data|;
    if p < at {
      ModNegOnce(p - at, n);
    } else {
      ModSmall(p - at, n);
    }
    if at + k > n {
      var first := n - at;
      var r := data[first..] + buf[k - first..at] + data[..first];
      if p < k - first {
        assert r[p] == data[first + p];
      } else if p < at {
        assert r[p] == buf[p];
      } else {
        assert r[p] == data[p - at];
      }
    } else {
      var r := buf[..at] + data + buf[at + k..];
      if p < at {
        assert r[p] == buf[p];
      } else if p < at + k {
        assert r[p] == data[p - at];
      } else {
        assert r[p] == buf[p];
      }
    }
  }

  /** Every position of the ring after the copy, by `CopyInAt`. */
  lemma CopyInWrites(buf: seq<byte>, at: nat, data: seq<byte>)
    requires at < |buf| && |data| <= |buf|
    ensures forall p :: 0 <= p < |buf| && (p - at) % |buf| < |data| ==> CopyIn(buf, at, data)[p] == data[(p - at) % |buf|]
    ensures forall p :: 0 <= p < |buf| && (p - at) % |buf| >= |data| ==> CopyIn(buf, at, data)[p] == buf[p]
  {
    forall p | 0 <= p < |buf|
      ensures (p - at) % |buf| < |data| ==> CopyIn(buf, at, data)[p] == data[(p - at) % |buf|]
      ensures (p - at) % |buf| >= |data| ==> CopyIn(buf, at, data)[p] == buf[p]
    {
      CopyInAt(buf, at, data, p);
    }
  }
}
