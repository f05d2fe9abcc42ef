/**
 * Shared scalar types: bytes, 64-bit unsigned words with explicit
 * wrap-around, and the Option type used for results that can be absent.
 */
module Bytes {

  /** An unsigned 8-bit value. */
  type byte = x: int | 0 <= x < 256

  /** 2^64: the modulus of the source's `uint64_t` arithmetic. */
  const U64_LIMIT: nat := 0x1_0000_0000_0000_0000

  /** An unsigned 64-bit value. */
  type u64 = x: int | 0 <= x < U64_LIMIT

  datatype Option<+T> = None | Some(value: T)

  /** `++x` on a `uint64_t`. */
  function Inc(x: u64): u64 {
    (x + 1) % U64_LIMIT
  }

  /** `--x` on a `uint64_t` (0 wraps to 2^64 - 1). */
  function Dec(x: u64): u64 {
    (x - 1) % U64_LIMIT
  }

  /** `n` zero bytes (a `calloc`ed or `memset(0)` area). */
  function Zeros(n: nat): (r: seq<byte>)
    ensures |r| == n
    ensures forall i :: 0 <= i < n ==> r[i] == 0
  {
    seq(n, _ => 0)
  }

  function Min(a: int, b: int): int {
    if a < b then a else b
  }

  lemma MulAtLeast(a: int, b: int)
    requires a >= 1 && b > 0
    ensures a * b >= b
  {
    assert a * b == (a - 1) * b + b;
    assert (a - 1) * b >= 0;
  }

  /** Quotient and remainder are unique: the bridge every block-address computation needs. */
  lemma DivModUnique(x: int, b: int, q: int, r: int)
    requires 0 < b && 0 <= r < b && x == q * b + r
    ensures x / b == q && x % b == r
  {
    var q' := x / b;
    var r' := x % b;
    assert x == q' * b + r';
    if q > q' {
      assert (q - q') * b == q * b - q' * b;
      MulAtLeast(q - q', b);
      assert false;
    } else if q < q' {
      assert (q' - q) * b == q' * b - q * b;
      MulAtLeast(q' - q, b);
      assert false;
    }
  }

  /** A quotient by a positive divisor is at most the dividend. */
  lemma DivAtMost(n: nat, b: nat)
    requires b > 0
    ensures n / b <= n
  {
    var q := n / b;
    assert n == q * b + n % b;
    if q > 0 {
      MulAtLeast(b, q);
      assert q * b == b * q;
    }
  }

  /** Adding whole multiples of `b` does not change a remainder modulo `b`. */
  lemma ModAddMultiple(x: int, k: int, b: int)
    requires 0 < b
    ensures (x + k * b) % b == x % b
  {
    DivModUnique(x + k * b, b, x / b + k, x % b);
  }

  /** Reducing an operand first does not change a sum's remainder. */
  lemma ModOfModSum(x: int, y: int, b: int)
    requires 0 < b
    ensures (x % b + y) % b == (x + y) % b
  {
    ModAddMultiple(x % b + y, x / b, b);
    assert x % b + y + (x / b) * b == x + y;
  }
}
