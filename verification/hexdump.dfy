/**
 * The hex dump formatter of `p4/utils.c`: every byte becomes two upper-case
 * hex digits, and a space follows a byte exactly when the number of bytes
 * still to come after it is even, so that digits are grouped in pairs of
 * bytes counted from the END of the input.
 */
module HexDump {
  import opened Bytes

  /** One upper-case hex digit. */
  function HexDigit(d: nat): char
    requires d < 16
  {
    if d < 10 then ('0' as int + d) as char else ('A' as int + d - 10) as char
  }

  /** `%.2X` of one unsigned char. */
  function Hex2(b: byte): string {
    [HexDigit(b / 16), HexDigit(b % 16)]
  }

  /** The separator after a byte with `after` bytes still to follow. */
  function Gap(after: nat): string {
    if after % 2 == 0 then " " else ""
  }

  /** The text `dump_bytes` produces (without the terminating NUL). */
  function Dump(s: seq<byte>): string {
    if s == [] then ""
    else Hex2(s[0]) + Gap(|s| - 1) + Dump(s[1..])
  }

  /**
   * The shape of the dump: two characters per byte plus one space per pair
   * of bytes (rounded up), empty exactly for empty input, and ending in a
   * space otherwise.
   */
  lemma {:induction false} DumpShape(s: seq<byte>)
    ensures |Dump(s)| == 2 * |s| + (|s| + 1) / 2
    ensures Dump(s) == [] <==> s == []
    ensures s != [] ==> Dump(s)[|Dump(s)| - 1] == ' '
    decreases |s|
  {
    if s != [] {
      DumpShape(s[1..]);
      if |s| == 1 {
        assert s[1..] == [];
      }
    }
  }

  /** The digits of `s` without any spacing: the reference for what `Dump` spells. */
  function Digits(s: seq<byte>): string {
    if s == [] then "" else Hex2(s[0]) + Digits(s[1..])
  }

  function StripSpaces(t: string): string {
    if t == [] then "" else (if t[0] == ' ' then "" else [t[0]]) + StripSpaces(t[1..])
  }

  function Unhex(c: char): Option<nat> {
    if '0' <= c <= '9' then Some(c as int - '0' as int)
    else if 'A' <= c <= 'F' then Some(c as int - 'A' as int + 10)
    else None
  }

  /** Reads a digit string back two digits per byte. */
  function ParsePairs(d: string): Option<seq<byte>>
    decreases |d|
  {
    if d == [] then Some([])
    else if |d| == 1 then None
    else match (Unhex(d[0]), Unhex(d[1]), ParsePairs(d[2..]))
      case (Some(hi), Some(lo), Some(rest)) =>
        if hi < 16 && lo < 16 then Some([hi * 16 + lo] + rest) else None
      case _ => None
  }

  /** The inverse of `Dump`: drop the spacing, then read the digit pairs. */
  function Undump(t: string): Option<seq<byte>> {
    ParsePairs(StripSpaces(t))
  }

  lemma {:induction false} StripSpacesAppend(a: string, b: string)
    ensures StripSpaces(a + b) == StripSpaces(a) + StripSpaces(b)
    decreases |a|
  {
    if a != [] {
      assert (a + b)[1..] == a[1..] + b;
      StripSpacesAppend(a[1..], b);
    } else {
      assert a + b == b;
    }
  }

  lemma HexDigitsNotSpace(b: byte)
    ensures StripSpaces(Hex2(b)) == Hex2(b)
  {
    var h := Hex2(b);
    assert h[0] != ' ' && h[1] != ' ';
    assert h[1..][1..] == [];
    assert StripSpaces(h[1..]) == [h[1]];
    assert StripSpaces(h) == [h[0]] + [h[1]];
  }

  lemma DumpStep(s: seq<byte>, i: nat)
    requires i < |s|
    ensures Dump(s[i..]) == Hex2(s[i]) + Gap(|s| - i - 1) + Dump(s[i + 1..])
  {
    DumpUnfold(s[i..]);
    assert s[i..][1..] == s[i + 1..];
  }

  /** Moving one step's digits and separator from the pending text to the output. */
  lemma Regroup(before: string, h: string, g: string, rest: string, pending: string, whole: string)
    requires pending == h + g + rest && before + pending == whole
    ensures before + h + g + rest == whole
  {
    assert before + (h + g + rest) == before + h + g + rest;
  }

  /** One turn of the `dump_bytes` loop keeps "output so far, then the dump of the rest" whole. */
  lemma DumpLoopStep(s: seq<byte>, i: nat, before: string, after: string)
    requires i < |s| && before + Dump(s[i..]) == Dump(s)
    requires after == before + Hex2(s[i]) + Gap(|s| - i - 1)
    ensures after + Dump(s[i + 1..]) == Dump(s)
  {
    DumpStep(s, i);
    Regroup(before, Hex2(s[i]), Gap(|s| - i - 1), Dump(s[i + 1..]), Dump(s[i..]), Dump(s));
  }

  /** One step of `Dump`: the first byte's digits and separator, then the rest. */
  lemma DumpUnfold(t: seq<byte>)
    requires t != []
    ensures Dump(t) == Hex2(t[0]) + Gap(|t| - 1) + Dump(t[1..])
  {
  }

  /** Removing the spacing from the dump leaves exactly the digits, in input order. */
  lemma {:induction false} DumpStripsToDigits(s: seq<byte>)
    ensures StripSpaces(Dump(s)) == Digits(s)
    decreases |s|
  {
    if s != [] {
      StripSpacesAppend(Hex2(s[0]) + Gap(|s| - 1), Dump(s[1..]));
      StripSpacesAppend(Hex2(s[0]), Gap(|s| - 1));
      HexDigitsNotSpace(s[0]);
      assert StripSpaces(Gap(|s| - 1)) == "";
      DumpStripsToDigits(s[1..]);
    }
  }

  lemma UnhexDigit(d: nat)
    requires d < 16
    ensures Unhex(HexDigit(d)) == Some(d)
  {
  }

  /** Reading the digits back yields the input bytes. */
  lemma {:induction false} DigitsParse(s: seq<byte>)
    ensures ParsePairs(Digits(s)) == Some(s)
    decreases |s|
  {
    if s != [] {
      var d := Digits(s);
      assert d == Hex2(s[0]) + Digits(s[1..]);
      assert d[2..] == Digits(s[1..]);
      UnhexDigit(s[0] / 16);
      UnhexDigit(s[0] % 16);
      DigitsParse(s[1..]);
      assert [s[0] / 16 * 16 + s[0] % 16] + s[1..] == s;
    }
  }

  /** Round trip: every byte is rendered as two digits, in order, and nothing else but spaces. */
  lemma DumpRoundTrip(s: seq<byte>)
    ensures Undump(Dump(s)) == Some(s)
  {
    DumpStripsToDigits(s);
    DigitsParse(s);
  }

  /** Where the digits of byte `j` start in the dump of `n` bytes. */
  function Position(n: nat, j: nat): int {
    2 * j + ((n + 1) / 2 - (n - j + 1) / 2)
  }

  /** The dump of a suffix is a suffix of the dump. */
  lemma {:induction false} DumpSuffix(s: seq<byte>, j: nat)
    requires j <= |s|
    ensures |Dump(s[j..])| <= |Dump(s)|
    ensures Dump(s)[|Dump(s)| - |Dump(s[j..])|..] == Dump(s[j..])
    decreases j
  {
    if j > 0 {
      DumpSuffix(s[1..], j - 1);
      assert s[1..][j - 1..] == s[j..];
      var head := Hex2(s[0]) + Gap(|s| - 1);
      var tail := Dump(s[1..]);
      assert Dump(s) == head + tail;
      var k := |tail| - |Dump(s[j..])|;
      assert (head + tail)[|head| + k..] == tail[k..];
    } else {
      assert s[0..] == s;
    }
  }

  /**
   * The spacing rule: byte `j` appears as its two digits at `Position(|s|, j)`,
   * and a space follows it exactly when the count of bytes after it is even.
   */
  lemma DumpLayout(s: seq<byte>, j: nat)
    requires j < |s|
    ensures Position(|s|, j) + 2 < |Dump(s)|
    ensures Dump(s)[Position(|s|, j)..Position(|s|, j) + 2] == Hex2(s[j])
    ensures Dump(s)[Position(|s|, j) + 2] == ' ' <==> (|s| - 1 - j) % 2 == 0
  {
    DumpDigitsAt(s, j);
    DumpSpaceAt(s, j);
  }

  lemma DumpDigitsAt(s: seq<byte>, j: nat)
    requires j < |s|
    ensures Position(|s|, j) + 2 < |Dump(s)|
    ensures Dump(s)[Position(|s|, j)..Position(|s|, j) + 2] == Hex2(s[j])
  {
    DumpAt(s, j);
    DumpHead(s[j..], |s| - 1 - j);
    assert s[j..][0] == s[j];
    SuffixHead(Dump(s), Position(|s|, j), Dump(s[j..]));
  }

  lemma DumpSpaceAt(s: seq<byte>, j: nat)
    requires j < |s|
    ensures Position(|s|, j) + 2 < |Dump(s)|
    ensures Dump(s)[Position(|s|, j) + 2] == ' ' <==> (|s| - 1 - j) % 2 == 0
  {
    DumpAt(s, j);
    DumpHead(s[j..], |s| - 1 - j);
    SuffixHead(Dump(s), Position(|s|, j), Dump(s[j..]));
  }

  /** The head of a suffix, read off the whole string. */
  lemma SuffixHead(d: string, p: int, dt: string)
    requires 0 <= p && p + |dt| == |d| && d[p..] == dt && |dt| > 2
    ensures p + 2 < |d| && d[p..p + 2] == dt[..2] && d[p + 2] == dt[2]
  {
    assert d[p..][2] == d[p + 2];
  }

  /** The dump of the bytes from `j` on starts at `Position(|s|, j)`. */
  lemma DumpAt(s: seq<byte>, j: nat)
    requires j <= |s|
    ensures 0 <= Position(|s|, j)
    ensures Position(|s|, j) + |Dump(s[j..])| == |Dump(s)|
    ensures Dump(s)[Position(|s|, j)..] == Dump(s[j..])
  {
    DumpSuffix(s, j);
    DumpShape(s);
    DumpShape(s[j..]);
  }

  /** A dump opens with the first byte's digits, then a space iff the remaining count is even. */
  lemma DumpHead(t: seq<byte>, after: nat)
    requires t != [] && after == |t| - 1
    ensures |Dump(t)| > 2
    ensures Dump(t)[..2] == Hex2(t[0])
    ensures Dump(t)[2] == ' ' <==> after % 2 == 0
  {
    DumpUnfold(t);
    var h := Hex2(t[0]);
    var g := Gap(|t| - 1);
    var rest := Dump(t[1..]);
    if (|t| - 1) % 2 != 0 {
      // another byte follows immediately, whose first digit is not a space
      DumpUnfold(t[1..]);
      assert rest[0] == Hex2(t[1..][0])[0];
      assert (h + g + rest)[2] == rest[0];
    } else {
      assert (h + g + rest)[2] == g[0];
    }
  }

  /** The loop body of `dump_bytes`: two digits, then a space when the count left is even. */
  method EmitByte(r: string, b: byte, count: nat) returns (r': string)
    ensures r' == r + Hex2(b) + Gap(count)
  {
    r' := r + Hex2(b);
    if count % 2 == 0 {
      r' := r' + " ";
    } else {
      assert r' == r' + "";
    }
  }

  /**
   * `dump_bytes`: the loop counts the bytes down and emits a space whenever
   * the count left after the current byte is even. The result fits in the
   * `count * 4 + 1` bytes the source allocates, terminator included.
   */
  method DumpBytes(s: seq<byte>) returns (r: string)
    ensures r == Dump(s)
    ensures Undump(r) == Some(s)
    ensures |r| + 1 <= 4 * |s| + 1
  {
    var count := |s|;
    var i := 0;
    r := "";
    while count > 0
      invariant 0 <= count && i + count == |s|
      invariant r + Dump(s[i..]) == Dump(s)
    {
      ghost var before := r;
      count := count - 1;
      r := EmitByte(r, s[i], count);
      DumpLoopStep(s, i, before, r);
      i := i + 1;
    }
    assert s[i..] == [];
    DumpRoundTrip(s);
    DumpShape(s);
  }
}
