/** Byte-level encodings shared by the image and terminal writers: ASCII
    decimal numerals (what `write!` produces for an unsigned integer) and
    little-endian integers (`to_le_bytes`). */
module Bytes {
  import opened Numeric

  /** How a writer call ended; failures of the underlying writer itself
      are not modelled. */
  datatype Outcome = Ok | InvalidInput

  /** The bytes a writer call handed to the writer, and how it ended. An
      error can follow bytes already written. */
  datatype Written = Written(bytes: seq<byte>, outcome: Outcome)

  /** ASCII code of a decimal digit. */
  function DigitByte(d: int): (b: byte)
    requires 0 <= d < 10
    ensures IsDigit(b)
  {
    48 + d
  }

  predicate IsDigit(b: byte) { 48 <= b <= 57 }

  /** The decimal numeral of `n`: most significant digit first, no leading
      zeros, "0" for zero. */
  function Decimal(n: nat): (s: seq<byte>)
    ensures |s| >= 1
    ensures forall i :: 0 <= i < |s| ==> IsDigit(s[i])
    decreases n
  {
    if n < 10 then [DigitByte(n)] else Decimal(n / 10) + [DigitByte(n % 10)]
  }

  /** The value of a string of ASCII digits. */
  function DecimalValue(s: seq<byte>): nat
    requires forall i :: 0 <= i < |s| ==> IsDigit(s[i])
    decreases |s|
  {
    if s == [] then 0
    else
      assert IsDigit(s[|s| - 1]);
      DecimalValue(s[..|s| - 1]) * 10 + (s[|s| - 1] as int - 48)
  }

  /** Reading a numeral back gives the number. */
  lemma {:induction false} DecimalRoundTrip(n: nat)
    ensures DecimalValue(Decimal(n)) == n
    decreases n
  {
    if n >= 10 {
      DecimalRoundTrip(n / 10);
      var s := Decimal(n);
      assert s[..|s| - 1] == Decimal(n / 10);
    }
  }

  /** Only zero is written with a leading zero digit. */
  lemma {:induction false} DecimalNoLeadingZero(n: nat)
    ensures Decimal(n)[0] == 48 <==> n == 0
    decreases n
  {
    if n >= 10 {
      DecimalNoLeadingZero(n / 10);
    }
  }

  /** Different numbers have different numerals. */
  lemma DecimalInjective(m: nat, n: nat)
    requires Decimal(m) == Decimal(n)
    ensures m == n
  {
    DecimalRoundTrip(m);
    DecimalRoundTrip(n);
  }

  /** `x.to_le_bytes()` for a u16. */
  function LE16(x: int): (s: seq<byte>)
    requires 0 <= x < 0x1_0000
    ensures |s| == 2
  {
    [x % 256, x / 256]
  }

  /** `x.to_le_bytes()` for a u32. */
  function LE32(x: int): (s: seq<byte>)
    requires 0 <= x < U32_LIMIT
    ensures |s| == 4
  {
    [x % 256, (x / 256) % 256, (x / 0x1_0000) % 256, x / 0x100_0000]
  }

  /** `v.to_le_bytes()` for an i32: the two's complement pattern. */
  function I32LE(v: int): (s: seq<byte>)
    requires -0x8000_0000 <= v <= I32_MAX
    ensures |s| == 4
  {
    LE32((v + U32_LIMIT) % U32_LIMIT)
  }

  /** `u32::from_le_bytes`. */
  function DecodeLE32(s: seq<byte>): int
    requires |s| == 4
  {
    s[0] as int + 256 * (s[1] as int) + 0x1_0000 * (s[2] as int) + 0x100_0000 * (s[3] as int)
  }

  /** `i32::from_le_bytes`. */
  function DecodeI32LE(s: seq<byte>): int
    requires |s| == 4
  {
    var u := DecodeLE32(s);
    if u <= I32_MAX then u else u - U32_LIMIT
  }

  /** Little-endian u32 encoding and decoding are inverse. */
  lemma LE32RoundTrip(x: int)
    requires 0 <= x < U32_LIMIT
    ensures DecodeLE32(LE32(x)) == x
  {
    var q1 := x / 256;
    var q2 := q1 / 256;
    var b3 := q2 / 256;
    assert x == 256 * q1 + x % 256;
    assert q1 == 256 * q2 + q1 % 256;
    assert q2 == 256 * b3 + q2 % 256;
    DivModUnique(x, 0x1_0000, q2, 256 * (q1 % 256) + x % 256);
    DivModUnique(x, 0x100_0000, b3, 0x1_0000 * (q2 % 256) + 256 * (q1 % 256) + x % 256);
  }

  /** Little-endian i32 encoding and decoding are inverse. */
  lemma I32LERoundTrip(v: int)
    requires -0x8000_0000 <= v <= I32_MAX
    ensures DecodeI32LE(I32LE(v)) == v
  {
    LE32RoundTrip((v + U32_LIMIT) % U32_LIMIT);
  }

  /** `n` zero bytes. */
  function Zeros(n: nat): (s: seq<byte>)
    ensures |s| == n && forall i :: 0 <= i < n ==> s[i] == 0
  {
    seq(n, i => 0)
  }
}
