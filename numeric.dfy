/** Fixed-width integer ranges, wrap-around helpers and real-number rounding
    shared by the rest of the model. */
module Numeric {

  const U8_LIMIT: int := 0x100
  const U32_LIMIT: int := 0x1_0000_0000
  const U64_LIMIT: int := 0x1_0000_0000_0000_0000
  const I32_MAX: int := 0x7FFF_FFFF
  /** `usize::MAX` on a 64-bit target. */
  const USIZE_MAX: int := 0xFFFF_FFFF_FFFF_FFFF

  type uint32 = x: int | 0 <= x < 0x1_0000_0000
  type uint64 = x: int | 0 <= x < 0x1_0000_0000_0000_0000
  type usize = x: int | 0 <= x <= 0xFFFF_FFFF_FFFF_FFFF
  type byte = x: int | 0 <= x < 0x100

  datatype Option<T> = None | Some(value: T)

  function Min(a: int, b: int): int { if a <= b then a else b }
  function Max(a: int, b: int): int { if a <= b then b else a }
  function RMin(a: real, b: real): real { if a <= b then a else b }
  function RMax(a: real, b: real): real { if a <= b then b else a }

  /** `Ord::clamp` for integers; the caller must supply lo <= hi (Rust panics otherwise). */
  function Clamp(v: int, lo: int, hi: int): (r: int)
    requires lo <= hi
    ensures lo <= r <= hi
    ensures lo <= v <= hi ==> r == v
  {
    if v < lo then lo else if v > hi then hi else v
  }

  /** `f32::clamp` taken over the reals. */
  function RClamp(v: real, lo: real, hi: real): (r: real)
    requires lo <= hi
    ensures lo <= r <= hi
    ensures lo <= v <= hi ==> r == v
  {
    if v < lo then lo else if v > hi then hi else v
  }

  function Abs(r: real): real { if r < 0.0 then -r else r }

  /** Ceiling of a real, defined through `.Floor`. */
  function Ceil(r: real): (c: int)
    ensures r <= c as real < r + 1.0
  {
    -((-r).Floor)
  }

  /** Index of the first pixel of row `y` in a row-major buffer. */
  function RowStart(y: nat, width: nat): nat { y * width }

  /** Wrapping addition in 64 bits. */
  function Add64(a: uint64, b: uint64): uint64 { (a + b) % U64_LIMIT }

  /** Wrapping multiplication in 64 bits. */
  function Mul64(a: uint64, b: uint64): uint64 { (a * b) % U64_LIMIT }

  lemma {:induction false} ModAddLeft(a: int, b: int, m: int)
    requires m > 0
    ensures (a % m + b) % m == (a + b) % m
  {
    var q := a / m;
    assert a == q * m + a % m;
    assert a + b == (a % m + b) + q * m;
    ModShift(a % m + b, q, m);
  }

  /** Multiplying by a non-negative factor keeps the order. */
  lemma MulLeft(a: int, b: int, m: nat)
    requires a <= b
    ensures a * m <= b * m
  {
  }

  /** (a + 1) * m == a * m + m. */
  lemma MulSucc(a: int, m: int)
    ensures (a + 1) * m == a * m + m
  {
  }

  /** A product of naturals is a natural. */
  lemma MulNonneg(a: nat, b: nat)
    ensures 0 <= a * b
  {
  }

  /** (n - 1) * m + m == n * m. */
  lemma MulPred(n: int, m: int)
    ensures (n - 1) * m + m == n * m
  {
  }

  /** A slice inside the left operand of a concatenation. */
  lemma SliceOfConcatLeft<T>(a: seq<T>, b: seq<T>, lo: int, hi: int)
    requires 0 <= lo <= hi <= |a|
    ensures (a + b)[lo .. hi] == a[lo .. hi]
  {
  }

  /** A prefix of a concatenation that ends inside its left operand is a
      prefix of that operand. */
  lemma PrefixOfConcat<T>(s: seq<T>, a: seq<T>, b: seq<T>, hi: int, pre: seq<T>)
    requires s == a + b && 0 <= hi <= |a| && a[..hi] == pre
    ensures s[..hi] == pre
  {
  }

  /** The slice of a concatenation past its left operand is the right one. */
  lemma SliceOfConcatRight<T>(a: seq<T>, b: seq<T>)
    ensures (a + b)[|a| .. |a| + |b|] == b
  {
  }

  /** Where a part of `s` is known, a slice of that part is a slice of `s`. */
  lemma SliceWithin<T>(s: seq<T>, lo: int, hi: int, part: seq<T>, i: int, n: int, sub: seq<T>)
    requires 0 <= lo <= hi <= |s| && s[lo .. hi] == part
    requires 0 <= i && 0 <= n && i + n <= |part| && part[i .. i + n] == sub
    ensures s[lo + i .. lo + i + n] == sub
  {
    SliceOfSlice(s, lo, hi, i, i + n);
  }

  /** Where a suffix of `s` is known, a slice of that suffix is a slice of `s`. */
  lemma SuffixWithin<T>(s: seq<T>, lo: int, part: seq<T>, i: int, n: int, sub: seq<T>)
    requires 0 <= lo <= |s| && s[lo..] == part
    requires 0 <= i && 0 <= n && i + n <= |part| && part[i .. i + n] == sub
    ensures s[lo + i .. lo + i + n] == sub
  {
    assert s[lo + i .. lo + i + n] == s[lo..][i .. i + n];
  }

  /** Where a prefix of `s` is known to be a + b, b sits right after a in `s`. */
  lemma LastOfPrefix<T>(s: seq<T>, hi: int, a: seq<T>, b: seq<T>)
    requires 0 <= hi <= |s| && s[..hi] == a + b
    ensures s[|a| .. |a| + |b|] == b
  {
    assert s[|a| .. |a| + |b|] == (a + b)[|a| ..];
  }

  /** Where a part of `s` is known, an element of that part is an element of `s`. */
  lemma IndexWithin<T>(s: seq<T>, lo: int, hi: int, part: seq<T>, i: int)
    requires 0 <= lo <= hi <= |s| && s[lo .. hi] == part && 0 <= i < |part|
    ensures s[lo + i] == part[i]
  {
  }

  /** A slice of a prefix is a slice of the original. */
  lemma SliceOfPrefix<T>(s: seq<T>, hi: int, i: int, j: int)
    requires 0 <= i <= j <= hi <= |s|
    ensures s[..hi][i .. j] == s[i .. j]
  {
  }

  /** A slice of a slice is a slice of the original. */
  lemma SliceOfSlice<T>(s: seq<T>, lo: int, hi: int, i: int, j: int)
    requires 0 <= lo <= hi <= |s| && 0 <= i <= j <= hi - lo
    ensures s[lo .. hi][i .. j] == s[lo + i .. lo + j]
  {
    var a := s[lo .. hi][i .. j];
    var b := s[lo + i .. lo + j];
    assert |a| == |b|;
    forall k | 0 <= k < |a|
      ensures a[k] == b[k]
    {
      assert a[k] == s[lo .. hi][i + k] == s[lo + i + k];
    }
  }

  /** A value already below the modulus is its own remainder. */
  lemma ModBelow(x: int, m: int)
    requires 0 <= x < m
    ensures x % m == x
  {
  }

  lemma {:induction false} ModShift(x: int, q: int, m: int)
    requires m > 0
    ensures (x + q * m) % m == x % m
  {
    var d := x / m;
    assert x + q * m == (d + q) * m + x % m;
    DivModUnique(x + q * m, m, d + q, x % m);
  }

  /** Euclidean division is determined by quotient and remainder. */
  lemma {:induction false} DivModUnique(n: int, m: int, d: int, r: int)
    requires m > 0 && 0 <= r < m && n == d * m + r
    ensures n / m == d && n % m == r
  {
    var k := n / m - d;
    assert k * m == r - n % m by {
      assert n == (n / m) * m + n % m;
      assert (n / m) * m - d * m == (n / m - d) * m;
    }
  }
}
