/** Bytes, results and the fixed-width integer encodings the parsers share. */
module Bytes {
  type Byte = b: int | 0 <= b < 256

  const SECTOR := 512
  const U32_LIMIT := 0x1_0000_0000
  const U64_LIMIT := 0x1_0000_0000_0000_0000

  type U64 = n: int | 0 <= n < U64_LIMIT

  datatype Option<+T> = None | Some(value: T)

  datatype Result<+T, +E> = Ok(value: T) | Err(error: E)

  function Min(a: int, b: int): int {
    if a <= b then a else b
  }

  function Max(a: int, b: int): int {
    if a <= b then b else a
  }

  /** A truth value as a count. */
  function One(b: bool): nat {
    if b then 1 else 0
  }

  /** Byte `p` of a file, reading zero past its end. */
  function ByteAt(contents: seq<Byte>, p: nat): Byte {
    if p < |contents| then contents[p] else 0
  }

  /** The `n` bytes from `p` on, zero-padded past the end of the file. */
  function Padded(contents: seq<Byte>, p: nat, n: nat): (s: seq<Byte>)
    ensures |s| == n
    ensures forall i :: 0 <= i < n ==> s[i] == ByteAt(contents, p + i)
  {
    seq<Byte>(n, (i: int) requires 0 <= i < n => ByteAt(contents, p + i))
  }

  lemma PaddedInside(contents: seq<Byte>, p: nat, n: nat)
    requires p + n <= |contents|
    ensures Padded(contents, p, n) == contents[p..p + n]
  {
    assert forall i :: 0 <= i < n ==> Padded(contents, p, n)[i] == contents[p..p + n][i];
  }

  function Zeros(n: nat): (s: seq<Byte>)
    ensures |s| == n
  {
    seq<Byte>(n, _ => 0)
  }

  function Pow256(n: nat): (p: nat)
    ensures p > 0
  {
    if n == 0 then 1 else 256 * Pow256(n - 1)
  }

  /** Value of a little-endian byte string. */
  function LeValue(s: seq<Byte>): (v: nat)
    ensures v < Pow256(|s|)
  {
    if s == [] then 0 else s[0] + 256 * LeValue(s[1..])
  }

  /** Value of a big-endian byte string. */
  function BeValue(s: seq<Byte>): (v: nat)
    ensures v < Pow256(|s|)
  {
    if s == [] then 0 else BeValue(s[..|s| - 1]) * 256 + s[|s| - 1]
  }

  function LeBytes(v: nat, n: nat): (s: seq<Byte>)
    ensures |s| == n
  {
    if n == 0 then [] else [v % 256] + LeBytes(v / 256, n - 1)
  }

  function BeBytes(v: nat, n: nat): (s: seq<Byte>)
    ensures |s| == n
  {
    if n == 0 then [] else BeBytes(v / 256, n - 1) + [v % 256]
  }

  lemma {:induction false} LeRoundTrip(v: nat, n: nat)
    requires v < Pow256(n)
    ensures LeValue(LeBytes(v, n)) == v
  {
    if n > 0 {
      LeRoundTrip(v / 256, n - 1);
      assert LeBytes(v, n)[1..] == LeBytes(v / 256, n - 1);
    }
  }

  lemma {:induction false} BeRoundTrip(v: nat, n: nat)
    requires v < Pow256(n)
    ensures BeValue(BeBytes(v, n)) == v
  {
    if n > 0 {
      BeRoundTrip(v / 256, n - 1);
      assert BeBytes(v, n)[..n - 1] == BeBytes(v / 256, n - 1);
    }
  }

  lemma Widths()
    ensures Pow256(2) == 0x1_0000
    ensures Pow256(4) == U32_LIMIT
    ensures Pow256(8) == U64_LIMIT
  {
    assert Pow256(0) == 1;
    assert Pow256(1) == 0x100;
    assert Pow256(2) == 0x1_0000;
    assert Pow256(3) == 0x100_0000;
    assert Pow256(4) == 0x1_0000_0000;
    assert Pow256(5) == 0x100_0000_0000;
    assert Pow256(6) == 0x1_0000_0000_0000;
    assert Pow256(7) == 0x100_0000_0000_0000;
  }

  /** The four bytes from `at` on, least significant first. */
  function Le32(s: seq<Byte>, at: nat): (v: nat)
    requires at + 4 <= |s|
    ensures v < U32_LIMIT
  {
    s[at] as int + 0x100 * s[at + 1] as int + 0x1_0000 * s[at + 2] as int + 0x100_0000 * s[at + 3] as int
  }

  /** The eight bytes from `at` on, least significant first. */
  function Le64(s: seq<Byte>, at: nat): (v: nat)
    requires at + 8 <= |s|
    ensures v < U64_LIMIT
  {
    Le32(s, at) + U32_LIMIT * Le32(s, at + 4)
  }

  lemma Le32Unrolled(s: seq<Byte>)
    requires |s| == 4
    ensures LeValue(s) == Le32(s, 0)
  {
    assert LeValue(s[3..]) == s[3] by {
      assert s[3..][1..] == [];
    }
    assert s[2..][1..] == s[3..] && s[1..][1..] == s[2..];
    assert LeValue(s[2..]) == s[2] + 256 * LeValue(s[3..]);
    assert LeValue(s[1..]) == s[1] + 256 * LeValue(s[2..]);
  }

  lemma Le32RoundTrip(s: seq<Byte>, at: nat, v: nat)
    requires at + 4 <= |s| && v < U32_LIMIT && s[at..at + 4] == LeBytes(v, 4)
    ensures Le32(s, at) == v
  {
    Widths();
    LeRoundTrip(v, 4);
    Le32Unrolled(s[at..at + 4]);
  }

  lemma Halves(s: seq<Byte>, at: nat, low: seq<Byte>, high: seq<Byte>)
    requires at + 8 <= |s| && |low| == |high| == 4 && s[at..at + 8] == low + high
    ensures s[at..at + 4] == low && s[at + 4..at + 8] == high
  {
    assert s[at..at + 4] == s[at..at + 8][..4];
    assert s[at + 4..at + 8] == s[at..at + 8][4..];
  }

  lemma Le64RoundTrip(s: seq<Byte>, at: nat, v: nat)
    requires at + 8 <= |s| && v < U64_LIMIT && s[at..at + 8] == LeBytes(v, 8)
    ensures Le64(s, at) == v
  {
    Widths();
    var low, high := v % U32_LIMIT, v / U32_LIMIT;
    LeBytesSplit(high, low, 4, 4);
    Halves(s, at, LeBytes(low, 4), LeBytes(high, 4));
    Le32RoundTrip(s, at, low);
    Le32RoundTrip(s, at + 4, high);
  }

  /** The low `m` bytes of a number and the `n` bytes above them. */
  lemma {:induction false} LeBytesSplit(high: nat, low: nat, m: nat, n: nat)
    requires low < Pow256(m)
    ensures LeBytes(high * Pow256(m) + low, m + n) == LeBytes(low, m) + LeBytes(high, n)
  {
    if m == 0 {
      assert LeBytes(low, m) == [];
    } else {
      var p := Pow256(m - 1);
      var v := high * (256 * p) + low;
      assert v == 256 * (high * p + low / 256) + low % 256;
      DivModUnique(high * p + low / 256, low % 256, 256);
      LeBytesSplit(high, low / 256, m - 1, n);
      assert LeBytes(v, m + n) == [low % 256] + LeBytes(high * p + low / 256, m - 1 + n);
      assert LeBytes(low, m) == [low % 256] + LeBytes(low / 256, m - 1);
    }
  }

  /** A number splits into a multiple of `d` and a rest below `d` in one way only. */
  lemma SplitUnique(q: int, r: int, q': int, r': int, d: int)
    requires q * d + r == q' * d + r'
    requires 0 <= r < d && 0 <= r' < d
    ensures q == q' && r == r'
  {
    if q < q' {
      MultipleAtLeast(q' - q, d);
    } else if q' < q {
      MultipleAtLeast(q - q', d);
    }
  }

  lemma MultipleAtLeast(k: int, d: int)
    requires k >= 1 && d >= 0
    ensures k * d >= d
  {
  }

  lemma DivModUnique(q: int, r: int, d: int)
    requires 0 <= r < d
    ensures (q * d + r) / d == q
    ensures (q * d + r) % d == r
  {
    var x := q * d + r;
    assert x == x / d * d + x % d;
    SplitUnique(q, r, x / d, x % d, d);
  }

  /** Moving `i` bytes on without leaving the current block keeps the block number. */
  lemma SameBlock(p: nat, i: nat, d: nat)
    requires d > 0 && p % d + i < d
    ensures (p + i) / d == p / d
    ensures (p + i) % d == p % d + i
  {
    assert p == p / d * d + p % d;
    DivModUnique(p / d, p % d + i, d);
  }

  lemma MulMonotone(a: nat, a': nat, k: nat)
    requires a <= a'
    ensures a * k <= a' * k
  {
  }

  function DivCeil(a: nat, b: nat): (q: nat)
    requires b > 0
  {
    if a % b == 0 then a / b else a / b + 1
  }

  /** `DivCeil` is the least number of blocks that hold `a` bytes. */
  lemma DivCeilCovers(a: nat, b: nat)
    requires b > 0
    ensures a <= DivCeil(a, b) * b
    ensures forall q: nat :: q < DivCeil(a, b) ==> q * b < a
  {
    assert a == a / b * b + a % b;
    assert (a / b + 1) * b == a / b * b + b;
    forall q: nat | q < DivCeil(a, b) ensures q * b < a {
      if q < a / b {
        MulMonotone(q + 1, a / b, b);
        assert (q + 1) * b == q * b + b;
      }
    }
  }
}
