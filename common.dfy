// Shared definitions of the storage core: the compile-time constants of
// eratosthene.h, the status codes, and the little-endian byte codec every
// record and file of the index is written with (the library refuses to build
// on big-endian hosts, so every multi-byte integer is stored low byte first).

module Common {

  /** One byte of a buffer or of a file. */
  type byte = b: int | 0 <= b < 256

  /** `_LE_USE_BASE`: number of children of an octree node. */
  const Base: nat := 8
  /** `_LE_USE_OFFSET`: bytes used to store a child offset. */
  const OffsetBytes: nat := 5
  /** `_LE_USE_DEPTH`: maximum number of scales. */
  const UseDepth: nat := 40
  /** `_LE_USE_DATA`: bytes of the colour and counter part of a fixed node. */
  const UseData: nat := 4
  /** `_LE_USE_RETRY`: empty socket reads tolerated before a transfer ends. */
  const UseRetry: nat := 3
  /** `sizeof(le_size_t)`: bytes read when an offset is accessed as a word. */
  const WordBytes: nat := 8

  /** `_LE_OFFS_NULL`: the null offset, five bytes of 0xff. */
  const OffsNull: nat := 0xFF_FFFF_FFFF

  const Int64Min: int := -0x8000_0000_0000_0000
  const Int64Max: int := 0x7FFF_FFFF_FFFF_FFFF
  /** `_LE_TIME_NULL` and `_LE_TIME_MAX`. */
  const TimeNull: int := Int64Min
  const TimeMax: int := Int64Max

  predicate IsInt64(v: int) { Int64Min <= v <= Int64Max }

  /** Status codes of the library (`LE_ERROR_*`). */
  datatype Status =
    | Success    // LE_ERROR_SUCCESS  0x0000
    | ErrIoAccess   // LE_ERROR_IO_ACCESS 0x0001
    | ErrIoRead     // LE_ERROR_IO_READ  0x0002
    | ErrIoWrite    // LE_ERROR_IO_WRITE 0x0003
    | ErrIoSeek     // LE_ERROR_IO_SEEK  0x0004
    | ErrMemory     // LE_ERROR_MEMORY   0x0008
    | ErrDepth      // LE_ERROR_DEPTH    0x0009
    | ErrTime       // LE_ERROR_TIME     0x000a

  /** The numeric value of a status, as the library reports it. */
  function Code(s: Status): (c: nat)
    ensures c == 0 <==> s == Success
  {
    match s
    case Success => 0
    case ErrIoAccess => 1
    case ErrIoRead => 2
    case ErrIoWrite => 3
    case ErrIoSeek => 4
    case ErrMemory => 8
    case ErrDepth => 9
    case ErrTime => 10
  }

  /** Two to the power `n`. */
  function Pow2(n: nat): (r: nat)
    ensures r >= 1
  {
    if n == 0 then 1 else 2 * Pow2(n - 1)
  }

  function Pow256(n: nat): (r: nat)
    ensures r >= 1
  {
    if n == 0 then 1 else 256 * Pow256(n - 1)
  }

  lemma {:induction false} Pow256Add(a: nat, b: nat)
    ensures Pow256(a + b) == Pow256(a) * Pow256(b)
    decreases a
  {
    if a > 0 {
      Pow256Add(a - 1, b);
    }
  }

  /** The unsigned value of bytes stored low byte first. */
  function LeDecode(s: seq<byte>): (v: nat)
    ensures v < Pow256(|s|)
  {
    if s == [] then 0 else s[0] + 256 * LeDecode(s[1..])
  }

  /** The `n` low bytes of `v`, low byte first (the bytes a little-endian
      host stores for `v` truncated to `n` bytes). */
  function LeEncode(v: nat, n: nat): (s: seq<byte>)
    ensures |s| == n
  {
    if n == 0 then [] else [v % 256] + LeEncode(v / 256, n - 1)
  }

  lemma {:induction false} DecodeEncode(v: nat, n: nat)
    ensures LeDecode(LeEncode(v, n)) == v % Pow256(n)
    decreases n
  {
    if n > 0 {
      var s := LeEncode(v, n);
      assert s[1..] == LeEncode(v / 256, n - 1);
      DecodeEncode(v / 256, n - 1);
      DivModPow(v, n - 1);
    }
  }

  /** `(v / 256) % 256^m * 256 + v % 256 == v % 256^(m+1)`. */
  lemma DivModPow(v: nat, m: nat)
    ensures v % 256 + 256 * ((v / 256) % Pow256(m)) == v % Pow256(m + 1)
  {
    var p := Pow256(m);
    assert Pow256(m + 1) == 256 * p;
    var q := (v / 256) / p;
    var r := (v / 256) % p;
    assert v / 256 == q * p + r;
    assert v == 256 * (q * p + r) + v % 256;
    assert v == q * (256 * p) + (256 * r + v % 256);
    assert 0 <= 256 * r + v % 256 < 256 * p;
    LemmaModUnique(v, 256 * p, q, 256 * r + v % 256);
  }

  lemma MulAtLeast(d: int, m: int)
    requires d >= 1 && m > 0
    ensures d * m >= m
  {
    var k := d - 1;
    assert d * m == k * m + m;
    assert k * m >= 0;
  }

  /** Quotient and remainder are unique. */
  lemma LemmaModUnique(v: int, m: int, q: int, r: int)
    requires m > 0 && 0 <= r < m && v == q * m + r
    ensures v % m == r && v / m == q
  {
    var q' := v / m;
    var r' := v % m;
    assert v == q' * m + r';
    var d := q' - q;
    assert d * m == r - r';
    if d >= 1 {
      MulAtLeast(d, m);
    } else if d <= -1 {
      MulAtLeast(-d, m);
    }
  }

  lemma {:induction false} EncodeDecode(s: seq<byte>)
    ensures LeEncode(LeDecode(s), |s|) == s
    decreases |s|
  {
    if s != [] {
      var v := LeDecode(s);
      assert v % 256 == s[0] && v / 256 == LeDecode(s[1..]);
      EncodeDecode(s[1..]);
    }
  }

  /** A value stored as its first `k` bytes and its remaining bytes. */
  lemma {:induction false} DecodeSplit(s: seq<byte>, k: nat)
    requires k <= |s|
    ensures LeDecode(s) == LeDecode(s[..k]) + Pow256(k) * LeDecode(s[k..])
    decreases k
  {
    if k > 0 {
      var t := s[1..];
      DecodeSplit(t, k - 1);
      assert t[..k - 1] == s[..k][1..];
      assert t[k - 1..] == s[k..];
      var a: int := LeDecode(t[..k - 1]);
      var x: int := LeDecode(s[k..]);
      var p: int := Pow256(k - 1);
      assert LeDecode(t) == a + p * x;
      assert LeDecode(s[..k]) == s[0] + 256 * a;
      Distribute(s[0], a, p, x);
    }
  }

  lemma Distribute(c: int, a: int, p: int, x: int)
    ensures c + 256 * (a + p * x) == (c + 256 * a) + (256 * p) * x
  {
  }

  /** Masking a word with the `k`-byte mask keeps its first `k` bytes: this is
      how an 8-byte read masked by `_LE_OFFS_NULL` yields the 5-byte offset. */
  lemma DecodeMask(s: seq<byte>, k: nat)
    requires k <= |s|
    ensures LeDecode(s) % Pow256(k) == LeDecode(s[..k])
  {
    DecodeSplit(s, k);
    assert |s[..k]| == k;
    ModOfSplit(LeDecode(s), Pow256(k), LeDecode(s[k..]), LeDecode(s[..k]));
  }

  lemma ModOfSplit(v: int, m: int, q: int, r: int)
    requires m > 0 && 0 <= r < m && v == r + m * q
    ensures v % m == r
  {
    LemmaModUnique(v, m, q, r);
  }

  /** The first `k` bytes of an `n`-byte encoding are the `k`-byte
      encoding. */
  lemma {:induction false} EncodePrefix(v: nat, n: nat, k: nat)
    requires k <= n
    ensures LeEncode(v, n)[..k] == LeEncode(v, k)
    decreases k
  {
    if k > 0 {
      EncodePrefix(v / 256, n - 1, k - 1);
      assert LeEncode(v, n)[..k] == [v % 256] + LeEncode(v / 256, n - 1)[..k - 1];
    }
  }

  /** Only zero bytes decode to zero. */
  lemma {:induction false} DecodeZero(s: seq<byte>)
    requires LeDecode(s) == 0
    ensures forall i :: 0 <= i < |s| ==> s[i] == 0
    decreases |s|
  {
    if s != [] {
      DecodeZero(s[1..]);
      assert forall i :: 1 <= i < |s| ==> s[i] == s[1..][i - 1];
    }
  }

  /** Zero bytes decode to zero. */
  lemma {:induction false} ZeroDecodes(s: seq<byte>)
    requires forall i :: 0 <= i < |s| ==> s[i] == 0
    ensures LeDecode(s) == 0
    decreases |s|
  {
    if s != [] {
      ZeroDecodes(s[1..]);
    }
  }

  /** Five 0xff bytes decode to the null offset. */
  lemma NullBytes()
    ensures LeDecode([255, 255, 255, 255, 255]) == OffsNull
  {
    var s: seq<byte> := [255, 255, 255, 255, 255];
    assert s[1..] == [255, 255, 255, 255];
    assert s[1..][1..] == [255, 255, 255];
    assert s[1..][1..][1..] == [255, 255];
    assert s[1..][1..][1..][1..] == [255];
  }

  lemma Pow256Five()
    ensures Pow256(5) == OffsNull + 1
  {
  }

  /** The byte sequence of the 64-bit two's complement of `v`. */
  function Int64Bytes(v: int): (s: seq<byte>)
    ensures |s| == WordBytes
  {
    LeEncode(v % Pow256(8), 8)
  }

  /** The signed value of eight little-endian bytes. */
  function Int64Value(s: seq<byte>): (v: int)
    requires |s| == WordBytes
    ensures IsInt64(v)
  {
    var u := LeDecode(s);
    if u <= Int64Max then u else u - Pow256(8)
  }

  lemma Pow256Eight()
    ensures Pow256(8) == 0x1_0000_0000_0000_0000
  {
    assert Pow256(4) == 0x1_0000_0000;
  }

  lemma Int64RoundTrip(v: int)
    requires IsInt64(v)
    ensures Int64Value(Int64Bytes(v)) == v
  {
    Pow256Eight();
    DecodeEncode(v % Pow256(8), 8);
    if v < 0 {
      LemmaModUnique(v, Pow256(8), -1, v + Pow256(8));
    } else {
      LemmaModUnique(v, Pow256(8), 0, v);
    }
  }

  /** `x` with `d` copied over it from index `b` on. */
  function Overlay<T>(x: seq<T>, b: nat, d: seq<T>): (r: seq<T>)
    requires b + |d| <= |x|
    ensures |r| == |x|
  {
    x[..b] + d + x[b + |d|..]
  }

  /** The head of an overlay at the start is the head of what is laid. */
  lemma OverlayHead<T>(x: seq<T>, d: seq<T>, h: nat)
    requires |d| <= |x| && h <= |d|
    ensures Overlay(x, 0, d)[..h] == d[..h]
  {
    assert Overlay(x, 0, d) == d + x[|d|..];
  }

  /** Each element of an overlay. */
  lemma OverlayAt<T>(x: seq<T>, b: nat, d: seq<T>, i: nat)
    requires b + |d| <= |x| && i < |x|
    ensures Overlay(x, b, d)[i] == if b <= i < b + |d| then d[i - b] else x[i]
  {
    var head, tail := x[..b], x[b + |d|..];
    assert Overlay(x, b, d) == head + d + tail;
    if i < b {
      assert Overlay(x, b, d)[i] == head[i];
    } else if i >= b + |d| {
      assert Overlay(x, b, d)[i] == tail[i - b - |d|];
    }
  }

  /** Two copies, the second where the first ends, are one copy of both. */
  lemma OverlayTwice<T>(x: seq<T>, b: nat, u: seq<T>, v: seq<T>)
    requires b + |u| + |v| <= |x|
    ensures Overlay(Overlay(x, b, u), b + |u|, v) == Overlay(x, b, u + v)
  {
    var l, r := Overlay(Overlay(x, b, u), b + |u|, v), Overlay(x, b, u + v);
    forall i | 0 <= i < |x|
      ensures l[i] == r[i]
    {
      OverlayAt(Overlay(x, b, u), b + |u|, v, i);
      OverlayAt(x, b, u, i);
      OverlayAt(x, b, u + v, i);
    }
  }

  /** A sequence that agrees with `y` outside `[b, b + |m|)` and holds `m`
      there is `y` with `m` spliced in. */
  lemma Splice<T>(x: seq<T>, y: seq<T>, b: nat, m: seq<T>)
    requires |x| == |y| && b + |m| <= |x|
    requires x[b..b + |m|] == m
    requires forall t :: 0 <= t < |x| && !(b <= t < b + |m|) ==> x[t] == y[t]
    ensures x == y[..b] + m + y[b + |m|..]
  {
    var z := y[..b] + m + y[b + |m|..];
    forall t | 0 <= t < |x|
      ensures x[t] == z[t]
    {
      if t < b {
        assert z[t] == y[t];
      } else if t < b + |m| {
        assert z[t] == m[t - b] == x[t];
      } else {
        assert z[t] == y[t];
      }
    }
  }

  /** Bitwise or of two bytes (or-ing zero is the identity, taken apart so
      that the proofs do not have to reason about bit-vectors). */
  function ByteOr(a: byte, b: byte): (r: byte)
    ensures b == 0 ==> r == a
  {
    if b == 0 then a else ((a as bv8) | (b as bv8)) as int
  }

  /** Division of `int64` operands as C performs it: the quotient is
      truncated toward zero (Dafny's `/` rounds toward minus infinity for a
      positive divisor). */
  function CDiv(a: int, b: int): (q: int)
    requires b > 0
    ensures a >= 0 ==> q == a / b
    ensures a < 0 ==> q == -((-a) / b)
  {
    if a >= 0 then a / b else -((-a) / b)
  }

  /** A multiple divides back exactly, whatever its sign. */
  lemma CDivExact(x: int, m: int)
    requires m > 0
    ensures CDiv(x * m, m) == x
  {
    if x >= 0 {
      var v := x * m;
      LemmaModUnique(v, m, x, 0);
      assert v >= 0 by {
        if x > 0 {
          MulAtLeast(x, m);
        }
      }
    } else {
      var v := (-x) * m;
      assert x * m == -v;
      MulAtLeast(-x, m);
      LemmaModUnique(v, m, -x, 0);
    }
  }

  lemma CDivBounds(a: int, b: int)
    requires b > 0
    ensures a >= 0 ==> 0 <= CDiv(a, b) <= a
    ensures a < 0 ==> a <= CDiv(a, b) <= 0
    ensures -b < a < b ==> CDiv(a, b) == 0
  {
    var n := Abs(a);
    var q := n / b;
    assert n == q * b + n % b;
    if q >= 1 {
      MulAtLeast(q, b);
      MulAtLeast(b, q);
    }
    if n < b {
      LemmaModUnique(n, b, 0, n);
    }
  }

  /** The element-wise absolute value of an `int64` difference. */
  function Abs(x: int): (r: nat)
    ensures r == x || r == -x
  {
    if x < 0 then -x else x
  }
}
