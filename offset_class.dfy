// The implicit class of eratosthene-class.h shared by the mono-vertex and
// poly-vertex nodes: a descriptor byte whose bit i says whether offset i is
// stored, followed by the stored offsets only, five bytes each, in index
// order. A missing offset reads as the null offset. The functions work on a
// byte buffer the caller owns, at a given position inside it.

module OffsetClass {
  import opened Common
  import opened Streams

  /** `LE_CLASS_HEADER`: the descriptor byte. */
  const Header: nat := 1
  /** `LE_CLASS_TARGET`: room for all eight offsets. */
  const Target: nat := OffsetBytes * Base
  /** `LE_CLASS_PADDING`: room for the 8-byte word read of the last offset. */
  const Padding: nat := WordBytes - OffsetBytes
  /** `LE_CLASS_ALIGNED`. */
  const Aligned: nat := Target + Padding
  /** `LE_CLASS_MEMORY`: bytes of a class buffer. */
  const Memory: nat := Header + Aligned
  /** `LE_CLASS_COUNT`: the number of descriptors. */
  const Patterns: nat := 256

  /** Bit `i` of a descriptor: offset `i` is stored. */
  predicate Bit(d: nat, i: nat)
  {
    if i == 0 then d % 2 == 1 else Bit(d / 2, i - 1)
  }

  /** `d` with bit `i` set. */
  function SetBit(d: nat, i: nat): (r: nat)
    ensures Bit(r, i)
    decreases i
  {
    if i == 0 then (if d % 2 == 1 then d else d + 1) else d % 2 + 2 * SetBit(d / 2, i - 1)
  }

  lemma {:induction false} SetBitOther(d: nat, i: nat, j: nat)
    requires i != j
    ensures Bit(SetBit(d, i), j) == Bit(d, j)
    decreases i
  {
    if i > 0 && j > 0 {
      SetBitOther(d / 2, i - 1, j - 1);
    }
  }

  lemma {:induction false} SetBitBound(d: nat, i: nat, k: nat)
    requires i < k && d < Pow2(k)
    ensures SetBit(d, i) < Pow2(k)
    decreases i
  {
    if i > 0 {
      SetBitBound(d / 2, i - 1, k - 1);
    }
  }

  /** The descriptor with bit `i` set. */
  function WithBit(d: byte, i: nat): (r: byte)
    requires i < Base
    ensures Bit(r, i)
  {
    SetBitBound(d, i, 8);
    SetBit(d, i)
  }

  /** The number of offsets stored before offset `i`. */
  function Rank(d: byte, i: nat): (r: nat)
    requires i <= Base
    ensures r <= i
  {
    if i == 0 then 0 else Rank(d, i - 1) + (if Bit(d, i - 1) then 1 else 0)
  }

  /** The number of stored offsets. */
  function Active(d: byte): (n: nat)
    ensures n <= Base
  {
    Rank(d, Base)
  }

  /** Where offset `i` is stored, relative to the descriptor. */
  function Pos(d: byte, i: nat): (p: nat)
    requires i < Base
    ensures Header <= p && p + OffsetBytes <= Header + Target
  {
    Header + OffsetBytes * Rank(d, i)
  }

  /** The bytes of the stored offsets. */
  function Body(c: seq<byte>): (b: seq<byte>)
    requires |c| == Memory
    ensures |b| == OffsetBytes * Active(c[0])
  {
    c[Header..Header + OffsetBytes * Active(c[0])]
  }

  /** `le_class_get_offset`. */
  function Get(c: seq<byte>, i: nat): (v: nat)
    requires |c| == Memory && i < Base
    ensures v <= OffsNull
    ensures !Bit(c[0], i) ==> v == OffsNull
  {
    if Bit(c[0], i) then LeDecode(c[Pos(c[0], i)..Pos(c[0], i) + OffsetBytes]) else OffsNull
  }

  /** The bytes of the class at `b` after the offset `e` is written at `q`
      inside it, over the old offset (`stored`) or after moving the later
      bytes and setting the descriptor to `w`. */
  function Spliced(c: seq<byte>, q: nat, stored: bool, w: byte, e: seq<byte>): (r: seq<byte>)
    requires |c| == Memory && Header <= q && q + OffsetBytes <= Memory && |e| == OffsetBytes
    ensures |r| == Memory
  {
    if stored then c[..q] + e + c[q + OffsetBytes..] else [w] + c[Header..q] + e + c[q..Memory - OffsetBytes]
  }

  /** The buffer after `le_class_set_offset(c, i, v)`: a stored offset is
      overwritten in place; a missing one is inserted at its position, the
      following bytes moving five bytes toward the end of the buffer. */
  function Set(c: seq<byte>, i: nat, v: int): (r: seq<byte>)
    requires |c| == Memory && i < Base
    ensures |r| == Memory
  {
    Spliced(c, Pos(c[0], i), Bit(c[0], i), WithBit(c[0], i), LeEncode(v % Pow256(OffsetBytes), OffsetBytes))
  }

  /** Setting a bit moves every later offset by one place. */
  lemma {:induction false} RankWithBit(d: byte, i: nat, j: nat)
    requires i < Base && j <= Base && !Bit(d, i)
    ensures Rank(WithBit(d, i), j) == Rank(d, j) + (if j > i then 1 else 0)
    decreases j
  {
    if j > 0 {
      RankWithBit(d, i, j - 1);
      if j - 1 != i {
        SetBitOther(d, i, j - 1);
      }
    }
  }

  /** A stored offset before `j` makes the rank of `j` exceed its own. */
  lemma {:induction false} RankAfter(d: byte, i: nat, j: nat)
    requires i < j <= Base && Bit(d, i)
    ensures Rank(d, j) >= Rank(d, i) + 1
    decreases j
  {
    if j > i + 1 {
      RankAfter(d, i, j - 1);
    }
  }

  lemma {:induction false} RankMonotone(d: byte, i: nat, j: nat)
    requires i <= j <= Base
    ensures Rank(d, i) <= Rank(d, j)
    decreases j
  {
    if j > i {
      RankMonotone(d, i, j - 1);
    }
  }

  lemma {:induction false} ZeroHasNoBit(i: nat)
    ensures !Bit(0, i)
  {
    if i > 0 {
      ZeroHasNoBit(i - 1);
    }
  }

  /** A class just created (`le_class_create`) has no offset. */
  lemma CreatedIsEmpty(c: seq<byte>, i: nat)
    requires |c| == Memory && c[0] == 0 && i < Base
    ensures Get(c, i) == OffsNull
  {
    ZeroHasNoBit(i);
  }

  /** Every byte of `Set(c, i, v)`. */
  lemma SetBytes(c: seq<byte>, i: nat, v: int, t: nat)
    requires |c| == Memory && i < Base && t < Memory
    ensures
      var e := LeEncode(v % Pow256(OffsetBytes), OffsetBytes);
      var p := Pos(c[0], i);
      Set(c, i, v)[t] ==
        if p <= t < p + OffsetBytes then e[t - p]
        else if Bit(c[0], i) then c[t]
        else if t == 0 then WithBit(c[0], i)
        else if t < p then c[t]
        else c[t - OffsetBytes]
  {
    SplicedAt(c, Pos(c[0], i), Bit(c[0], i), WithBit(c[0], i), LeEncode(v % Pow256(OffsetBytes), OffsetBytes), t);
  }

  /** A stored offset lies within the stored bytes. */
  lemma StoredWithinBody(d: byte, i: nat)
    requires i < Base && Bit(d, i)
    ensures Pos(d, i) + OffsetBytes <= Header + OffsetBytes * Active(d)
  {
    RankAfter(d, i, i + 1);
    RankMonotone(d, i + 1, Base);
  }

  /** `Set(c, i, v)` marks the offset `i` as stored, at its old position,
      with the encoding of `v` as its bytes. */
  lemma SetMarks(c: seq<byte>, i: nat, v: int)
    requires |c| == Memory && i < Base
    ensures
      var r := Set(c, i, v);
      var p := Pos(c[0], i);
      && Bit(r[0], i) && Pos(r[0], i) == p
      && r[p..p + OffsetBytes] == LeEncode(v % Pow256(OffsetBytes), OffsetBytes)
  {
    var d := c[0];
    var r := Set(c, i, v);
    var p := Pos(d, i);
    SetBytes(c, i, v, 0);
    if !Bit(d, i) {
      RankWithBit(d, i, i);
    }
    forall t | p <= t < p + OffsetBytes
      ensures r[t] == LeEncode(v % Pow256(OffsetBytes), OffsetBytes)[t - p]
    {
      SetBytes(c, i, v, t);
    }
  }

  /** A stored offset reads as the number its five bytes encode. */
  lemma GetStored(r: seq<byte>, i: nat, e: seq<byte>)
    requires |r| == Memory && i < Base && Bit(r[0], i)
    requires r[Pos(r[0], i)..Pos(r[0], i) + OffsetBytes] == e
    ensures Get(r, i) == LeDecode(e)
  {
  }

  /** After `Set(c, i, v)` the offset `i` reads `v` truncated to five
      bytes. */
  lemma SetThenGetSame(c: seq<byte>, i: nat, v: int)
    requires |c| == Memory && i < Base
    ensures Get(Set(c, i, v), i) == v % Pow256(OffsetBytes)
  {
    var x := v % Pow256(OffsetBytes);
    var e := LeEncode(x, OffsetBytes);
    DecodeEncode(x, OffsetBytes);
    LemmaModUnique(x, Pow256(OffsetBytes), 0, x);
    SetMarks(c, i, v);
    GetStored(Set(c, i, v), i, e);
  }

  /** After `Set(c, i, v)` every other offset reads as before. */
  lemma SetThenGetOther(c: seq<byte>, i: nat, v: int, j: nat)
    requires |c| == Memory && i < Base && j < Base && j != i
    ensures Get(Set(c, i, v), j) == Get(c, j)
  {
    if Bit(c[0], i) {
      OverwriteKeepsOther(c, i, v, j);
    } else {
      InsertKeepsOther(c, i, v, j);
    }
  }

  lemma OverwriteKeepsOther(c: seq<byte>, i: nat, v: int, j: nat)
    requires |c| == Memory && i < Base && j < Base && j != i && Bit(c[0], i)
    ensures Get(Set(c, i, v), j) == Get(c, j)
  {
    var d := c[0];
    var r := Set(c, i, v);
    SetBytes(c, i, v, 0);
    if Bit(d, j) {
      var q := Pos(d, j);
      if j < i {
        RankAfter(d, j, i);
      } else {
        RankAfter(d, i, j);
      }
      forall t | q <= t < q + OffsetBytes
        ensures r[t] == c[t]
      {
        SetBytes(c, i, v, t);
      }
      assert r[q..q + OffsetBytes] == c[q..q + OffsetBytes];
    }
  }

  lemma InsertKeepsOther(c: seq<byte>, i: nat, v: int, j: nat)
    requires |c| == Memory && i < Base && j < Base && j != i && !Bit(c[0], i)
    ensures Get(Set(c, i, v), j) == Get(c, j)
  {
    SetBytes(c, i, v, 0);
    SetBitOther(c[0], i, j);
    if Bit(c[0], j) {
      if j < i {
        InsertKeepsBefore(c, i, v, j);
      } else {
        InsertMovesAfter(c, i, v, j);
      }
    }
  }

  lemma InsertKeepsBefore(c: seq<byte>, i: nat, v: int, j: nat)
    requires |c| == Memory && j < i < Base && !Bit(c[0], i) && Bit(c[0], j)
    ensures
      var r := Set(c, i, v);
      r[Pos(c[0], j)..Pos(c[0], j) + OffsetBytes] == c[Pos(c[0], j)..Pos(c[0], j) + OffsetBytes]
    ensures Pos(Set(c, i, v)[0], j) == Pos(c[0], j)
  {
    var d := c[0];
    var r := Set(c, i, v);
    var q := Pos(d, j);
    SetBytes(c, i, v, 0);
    RankWithBit(d, i, j);
    RankAfter(d, j, i);
    forall t | q <= t < q + OffsetBytes
      ensures r[t] == c[t]
    {
      SetBytes(c, i, v, t);
    }
  }

  lemma InsertMovesAfter(c: seq<byte>, i: nat, v: int, j: nat)
    requires |c| == Memory && i < j < Base && !Bit(c[0], i) && Bit(c[0], j)
    ensures Pos(c[0], j) + 2 * OffsetBytes <= Memory
    ensures
      var r := Set(c, i, v);
      var q := Pos(c[0], j);
      r[q + OffsetBytes..q + 2 * OffsetBytes] == c[q..q + OffsetBytes]
    ensures Pos(Set(c, i, v)[0], j) == Pos(c[0], j) + OffsetBytes
  {
    var d := c[0];
    var r := Set(c, i, v);
    var q := Pos(d, j);
    SetBytes(c, i, v, 0);
    RankWithBit(d, i, j);
    StoredWithinBody(d, j);
    RankMonotone(d, i, j);
    RankWithBit(d, i, Base);
    var q' := q + OffsetBytes;
    forall t | q' <= t < q' + OffsetBytes
      ensures r[t] == c[t - OffsetBytes]
    {
      SetBytes(c, i, v, t);
    }
    assert r[q'..q' + OffsetBytes] == c[q..q + OffsetBytes];
  }

  /** The offsets of a class are determined by its descriptor and its
      stored bytes: this is why `le_class_io_read` and `le_class_io_write`
      only transfer those. */
  lemma GetDependsOnBody(c: seq<byte>, c': seq<byte>, i: nat)
    requires |c| == Memory && |c'| == Memory && i < Base
    requires c[0] == c'[0] && Body(c) == Body(c')
    ensures Get(c, i) == Get(c', i)
  {
    var d := c[0];
    if Bit(d, i) {
      var p := Pos(d, i);
      StoredWithinBody(d, i);
      forall t | p <= t < p + OffsetBytes
        ensures c[t] == c'[t]
      {
        assert c[t] == Body(c)[t - Header];
        assert c'[t] == Body(c')[t - Header];
      }
      assert c[p..p + OffsetBytes] == c'[p..p + OffsetBytes];
    }
  }

  /** The offset `le_class_io_offset` reads from a stream positioned on a
      descriptor at `pos`: null when the descriptor or the offset cannot be
      read or when the offset is not stored. */
  function IoOffsetOf(file: seq<byte>, pos: nat, i: nat): (v: nat)
    requires i < Base
    ensures v <= OffsNull
  {
    var d := ReadAt(file, pos, Header);
    if |d| != Header || !Bit(d[0], i) then OffsNull
    else
      var o := ReadAt(file, pos + Pos(d[0], i), OffsetBytes);
      if |o| != OffsetBytes then OffsNull else LeDecode(o)
  }

  /** Reading one offset from a class stored in a file (its descriptor
      followed by its stored offsets) agrees with reading the class. */
  lemma IoOffsetAgrees(file: seq<byte>, pos: nat, c: seq<byte>, i: nat)
    requires |c| == Memory && i < Base
    requires pos + Header + OffsetBytes * Active(c[0]) <= |file|
    requires file[pos] == c[0]
    requires file[pos + Header..pos + Header + OffsetBytes * Active(c[0])] == Body(c)
    ensures IoOffsetOf(file, pos, i) == Get(c, i)
  {
    var d := c[0];
    assert ReadAt(file, pos, Header) == [d];
    if Bit(d, i) {
      var p := Pos(d, i);
      StoredWithinBody(d, i);
      var o := ReadAt(file, pos + p, OffsetBytes);
      assert |o| == OffsetBytes;
      forall t | p <= t < p + OffsetBytes
        ensures c[t] == file[pos + t]
      {
        assert file[pos + t] == Body(c)[t - Header];
      }
      assert o == file[pos + p..pos + p + OffsetBytes];
      assert o == c[p..p + OffsetBytes];
    }
  }

  /** `le_class_create` on the class at `b` of a buffer. */
  method Create(a: array<byte>, b: nat)
    requires b + Memory <= a.Length
    modifies a
    ensures a[..] == old(a[..])[b := 0]
  {
    a[b] := 0;
  }

  /** `le_class_get_offset` on the class at `b` of a buffer. */
  function GetOffset(a: array<byte>, b: nat, i: nat): (v: nat)
    requires b + Memory <= a.Length && i < Base
    reads a
    ensures v <= OffsNull
    ensures !Bit(a[b], i) ==> v == OffsNull
  {
    Get(a[b..b + Memory], i)
  }

  lemma SplicedAt(c: seq<byte>, q: nat, stored: bool, w: byte, e: seq<byte>, j: nat)
    requires |c| == Memory && Header <= q && q + OffsetBytes <= Memory && |e| == OffsetBytes && j < Memory
    ensures Spliced(c, q, stored, w, e)[j] ==
      if q <= j < q + OffsetBytes then e[j - q]
      else if stored then c[j]
      else if j == 0 then w
      else if j < q then c[j]
      else c[j - OffsetBytes]
  {
    var m := Spliced(c, q, stored, w, e);
    if stored {
      var head, tail := c[..q], c[q + OffsetBytes..];
      assert m == head + e + tail;
      if j < q {
        assert m[j] == head[j];
      } else if j >= q + OffsetBytes {
        assert m[j] == tail[j - q - OffsetBytes];
      }
    } else {
      var head, tail := [w] + c[Header..q], c[q..Memory - OffsetBytes];
      assert m == head + e + tail;
      if j < q {
        assert m[j] == head[j];
      } else if j >= q + OffsetBytes {
        assert m[j] == tail[j - q - OffsetBytes];
      }
    }
  }

  /** A buffer whose class at `b` was changed byte by byte as
      `le_class_set_offset` does is the old buffer with `Spliced` in place of
      the class: `s` is the buffer once the later offsets are moved (the old
      buffer when the offset was `stored`), `f` the buffer once the
      descriptor and the offset bytes are written. */
  lemma SpliceInBuffer(y: seq<byte>, b: nat, q: nat, stored: bool, w: byte, e: seq<byte>, s: seq<byte>, f: seq<byte>)
    requires b + Memory <= |y| && |s| == |y| && |f| == |y|
    requires Header <= q && q + OffsetBytes <= Memory && |e| == OffsetBytes
    requires stored ==> s == y
    requires forall t :: 0 <= t < |y| && !(b + q + OffsetBytes <= t < b + Memory) ==> s[t] == y[t]
    requires !stored ==> forall t :: b + q + OffsetBytes <= t < b + Memory ==> s[t] == y[t - OffsetBytes]
    requires f[b] == if stored then y[b] else w
    requires forall t :: 0 <= t < |f| && t != b && !(b + q <= t < b + q + OffsetBytes) ==> f[t] == s[t]
    requires forall t :: b + q <= t < b + q + OffsetBytes ==> f[t] == e[t - b - q]
    ensures f == y[..b] + Spliced(y[b..b + Memory], q, stored, w, e) + y[b + Memory..]
  {
    var c := y[b..b + Memory];
    var m := Spliced(c, q, stored, w, e);
    forall j | 0 <= j < Memory
      ensures f[b + j] == m[j]
    {
      SplicedAt(c, q, stored, w, e, j);
    }
    assert f[b..b + Memory] == m;
    Splice(f, y, b, m);
  }

  /** `le_class_set_offset` on the class at `b` of a buffer: the stored
      offsets after the insertion point are moved one place, from the end of
      the buffer backwards. */
  method SetOffset(a: array<byte>, b: nat, i: nat, v: int)
    requires b + Memory <= a.Length && i < Base
    modifies a
    ensures a[..] == old(a[..])[..b] + Set(old(a[b..b + Memory]), i, v) + old(a[..])[b + Memory..]
  {
    ghost var before := a[..];
    var d := a[b];
    var p := b + Pos(d, i);
    if !Bit(d, i) {
      var k := b + Memory;
      while k > p + OffsetBytes
        invariant p + OffsetBytes <= k <= b + Memory
        invariant forall t :: 0 <= t < a.Length && !(k <= t < b + Memory) ==> a[t] == before[t]
        invariant forall t :: k <= t < b + Memory ==> a[t] == before[t - OffsetBytes]
      {
        k := k - 1;
        a[k] := a[k - OffsetBytes];
      }
    }
    ghost var shifted := a[..];
    if !Bit(d, i) {
      a[b] := WithBit(d, i);
    }
    var e := LeEncode(v % Pow256(OffsetBytes), OffsetBytes);
    forall t | p <= t < p + OffsetBytes {
      a[t] := e[t - p];
    }
    SpliceInBuffer(before, b, Pos(d, i), Bit(d, i), WithBit(d, i), e, shifted, a[..]);
  }

  /** `le_class_io_read`: the descriptor at `b` is already in the buffer;
      the stored offsets it announces are read after it (a short read still
      delivers what it read). */
  method IoRead(a: array<byte>, b: nat, s: Stream) returns (st: Status)
    requires b + Memory <= a.Length
    modifies a, s
    ensures s.bytes == old(s.bytes)
    ensures
      var n := OffsetBytes * Active(old(a[b]));
      var got := ReadAt(old(s.bytes), old(s.pos), n);
      && a[..] == Overlay(old(a[..]), b + Header, got)
      && s.pos == old(s.pos) + |got|
      && (st == Success <==> |got| == n)
      && (st != Success ==> st == ErrIoRead)
  {
    ghost var before := a[..];
    var n := OffsetBytes * Active(a[b]);
    var got := s.Read(n);
    forall k | 0 <= k < |got| {
      a[b + Header + k] := got[k];
    }
    forall t | 0 <= t < a.Length
      ensures a[t] == Overlay(before, b + Header, got)[t]
    {
      OverlayAt(before, b + Header, got, t);
    }
    st := if |got| != n then ErrIoRead else Success;
  }

  /** The stored offsets of the class at `b` of a buffer, read in the
      buffer itself. */
  lemma BodyInBuffer(x: seq<byte>, b: nat)
    requires b + Memory <= |x|
    ensures Body(x[b..b + Memory]) == x[b + Header..b + Header + OffsetBytes * Active(x[b])]
  {
    var c := x[b..b + Memory];
    var k := OffsetBytes * Active(x[b]);
    assert c[0] == x[b];
    var body, inPlace := c[Header..Header + k], x[b + Header..b + Header + k];
    forall t | 0 <= t < k
      ensures body[t] == inPlace[t]
    {
    }
  }

  /** `le_class_io_write`: the descriptor was written by the caller; the
      stored offsets follow it. */
  method IoWrite(a: array<byte>, b: nat, s: Stream) returns (st: Status)
    requires b + Memory <= a.Length
    modifies s
    ensures
      var body := Body(a[b..b + Memory]);
      var n := Writable(old(s.pos), |body|, s.limit);
      && s.bytes == WriteAt(old(s.bytes), old(s.pos), body[..n])
      && s.pos == old(s.pos) + n
      && (st == Success <==> n == |body|)
      && (st != Success ==> st == ErrIoWrite)
  {
    var body := a[b + Header..b + Header + OffsetBytes * Active(a[b])];
    BodyInBuffer(a[..], b);
    var n := s.Write(body);
    st := if n != |body| then ErrIoWrite else Success;
  }

  /** `le_class_io_offset`: the stream is positioned on a descriptor. */
  method IoOffset(i: nat, s: Stream) returns (v: nat)
    requires i < Base
    modifies s
    ensures v == IoOffsetOf(old(s.bytes), old(s.pos), i)
    ensures s.bytes == old(s.bytes)
  {
    var d := s.Read(Header);
    if |d| != Header || !Bit(d[0], i) {
      return OffsNull;
    }
    s.Skip(OffsetBytes * Rank(d[0], i));
    var o := s.Read(OffsetBytes);
    if |o| != OffsetBytes {
      return OffsNull;
    }
    v := LeDecode(o);
  }
}
