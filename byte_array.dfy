// The growable byte array of eratosthene-array.c. The allocation starts with
// a header (the 64-bit logical size and a mode byte, filled before the array
// is sent); the content follows it. The logical size `vsize` and the size of
// the allocation `rsize` are kept apart so that the array can grow without a
// reallocation at every push.

module ByteArray {
  import opened Common
  import Ideal
  import Streams

  /** `LE_ARRAY_HEADER_SIZE`: offset of the mode byte in the header. */
  const HeaderSize: nat := WordBytes
  /** `LE_ARRAY_HEADER`: bytes of the header. */
  const Header: nat := HeaderSize + 1
  /** The clamp `le_array_set` gives `le_get_ideal`: 1 MiB. */
  const Clamp: nat := 0x10_0000
  /** `LE_MODE_NULL`. */
  const ModeNull: byte := 0

  /** What a serial set lays over the content is got back; nothing outside
      it changes. */
  lemma GetAfterPut(c: seq<byte>, offset: nat, d: seq<byte>)
    requires offset + |d| <= |c|
    ensures Overlay(c, offset, d)[offset..offset + |d|] == d
    ensures Overlay(c, offset, d)[..offset] == c[..offset]
    ensures Overlay(c, offset, d)[offset + |d|..] == c[offset + |d|..]
  {
    var r := Overlay(c, offset, d);
    assert r[offset..offset + |d|] == d;
  }

  /** The header `le_array_set_header` writes: the size, then the mode. */
  function HeaderBytes(size: int, mode: byte): (h: seq<byte>)
    ensures |h| == Header
  {
    Int64Bytes(size) + [mode]
  }

  /** The size a header announces (`* ( le_size_t * ) ar_rbyte`). */
  function HeaderSizeOf(h: seq<byte>): int
    requires |h| >= Header
  {
    Int64Value(h[..HeaderSize])
  }

  /** A header gives back the size and the mode it was made from. */
  lemma HeaderRoundTrip(size: int, mode: byte)
    requires IsInt64(size)
    ensures HeaderSizeOf(HeaderBytes(size, mode)) == size
    ensures HeaderBytes(size, mode)[HeaderSize] == mode
  {
    assert HeaderBytes(size, mode)[..HeaderSize] == Int64Bytes(size);
    Int64RoundTrip(size);
  }

  /** The logical size `le_array_set_array` as written leaves, from a
      header announcing `size`, an allocation of `rsize` bytes and a
      logical size `vsize`: a negative size is taken as is. */
  function SizeAfterSetArray(size: int, rsize: nat, vsize: int, allocOk: bool): int
  {
    if rsize >= size + Header || allocOk then size else vsize
  }

  /** A header announcing -1 leaves the array with a negative size. */
  lemma NegativeSizeAccepted(vsize: int, allocOk: bool)
    ensures SizeAfterSetArray(HeaderSizeOf(HeaderBytes(-1, 1)), Header, vsize, allocOk) == -1
  {
    HeaderRoundTrip(-1, 1);
  }

  /** The byte range the copy of `le_array_set_append` as written covers,
      and the bytes allocated after its `le_array_set`, whose result it
      does not look at. */
  function AppendAsWritten(vsize: nat, rsize: nat, n: nat, allocOk: bool): (r: (nat, nat))
  {
    var need := vsize + n + Header;
    var rsize' := if rsize >= need || !allocOk then rsize else Ideal.IdealSize(need, Clamp);
    (Header + vsize + n, rsize')
  }

  /** When the growth fails the copy runs past the allocation. */
  lemma AppendOverruns()
    ensures AppendAsWritten(0, Header, 1, false).0 > AppendAsWritten(0, Header, 1, false).1
  {
  }

  /** A growable byte array (`le_array_t`). */
  class Array {
    /** `ar_vsize`: bytes of content. */
    var vsize: int
    /** `ar_rsize`: bytes allocated. */
    var rsize: int
    /** The allocation, header included (`ar_rbyte`). */
    var bytes: seq<byte>

    ghost predicate Valid()
      reads this
    {
      && rsize == |bytes|
      && 0 <= vsize <= Int64Max - Header
      && (vsize + Header <= rsize || (vsize == 0 && rsize == 0))
    }

    /** The content (`ar_vbyte` .. `ar_vbyte + ar_vsize`). */
    function Content(): (c: seq<byte>)
      requires Valid()
      reads this
      ensures |c| == vsize
    {
      if rsize == 0 then [] else bytes[Header..Header + vsize]
    }

    /** `le_array_create`: an empty array whose allocation holds the header,
        or no allocation at all when the allocator refuses. */
    constructor Create(allocOk: bool)
      ensures Valid() && vsize == 0 && Content() == []
      ensures rsize == if allocOk then Header else 0
    {
      vsize := 0;
      rsize := 0;
      bytes := [];
      new;
      var ok := SetSize(0, allocOk);
    }

    /** `le_array_set`: the logical size grows by `n`; the allocation grows,
        to the ideal size of what is needed, only when it is too small. On
        failure the size is restored. */
    method Set(n: nat, allocOk: bool) returns (ok: bool)
      requires Valid() && vsize + n <= Int64Max - Header
      modifies this
      ensures Valid()
      ensures
        var need := old(vsize) + n + Header;
        if old(rsize) >= need then
          ok && rsize == old(rsize) && bytes == old(bytes)
        else
          && (ok <==> allocOk)
          && rsize == (if ok then Ideal.IdealSize(need, Clamp) else old(rsize))
          && old(rsize) <= |bytes| && bytes[..old(rsize)] == old(bytes)
      ensures vsize == if ok then old(vsize) + n else old(vsize)
      ensures ok ==> rsize >= vsize + Header && Content()[..old(vsize)] == old(Content())
      ensures !ok ==> bytes == old(bytes)
    {
      var need := vsize + n + Header;
      ghost var c := Content();
      vsize := vsize + n;
      if rsize >= need {
        assert Content()[..old(vsize)] == c;
        return true;
      }
      var ideal := Ideal.GetIdeal(need, Clamp);
      Ideal.IdealSizeBounds(need, Clamp);
      if !allocOk {
        vsize := vsize - n;
        return false;
      }
      bytes := bytes + Streams.Zeros(ideal - rsize);
      rsize := ideal;
      ok := true;
      assert Content()[..old(vsize)] == c;
    }

    /** `le_array_set_size`: the logical size set to `s`; the allocation
        grows to exactly what is needed only when it is too small, and never
        shrinks. */
    method SetSize(s: nat, allocOk: bool) returns (ok: bool)
      requires rsize == |bytes| && s <= Int64Max - Header
      modifies this
      ensures rsize == |bytes|
      ensures old(rsize) >= s + Header ==> ok && rsize == old(rsize) && bytes == old(bytes)
      ensures old(rsize) < s + Header ==>
        && (ok <==> allocOk)
        && rsize == (if ok then s + Header else old(rsize))
        && old(rsize) <= |bytes| && bytes[..old(rsize)] == old(bytes)
      ensures vsize == if ok then s else old(vsize)
      ensures ok ==> Valid() && rsize >= vsize + Header
      ensures !ok ==> bytes == old(bytes)
    {
      var need := s + Header;
      if rsize >= need {
        vsize := s;
        return true;
      }
      if !allocOk {
        return false;
      }
      bytes := bytes + Streams.Zeros(need - rsize);
      rsize := need;
      vsize := s;
      ok := true;
    }

    /** `le_array_set_append`, with the copy made only when the growth
        succeeded: the content of `b` follows the content. */
    method SetAppend(b: Array, allocOk: bool) returns (ok: bool)
      requires Valid() && b.Valid() && b != this
      requires vsize + b.vsize <= Int64Max - Header
      modifies this
      ensures Valid()
      ensures ok ==> Content() == old(Content()) + b.Content()
      ensures !ok ==> Content() == old(Content())
      ensures b.vsize == 0 ==> ok && Content() == old(Content())
      ensures !allocOk && b.vsize > 0 && old(rsize) < old(vsize) + b.vsize + Header ==> !ok
    {
      if b.vsize == 0 {
        return true;
      }
      var size := vsize;
      ok := Set(b.vsize, allocOk);
      if !ok {
        return;
      }
      var d := b.Content();
      bytes := bytes[..Header + size] + d + bytes[Header + size + |d|..];
      assert Content() == old(Content()) + d;
    }

    /** `le_array_serial`: with `get`, `length` bytes of the content from
        `offset` are copied out; otherwise the first `length` bytes of `d`
        are copied in there. The next offset is returned. */
    method Serial(d: seq<byte>, length: nat, offset: nat, get: bool) returns (next: nat, got: seq<byte>)
      requires Valid() && rsize > 0 && offset + length <= vsize
      requires !get ==> length <= |d|
      modifies this
      ensures Valid() && next == offset + length
      ensures vsize == old(vsize) && rsize == old(rsize)
      ensures get ==> got == old(Content())[offset..offset + length] && bytes == old(bytes)
      ensures !get ==> got == [] && Content() == Overlay(old(Content()), offset, d[..length])
    {
      if get {
        got := Content()[offset..offset + length];
      } else {
        got := [];
        ghost var c := Content();
        bytes := bytes[..Header + offset] + d[..length] + bytes[Header + offset + length..];
        assert Content() == Overlay(c, offset, d[..length]);
      }
      next := offset + length;
    }

    /** `le_array_set_header`: the logical size and the mode written at the
        start of the allocation. */
    method SetHeader(mode: byte)
      requires Valid() && rsize >= Header
      modifies this
      ensures Valid() && vsize == old(vsize) && rsize == old(rsize)
      ensures bytes == HeaderBytes(vsize, mode) + old(bytes)[Header..]
      ensures Content() == old(Content())
    {
      bytes := HeaderBytes(vsize, mode) + bytes[Header..];
    }

    /** `le_array_set_array`, rejecting a negative announced size: the
        array is sized from its header and the header's mode is returned, or
        `ModeNull` when the size cannot be taken. */
    method SetArray(allocOk: bool) returns (mode: byte)
      requires Valid() && rsize >= Header
      modifies this
      ensures Valid()
      ensures
        var s := HeaderSizeOf(old(bytes));
        if s < 0 || s > Int64Max - Header || (old(rsize) < s + Header && !allocOk) then
          mode == ModeNull && vsize == old(vsize) && bytes == old(bytes)
        else
          && mode == old(bytes)[HeaderSize]
          && vsize == s
          && old(rsize) <= |bytes| && bytes[..old(rsize)] == old(bytes)
    {
      var s := HeaderSizeOf(bytes);
      if s < 0 || s > Int64Max - Header {
        return ModeNull;
      }
      var ok := SetSize(s, allocOk);
      if !ok {
        return ModeNull;
      }
      mode := bytes[HeaderSize];
    }
  }

  /** A header written then read back restores the size and gives the mode
      back, whatever the allocator says. */
  method HeaderTransfer(a: Array, mode: byte, allocOk: bool) returns (m: byte)
    requires a.Valid() && a.rsize >= Header
    modifies a
    ensures a.Valid()
    ensures m == mode && a.vsize == old(a.vsize) && a.Content() == old(a.Content())
  {
    ghost var c := a.Content();
    a.SetHeader(mode);
    HeaderRoundTrip(a.vsize, mode);
    ghost var b := a.bytes;
    assert b[Header..Header + a.vsize] == c;
    assert b[..HeaderSize] == HeaderBytes(a.vsize, mode)[..HeaderSize];
    assert HeaderSizeOf(b) == a.vsize && b[HeaderSize] == mode;
    m := a.SetArray(allocOk);
    assert a.bytes[..|b|] == b;
    assert a.rsize != 0 && Header + a.vsize <= |b|;
    assert a.bytes[Header..Header + a.vsize] == a.bytes[..|b|][Header..Header + a.vsize];
  }
}
