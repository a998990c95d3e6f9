// The mono-vertex node of eratosthene-mclass.c (eratosthene-class-mono.c is
// the same code under the `le_mono_` names): a colour of three bytes followed
// by the links to the eight daughters, plus a colour accumulator used while
// points are injected. The buffer holds, after the colour, either an
// implicit class of eratosthene-class.h (the plain functions) or eight fixed
// five-byte offsets (the functions with a trailing underscore, here named
// with `Fixed`).

module MonoVertex {
  import opened Common
  import opened Streams
  import OffsetClass

  /** `LE_MCLASS_LENGTH`: colour components. */
  const Length: nat := 3
  /** `LE_MCLASS_HEAD`: bytes before the links. */
  const Head: nat := Length
  /** `LE_MCLASS_OFFSET`: bytes of eight fixed offsets. */
  const Offset: nat := OffsetBytes * Base
  /** `LE_MCLASS_FIXED`: bytes of a fixed-offset record. */
  const Fixed: nat := Head + Offset
  /** `LE_MCLASS_MEMORY`: bytes of the buffer. */
  const Memory: nat := Fixed + OffsetBytes

  /** The colour `le_mclass_io_write` stores: each accumulated component
      divided by the number of samples, truncated. */
  function MeanColour(push: seq<int>, size: int): (rgb: seq<byte>)
    requires |push| == Length && size > 0
    requires forall c :: 0 <= c < Length ==> 0 <= push[c] <= 255 * size
    ensures |rgb| == Length
    ensures forall c :: 0 <= c < Length ==> rgb[c] * size <= push[c] < (rgb[c] + 1) * size
  {
    MeanBound(push[0], size);
    MeanBound(push[1], size);
    MeanBound(push[2], size);
    [push[0] / size, push[1] / size, push[2] / size]
  }

  lemma MeanBound(p: int, n: int)
    requires n > 0 && 0 <= p <= 255 * n
    ensures 0 <= p / n <= 255
    ensures (p / n) * n <= p < (p / n + 1) * n
  {
    var q := p / n;
    assert p == q * n + p % n;
    if q > 255 {
      MulAtLeast(q - 255, n);
    }
  }

  /** Samples of one colour only give that colour back. */
  lemma MeanOfConstant(rgb: seq<byte>, n: nat)
    requires |rgb| == Length && n > 0
    ensures MeanColour([rgb[0] * n, rgb[1] * n, rgb[2] * n], n) == rgb
  {
    var push := [rgb[0] * n, rgb[1] * n, rgb[2] * n];
    forall c | 0 <= c < Length
      ensures 0 <= push[c] <= 255 * n
    {
      assert push[c] == rgb[c] * n;
    }
    var m := MeanColour(push, n);
    forall c | 0 <= c < Length
      ensures m[c] == rgb[c]
    {
      LemmaModUnique(push[c], n, rgb[c], 0);
    }
  }

  /** The bytes `le_mclass_io_write` writes for a class `c` and a colour:
      the colour, the descriptor, then the stored offsets. */
  function Record(rgb: seq<byte>, c: seq<byte>): seq<byte>
    requires |rgb| == Length && |c| == OffsetClass.Memory
  {
    rgb + [c[0]] + OffsetClass.Body(c)
  }

  /** The same bytes as `le_mclass_io_write` hands them to `fwrite`: colour
      and descriptor, then the stored offsets; laid end to end they are the
      record. */
  function RecordParts(rgb: seq<byte>, c: seq<byte>): (r: seq<seq<byte>>)
    requires |rgb| == Length && |c| == OffsetClass.Memory
    ensures Concat(r) == Record(rgb, c)
  {
    var r := [rgb + [c[0]], OffsetClass.Body(c)];
    assert r[..1] == [r[0]] && [r[0]][..0] == r[..0];
    assert Concat([r[0]]) == r[0];
    r
  }

  /** On a device with room for it, the record written in pieces is the
      record written at once. */
  lemma RecordWritten(file: seq<byte>, o: nat, limit: nat, rgb: seq<byte>, c: seq<byte>)
    requires |rgb| == Length && |c| == OffsetClass.Memory
    requires o + |Record(rgb, c)| <= limit
    ensures WriteParts(file, o, limit, RecordParts(rgb, c)) == Written(WriteAt(file, o, Record(rgb, c)), o + |Record(rgb, c)|, true)
  {
    WritePartsWhole(file, o, limit, RecordParts(rgb, c));
  }

  /** A record written at `o` gives back its colour (`le_mclass_io_data`)
      and each of its offsets (`le_mclass_io_offset`). */
  lemma RecordRoundTrip(file: seq<byte>, o: nat, rgb: seq<byte>, c: seq<byte>, i: nat)
    requires |rgb| == Length && |c| == OffsetClass.Memory && i < Base
    ensures
      var f := WriteAt(file, o, Record(rgb, c));
      && ReadAt(f, o, Length) == rgb
      && OffsetClass.IoOffsetOf(f, o + Head, i) == OffsetClass.Get(c, i)
  {
    var rec := Record(rgb, c);
    var f := WriteAt(file, o, rec);
    ReadWritten(file, o, rec);
    assert f[o..o + |rec|] == rec;
    assert ReadAt(f, o, Length) == f[o..o + Length] == rec[..Length];
    var n := OffsetBytes * OffsetClass.Active(c[0]);
    assert f[o + Head] == rec[Head] == c[0];
    assert f[o + Head + 1..o + Head + 1 + n] == rec[Head + 1..] == OffsetClass.Body(c);
    OffsetClass.IoOffsetAgrees(f, o + Head, c, i);
  }

  /** The fixed-offset record: slot `i` of the buffer. */
  function FixedSlot(d: seq<byte>, i: nat): (v: nat)
    requires |d| == Memory && i < Base
    ensures v <= OffsNull
  {
    LeDecode(d[Head + OffsetBytes * i..Head + OffsetBytes * (i + 1)])
  }

  /** The buffer after `le_mclass_set_offset_(d, i, v)`: the slot's five
      bytes replaced by those of `v`. */
  function WriteSlot(d: seq<byte>, i: nat, v: int): (r: seq<byte>)
    requires |d| == Memory && i < Base
    ensures |r| == Memory
  {
    var p := Head + OffsetBytes * i;
    d[..p] + LeEncode(v % Pow256(OffsetBytes), OffsetBytes) + d[p + OffsetBytes..]
  }

  /** After writing slot `i`, slot `i` holds `v` truncated to five bytes,
      every other slot and the colour are unchanged. */
  lemma SlotAfterWrite(d: seq<byte>, i: nat, v: int)
    requires |d| == Memory && i < Base
    ensures FixedSlot(WriteSlot(d, i, v), i) == v % Pow256(OffsetBytes)
    ensures forall j :: 0 <= j < Base && j != i ==> FixedSlot(WriteSlot(d, i, v), j) == FixedSlot(d, j)
    ensures WriteSlot(d, i, v)[..Head] == d[..Head]
  {
    var r := WriteSlot(d, i, v);
    var p := Head + OffsetBytes * i;
    var e := LeEncode(v % Pow256(OffsetBytes), OffsetBytes);
    assert r[p..p + OffsetBytes] == e;
    DecodeEncode(v % Pow256(OffsetBytes), OffsetBytes);
    forall j | 0 <= j < Base && j != i
      ensures FixedSlot(r, j) == FixedSlot(d, j)
    {
      var q := Head + OffsetBytes * j;
      if j < i {
        assert q + OffsetBytes <= p;
        assert r[q..q + OffsetBytes] == d[q..q + OffsetBytes];
      } else {
        assert p + OffsetBytes <= q;
        assert r[q..q + OffsetBytes] == d[q..q + OffsetBytes];
      }
    }
  }

  /** The outcome of `le_mclass_io_read` as written: it asks for `Head + 1`
      bytes and compares the count with `Fixed + 1`. */
  function IoReadOutcome(file: seq<byte>, pos: nat): Status
  {
    if |ReadAt(file, pos, Head + 1)| != Fixed + 1 then ErrIoRead else Success
  }

  /** No file can be read by `le_mclass_io_read` as written, even one that
      holds a record just written by `le_mclass_io_write`. */
  lemma IoReadAlwaysFails(file: seq<byte>, pos: nat)
    ensures IoReadOutcome(file, pos) == ErrIoRead
  {
  }

  lemma WrittenRecordUnreadable(file: seq<byte>, o: nat, rgb: seq<byte>, c: seq<byte>)
    requires |rgb| == Length && |c| == OffsetClass.Memory
    ensures |ReadAt(WriteAt(file, o, Record(rgb, c)), o, Head + 1)| == Head + 1
    ensures IoReadOutcome(WriteAt(file, o, Record(rgb, c)), o) == ErrIoRead
  {
    ReadWritten(file, o, Record(rgb, c));
    assert |ReadAt(WriteAt(file, o, Record(rgb, c)), o, |Record(rgb, c)|)| == |Record(rgb, c)|;
  }

  /** The outcome of the header read as intended: the count compared with
      the `Head + 1` bytes asked. */
  function IoReadIntendedOutcome(file: seq<byte>, pos: nat): Status
  {
    if |ReadAt(file, pos, Head + 1)| != Head + 1 then ErrIoRead else Success
  }

  /** With the intended comparison, a record just written is read back: the
      header read succeeds and delivers the colour and the descriptor. */
  lemma WrittenRecordReadable(file: seq<byte>, o: nat, rgb: seq<byte>, c: seq<byte>)
    requires |rgb| == Length && |c| == OffsetClass.Memory
    ensures IoReadIntendedOutcome(WriteAt(file, o, Record(rgb, c)), o) == Success
    ensures ReadAt(WriteAt(file, o, Record(rgb, c)), o, Head + 1) == rgb + [c[0]]
  {
    var rec := Record(rgb, c);
    ReadWritten(file, o, rec);
    var f := WriteAt(file, o, rec);
    assert f[o..o + |rec|] == rec;
    assert ReadAt(f, o, Head + 1) == rec[..Head + 1];
  }

  /** A mono-vertex node in memory (`le_mclass_t`). */
  class Node {
    /** `mc_size`: samples accumulated. */
    var size: int
    /** `mc_push`: per-component sums of the samples (exact). */
    var push: seq<int>
    /** `mc_data`. */
    const data: array<byte>

    ghost predicate Valid()
      reads this
    {
      && data.Length == Memory
      && |push| == Length
      && size >= 0
      && forall c :: 0 <= c < Length ==> 0 <= push[c] <= 255 * size
    }

    /** `le_mclass_create`: an empty accumulator and a class with no
        offset. */
    constructor Create()
      ensures Valid() && fresh(data)
      ensures size == 0 && push == [0, 0, 0]
      ensures data[..] == seq(Memory, _ => 0)
      ensures forall i :: 0 <= i < Base ==> OffsetClass.GetOffset(data, Head, i) == OffsNull
    {
      size := 0;
      push := [0, 0, 0];
      data := new byte[Memory](_ => 0);
      new;
      OffsetClass.Create(data, Head);
      forall i | 0 <= i < Base
        ensures OffsetClass.GetOffset(data, Head, i) == OffsNull
      {
        OffsetClass.CreatedIsEmpty(data[Head..Head + OffsetClass.Memory], i);
      }
    }

    /** `le_mclass_create_`: an empty accumulator and eight null offsets. */
    constructor CreateFixed()
      ensures Valid() && fresh(data)
      ensures size == 0 && push == [0, 0, 0]
      ensures data[..Head] == [0, 0, 0] && data[Fixed..] == seq(OffsetBytes, _ => 0)
      ensures forall i :: 0 <= i < Base ==> FixedSlot(data[..], i) == OffsNull
    {
      size := 0;
      push := [0, 0, 0];
      data := new byte[Memory](_ => 0);
      new;
      FillNull();
    }

    /** The `memset` of the eight fixed offsets to 0xff. */
    method FillNull()
      requires data.Length == Memory
      modifies data
      ensures data[..Head] == old(data[..Head]) && data[Fixed..] == old(data[Fixed..])
      ensures forall k :: Head <= k < Fixed ==> data[k] == 255
      ensures forall i :: 0 <= i < Base ==> FixedSlot(data[..], i) == OffsNull
    {
      var k := Head;
      while k < Fixed
        invariant Head <= k <= Fixed
        invariant data[..Head] == old(data[..Head]) && data[Fixed..] == old(data[Fixed..])
        invariant forall t :: Head <= t < k ==> data[t] == 255
      {
        data[k] := 255;
        k := k + 1;
      }
      forall i | 0 <= i < Base
        ensures FixedSlot(data[..], i) == OffsNull
      {
        var p := Head + OffsetBytes * i;
        assert data[..][p..p + OffsetBytes] == [255, 255, 255, 255, 255];
        NullBytes();
      }
    }

    /** `le_mclass_reset`: the class loses its offsets and the accumulator
        is emptied; the colour bytes stay. */
    method Reset()
      requires Valid()
      modifies this, data
      ensures Valid() && size == 0 && push == [0, 0, 0]
      ensures data[..] == old(data[..])[Head := 0]
      ensures forall i :: 0 <= i < Base ==> GetOffset(i) == OffsNull
    {
      OffsetClass.Create(data, Head);
      size := 0;
      push := [0, 0, 0];
      forall i | 0 <= i < Base
        ensures GetOffset(i) == OffsNull
      {
        OffsetClass.CreatedIsEmpty(data[Head..Head + OffsetClass.Memory], i);
      }
    }

    /** `le_mclass_reset_`. */
    method ResetFixed()
      requires Valid()
      modifies this, data
      ensures Valid() && size == 0 && push == [0, 0, 0]
      ensures data[..Head] == old(data[..Head]) && data[Fixed..] == old(data[Fixed..])
      ensures forall i :: 0 <= i < Base ==> FixedSlot(data[..], i) == OffsNull
    {
      FillNull();
      size := 0;
      push := [0, 0, 0];
    }

    /** `le_mclass_get_offset`. */
    function GetOffset(i: nat): (v: nat)
      requires Valid() && i < Base
      reads this, data
      ensures v <= OffsNull
      ensures !OffsetClass.Bit(data[Head], i) ==> v == OffsNull
    {
      OffsetClass.GetOffset(data, Head, i)
    }

    /** `le_mclass_get_offset_`: the word at the slot masked by the null
        offset, which is the slot's five bytes. */
    function GetOffsetFixed(i: nat): (v: nat)
      requires Valid() && i < Base
      reads this, data
      ensures v == FixedSlot(data[..], i)
    {
      var p := Head + OffsetBytes * i;
      var word := data[p..p + WordBytes];
      DecodeMask(word, OffsetBytes);
      assert word[..OffsetBytes] == data[..][p..p + OffsetBytes];
      LeDecode(word) % Pow256(OffsetBytes)
    }

    /** `le_mclass_set_offset`. */
    method SetOffset(i: nat, v: int)
      requires Valid() && i < Base
      modifies data
      ensures GetOffset(i) == v % Pow256(OffsetBytes)
      ensures forall j :: 0 <= j < Base && j != i ==> GetOffset(j) == old(GetOffset(j))
      ensures data[..Head] == old(data[..Head])
      ensures data[Head + OffsetClass.Memory..] == old(data[Head + OffsetClass.Memory..])
    {
      ghost var c := data[Head..Head + OffsetClass.Memory];
      OffsetClass.SetOffset(data, Head, i, v);
      assert data[Head..Head + OffsetClass.Memory] == OffsetClass.Set(c, i, v);
      OffsetClass.SetThenGetSame(c, i, v);
      forall j | 0 <= j < Base && j != i
        ensures GetOffset(j) == OffsetClass.Get(c, j)
      {
        OffsetClass.SetThenGetOther(c, i, v, j);
      }
    }

    /** `le_mclass_set_offset_`: the five bytes of the slot take the value's
        five low bytes; the rest of the buffer is kept. */
    method SetOffsetFixed(i: nat, v: int)
      requires Valid() && i < Base
      modifies data
      ensures data[..] == WriteSlot(old(data[..]), i, v)
      ensures GetOffsetFixed(i) == v % Pow256(OffsetBytes)
      ensures forall j :: 0 <= j < Base && j != i ==> GetOffsetFixed(j) == old(GetOffsetFixed(j))
    {
      var p := Head + OffsetBytes * i;
      var e := LeEncode(v % Pow256(OffsetBytes), OffsetBytes);
      forall k | 0 <= k < OffsetBytes {
        data[p + k] := e[k];
      }
      assert data[..] == WriteSlot(old(data[..]), i, v);
      SlotAfterWrite(old(data[..]), i, v);
    }

    /** `le_mclass_set_push`: one more sample in the accumulator. */
    method SetPush(rgb: seq<byte>)
      requires Valid() && |rgb| == Length
      modifies this
      ensures Valid()
      ensures size == old(size) + 1
      ensures push == [old(push[0]) + rgb[0], old(push[1]) + rgb[1], old(push[2]) + rgb[2]]
    {
      push := [push[0] + rgb[0], push[1] + rgb[1], push[2] + rgb[2]];
      size := size + 1;
    }

    /** The bytes a read delivered, stored at `b` in the buffer. */
    method Load(b: nat, got: seq<byte>)
      requires data.Length == Memory && b + |got| <= Memory
      modifies data
      ensures data[..] == Overlay(old(data[..]), b, got)
    {
      ghost var before := data[..];
      forall k | 0 <= k < |got| {
        data[b + k] := got[k];
      }
      forall t | 0 <= t < data.Length
        ensures data[t] == Overlay(before, b, got)[t]
      {
        OverlayAt(before, b, got, t);
      }
    }

    /** `le_mclass_io_read` as written: the seek result is ignored, the
        colour and the descriptor are read into the buffer, and the count is
        compared with the length of a fixed record instead, so the call
        always fails and never reaches the stored offsets. */
    method IoRead(o: int, s: Stream) returns (st: Status)
      requires Valid()
      modifies data, s
      ensures s.bytes == old(s.bytes)
      ensures data[..] == Overlay(old(data[..]), 0, ReadAt(old(s.bytes), SeekPos(old(s.pos), o), Head + 1))
      ensures st == IoReadOutcome(old(s.bytes), SeekPos(old(s.pos), o))
    {
      var ok := s.Seek(o);
      var got := s.Read(Head + 1);
      Load(0, got);
      st := ErrIoRead;
      if |got| == Fixed + 1 {
        // `got` holds at most `Head + 1` bytes
        assert false;
      }
    }

    /** `le_mclass_io_read` as intended: the header count compared with the
        `Head + 1` bytes asked, then the stored offsets. */
    method IoReadIntended(o: int, s: Stream) returns (st: Status)
      requires Valid()
      modifies data, s
      ensures s.bytes == old(s.bytes)
      ensures
        var pos := SeekPos(old(s.pos), o);
        var got := ReadAt(old(s.bytes), pos, Head + 1);
        if |got| != Head + 1 then
          st == ErrIoRead && data[..] == Overlay(old(data[..]), 0, got)
        else
          var n := OffsetBytes * OffsetClass.Active(got[Head]);
          var body := ReadAt(old(s.bytes), pos + Head + 1, n);
          && data[..] == Overlay(old(data[..]), 0, got + body)
          && (st == Success <==> |body| == n)
          && (st != Success ==> st == ErrIoRead)
    {
      ghost var before := data[..];
      var ok := s.Seek(o);
      var got := s.Read(Head + 1);
      Load(0, got);
      if |got| != Head + 1 {
        return ErrIoRead;
      }
      assert data[Head] == got[Head] by {
        OverlayAt(before, 0, got, Head);
      }
      st := OffsetClass.IoRead(data, Head, s);
      ghost var body := ReadAt(old(s.bytes), SeekPos(old(s.pos), o) + Head + 1, OffsetBytes * OffsetClass.Active(got[Head]));
      OverlayTwice(before, 0, got, body);
    }

    /** `le_mclass_io_read_`. */
    method IoReadFixed(o: int, s: Stream) returns (st: Status)
      requires Valid()
      modifies data, s
      ensures s.bytes == old(s.bytes)
      ensures
        var got := ReadAt(old(s.bytes), SeekPos(old(s.pos), o), Fixed);
        && data[..] == Overlay(old(data[..]), 0, got)
        && (st == Success <==> |got| == Fixed)
        && (st != Success ==> st == ErrIoRead)
    {
      var ok := s.Seek(o);
      var got := s.Read(Fixed);
      Load(0, got);
      st := if |got| != Fixed then ErrIoRead else Success;
    }

    /** `le_mclass_io_read_fast`: the descriptor and offsets only, the
        colour being left as it is. */
    method IoReadFast(o: int, s: Stream) returns (st: Status)
      requires Valid()
      modifies data, s
      ensures s.bytes == old(s.bytes)
      ensures
        var pos := SeekPos(old(s.pos), o + Head);
        var d := ReadAt(old(s.bytes), pos, 1);
        && (|d| != 1 ==> st == ErrIoRead && data[..] == old(data[..]))
        && (|d| == 1 ==>
              var n := OffsetBytes * OffsetClass.Active(d[0]);
              var body := ReadAt(old(s.bytes), pos + 1, n);
              && data[..] == Overlay(old(data[..]), Head, d + body)
              && (st == Success <==> |body| == n)
              && (st != Success ==> st == ErrIoRead))
    {
      ghost var before := data[..];
      var ok := s.Seek(o + Head);
      var d := s.Read(1);
      if |d| != 1 {
        return ErrIoRead;
      }
      Load(Head, d);
      ghost var mid := data[..];
      assert mid == Overlay(before, Head, d);
      assert data[Head] == d[0] by {
        OverlayAt(before, Head, d, Head);
      }
      ghost var (file, at) := (s.bytes, s.pos);
      assert file == old(s.bytes) && at == SeekPos(old(s.pos), o + Head) + 1;
      st := OffsetClass.IoRead(data, Head, s);
      ghost var body := ReadAt(file, at, OffsetBytes * OffsetClass.Active(d[0]));
      assert data[..] == Overlay(mid, Head + 1, body);
      OverlayTwice(before, Head, d, body);
    }

    /** `le_mclass_io_read_fast_`. */
    method IoReadFastFixed(o: int, s: Stream) returns (st: Status)
      requires Valid()
      modifies data, s
      ensures s.bytes == old(s.bytes)
      ensures
        var got := ReadAt(old(s.bytes), SeekPos(old(s.pos), o + Head), Offset);
        && data[..] == Overlay(old(data[..]), Head, got)
        && (st == Success <==> |got| == Offset)
        && (st != Success ==> st == ErrIoRead)
    {
      var ok := s.Seek(o + Head);
      var got := s.Read(Offset);
      Load(Head, got);
      st := if |got| != Offset then ErrIoRead else Success;
    }

    /** The mean colour stored in the colour bytes of the buffer. */
    method StoreColour()
      requires Valid() && size > 0
      modifies data
      ensures data[..] == MeanColour(push, size) + old(data[..])[Head..]
    {
      var rgb := MeanColour(push, size);
      data[0], data[1], data[2] := rgb[0], rgb[1], rgb[2];
    }

    /** The colour and descriptor, then the stored offsets, written where
        the stream stands. */
    method WriteRecord(s: Stream) returns (st: Status)
      requires data.Length == Memory
      modifies s
      ensures
        var w := WriteParts(old(s.bytes), old(s.pos), s.limit, RecordParts(data[..Head], data[Head..Head + OffsetClass.Memory]));
        && s.bytes == w.bytes && s.pos == w.pos
        && (st == Success <==> w.complete)
        && (st != Success ==> st == ErrIoWrite)
    {
      ghost var file, p := s.bytes, s.pos;
      ghost var c := data[Head..Head + OffsetClass.Memory];
      var header := data[..Head + 1];
      assert header == data[..Head] + [c[0]];
      var n := s.Write(header);
      WritePartsSnoc(file, p, s.limit, [], header);
      assert [] + [header] == [header];
      ghost var body := OffsetClass.Body(c);
      WritePartsSnoc(file, p, s.limit, [header], body);
      assert [header] + [body] == RecordParts(data[..Head], c);
      if n != Head + 1 {
        return ErrIoWrite;
      }
      st := OffsetClass.IoWrite(data, Head, s);
    }

    /** `le_mclass_io_write`: the mean colour replaces the colour bytes, the
        colour and descriptor are written, then the stored offsets; with the
        null offset the stream stays where it is. */
    method IoWrite(o: int, s: Stream) returns (st: Status)
      requires Valid() && size > 0
      modifies data, s
      ensures data[..] == MeanColour(push, size) + old(data[..])[Head..]
      ensures
        var p := if o != OffsNull then SeekPos(old(s.pos), o) else old(s.pos);
        var w := WriteParts(old(s.bytes), p, s.limit, RecordParts(MeanColour(push, size), data[Head..Head + OffsetClass.Memory]));
        && s.bytes == w.bytes && s.pos == w.pos
        && (st == Success <==> w.complete)
        && (st != Success ==> st == ErrIoWrite)
    {
      ghost var p := if o != OffsNull then SeekPos(s.pos, o) else s.pos;
      if o != OffsNull {
        var ok := s.Seek(o);
      }
      assert s.pos == p && s.bytes == old(s.bytes);
      StoreColour();
      assert data[..Head] == MeanColour(push, size);
      st := WriteRecord(s);
    }

    /** `le_mclass_io_write_`. */
    method IoWriteFixed(o: int, s: Stream) returns (st: Status)
      requires Valid() && size > 0
      modifies data, s
      ensures data[..] == MeanColour(push, size) + old(data[..])[Head..]
      ensures
        var pos := if o != OffsNull then SeekPos(old(s.pos), o) else old(s.pos);
        var n := Writable(pos, Fixed, s.limit);
        && s.bytes == WriteAt(old(s.bytes), pos, data[..Fixed][..n])
        && (st == Success <==> n == Fixed)
        && (st != Success ==> st == ErrIoWrite)
    {
      if o != OffsNull {
        var ok := s.Seek(o);
      }
      StoreColour();
      var n := s.Write(data[..Fixed]);
      st := if n != Fixed then ErrIoWrite else Success;
    }
  }

  /** `le_mclass_io_offset`: offset `i` of the record at `o`, read through
      its descriptor. */
  method IoOffset(o: int, i: nat, s: Stream) returns (v: nat)
    requires i < Base
    modifies s
    ensures v == OffsetClass.IoOffsetOf(old(s.bytes), SeekPos(old(s.pos), o + Head), i)
    ensures s.bytes == old(s.bytes)
  {
    var ok := s.Seek(o + Head);
    v := OffsetClass.IoOffset(i, s);
  }

  /** The offset `le_mclass_io_offset_` reads from a fixed record. */
  function IoOffsetFixedOf(file: seq<byte>, pos: nat, i: nat): (v: nat)
    ensures v <= OffsNull
  {
    var got := ReadAt(file, pos, OffsetBytes);
    if |got| != OffsetBytes then OffsNull else LeDecode(got)
  }

  /** `le_mclass_io_offset_`. */
  method IoOffsetFixed(o: int, i: nat, s: Stream) returns (v: nat)
    modifies s
    ensures v == IoOffsetFixedOf(old(s.bytes), SeekPos(old(s.pos), o + Head + OffsetBytes * i), i)
    ensures s.bytes == old(s.bytes)
  {
    var ok := s.Seek(o + Head + OffsetBytes * i);
    var got := s.Read(OffsetBytes);
    if |got| != OffsetBytes {
      return OffsNull;
    }
    v := LeDecode(got);
  }

  /** A fixed record written at `o` gives back each of its offsets through
      `le_mclass_io_offset_`. */
  lemma FixedRoundTrip(file: seq<byte>, o: nat, d: seq<byte>, i: nat)
    requires |d| == Memory && i < Base
    ensures IoOffsetFixedOf(WriteAt(file, o, d[..Fixed]), o + Head + OffsetBytes * i, i) == FixedSlot(d, i)
  {
    var rec := d[..Fixed];
    var f := WriteAt(file, o, rec);
    ReadWritten(file, o, rec);
    assert f[o..o + Fixed] == rec;
    var p := Head + OffsetBytes * i;
    assert ReadAt(f, o + p, OffsetBytes) == f[o + p..o + p + OffsetBytes] == d[p..p + OffsetBytes];
  }

  /** `le_mclass_io_data`: the colour bytes of the record at `o`. */
  method IoData(o: int, s: Stream) returns (st: Status, rgb: seq<byte>)
    modifies s
    ensures s.bytes == old(s.bytes)
    ensures rgb == ReadAt(old(s.bytes), SeekPos(old(s.pos), o), Length)
    ensures (st == Success <==> |rgb| == Length) && (st != Success ==> st == ErrIoRead)
  {
    var ok := s.Seek(o);
    rgb := s.Read(Length);
    st := if |rgb| != Length then ErrIoRead else Success;
  }
}
