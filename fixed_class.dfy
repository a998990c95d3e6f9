// The fixed-length octree node of eratosthene-class.c: a 44-byte record
// holding a colour (three bytes), a sample counter (one byte) and eight
// child offsets of five bytes each, the null offset marking a missing child.
// Offsets are accessed as 8-byte little-endian words, so the buffer carries
// three bytes of padding after the last offset.

module FixedClass {
  import opened Common
  import opened Streams

  /** `LE_CLASS_OFFSET`: bytes of the eight offsets, `OffsetBytes * Base`. */
  const ClassOffset: nat := 40
  /** `LE_CLASS_ARRAY`: bytes of a record in a scale file,
      `UseData + ClassOffset`. */
  const ClassArray: nat := 44
  /** Bytes of the in-memory buffer: the record and the padding of the last
      offset word, `ClassArray + WordBytes - OffsetBytes`. */
  const ClassMemory: nat := 47

  /** The position of offset `i` in the record, `UseData + OffsetBytes * i`. */
  function SlotPos(i: nat): nat
  {
    4 + 5 * i
  }

  /** The offset stored in slot `i` of a record. */
  function Slot(c: seq<byte>, i: nat): (v: nat)
    requires i < Base && |c| >= ClassArray
    ensures v <= OffsNull
  {
    LeDecode(c[SlotPos(i)..SlotPos(i) + OffsetBytes])
  }

  function Colour(c: seq<byte>): (rgb: seq<byte>)
    requires |c| >= 3
    ensures |rgb| == 3
  {
    c[..3]
  }

  /** `le_class_create(rgb)`: the colour, a counter of zero, all offsets
      null. */
  function Created(rgb: seq<byte>): (c: seq<byte>)
    requires |rgb| == 3
    ensures |c| == ClassMemory
  {
    rgb + [0] + seq(ClassOffset, _ => 255) + Zeros(ClassMemory - ClassArray)
  }

  lemma CreatedShape(rgb: seq<byte>, i: nat)
    requires |rgb| == 3 && i < Base
    ensures Slot(Created(rgb), i) == OffsNull
    ensures Colour(Created(rgb)) == rgb && Created(rgb)[3] == 0
  {
    var c := Created(rgb);
    var p := SlotPos(i);
    assert c[p..p + OffsetBytes] == [255, 255, 255, 255, 255];
    NullBytes();
  }

  /** The word written by `le_class_set_offset`: the five low bytes come from
      the value, the three high bytes keep the stored bytes or-ed with the
      value's high bytes (the mask only clears the five offset bytes). */
  function OrWord(w: seq<byte>, v: int): (r: seq<byte>)
    requires |w| == WordBytes
    ensures |r| == WordBytes
  {
    var vb := Int64Bytes(v);
    vb[..OffsetBytes] + [ByteOr(w[5], vb[5]), ByteOr(w[6], vb[6]), ByteOr(w[7], vb[7])]
  }

  /** The buffer after `le_class_set_offset(c, i, v)`. */
  function SetOffsetBytes(c: seq<byte>, i: nat, v: int): (r: seq<byte>)
    requires i < Base && |c| == ClassMemory
    ensures |r| == ClassMemory
  {
    var p := SlotPos(i);
    c[..p] + OrWord(c[p..p + WordBytes], v) + c[p + WordBytes..]
  }

  /** For a value that fits five bytes, the or-ed word stores the value's
      five bytes and keeps the three high bytes. */
  lemma OrWordFits(w: seq<byte>, v: int)
    requires |w| == WordBytes && 0 <= v <= OffsNull
    ensures OrWord(w, v) == LeEncode(v, OffsetBytes) + w[OffsetBytes..]
  {
    var vb := Int64Bytes(v);
    Pow256Eight();
    assert v % Pow256(8) == v;
    EncodePrefix(v, 8, OffsetBytes);
    HighBytesZero(v);
  }

  /** The three high bytes of an 8-byte encoding of a 40-bit value are
      zero. */
  lemma HighBytesZero(v: int)
    requires 0 <= v <= OffsNull
    ensures Int64Bytes(v)[5] == 0 && Int64Bytes(v)[6] == 0 && Int64Bytes(v)[7] == 0
  {
    Pow256Eight();
    var vb := Int64Bytes(v);
    assert v % Pow256(8) == v;
    DecodeEncode(v, 8);
    assert LeDecode(vb) == v;
    DecodeSplit(vb, OffsetBytes);
    var high := LeDecode(vb[OffsetBytes..]);
    if high >= 1 {
      MulAtLeast(high, Pow256(OffsetBytes));
    }
    DecodeZero(vb[OffsetBytes..]);
    assert vb[5] == vb[OffsetBytes..][0];
    assert vb[6] == vb[OffsetBytes..][1];
    assert vb[7] == vb[OffsetBytes..][2];
  }

  /** A value that fits five bytes is read back from its slot, and the
      colour, the counter and the other slots are left as they were. */
  lemma SetOffsetThenSlot(c: seq<byte>, i: nat, v: int, j: nat)
    requires i < Base && j < Base && |c| == ClassMemory
    requires 0 <= v <= OffsNull
    ensures Slot(SetOffsetBytes(c, i, v), i) == v
    ensures j != i ==> Slot(SetOffsetBytes(c, i, v), j) == Slot(c, j)
    ensures SetOffsetBytes(c, i, v)[..UseData] == c[..UseData]
  {
    var p := SlotPos(i);
    OrWordFits(c[p..p + WordBytes], v);
    var e := LeEncode(v, OffsetBytes);
    var r := SetOffsetBytes(c, i, v);
    assert r == c[..p] + e + c[p + OffsetBytes..];
    assert r[p..p + OffsetBytes] == e;
    assert LeDecode(e) == v by {
      DecodeEncode(v, OffsetBytes);
      Pow256Five();
      LemmaModUnique(v, Pow256(OffsetBytes), 0, v);
    }
    if j != i {
      var q := SlotPos(j);
      assert r[q..q + OffsetBytes] == c[q..q + OffsetBytes];
    }
  }

  /** The colour channel after one more sample: `(w·old + new)/(w + 1)`
      rounded half up, `w` being the weight of the stored colour. */
  function Mean(w: nat, prior: byte, sample: byte): (m: byte)
    requires w >= 1
    ensures 2 * (w + 1) * m <= 2 * (w * prior + sample) + (w + 1) < 2 * (w + 1) * (m + 1)
  {
    MeanBound(w, prior, sample);
    (2 * (w * prior + sample) + (w + 1)) / (2 * (w + 1))
  }

  lemma MeanBound(w: nat, a: byte, b: byte)
    requires w >= 1
    ensures 0 <= (2 * (w * a + b) + (w + 1)) / (2 * (w + 1)) < 256
  {
    var wa: int := w * a;
    assert wa <= w * 255 by {
      MulMono(w, a, 255);
    }
    var n: int := 2 * (wa + b) + (w + 1);
    var d: int := 2 * (w + 1);
    DivBelow(n, d, 256);
  }

  lemma MulMono(w: nat, a: nat, b: nat)
    requires a <= b
    ensures w * a <= w * b
  {
    assert w * b == w * a + w * (b - a);
  }

  /** A quotient is below `k` when the dividend is below `k` divisors. */
  lemma DivBelow(n: int, d: int, k: int)
    requires d > 0 && 0 <= n < k * d
    ensures 0 <= n / d < k
  {
    var q := n / d;
    assert n == q * d + n % d;
    if q >= k {
      MulAtLeast(q - k + 1, d);
    }
  }

  /** The rounded mean lies between the stored colour and the new sample,
      and a sample equal to the stored colour leaves it unchanged. */
  lemma MeanBetween(w: nat, a: byte, b: byte)
    requires w >= 1
    ensures a <= b ==> a <= Mean(w, a, b) <= b
    ensures b <= a ==> b <= Mean(w, a, b) <= a
    ensures a == b ==> Mean(w, a, b) == a
  {
    var m := Mean(w, a, b);
    var h := w + 1;
    var sum := w * a + b;
    assert 2 * h * m <= 2 * sum + h < 2 * h * (m + 1);
    if a <= b {
      SumBetween(w, a, b);
      ScaledBetween(m, h, sum, a, b);
    } else {
      SumBetween(w, b, a);
      ScaledBetween(m, h, sum, b, a);
    }
  }

  /** `w` copies of `lo` and one `hi`, or `w` copies of `hi` and one `lo`,
      sum to between `w + 1` copies of either. */
  lemma SumBetween(w: nat, lo: int, hi: int)
    requires lo <= hi
    ensures (w + 1) * lo <= w * lo + hi <= (w + 1) * hi
    ensures (w + 1) * lo <= w * hi + lo <= (w + 1) * hi
  {
    assert (w + 1) * lo == w * lo + lo;
    assert (w + 1) * hi == w * hi + hi;
    MulMono(w, lo - lo, hi - lo);
    assert w * hi - w * lo == w * (hi - lo);
  }

  /** The rounded quotient `m` of `sum` by `h` lies between `lo` and `hi`
      when `sum` lies between `h` copies of each. */
  lemma ScaledBetween(m: int, h: int, sum: int, lo: int, hi: int)
    requires h >= 1
    requires 2 * h * m <= 2 * sum + h < 2 * h * (m + 1)
    requires h * lo <= sum <= h * hi
    ensures lo <= m <= hi
  {
    assert 2 * h * (m + 1) == 2 * (h * (m + 1));
    MulLess(h, lo, m + 1);
    assert 2 * h * m == 2 * (h * m);
    assert h * (hi + 1) == h * hi + h;
    MulLess(h, m, hi + 1);
  }

  /** Multiplying by a positive factor keeps a strict order. */
  lemma MulLess(h: int, x: int, y: int)
    requires h >= 1 && h * x < h * y
    ensures x < y
  {
    if x >= y {
      assert h * x == h * y + h * (x - y);
      MulNonNegative(h, x - y);
    }
  }

  lemma MulNonNegative(a: int, b: int)
    requires a >= 0 && b >= 0
    ensures a * b >= 0
  {
  }

  /** The buffer after `le_class_set_push(c, rgb)`. */
  function PushBytes(c: seq<byte>, rgb: seq<byte>): (r: seq<byte>)
    requires |c| == ClassMemory && |rgb| == 3
    ensures |r| == ClassMemory
  {
    var w := c[3] as nat + 1;
    [Mean(w, c[0], rgb[0]), Mean(w, c[1], rgb[1]), Mean(w, c[2], rgb[2])]
    + [if c[3] < 255 then c[3] + 1 else c[3]]
    + c[UseData..]
  }

  /** A push moves every channel toward the sample, counts the sample unless
      the counter is saturated, and never touches the offsets. */
  lemma PushEffect(c: seq<byte>, rgb: seq<byte>, k: nat, i: nat)
    requires |c| == ClassMemory && |rgb| == 3 && k < 3 && i < Base
    ensures c[k] <= rgb[k] ==> c[k] <= PushBytes(c, rgb)[k] <= rgb[k]
    ensures rgb[k] <= c[k] ==> rgb[k] <= PushBytes(c, rgb)[k] <= c[k]
    ensures PushBytes(c, rgb)[3] == if c[3] == 255 then 255 else c[3] + 1
    ensures Slot(PushBytes(c, rgb), i) == Slot(c, i)
  {
    var r := PushBytes(c, rgb);
    MeanBetween(c[3] as nat + 1, c[k], rgb[k]);
    assert r[k] == Mean(c[3] as nat + 1, c[k], rgb[k]);
    assert r[SlotPos(i)..SlotPos(i) + OffsetBytes] == c[SlotPos(i)..SlotPos(i) + OffsetBytes];
  }

  /** Pushing `n` samples of the stored colour keeps the colour: a node fed
      one constant colour reports that colour. */
  function PushTimes(c: seq<byte>, rgb: seq<byte>, n: nat): (r: seq<byte>)
    requires |c| == ClassMemory && |rgb| == 3
    ensures |r| == ClassMemory
    decreases n
  {
    if n == 0 then c else PushTimes(PushBytes(c, rgb), rgb, n - 1)
  }

  lemma {:induction false} ConstantColour(rgb: seq<byte>, n: nat)
    requires |rgb| == 3
    ensures Colour(PushTimes(Created(rgb), rgb, n)) == rgb
    ensures PushTimes(Created(rgb), rgb, n)[3] == if n < 255 then n else 255
  {
    ConstantColourFrom(Created(rgb), rgb, n);
  }

  lemma {:induction false} ConstantColourFrom(c: seq<byte>, rgb: seq<byte>, n: nat)
    requires |c| == ClassMemory && |rgb| == 3 && c[..3] == rgb
    ensures Colour(PushTimes(c, rgb, n)) == rgb
    ensures PushTimes(c, rgb, n)[3] == if c[3] + n < 255 then c[3] + n else 255
    decreases n
  {
    if n > 0 {
      var p := PushBytes(c, rgb);
      MeanBetween(c[3] as nat + 1, c[0], rgb[0]);
      MeanBetween(c[3] as nat + 1, c[1], rgb[1]);
      MeanBetween(c[3] as nat + 1, c[2], rgb[2]);
      assert p[..3] == rgb;
      ConstantColourFrom(p, rgb, n - 1);
    }
  }

  /** A record as `le_class_io_read` finds it at offset `o` of a scale file:
      none when the seek fails or fewer than `ClassArray` bytes remain. */
  function ReadRecord(file: seq<byte>, o: int): (r: Option<seq<byte>>)
    ensures r.Some? <==> 0 <= o && o + ClassArray <= |file|
    ensures r.Some? ==> r.value == file[o..o + ClassArray]
  {
    if o < 0 || o + ClassArray > |file| then None else Some(file[o..o + ClassArray])
  }

  /** Writing a record and reading it back at the same offset returns it. */
  lemma RecordRoundTrip(file: seq<byte>, o: nat, rec: seq<byte>)
    requires |rec| == ClassArray
    ensures ReadRecord(WriteAt(file, o, rec), o) == Some(rec)
  {
    ReadWritten(file, o, rec);
    var w := WriteAt(file, o, rec);
    assert ReadAt(w, o, ClassArray) == w[o..o + ClassArray];
  }

  /** The offset `le_class_det_offset` reads from the file without loading
      the record: null when the seek fails or fewer than five bytes remain. */
  function DetOffsetOf(file: seq<byte>, o: int, i: nat): (r: nat)
    ensures r <= OffsNull
  {
    var p := o + UseData + OffsetBytes * i;
    if p < 0 then OffsNull
    else
      var got := ReadAt(file, p, OffsetBytes);
      if |got| == OffsetBytes then LeDecode(got) else OffsNull
  }

  /** Reading one offset from the file agrees with reading the whole record
      and then its slot; with no complete record there, the offset is null
      unless the slot's five bytes are present. */
  lemma DetOffsetAgrees(file: seq<byte>, o: int, i: nat)
    requires i < Base
    requires ReadRecord(file, o).Some?
    ensures DetOffsetOf(file, o, i) == Slot(ReadRecord(file, o).value, i)
  {
    var rec := ReadRecord(file, o).value;
    var p := o + SlotPos(i);
    var got := ReadAt(file, p, OffsetBytes);
    ReadAtBytes(file, p, OffsetBytes);
    assert got == rec[SlotPos(i)..SlotPos(i) + OffsetBytes];
  }

  datatype Option<T> = None | Some(value: T)

  /** An octree node in memory (`le_class_t`). */
  class Node {
    /** `cs_data`. */
    const data: array<byte>

    ghost predicate Valid()
      reads this
    {
      data.Length == ClassMemory
    }

    /** `le_class_create`. */
    constructor Create(rgb: seq<byte>)
      requires |rgb| == 3
      ensures Valid() && fresh(data)
      ensures data[..] == Created(rgb)
    {
      data := new byte[ClassMemory](_ => 0);
      new;
      data[0], data[1], data[2], data[3] := rgb[0], rgb[1], rgb[2], 0;
      var k := UseData;
      while k < ClassArray
        invariant UseData <= k <= ClassArray
        invariant data[..3] == rgb && data[3] == 0
        invariant forall j :: UseData <= j < k ==> data[j] == 255
        invariant forall j :: ClassArray <= j < ClassMemory ==> data[j] == 0
      {
        data[k] := 255;
        k := k + 1;
      }
      assert data[..] == Created(rgb);
    }

    /** `le_class_get_offset`: the 8-byte word at the slot, masked by the
        null offset, is the value of the slot's five bytes. */
    function GetOffset(i: nat): (r: nat)
      requires Valid() && i < Base
      reads this, data
      ensures r <= OffsNull
      ensures r == Slot(data[..], i)
    {
      var p := SlotPos(i);
      var word := data[p..p + WordBytes];
      DecodeMask(word, OffsetBytes);
      assert word[..OffsetBytes] == data[..][p..p + OffsetBytes];
      LeDecode(word) % Pow256(OffsetBytes)
    }

    /** `le_class_set_offset`. */
    method SetOffset(i: nat, v: int)
      requires Valid() && i < Base
      modifies data
      ensures data[..] == SetOffsetBytes(old(data[..]), i, v)
    {
      var p := SlotPos(i);
      var w := OrWord(data[p..p + WordBytes], v);
      ghost var before := data[..];
      forall k | 0 <= k < WordBytes {
        data[p + k] := w[k];
      }
      assert data[..] == SetOffsetBytes(before, i, v);
    }

    /** `le_class_set_push`. */
    method SetPush(rgb: seq<byte>)
      requires Valid() && |rgb| == 3
      modifies data
      ensures data[..] == PushBytes(old(data[..]), rgb)
    {
      var w := data[3] as nat + 1;
      data[0] := Mean(w, data[0], rgb[0]);
      data[1] := Mean(w, data[1], rgb[1]);
      data[2] := Mean(w, data[2], rgb[2]);
      if data[3] < 255 {
        data[3] := data[3] + 1;
      }
    }

    /** `le_class_io_read`: what was read is copied into the buffer even when
        the read is short. */
    method IoRead(o: int, s: Stream) returns (st: Status)
      requires Valid()
      modifies data, s
      ensures s.bytes == old(s.bytes)
      ensures o < 0 ==> st == ErrIoSeek && data[..] == old(data[..])
      ensures o >= 0 ==>
        var got := ReadAt(old(s.bytes), o, ClassArray);
        && data[..] == Overlay(old(data[..]), 0, got)
        && (st == Success <==> ReadRecord(old(s.bytes), o).Some?)
        && (st != Success ==> st == ErrIoRead)
    {
      var ok := s.Seek(o);
      if !ok {
        return ErrIoSeek;
      }
      ghost var before := data[..];
      var got := s.Read(ClassArray);
      forall k | 0 <= k < |got| {
        data[k] := got[k];
      }
      forall t | 0 <= t < data.Length
        ensures data[t] == Overlay(before, 0, got)[t]
      {
        OverlayAt(before, 0, got, t);
      }
      st := if |got| != ClassArray then ErrIoRead else Success;
    }

    /** `le_class_io_readf`: only the offsets are read. */
    method IoReadF(o: int, s: Stream) returns (st: Status)
      requires Valid()
      modifies data, s
      ensures s.bytes == old(s.bytes)
      ensures o + UseData < 0 ==> st == ErrIoSeek && data[..] == old(data[..])
      ensures o + UseData >= 0 ==>
        var got := ReadAt(old(s.bytes), o + UseData, ClassOffset);
        && data[..] == Overlay(old(data[..]), UseData, got)
        && (st == Success <==> |got| == ClassOffset)
        && (st != Success ==> st == ErrIoRead)
    {
      var ok := s.Seek(o + UseData);
      if !ok {
        return ErrIoSeek;
      }
      ghost var before := data[..];
      var got := s.Read(ClassOffset);
      forall k | 0 <= k < |got| {
        data[UseData + k] := got[k];
      }
      forall t | 0 <= t < data.Length
        ensures data[t] == Overlay(before, UseData, got)[t]
      {
        OverlayAt(before, UseData, got, t);
      }
      st := if |got| != ClassOffset then ErrIoRead else Success;
    }

    /** `le_class_io_write`. */
    method IoWrite(o: int, s: Stream) returns (st: Status)
      requires Valid()
      modifies s
      ensures o < 0 ==> st == ErrIoSeek && s.bytes == old(s.bytes)
      ensures o >= 0 ==>
        var n := Writable(o, ClassArray, s.limit);
        && s.bytes == WriteAt(old(s.bytes), o, data[..ClassArray][..n])
        && (st == Success <==> n == ClassArray)
        && (st != Success ==> st == ErrIoWrite)
    {
      var ok := s.Seek(o);
      if !ok {
        return ErrIoSeek;
      }
      var n := s.Write(data[..ClassArray]);
      st := if n != ClassArray then ErrIoWrite else Success;
    }
  }

  /** `le_class_det_offset`. */
  method DetOffset(o: int, i: nat, s: Stream) returns (r: int)
    modifies s
    ensures r == DetOffsetOf(old(s.bytes), o, i)
    ensures s.bytes == old(s.bytes)
  {
    var ok := s.Seek(o + UseData + OffsetBytes * i);
    if !ok {
      return OffsNull;
    }
    var got := s.Read(OffsetBytes);
    if |got| != OffsetBytes {
      return OffsNull;
    }
    r := LeDecode(got);
  }

  /** `le_class_det_data`: the colour bytes read at `o` (the bytes of a
      short read are delivered too). */
  method DetData(o: int, s: Stream) returns (st: Status, rgb: seq<byte>)
    modifies s
    ensures s.bytes == old(s.bytes)
    ensures o < 0 ==> st == ErrIoSeek && rgb == []
    ensures o >= 0 ==> rgb == ReadAt(old(s.bytes), o, 3)
    ensures o >= 0 ==> (st == Success <==> |rgb| == 3) && (st != Success ==> st == ErrIoRead)
  {
    var ok := s.Seek(o);
    if !ok {
      return ErrIoSeek, [];
    }
    rgb := s.Read(3);
    st := if |rgb| != 3 then ErrIoRead else Success;
  }
}
