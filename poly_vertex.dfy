// The poly-vertex node of eratosthene-class-poly.c: a five-byte link count,
// an implicit class of eratosthene-class.h for the daughters, and a growable
// array of five-byte links to graphical primitives. On storage the record is
// the count, the class descriptor, the stored offsets, then `count` links.

module PolyVertex {
  import opened Common
  import opened Streams
  import OffsetClass

  /** `LE_POLY_HEADER`: bytes of the link count. */
  const Header: nat := OffsetBytes
  /** `LE_POLY_EXTEND`: the count and the class descriptor. */
  const Extend: nat := Header + OffsetClass.Header
  /** `LE_POLY_MEMORY`: bytes of the fixed buffer. */
  const Memory: nat := Header + OffsetClass.Memory

  /** The links array after `realloc` to `n` links: the common prefix is
      kept (the bytes beyond it are indeterminate; zero here). */
  function Resized(link: seq<byte>, n: nat): (r: seq<byte>)
    ensures |r| == OffsetBytes * n
  {
    if OffsetBytes * n <= |link| then link[..OffsetBytes * n] else link + Zeros(OffsetBytes * n - |link|)
  }

  /** `realloc` keeps the links the new size still holds. */
  lemma ResizedKeeps(link: seq<byte>, n: nat, k: nat)
    requires k < OffsetBytes * n && k < |link|
    ensures Resized(link, n)[k] == link[k]
  {
  }

  /** The links array after the five bytes of link `k` take the five low
      bytes of `l`. */
  function PutLink(link: seq<byte>, k: nat, l: int): (r: seq<byte>)
    requires OffsetBytes * k + OffsetBytes <= |link|
    ensures |r| == |link|
  {
    link[..OffsetBytes * k] + LeEncode(l % Pow256(OffsetBytes), OffsetBytes) + link[OffsetBytes * k + OffsetBytes..]
  }

  /** Link `k` of a links array. */
  function Link(link: seq<byte>, k: nat): (v: nat)
    requires OffsetBytes * k + OffsetBytes <= |link|
    ensures v <= OffsNull
  {
    LeDecode(link[OffsetBytes * k..OffsetBytes * k + OffsetBytes])
  }

  /** A link written is read back truncated to five bytes; every other link
      is kept. */
  lemma PutThenLink(link: seq<byte>, k: nat, l: int, j: nat)
    requires OffsetBytes * k + OffsetBytes <= |link| && OffsetBytes * j + OffsetBytes <= |link|
    ensures Link(PutLink(link, k, l), j) == if j == k then l % Pow256(OffsetBytes) else Link(link, j)
  {
    var r := PutLink(link, k, l);
    var p, q := OffsetBytes * k, OffsetBytes * j;
    if j == k {
      assert r[p..p + OffsetBytes] == LeEncode(l % Pow256(OffsetBytes), OffsetBytes);
      DecodeEncode(l % Pow256(OffsetBytes), OffsetBytes);
    } else if j < k {
      assert q + OffsetBytes <= p;
      assert r[q..q + OffsetBytes] == link[q..q + OffsetBytes];
    } else {
      assert p + OffsetBytes <= q;
      assert r[q..q + OffsetBytes] == link[q..q + OffsetBytes];
    }
  }

  /** After a resize that keeps at least `k + 1` links and a write of link
      `k`, link `k` is the value written and the links before it are kept. */
  lemma LinksAfterPush(link: seq<byte>, grown: seq<byte>, k: nat, l: int)
    requires OffsetBytes * k + OffsetBytes <= |grown|
    requires OffsetBytes * k <= |link|
    requires forall t :: 0 <= t < OffsetBytes * k ==> grown[t] == link[t]
    ensures Link(PutLink(grown, k, l), k) == l % Pow256(OffsetBytes)
    ensures forall j :: 0 <= j < k ==> Link(PutLink(grown, k, l), j) == Link(link, j)
  {
    PutThenLink(grown, k, l, k);
    forall j | 0 <= j < k
      ensures Link(PutLink(grown, k, l), j) == Link(link, j)
    {
      PutThenLink(grown, k, l, j);
      assert grown[OffsetBytes * j..OffsetBytes * j + OffsetBytes] == link[OffsetBytes * j..OffsetBytes * j + OffsetBytes];
    }
  }

  /** The bytes `le_poly_io_write` emits for a buffer `d` holding `count`
      links in `link`: count and descriptor, stored offsets, links. */
  function Record(d: seq<byte>, link: seq<byte>, count: nat): seq<byte>
    requires |d| == Memory && OffsetBytes * count <= |link|
  {
    d[..Extend] + OffsetClass.Body(d[Header..]) + link[..OffsetBytes * count]
  }

  /** The pieces of the class part of a record, one `fwrite` each: count
      and descriptor, then the stored offsets. */
  function ClassParts(d: seq<byte>): seq<seq<byte>>
    requires |d| == Memory
  {
    [d[..Extend], OffsetClass.Body(d[Header..])]
  }

  /** The pieces of a record, one `fwrite` each; laid end to end they are
      the record. */
  function RecordParts(d: seq<byte>, link: seq<byte>, count: nat): (r: seq<seq<byte>>)
    requires |d| == Memory && OffsetBytes * count <= |link|
    ensures Concat(r) == Record(d, link, count)
  {
    var r := ClassParts(d) + [link[..OffsetBytes * count]];
    assert r[..2][..1] == [r[0]] && [r[0]][..0] == r[..0];
    assert Concat([r[0]]) == r[0];
    assert Concat(r[..2]) == r[0] + r[1];
    assert Concat(r) == r[0] + r[1] + r[2];
    r
  }

  /** A record written at `o` in pieces on a device with room for it gives
      back, read in the order of `le_poly_io_read`, its count and
      descriptor, its stored offsets, its links; and each offset through
      `le_poly_io_offset`. */
  lemma RecordRoundTrip(file: seq<byte>, o: nat, limit: nat, d: seq<byte>, link: seq<byte>, count: nat, i: nat)
    requires |d| == Memory && OffsetBytes * count <= |link| && i < Base
    requires o + |Record(d, link, count)| <= limit
    ensures
      var f := WriteParts(file, o, limit, RecordParts(d, link, count)).bytes;
      var n := |OffsetClass.Body(d[Header..])|;
      && ReadAt(f, o, Extend) == d[..Extend]
      && ReadAt(f, o + Extend, n) == OffsetClass.Body(d[Header..])
      && ReadAt(f, o + Extend + n, OffsetBytes * count) == link[..OffsetBytes * count]
      && OffsetClass.IoOffsetOf(f, o + Header, i) == OffsetClass.Get(d[Header..], i)
  {
    WritePartsWhole(file, o, limit, RecordParts(d, link, count));
    RecordReadsBack(file, o, d, link, count, i);
  }

  /** The record written at once reads back piece by piece. */
  lemma RecordReadsBack(file: seq<byte>, o: nat, d: seq<byte>, link: seq<byte>, count: nat, i: nat)
    requires |d| == Memory && OffsetBytes * count <= |link| && i < Base
    ensures
      var f := WriteAt(file, o, Record(d, link, count));
      var n := |OffsetClass.Body(d[Header..])|;
      && ReadAt(f, o, Extend) == d[..Extend]
      && ReadAt(f, o + Extend, n) == OffsetClass.Body(d[Header..])
      && ReadAt(f, o + Extend + n, OffsetBytes * count) == link[..OffsetBytes * count]
      && OffsetClass.IoOffsetOf(f, o + Header, i) == OffsetClass.Get(d[Header..], i)
  {
    var c := d[Header..];
    var h, b, l := d[..Extend], OffsetClass.Body(c), link[..OffsetBytes * count];
    var f := WriteAt(file, o, h + b + l);
    ReadThreeBack(file, o, h, b, l);
    ReadAtSlice(f, o, Extend);
    ReadAtSlice(f, o + Extend, |b|);
    assert f[o + Header] == h[Header] == c[0];
    OffsetClass.IoOffsetAgrees(f, o + Header, c, i);
  }

  /** The link bookkeeping of a poly-vertex node: links stored, capacity of
      the links array (`pc_size`), and bytes actually allocated. */
  datatype Links = Links(count: nat, capacity: nat, reserved: nat)

  /** The next link can be stored inside the allocation. */
  predicate PushFits(s: Links)
  {
    OffsetBytes * s.count + OffsetBytes <= s.reserved
  }

  /** The bookkeeping after `le_poly_set_push` as written: the capacity is
      incremented before the reallocation, and stays incremented when the
      reallocation fails. */
  function PushAsWritten(s: Links, allocOk: bool): (Status, Links)
  {
    if s.count == s.capacity then
      var cap := s.capacity + 1;
      var n := cap * OffsetBytes + WordBytes;
      if !allocOk then (ErrMemory, s.(capacity := cap))
      else (Success, Links(s.count + 1, n, OffsetBytes * n))
    else (Success, s.(count := s.count + 1))
  }

  /** A failed reallocation followed by a successful push: the second push
      stores its link in a links array that was never allocated. */
  lemma PushAfterFailureOverruns()
    ensures PushAsWritten(Links(0, 0, 0), false) == (ErrMemory, Links(0, 1, 0))
    ensures !PushFits(PushAsWritten(Links(0, 0, 0), false).1)
    ensures PushAsWritten(PushAsWritten(Links(0, 0, 0), false).1, true).0 == Success
  {
  }

  /** The bookkeeping after `le_poly_set_push` as intended: a failed
      reallocation leaves everything as it was. */
  function PushIntended(s: Links, allocOk: bool): (Status, Links)
  {
    if s.count == s.capacity then
      var n := (s.capacity + 1) * OffsetBytes + WordBytes;
      if !allocOk then (ErrMemory, s)
      else (Success, Links(s.count + 1, n, OffsetBytes * n))
    else (Success, s.(count := s.count + 1))
  }

  predicate Sound(s: Links)
  {
    s.count <= s.capacity && s.reserved == OffsetBytes * s.capacity
  }

  /** With the intended order every push that reports success stored its
      link inside the allocation, and the bookkeeping stays sound whatever
      the allocator does. */
  lemma {:induction false} PushIntendedSound(s: Links, allocs: seq<bool>)
    requires Sound(s)
    ensures Sound(PushesIntended(s, allocs))
    decreases |allocs|
  {
    if allocs != [] {
      PushIntendedStep(s, allocs[0]);
      PushIntendedSound(PushIntended(s, allocs[0]).1, allocs[1..]);
    }
  }

  lemma PushIntendedStep(s: Links, allocOk: bool)
    requires Sound(s)
    ensures Sound(PushIntended(s, allocOk).1)
    ensures PushIntended(s, allocOk).0 == Success ==>
      PushFits(if s.count == s.capacity then PushIntended(s, allocOk).1.(count := s.count) else s)
    ensures PushIntended(s, allocOk).0 != Success ==> PushIntended(s, allocOk).1 == s
  {
    if s.count == s.capacity && allocOk {
      var n := (s.capacity + 1) * OffsetBytes + WordBytes;
      assert s.count + 1 <= n;
    }
  }

  function PushesIntended(s: Links, allocs: seq<bool>): Links
    decreases |allocs|
  {
    if allocs == [] then s else PushesIntended(PushIntended(s, allocs[0]).1, allocs[1..])
  }

  /** A poly-vertex node in memory (`le_poly_t`). */
  class Node {
    /** `pc_size`: capacity of the links array, in links. */
    var capacity: nat
    /** `pc_link`: the links array. */
    var link: seq<byte>
    /** `pc_data`: the link count and the implicit class. */
    const data: array<byte>

    ghost predicate Valid()
      reads this
    {
      data.Length == Memory && |link| == OffsetBytes * capacity
    }

    /** `le_poly_get_size`: the low 40 bits of the word at the start of the
        buffer, which are its five first bytes. */
    function GetSize(): (n: nat)
      requires Valid()
      reads this, data
      ensures n == LeDecode(data[..Header]) && n <= OffsNull
    {
      var word := data[..WordBytes];
      DecodeMask(word, OffsetBytes);
      assert word[..OffsetBytes] == data[..Header];
      LeDecode(word) % Pow256(OffsetBytes)
    }

    /** `le_poly_get_link`, read as five bytes. */
    function GetLink(k: nat): (v: nat)
      requires Valid() && OffsetBytes * k + OffsetBytes <= |link|
      reads this
      ensures v <= OffsNull
    {
      Link(link, k)
    }

    /** `le_poly_get_offset`. */
    function GetOffset(i: nat): (v: nat)
      requires Valid() && i < Base
      reads this, data
      ensures v <= OffsNull
      ensures !OffsetClass.Bit(data[Header], i) ==> v == OffsNull
    {
      OffsetClass.GetOffset(data, Header, i)
    }

    /** `le_poly_create`: no link, no links array, an empty class. */
    constructor Create()
      ensures Valid() && fresh(data)
      ensures capacity == 0 && link == []
      ensures data[..] == seq(Memory, _ => 0)
      ensures GetSize() == 0
      ensures forall i :: 0 <= i < Base ==> GetOffset(i) == OffsNull
    {
      capacity := 0;
      link := [];
      data := new byte[Memory](_ => 0);
      new;
      OffsetClass.Create(data, Header);
      ZeroDecodes(data[..Header]);
      forall i | 0 <= i < Base
        ensures GetOffset(i) == OffsNull
      {
        OffsetClass.CreatedIsEmpty(data[Header..Header + OffsetClass.Memory], i);
      }
    }

    /** `le_poly_set_size`: the five first bytes take the count's five low
        bytes; the class is untouched. */
    method SetSize(n: int)
      requires Valid()
      modifies data
      ensures data[..] == LeEncode(n % Pow256(OffsetBytes), OffsetBytes) + old(data[Header..])
      ensures GetSize() == n % Pow256(OffsetBytes)
      ensures data[Header..] == old(data[Header..])
    {
      var e := LeEncode(n % Pow256(OffsetBytes), OffsetBytes);
      forall t | 0 <= t < Header {
        data[t] := e[t];
      }
      assert data[..Header] == e;
      DecodeEncode(n % Pow256(OffsetBytes), OffsetBytes);
      LemmaModUnique(n % Pow256(OffsetBytes), Pow256(OffsetBytes), 0, n % Pow256(OffsetBytes));
    }

    /** `le_poly_reset`: no link and an empty class; the links array and its
        capacity are kept. */
    method Reset()
      requires Valid()
      modifies data
      ensures Valid()
      ensures GetSize() == 0
      ensures forall i :: 0 <= i < Base ==> GetOffset(i) == OffsNull
      ensures data[Extend..] == old(data[Extend..])
    {
      OffsetClass.Create(data, Header);
      SetSize(0);
      forall i | 0 <= i < Base
        ensures GetOffset(i) == OffsNull
      {
        OffsetClass.CreatedIsEmpty(data[Header..Header + OffsetClass.Memory], i);
      }
    }

    /** `le_poly_set_memory`: the links array reallocated to `n` links,
        whatever its current capacity; `allocOk` is the allocator's answer. */
    method SetMemory(n: nat, allocOk: bool) returns (st: Status)
      requires Valid()
      modifies this
      ensures Valid()
      ensures !allocOk ==> st == ErrMemory && capacity == old(capacity) && link == old(link)
      ensures allocOk ==> st == Success && capacity == n && link == Resized(old(link), n)
    {
      if !allocOk {
        return ErrMemory;
      }
      capacity := n;
      link := Resized(link, n);
      st := Success;
    }

    /** `le_poly_set_offset`. */
    method SetOffset(i: nat, v: int)
      requires Valid() && i < Base
      modifies data
      ensures GetOffset(i) == v % Pow256(OffsetBytes)
      ensures forall j :: 0 <= j < Base && j != i ==> GetOffset(j) == old(GetOffset(j))
      ensures GetSize() == old(GetSize())
    {
      ghost var c := data[Header..Header + OffsetClass.Memory];
      OffsetClass.SetOffset(data, Header, i, v);
      assert data[Header..Header + OffsetClass.Memory] == OffsetClass.Set(c, i, v);
      assert data[..Header] == old(data[..Header]);
      OffsetClass.SetThenGetSame(c, i, v);
      forall j | 0 <= j < Base && j != i
        ensures GetOffset(j) == OffsetClass.Get(c, j)
      {
        OffsetClass.SetThenGetOther(c, i, v, j);
      }
    }

    /** The link stored after the last one, and the count grown by one. */
    method Append(size: nat, l: int)
      requires Valid() && size == GetSize() && size < OffsNull
      requires OffsetBytes * size + OffsetBytes <= |link|
      modifies this, data
      ensures Valid() && capacity == old(capacity)
      ensures link == PutLink(old(link), size, l)
      ensures GetSize() == size + 1
      ensures data[Header..] == old(data[Header..])
    {
      link := PutLink(link, size, l);
      SetSize(size + 1);
      Pow256Five();
      LemmaModUnique(size + 1, Pow256(OffsetBytes), 0, size + 1);
    }

    /** `le_poly_set_push`, with the capacity kept when the reallocation
        fails (`PushIntended`): the link is stored after the last one and the
        count grows by one. */
    method SetPush(l: int, allocOk: bool) returns (st: Status)
      requires Valid() && GetSize() <= capacity && GetSize() < OffsNull
      modifies this, data
      ensures Valid() && GetSize() <= capacity
      ensures (st, Links(GetSize(), capacity, |link|))
        == PushIntended(Links(old(GetSize()), old(capacity), OffsetBytes * old(capacity)), allocOk)
      ensures st == Success ==>
        && GetLink(old(GetSize())) == l % Pow256(OffsetBytes)
        && forall k :: 0 <= k < old(GetSize()) ==> GetLink(k) == Link(old(link), k)
      ensures st != Success ==> link == old(link) && data[..] == old(data[..])
      ensures data[Header..] == old(data[Header..])
    {
      var size := GetSize();
      if size == capacity {
        var n := (capacity + 1) * OffsetBytes + WordBytes;
        st := SetMemory(n, allocOk);
        if st != Success {
          return;
        }
      }
      ghost var before := link;
      Append(size, l);
      st := Success;
      LinksAfterPush(old(link), before, size, l);
    }

    /** The links the record announces, read where the stream stands into
        a links array resized to them (`le_poly_io_read_next`). */
    method IoReadNext(s: Stream, allocOk: bool) returns (st: Status)
      requires Valid()
      modifies this, s
      ensures Valid() && s.bytes == old(s.bytes)
      ensures
        var n := old(GetSize());
        var got := ReadAt(old(s.bytes), old(s.pos), OffsetBytes * n);
        if !allocOk then
          st == ErrMemory && link == old(link) && capacity == old(capacity)
        else
          && capacity == n
          && link == Overlay(Resized(old(link), n), 0, got)
          && (st == Success <==> |got| == OffsetBytes * n)
          && (st != Success ==> st == ErrIoRead)
    {
      var n := GetSize();
      st := SetMemory(n, allocOk);
      if st != Success {
        return;
      }
      var got := s.Read(OffsetBytes * n);
      link := got + link[|got|..];
      st := if |got| != OffsetBytes * n then ErrIoRead else Success;
    }

    /** The count, descriptor and stored offsets read where the stream
        stands. */
    method LoadClass(s: Stream) returns (st: Status)
      requires Valid()
      modifies data, s
      ensures s.bytes == old(s.bytes)
      ensures
        var got := ReadAt(old(s.bytes), old(s.pos), Extend);
        if |got| != Extend then
          st == ErrIoRead && data[..] == Overlay(old(data[..]), 0, got)
        else
          var n := OffsetBytes * OffsetClass.Active(got[Header]);
          var body := ReadAt(old(s.bytes), old(s.pos) + Extend, n);
          && data[..] == Overlay(old(data[..]), 0, got + body)
          && (st == Success <==> |body| == n)
          && (st != Success ==> st == ErrIoRead)
          && s.pos == old(s.pos) + Extend + |body|
    {
      ghost var before := data[..];
      var got := s.Read(Extend);
      forall k | 0 <= k < |got| {
        data[k] := got[k];
      }
      forall t | 0 <= t < data.Length
        ensures data[t] == Overlay(before, 0, got)[t]
      {
        OverlayAt(before, 0, got, t);
      }
      ghost var mid := data[..];
      assert mid == Overlay(before, 0, got);
      if |got| != Extend {
        return ErrIoRead;
      }
      assert data[Header] == got[Header];
      st := OffsetClass.IoRead(data, Header, s);
      ghost var body := ReadAt(old(s.bytes), old(s.pos) + Extend, OffsetBytes * OffsetClass.Active(got[Header]));
      assert data[..] == Overlay(mid, Extend, body);
      OverlayTwice(before, 0, got, body);
      assert data[..] == Overlay(before, 0, got + body);
    }

    /** `le_poly_io_read_fast`: count, descriptor and stored offsets of the
        record at `o`; the seek result is ignored. */
    method IoReadFast(o: int, s: Stream) returns (st: Status)
      requires Valid()
      modifies data, s
      ensures s.bytes == old(s.bytes)
      ensures
        var p := SeekPos(old(s.pos), o);
        var got := ReadAt(old(s.bytes), p, Extend);
        if |got| != Extend then
          st == ErrIoRead && data[..] == Overlay(old(data[..]), 0, got)
        else
          var n := OffsetBytes * OffsetClass.Active(got[Header]);
          var body := ReadAt(old(s.bytes), p + Extend, n);
          && data[..] == Overlay(old(data[..]), 0, got + body)
          && (st == Success <==> |body| == n)
          && (st != Success ==> st == ErrIoRead)
          && s.pos == p + Extend + |body|
      ensures var got := ReadAt(old(s.bytes), SeekPos(old(s.pos), o), Extend);
        st == Success ==> |got| == Extend && GetSize() == LeDecode(got[..Header])
    {
      var ok := s.Seek(o);
      ghost var got := ReadAt(s.bytes, s.pos, Extend);
      st := LoadClass(s);
      if st == Success {
        ghost var body := ReadAt(old(s.bytes), SeekPos(old(s.pos), o) + Extend, OffsetBytes * OffsetClass.Active(got[Header]));
        OverlayHead(old(data[..]), got + body, Header);
        assert (got + body)[..Header] == got[..Header];
      }
    }

    /** `le_poly_io_read`: the record at `o` in one go, which is
        `IoReadFast` followed, on success, by `IoReadNext`. */
    method IoRead(o: int, s: Stream, allocOk: bool) returns (st: Status)
      requires Valid()
      modifies this, data, s
      ensures Valid() && s.bytes == old(s.bytes)
      ensures
        var p := SeekPos(old(s.pos), o);
        var got := ReadAt(old(s.bytes), p, Extend);
        if |got| != Extend then
          st == ErrIoRead && data[..] == Overlay(old(data[..]), 0, got) && link == old(link)
        else
          var n := OffsetBytes * OffsetClass.Active(got[Header]);
          var body := ReadAt(old(s.bytes), p + Extend, n);
          && data[..] == Overlay(old(data[..]), 0, got + body)
          && if |body| != n then
               st == ErrIoRead && link == old(link)
             else
               var count := LeDecode(got[..Header]);
               var links := ReadAt(old(s.bytes), p + Extend + n, OffsetBytes * count);
               if !allocOk then
                 st == ErrMemory && link == old(link)
               else
                 && capacity == count
                 && link == Overlay(Resized(old(link), count), 0, links)
                 && (st == Success <==> |links| == OffsetBytes * count)
                 && (st != Success ==> st == ErrIoRead)
    {
      ghost var file, p := s.bytes, SeekPos(s.pos, o);
      ghost var got := ReadAt(file, p, Extend);
      st := IoReadFast(o, s);
      if st != Success {
        return;
      }
      ghost var n := OffsetBytes * OffsetClass.Active(got[Header]);
      ghost var body := ReadAt(file, p + Extend, n);
      assert |got| == Extend && |body| == n;
      ghost var loaded := data[..];
      assert loaded == Overlay(old(data[..]), 0, got + body);
      ghost var count := LeDecode(got[..Header]);
      assert GetSize() == count;
      assert s.pos == p + Extend + n;
      ghost var links := ReadAt(file, p + Extend + n, OffsetBytes * count);
      ghost var before := link;
      assert before == old(link) && s.bytes == file;
      st := IoReadNext(s, allocOk);
      assert data[..] == loaded;
      if allocOk {
        assert capacity == count && link == Overlay(Resized(before, count), 0, links);
      }
    }

    /** The count, the descriptor and the stored offsets written where the
        stream stands. */
    method WriteClass(s: Stream) returns (st: Status)
      requires Valid()
      modifies s
      ensures
        var w := WriteParts(old(s.bytes), old(s.pos), s.limit, ClassParts(data[..]));
        && s.bytes == w.bytes && s.pos == w.pos
        && (st == Success <==> w.complete)
        && (st != Success ==> st == ErrIoWrite)
    {
      ghost var file, p := s.bytes, s.pos;
      var head := data[..Extend];
      ghost var body := OffsetClass.Body(data[Header..]);
      WritePartsPair(file, p, s.limit, head, body);
      ghost var w1 := WriteMore(Written(file, p, true), s.limit, head);
      ghost var w := WriteMore(w1, s.limit, body);
      var n := s.Write(head);
      assert s.bytes == w1.bytes && s.pos == w1.pos && (n == Extend <==> w1.complete);
      if n != Extend {
        return ErrIoWrite;
      }
      assert data[Header..] == data[Header..Header + OffsetClass.Memory];
      st := OffsetClass.IoWrite(data, Header, s);
      assert s.bytes == w.bytes && s.pos == w.pos && (st == Success <==> w.complete);
    }

    /** The whole record written where the stream stands. */
    method WriteRecord(s: Stream) returns (st: Status)
      requires Valid() && OffsetBytes * GetSize() <= |link|
      modifies s
      ensures
        var w := WriteParts(old(s.bytes), old(s.pos), s.limit, RecordParts(data[..], link, GetSize()));
        && s.bytes == w.bytes && s.pos == w.pos
        && (st == Success <==> w.complete)
        && (st != Success ==> st == ErrIoWrite)
    {
      ghost var file, p := s.bytes, s.pos;
      var size := GetSize();
      st := WriteClass(s);
      var links := link[..OffsetBytes * size];
      WritePartsSnoc(file, p, s.limit, ClassParts(data[..]), links);
      if st != Success {
        return ErrIoWrite;
      }
      var k := s.Write(links);
      st := if k != OffsetBytes * size then ErrIoWrite else Success;
    }

    /** `le_poly_io_write`: count and descriptor, stored offsets, then the
        links, at `o` or, with the null offset, where the stream stands. */
    method IoWrite(o: int, s: Stream) returns (st: Status)
      requires Valid() && OffsetBytes * GetSize() <= |link|
      modifies s
      ensures
        var p := if o != OffsNull then SeekPos(old(s.pos), o) else old(s.pos);
        var w := WriteParts(old(s.bytes), p, s.limit, RecordParts(data[..], link, GetSize()));
        && s.bytes == w.bytes && s.pos == w.pos
        && (st == Success <==> w.complete)
        && (st != Success ==> st == ErrIoWrite)
    {
      ghost var p := if o != OffsNull then SeekPos(s.pos, o) else s.pos;
      if o != OffsNull {
        var ok := s.Seek(o);
      }
      assert s.pos == p && s.bytes == old(s.bytes);
      st := WriteRecord(s);
    }
  }

  /** `le_poly_io_offset`: offset `i` of the class of the record at `o`. */
  method IoOffset(o: int, i: nat, s: Stream) returns (v: nat)
    requires i < Base
    modifies s
    ensures v == OffsetClass.IoOffsetOf(old(s.bytes), SeekPos(old(s.pos), o + Header), i)
    ensures s.bytes == old(s.bytes)
  {
    var ok := s.Seek(o + Header);
    v := OffsetClass.IoOffset(i, s);
  }
}
