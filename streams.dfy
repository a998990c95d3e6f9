// A stdio file as the storage core uses it: a sequence of bytes and a cursor.
// `fseek(…, SEEK_SET)` fails on a negative offset and otherwise moves the
// cursor (also past the end of the file); `fread` returns fewer bytes than
// asked at the end of the file; `fwrite` overwrites, extends the file, and
// fills a gap left by a seek past the end with zero bytes. A device that
// cannot hold more than `limit` bytes makes `fwrite` short.

module Streams {
  import opened Common

  function Min(a: nat, b: nat): nat { if a <= b then a else b }
  function Max(a: nat, b: nat): nat { if a <= b then b else a }

  function Zeros(n: nat): (z: seq<byte>)
    ensures |z| == n
    ensures forall i :: 0 <= i < n ==> z[i] == 0
  {
    seq(n, _ => 0)
  }

  /** The bytes `fread` returns when `n` bytes are asked at `pos`. */
  function ReadAt(file: seq<byte>, pos: nat, n: nat): (r: seq<byte>)
    ensures |r| == n <==> n == 0 || pos + n <= |file|
    ensures |r| <= n
  {
    if pos >= |file| then [] else file[pos..Min(pos + n, |file|)]
  }

  /** A read that the file covers is a slice of it. */
  lemma ReadAtSlice(file: seq<byte>, pos: nat, n: nat)
    requires pos + n <= |file|
    ensures ReadAt(file, pos, n) == file[pos..pos + n]
  {
  }

  /** The bytes read are the file's bytes from `pos` on. */
  lemma ReadAtBytes(file: seq<byte>, pos: nat, n: nat)
    ensures forall i :: 0 <= i < |ReadAt(file, pos, n)| ==> pos + i < |file| && ReadAt(file, pos, n)[i] == file[pos + i]
  {
    if pos < |file| {
      var r := file[pos..Min(pos + n, |file|)];
      assert ReadAt(file, pos, n) == r;
      forall i | 0 <= i < |r|
        ensures pos + i < |file| && r[i] == file[pos + i]
      {
      }
    } else {
      assert ReadAt(file, pos, n) == [];
    }
  }

  /** The file after `fwrite` of `d` at `pos`. */
  function WriteAt(file: seq<byte>, pos: nat, d: seq<byte>): (r: seq<byte>)
    ensures d == [] ==> r == file
    ensures d != [] ==> |r| == Max(|file|, pos + |d|)
  {
    if d == [] then file
    else
      var head := if pos <= |file| then file[..pos] else file + Zeros(pos - |file|);
      var tail := if pos + |d| < |file| then file[pos + |d|..] else [];
      head + d + tail
  }

  /** The bytes after a write: `d` at `pos`, the file elsewhere, zeros in
      the gap a write past the end leaves. */
  lemma WriteAtBytes(file: seq<byte>, pos: nat, d: seq<byte>)
    ensures var r := WriteAt(file, pos, d);
      && (forall i :: 0 <= i < |d| ==> r[pos + i] == d[i])
      && (forall i :: 0 <= i < |file| && !(pos <= i < pos + |d|) ==> r[i] == file[i])
      && (forall i :: |file| <= i < pos && i < |r| ==> r[i] == 0)
  {
    if d != [] {
      var r := WriteAt(file, pos, d);
      var head := if pos <= |file| then file[..pos] else file + Zeros(pos - |file|);
      var tail := if pos + |d| < |file| then file[pos + |d|..] else [];
      assert |head| == pos;
      assert r == head + d + tail;
      forall i | 0 <= i < |d|
        ensures r[pos + i] == d[i]
      {
        assert r[pos + i] == (head + d + tail)[pos + i];
      }
      forall i | 0 <= i < |file| && !(pos <= i < pos + |d|)
        ensures r[i] == file[i]
      {
        if i < pos {
          assert r[i] == head[i];
        } else {
          assert r[i] == tail[i - pos - |d|];
        }
      }
      forall i | |file| <= i < pos && i < |r|
        ensures r[i] == 0
      {
        assert r[i] == head[i];
      }
    }
  }

  /** Reading back what was written returns it. */
  lemma ReadWritten(file: seq<byte>, pos: nat, d: seq<byte>)
    ensures ReadAt(WriteAt(file, pos, d), pos, |d|) == d
  {
    var r := ReadAt(WriteAt(file, pos, d), pos, |d|);
    WriteAtBytes(file, pos, d);
    ReadAtBytes(WriteAt(file, pos, d), pos, |d|);
    assert |r| == |d|;
    assert forall i :: 0 <= i < |d| ==> r[i] == d[i];
  }

  /** Reading back part of what was written returns that part. */
  lemma ReadWrittenPart(file: seq<byte>, pos: nat, d: seq<byte>, i: nat, n: nat)
    requires i + n <= |d|
    ensures ReadAt(WriteAt(file, pos, d), pos + i, n) == d[i..i + n]
  {
    var w := WriteAt(file, pos, d);
    ReadWritten(file, pos, d);
    var all := ReadAt(w, pos, |d|);
    ReadAtBytes(w, pos, |d|);
    ReadAtBytes(w, pos + i, n);
    var r := ReadAt(w, pos + i, n);
    assert |r| == n by {
      assert n == 0 || pos + i + n <= |w|;
    }
    forall k | 0 <= k < n
      ensures r[k] == d[i + k]
    {
      assert all[i + k] == w[pos + (i + k)];
    }
  }

  /** Three pieces written together read back one by one. */
  lemma ReadThreeBack(file: seq<byte>, pos: nat, a: seq<byte>, b: seq<byte>, c: seq<byte>)
    ensures
      var f := WriteAt(file, pos, a + b + c);
      && ReadAt(f, pos, |a|) == a
      && ReadAt(f, pos + |a|, |b|) == b
      && ReadAt(f, pos + |a| + |b|, |c|) == c
  {
    var d := a + b + c;
    assert d[..|a|] == a;
    assert d[|a|..|a| + |b|] == b;
    assert d[|a| + |b|..|a| + |b| + |c|] == c;
    ReadWrittenPart(file, pos, d, 0, |a|);
    ReadWrittenPart(file, pos, d, |a|, |b|);
    ReadWrittenPart(file, pos, d, |a| + |b|, |c|);
  }

  /** A write leaves a read of bytes it does not cover unchanged. */
  lemma ReadBesideWrite(file: seq<byte>, pos: nat, d: seq<byte>, q: nat, n: nat)
    requires q + n <= |file|
    requires q + n <= pos || pos + |d| <= q
    ensures ReadAt(WriteAt(file, pos, d), q, n) == ReadAt(file, q, n)
  {
    var w := WriteAt(file, pos, d);
    WriteAtBytes(file, pos, d);
    ReadAtBytes(w, q, n);
    ReadAtBytes(file, q, n);
    assert |w| >= |file|;
    var a, b := ReadAt(w, q, n), ReadAt(file, q, n);
    assert |a| == n && |b| == n;
    assert forall i :: 0 <= i < n ==> a[i] == w[q + i] == file[q + i] == b[i];
  }

  /** The number of bytes a device of capacity `limit` accepts at `pos`. */
  function Writable(pos: nat, n: nat, limit: nat): (k: nat)
    ensures k <= n
    ensures k == n <==> pos + n <= limit || n == 0
  {
    if pos >= limit then 0 else Min(n, limit - pos)
  }

  /** The position an `fseek(…, SEEK_SET)` whose result is ignored leaves. */
  function SeekPos(pos: nat, o: int): nat
  {
    if o >= 0 then o else pos
  }

  /** What a series of `fwrite` calls leaves: the file, the cursor, and
      whether every call wrote all its bytes. */
  datatype Written = Written(bytes: seq<byte>, pos: nat, complete: bool)

  /** The pieces laid end to end. */
  function Concat(parts: seq<seq<byte>>): (r: seq<byte>)
  {
    if parts == [] then [] else Concat(parts[..|parts| - 1]) + parts[|parts| - 1]
  }

  /** One more `fwrite` of `d` where the previous ones stopped, attempted
      only when they all went through. */
  function WriteMore(w: Written, limit: nat, d: seq<byte>): (r: Written)
  {
    if !w.complete then w
    else
      var n := Writable(w.pos, |d|, limit);
      Written(WriteAt(w.bytes, w.pos, d[..n]), w.pos + n, n == |d|)
  }

  /** The pieces written by one `fwrite` each from `pos`, the writer giving
      up after the first call the device cuts short. */
  function WriteParts(file: seq<byte>, pos: nat, limit: nat, parts: seq<seq<byte>>): (w: Written)
    decreases |parts|
  {
    if parts == [] then Written(file, pos, true)
    else WriteMore(WriteParts(file, pos, limit, parts[..|parts| - 1]), limit, parts[|parts| - 1])
  }

  /** One more piece is one more `WriteMore`. */
  lemma WritePartsSnoc(file: seq<byte>, pos: nat, limit: nat, parts: seq<seq<byte>>, d: seq<byte>)
    ensures WriteParts(file, pos, limit, parts + [d]) == WriteMore(WriteParts(file, pos, limit, parts), limit, d)
  {
    assert (parts + [d])[..|parts|] == parts;
  }

  /** Two pieces written one after the other. */
  lemma WritePartsPair(file: seq<byte>, pos: nat, limit: nat, a: seq<byte>, b: seq<byte>)
    ensures WriteParts(file, pos, limit, [a, b]) == WriteMore(WriteMore(Written(file, pos, true), limit, a), limit, b)
  {
    WritePartsSnoc(file, pos, limit, [], a);
    assert [] + [a] == [a];
    WritePartsSnoc(file, pos, limit, [a], b);
    assert [a] + [b] == [a, b];
  }

  /** One byte of the file after a write. */
  lemma WriteAtByte(file: seq<byte>, pos: nat, d: seq<byte>, i: nat)
    requires i < |WriteAt(file, pos, d)|
    ensures WriteAt(file, pos, d)[i] ==
      if pos <= i < pos + |d| then d[i - pos] else if i < |file| then file[i] else 0
  {
    WriteAtBytes(file, pos, d);
    if pos <= i < pos + |d| {
      assert WriteAt(file, pos, d)[pos + (i - pos)] == d[i - pos];
    }
  }

  /** Two writes, the second where the first stopped, are one write of
      both. */
  lemma WriteAtAppend(file: seq<byte>, pos: nat, a: seq<byte>, b: seq<byte>)
    ensures WriteAt(WriteAt(file, pos, a), pos + |a|, b) == WriteAt(file, pos, a + b)
  {
    if a == [] {
      assert a + b == b;
    } else if b == [] {
      assert a + b == a;
    } else {
      var w1 := WriteAt(file, pos, a);
      var l := WriteAt(w1, pos + |a|, b);
      var r := WriteAt(file, pos, a + b);
      assert |l| == |r|;
      forall i | 0 <= i < |l|
        ensures l[i] == r[i]
      {
        WriteAtByte(w1, pos + |a|, b, i);
        WriteAtByte(file, pos, a + b, i);
        if i < |w1| {
          WriteAtByte(file, pos, a, i);
        }
      }
    }
  }

  /** On a device with room for all of them, the pieces written one by one
      are the whole written at once. */
  lemma {:induction false} WritePartsWhole(file: seq<byte>, pos: nat, limit: nat, parts: seq<seq<byte>>)
    requires pos + |Concat(parts)| <= limit
    ensures WriteParts(file, pos, limit, parts) == Written(WriteAt(file, pos, Concat(parts)), pos + |Concat(parts)|, true)
    decreases |parts|
  {
    if parts != [] {
      var init, d := parts[..|parts| - 1], parts[|parts| - 1];
      var c := Concat(init);
      WritePartsWhole(file, pos, limit, init);
      assert Writable(pos + |c|, |d|, limit) == |d|;
      assert d[..|d|] == d;
      WriteAtAppend(file, pos, c, d);
    }
  }

  /** An open stream (`le_file_t`). */
  class Stream {
    var bytes: seq<byte>
    var pos: nat
    const limit: nat

    constructor Open(content: seq<byte>, capacity: nat)
      ensures bytes == content && pos == 0 && limit == capacity
    {
      bytes := content;
      pos := 0;
      limit := capacity;
    }

    /** `fseek(stream, o, SEEK_SET)`: zero on success. */
    method Seek(o: int) returns (ok: bool)
      modifies this
      ensures ok <==> o >= 0
      ensures bytes == old(bytes)
      ensures pos == if ok then o else old(pos)
    {
      ok := o >= 0;
      if ok {
        pos := o;
      }
    }

    /** `fseek(stream, n, SEEK_CUR)`. */
    method Skip(n: nat)
      modifies this
      ensures bytes == old(bytes) && pos == old(pos) + n
    {
      pos := pos + n;
    }

    /** `fseek(stream, 0, SEEK_END)`. */
    method SeekEnd()
      modifies this
      ensures bytes == old(bytes) && pos == |bytes|
    {
      pos := |bytes|;
    }

    /** `ftell(stream)`. */
    function Tell(): nat
      reads this
    {
      pos
    }

    /** `fread(buffer, 1, n, stream)`: the bytes actually read. */
    method Read(n: nat) returns (got: seq<byte>)
      modifies this
      ensures got == ReadAt(old(bytes), old(pos), n)
      ensures bytes == old(bytes) && pos == old(pos) + |got|
    {
      got := ReadAt(bytes, pos, n);
      pos := pos + |got|;
    }

    /** `fwrite(d, 1, |d|, stream)`: the number of bytes written. */
    method Write(d: seq<byte>) returns (count: nat)
      modifies this
      ensures count == Writable(old(pos), |d|, limit)
      ensures bytes == WriteAt(old(bytes), old(pos), d[..count])
      ensures pos == old(pos) + count
    {
      count := Writable(pos, |d|, limit);
      bytes := WriteAt(bytes, pos, d[..count]);
      pos := pos + count;
    }
  }
}
