// The octree walks of eratosthene-system.c and eratosthene-server.c over the
// scale files of one time bucket. Scale file k holds the fixed-length node
// records of depth k; the root is the record at offset 0 of scale 0, and a
// non-null child offset of a record of scale k is a position in scale k + 1.
// The files are the byte sequences the scale streams hold; each node access
// seeks to the record and reads or writes `ClassArray` bytes, as the record
// functions of FixedClass describe.

module Walks {
  import opened Common
  import opened Streams
  import opened FixedClass

  /** The buffer of `LE_CLASS_C`: all bytes zero. */
  function Blank(): (c: seq<byte>)
    ensures |c| == ClassMemory
    ensures forall i :: 0 <= i < ClassMemory ==> c[i] == 0
  {
    Zeros(ClassMemory)
  }

  /** The buffer after `le_class_io_read(c, o, file)`: the bytes read replace
      the head of the buffer, even when the read is short, and the rest of
      the buffer is kept. */
  function Load(file: seq<byte>, o: nat, c: seq<byte>): (r: seq<byte>)
    requires |c| == ClassMemory
    ensures |r| == ClassMemory
    ensures ReadRecord(file, o).Some? ==> r[..ClassArray] == file[o..o + ClassArray]
    ensures ReadRecord(file, o).Some? ==> r[ClassArray..] == c[ClassArray..]
  {
    var got := ReadAt(file, o, ClassArray);
    got + c[|got|..]
  }

  /** The digits of an address deep enough for `n` scales, each below the
      base. */
  predicate Digits(digits: seq<nat>, n: nat)
  {
    |digits| >= n && forall i :: 0 <= i < |digits| ==> digits[i] < Base
  }

  /** Slot `d` of the record at offset `o` of a scale file. */
  function SlotAt(file: seq<byte>, o: nat, d: nat): (v: nat)
    requires o + ClassArray <= |file| && d < Base
    ensures v <= OffsNull
  {
    Slot(file[o..o + ClassArray], d)
  }

  /** The slots of a buffer are the slots of the record it writes. */
  lemma SlotOfRecord(c: seq<byte>, d: nat)
    requires |c| == ClassMemory && d < Base
    ensures Slot(c[..ClassArray], d) == Slot(c, d)
  {
    assert c[..ClassArray][SlotPos(d)..SlotPos(d) + OffsetBytes] == c[SlotPos(d)..SlotPos(d) + OffsetBytes];
  }

  // ---------------------------------------------------------------------
  // Injection

  /** The node the injection holds after visiting offset `off` of a scale
      file: the record found there with the sample pushed into it, or a node
      created from the sample when no complete record is there. */
  function Visit(file: seq<byte>, off: nat, c: seq<byte>, rgb: seq<byte>): (r: seq<byte>)
    requires |c| == ClassMemory && |rgb| == 3
    ensures |r| == ClassMemory
  {
    if ReadRecord(file, off).Some? then PushBytes(Load(file, off, c), rgb) else Created(rgb)
  }

  /** Whether the visit of scale `k` allocates the child of digit `d`: the
      child is missing and a next scale exists. */
  predicate Allocates(files: seq<seq<byte>>, k: nat, node: seq<byte>, d: nat)
    requires k < |files| && |node| == ClassMemory && d < Base
  {
    Slot(node, d) == OffsNull && k + 1 < |files|
  }

  /** The node written back at scale `k`: a missing child of digit `d` is
      given the end of the next scale file. */
  function Linked(files: seq<seq<byte>>, k: nat, node: seq<byte>, d: nat): (r: seq<byte>)
    requires k < |files| && |node| == ClassMemory && d < Base
    ensures |r| == ClassMemory
  {
    if Allocates(files, k, node, d) then SetOffsetBytes(node, d, |files[k + 1]|) else node
  }

  /** The offset the injection visits at scale `k + 1`. */
  function Next(files: seq<seq<byte>>, k: nat, node: seq<byte>, d: nat): nat
    requires k < |files| && |node| == ClassMemory && d < Base
  {
    if Allocates(files, k, node, d) then |files[k + 1]| else Slot(node, d)
  }

  /** The scale files after the injection of a sample of colour `rgb` at the
      address `digits`, from scale `k` where the walk visits offset `off`
      holding buffer `c` (`le_system_inject`, `le_server_inject`). */
  function InjectFrom(files: seq<seq<byte>>, k: nat, off: nat, c: seq<byte>, digits: seq<nat>, rgb: seq<byte>): (r: seq<seq<byte>>)
    requires k < |files| && |c| == ClassMemory && |rgb| == 3 && Digits(digits, |files|)
    ensures |r| == |files|
    decreases |files| - k
  {
    var node := Visit(files[k], off, c, rgb);
    var d := digits[k];
    var node' := Linked(files, k, node, d);
    var files' := files[k := WriteAt(files[k], off, node'[..ClassArray])];
    if k + 1 < |files| then InjectFrom(files', k + 1, Next(files, k, node, d), node', digits, rgb) else files'
  }

  /** The injection of a sample into the scale files, from the root. */
  function Inject(files: seq<seq<byte>>, digits: seq<nat>, rgb: seq<byte>): (r: seq<seq<byte>>)
    requires |files| > 0 && |rgb| == 3 && Digits(digits, |files|)
    ensures |r| == |files|
  {
    InjectFrom(files, 0, 0, Blank(), digits, rgb)
  }

  /** The injection loop of `le_system_inject`: one node read, updated and
      written back per scale, the child offset carried to the next scale. */
  method InjectWalk(files: seq<seq<byte>>, digits: seq<nat>, rgb: seq<byte>) returns (r: seq<seq<byte>>)
    requires |files| > 0 && |rgb| == 3 && Digits(digits, |files|)
    ensures r == Inject(files, digits, rgb)
  {
    r := files;
    var c := Blank();
    var parse := 0;
    var offnex: nat := 0;
    while parse < |r|
      invariant |r| == |files| && parse <= |r| && |c| == ClassMemory
      invariant parse < |r| ==> InjectFrom(r, parse, offnex, c, digits, rgb) == Inject(files, digits, rgb)
      invariant parse == |r| ==> r == Inject(files, digits, rgb)
      decreases |r| - parse
    {
      var file := r[parse];
      if ReadRecord(file, offnex).Some? {
        c := PushBytes(Load(file, offnex, c), rgb);
      } else {
        c := Created(rgb);
      }
      var d := digits[parse];
      var offset: nat := Slot(c, d);
      if offset == OffsNull && parse + 1 < |r| {
        offset := |r[parse + 1]|;
        c := SetOffsetBytes(c, d, offset);
      }
      r := r[parse := WriteAt(file, offnex, c[..ClassArray])];
      offnex := offset;
      parse := parse + 1;
    }
  }

  /** The injection leaves the scales above `k` as they are. */
  lemma {:induction false} InjectKeepsAbove(files: seq<seq<byte>>, k: nat, off: nat, c: seq<byte>, digits: seq<nat>, rgb: seq<byte>, j: nat)
    requires k < |files| && |c| == ClassMemory && |rgb| == 3 && Digits(digits, |files|)
    requires j < k
    ensures InjectFrom(files, k, off, c, digits, rgb)[j] == files[j]
    decreases |files| - k
  {
    var node := Visit(files[k], off, c, rgb);
    var d := digits[k];
    var node' := Linked(files, k, node, d);
    var files' := files[k := WriteAt(files[k], off, node'[..ClassArray])];
    if k + 1 < |files| {
      InjectKeepsAbove(files', k + 1, Next(files, k, node, d), node', digits, rgb, j);
    }
  }

  // ---------------------------------------------------------------------
  // Reading the tree

  /** A node found by a query: the address digits of the node and its
      colour. */
  datatype Hit = Hit(path: seq<nat>, rgb: seq<byte>)

  /** The offset, in scale `size`, of the node reached from offset `off` of
      scale `k` by following `digits`: none when a node on the way is
      missing or a child offset is null. */
  function Locate(files: seq<seq<byte>>, digits: seq<nat>, size: nat, k: nat, off: nat): (r: Option<nat>)
    requires k <= size < |files| && Digits(digits, |files|)
    ensures r.Some? ==> ReadRecord(files[size], r.value).Some?
    decreases size - k
  {
    match ReadRecord(files[k], off)
    case None => None
    case Some(rec) =>
      if k == size then Some(off)
      else
        var v := Slot(rec, digits[k]);
        if v == OffsNull then None else Locate(files, digits, size, k + 1, v)
  }

  /** Locating from a node of the target scale finds that node. */
  lemma LocateHere(files: seq<seq<byte>>, digits: seq<nat>, size: nat, off: nat, rec: seq<byte>)
    requires size < |files| && Digits(digits, |files|)
    requires ReadRecord(files[size], off) == Some(rec)
    ensures Locate(files, digits, size, size, off) == Some(off)
  {
  }

  /** Locating from a node above the target scale goes on from its child
      for the next digit. */
  lemma LocateStep(files: seq<seq<byte>>, digits: seq<nat>, size: nat, k: nat, off: nat, rec: seq<byte>)
    requires k < size < |files| && Digits(digits, |files|)
    requires ReadRecord(files[k], off) == Some(rec) && Slot(rec, digits[k]) != OffsNull
    ensures Locate(files, digits, size, k, off) == Locate(files, digits, size, k + 1, Slot(rec, digits[k]))
  {
  }

  /** The nodes of scale `target` below the node at offset `off` of scale
      `k` whose address starts with `path`, in ascending digit order. */
  function Reached(files: seq<seq<byte>>, k: nat, off: nat, path: seq<nat>, target: nat): (r: seq<Hit>)
    requires k <= target < |files|
    decreases target - k, Base + 1
  {
    match ReadRecord(files[k], off)
    case None => []
    case Some(rec) =>
      if k == target then [Hit(path, Colour(rec))] else ReachedFrom(files, k, rec, path, target, 0)
  }

  /** The nodes of scale `target` below the children `d` and up of the
      record `rec` of scale `k`. */
  function ReachedFrom(files: seq<seq<byte>>, k: nat, rec: seq<byte>, path: seq<nat>, target: nat, d: nat): (r: seq<Hit>)
    requires k < target < |files| && |rec| == ClassArray && d <= Base
    decreases target - k, Base - d
  {
    if d == Base then []
    else
      var v := Slot(rec, d);
      (if v == OffsNull then [] else Reached(files, k + 1, v, path + [d], target))
      + ReachedFrom(files, k, rec, path, target, d + 1)
  }

  /** What a query of the address `digits[..size]` with span `span`
      answers: every node `span` scales below the node of the address. */
  function Answer(files: seq<seq<byte>>, digits: seq<nat>, size: nat, span: nat): (r: seq<Hit>)
    requires Digits(digits, |files|)
  {
    if size + span >= |files| then []
    else
      match Locate(files, digits, size, 0, 0)
      case None => []
      case Some(o) => Reached(files, size, o, digits[..size], size + span)
  }

  /** Every node reached carries an address of `target` digits that extends
      `path`. */
  lemma {:induction false} ReachedPaths(files: seq<seq<byte>>, k: nat, off: nat, path: seq<nat>, target: nat)
    requires k <= target < |files| && |path| == k
    ensures forall h :: h in Reached(files, k, off, path, target) ==> |h.path| == target && h.path[..k] == path
    decreases target - k, Base + 1
  {
    match ReadRecord(files[k], off)
    case None =>
    case Some(rec) =>
      if k < target {
        ReachedFromPaths(files, k, rec, path, target, 0);
      }
  }

  lemma {:induction false} ReachedFromPaths(files: seq<seq<byte>>, k: nat, rec: seq<byte>, path: seq<nat>, target: nat, d: nat)
    requires k < target < |files| && |rec| == ClassArray && d <= Base && |path| == k
    ensures forall h :: h in ReachedFrom(files, k, rec, path, target, d) ==> |h.path| == target && h.path[..k] == path
    decreases target - k, Base - d
  {
    if d < Base {
      var v := Slot(rec, d);
      if v != OffsNull {
        ReachedPaths(files, k + 1, v, path + [d], target);
        forall h | h in Reached(files, k + 1, v, path + [d], target)
          ensures h.path[..k] == path
        {
          assert h.path[..k] == h.path[..k + 1][..k];
        }
      }
      ReachedFromPaths(files, k, rec, path, target, d + 1);
    }
  }

  // ---------------------------------------------------------------------
  // The query of eratosthene-system.c

  /** The node buffer the descent of `le_system_query` ends with at scale
      `size`, from offset `off` of scale `depth`: none when a read fails or
      a child on the address is null. */
  function Descend(files: seq<seq<byte>>, digits: seq<nat>, size: nat, depth: nat, off: nat, c: seq<byte>): (r: Option<seq<byte>>)
    requires depth <= size < |files| && |c| == ClassMemory && Digits(digits, |files|)
    ensures r.Some? ==> |r.value| == ClassMemory
    decreases size - depth
  {
    if ReadRecord(files[depth], off).None? then None
    else
      var c' := Load(files[depth], off, c);
      if depth == size then Some(c')
      else
        var v := Slot(c', digits[depth]);
        if v == OffsNull then None else Descend(files, digits, size, depth + 1, v, c')
  }

  /** The representatives `le_system_query_gather` emits below the node
      held in `c` at scale `head`. */
  function Gather(files: seq<seq<byte>>, c: seq<byte>, path: seq<nat>, head: nat, target: nat): (r: seq<Hit>)
    requires |c| == ClassMemory && head <= target < |files|
    decreases target - head, Base + 1
  {
    if head < target then GatherFrom(files, c[..ClassArray], path, head, target, 0, Blank()) else [Hit(path, Colour(c))]
  }

  /** The daughters `d` and up of the gathering loop, whose daughter
      offsets come from the record part `rec` of the node buffer. The
      daughter buffer `clnex` is shared by the iterations and the result of
      its read is not looked at: a failed read leaves the previous
      daughter's bytes in it. */
  function GatherFrom(files: seq<seq<byte>>, rec: seq<byte>, path: seq<nat>, head: nat, target: nat, d: nat, clnex: seq<byte>): (r: seq<Hit>)
    requires |rec| == ClassArray && |clnex| == ClassMemory && head < target < |files| && d <= Base
    decreases target - head, Base - d
  {
    if d == Base then []
    else
      var v := Slot(rec, d);
      if v == OffsNull then GatherFrom(files, rec, path, head, target, d + 1, clnex)
      else
        var n := Load(files[head + 1], v, clnex);
        Gather(files, n, path + [d], head + 1, target) + GatherFrom(files, rec, path, head, target, d + 1, n)
  }

  /** The answer of `le_system_query` once the bucket is open. */
  function SystemAnswer(files: seq<seq<byte>>, digits: seq<nat>, size: nat, span: nat): (r: seq<Hit>)
    requires Digits(digits, |files|)
  {
    if size + span >= |files| then []
    else
      match Descend(files, digits, size, 0, 0, Blank())
      case None => []
      case Some(c) => Gather(files, c, digits[..size], size, size + span)
  }

  /** The descent finds a node exactly where the address leads, and holds
      that node's record. */
  lemma {:induction false} DescendLocate(files: seq<seq<byte>>, digits: seq<nat>, size: nat, depth: nat, off: nat, c: seq<byte>)
    requires depth <= size < |files| && |c| == ClassMemory && Digits(digits, |files|)
    ensures Descend(files, digits, size, depth, off, c).Some? <==> Locate(files, digits, size, depth, off).Some?
    ensures Locate(files, digits, size, depth, off).Some? ==>
      var o := Locate(files, digits, size, depth, off).value;
      Descend(files, digits, size, depth, off, c).value[..ClassArray] == files[size][o..o + ClassArray]
    decreases size - depth
  {
    if ReadRecord(files[depth], off).Some? && depth < size {
      var c' := Load(files[depth], off, c);
      var rec := files[depth][off..off + ClassArray];
      assert c'[..ClassArray] == rec;
      SlotOfRecord(c', digits[depth]);
      DescendLocate(files, digits, size, depth + 1, Slot(c', digits[depth]), c');
    }
  }

  // ---------------------------------------------------------------------
  // Well-formed scale files

  /** A record of a scale file starts at a multiple of the record length. */
  predicate RecordStart(file: seq<byte>, o: nat)
  {
    o % ClassArray == 0 && o + ClassArray <= |file|
  }

  /** A child offset `v` stored in scale `j` is null or the start of a
      record of scale `j + 1`; while the injection is between scales, it may
      also be the end of scale `k`, the offset `off` where the injection
      appends the child next. */
  predicate Pointer(files: seq<seq<byte>>, j: nat, v: nat, k: nat, off: nat)
    requires j < |files|
  {
    || v == OffsNull
    || (j + 1 < |files| && RecordStart(files[j + 1], v))
    || (j + 1 == k < |files| && v == off == |files[k]|)
  }

  /** Every scale file holds whole records, and every child offset is a
      pointer in the sense above. */
  ghost predicate LinkedBut(files: seq<seq<byte>>, k: nat, off: nat)
  {
    && (forall j :: 0 <= j < |files| ==> |files[j]| % ClassArray == 0)
    && (forall j: nat, o: nat, d: nat :: j < |files| && RecordStart(files[j], o) && d < Base ==>
          Pointer(files, j, SlotAt(files[j], o, d), k, off))
  }

  /** Scale files with nothing pending: every non-null child offset of
      scale `j` is the start of a record of scale `j + 1`, and the last
      scale has no children. */
  ghost predicate WellFormed(files: seq<seq<byte>>)
  {
    LinkedBut(files, |files|, 0)
  }

  /** Records starting at distinct multiples of the record length do not
      overlap. */
  lemma Disjoint(o: nat, p: nat)
    requires o % ClassArray == 0 && p % ClassArray == 0 && o != p
    ensures o + ClassArray <= p || p + ClassArray <= o
  {
    var a, b := o / ClassArray, p / ClassArray;
    assert o == ClassArray * a && p == ClassArray * b;
    if a < b {
      assert ClassArray * a + ClassArray <= ClassArray * b;
    } else {
      assert ClassArray * b + ClassArray <= ClassArray * a;
    }
  }

  /** In well-formed files the child offsets of a record are null or start
      a record of the next scale. */
  lemma ChildOfWellFormed(files: seq<seq<byte>>, j: nat, o: nat, d: nat)
    requires WellFormed(files) && j < |files| && RecordStart(files[j], o) && d < Base
    ensures SlotAt(files[j], o, d) == OffsNull || (j + 1 < |files| && RecordStart(files[j + 1], SlotAt(files[j], o, d)))
  {
  }

  /** On well-formed files, the offset the address leads to starts a record. */
  lemma {:induction false} LocateAligned(files: seq<seq<byte>>, digits: seq<nat>, size: nat, k: nat, off: nat)
    requires k <= size < |files| && Digits(digits, |files|)
    requires WellFormed(files) && off % ClassArray == 0
    ensures Locate(files, digits, size, k, off).Some? ==> RecordStart(files[size], Locate(files, digits, size, k, off).value)
    decreases size - k
  {
    if ReadRecord(files[k], off).Some? && k < size {
      var rec := files[k][off..off + ClassArray];
      var v := Slot(rec, digits[k]);
      assert v == SlotAt(files[k], off, digits[k]);
      if v != OffsNull {
        ChildOfWellFormed(files, k, off, digits[k]);
        LocateAligned(files, digits, size, k + 1, v);
      }
    }
  }

  /** The gathering reads only the record part of its node buffer. */
  lemma GatherPrefix(files: seq<seq<byte>>, c: seq<byte>, c': seq<byte>, path: seq<nat>, head: nat, target: nat)
    requires |c| == ClassMemory && |c'| == ClassMemory && head <= target < |files|
    requires c[..ClassArray] == c'[..ClassArray]
    ensures Gather(files, c, path, head, target) == Gather(files, c', path, head, target)
  {
    assert Colour(c) == c[..ClassArray][..3];
    assert Colour(c') == c'[..ClassArray][..3];
  }

  /** Daughter `d` of `c` is null, or a record of the next scale below
      which the gathering emits what the tree holds. */
  predicate ChildReached(files: seq<seq<byte>>, rec: seq<byte>, path: seq<nat>, head: nat, target: nat, d: nat)
    requires |rec| == ClassArray && head < target < |files| && d < Base
  {
    var v := Slot(rec, d);
    || v == OffsNull
    || (&& RecordStart(files[head + 1], v)
        && Gather(files, Load(files[head + 1], v, Blank()), path + [d], head + 1, target)
           == Reached(files, head + 1, v, path + [d], target))
  }

  /** `ChildReached` for the daughters `d` and up. */
  predicate ChildrenFrom(files: seq<seq<byte>>, rec: seq<byte>, path: seq<nat>, head: nat, target: nat, d: nat)
    requires |rec| == ClassArray && head < target < |files| && d <= Base
    decreases Base - d
  {
    d == Base || (ChildReached(files, rec, path, head, target, d) && ChildrenFrom(files, rec, path, head, target, d + 1))
  }

  /** On well-formed files the gathering reads every daughter it descends
      to, so its stale daughter buffer never shows: it emits exactly the
      nodes the tree holds. */
  lemma {:induction false} GatherReached(files: seq<seq<byte>>, c: seq<byte>, path: seq<nat>, head: nat, target: nat, off: nat)
    requires WellFormed(files) && head <= target < |files|
    requires |c| == ClassMemory && RecordStart(files[head], off)
    requires c[..ClassArray] == files[head][off..off + ClassArray]
    ensures Gather(files, c, path, head, target) == Reached(files, head, off, path, target)
    decreases target - head, Base + 1
  {
    var rec := files[head][off..off + ClassArray];
    assert ReadRecord(files[head], off) == Some(rec);
    if head < target {
      ChildrenWellFormed(files, rec, path, head, target, off, 0);
      GatherFromReached(files, rec, path, head, target, 0, Blank());
    } else {
      assert Colour(c) == c[..ClassArray][..3];
    }
  }

  /** On well-formed files every daughter of a record is reached right. */
  lemma {:induction false} ChildrenWellFormed(files: seq<seq<byte>>, rec: seq<byte>, path: seq<nat>, head: nat, target: nat, off: nat, d: nat)
    requires WellFormed(files) && head < target < |files| && d <= Base
    requires RecordStart(files[head], off) && rec == files[head][off..off + ClassArray]
    ensures ChildrenFrom(files, rec, path, head, target, d)
    decreases target - head, Base - d
  {
    if d < Base {
      var v := Slot(rec, d);
      if v != OffsNull {
        assert v == SlotAt(files[head], off, d);
        ChildOfWellFormed(files, head, off, d);
        GatherReached(files, Load(files[head + 1], v, Blank()), path + [d], head + 1, target, v);
      }
      ChildrenWellFormed(files, rec, path, head, target, off, d + 1);
    }
  }

  /** The daughters `d` and up: when the daughters are reached right, the
      gathering loop emits what the tree holds, whatever its stale buffer. */
  lemma {:induction false} GatherFromReached(files: seq<seq<byte>>, rec: seq<byte>, path: seq<nat>, head: nat, target: nat, d: nat, clnex: seq<byte>)
    requires head < target < |files| && d <= Base
    requires |rec| == ClassArray && |clnex| == ClassMemory
    requires ChildrenFrom(files, rec, path, head, target, d)
    ensures GatherFrom(files, rec, path, head, target, d, clnex) == ReachedFrom(files, head, rec, path, target, d)
    decreases Base - d
  {
    var g := GatherFrom(files, rec, path, head, target, d, clnex);
    var r := ReachedFrom(files, head, rec, path, target, d);
    if d == Base {
      assert g == r;
    } else if Slot(rec, d) == OffsNull {
      GatherFromReached(files, rec, path, head, target, d + 1, clnex);
      assert r == [] + ReachedFrom(files, head, rec, path, target, d + 1);
      assert g == r;
    } else {
      var v := Slot(rec, d);
      var n := Load(files[head + 1], v, clnex);
      GatherChildReached(files, rec, path, head, target, d, clnex);
      GatherFromReached(files, rec, path, head, target, d + 1, n);
      assert g == Gather(files, n, path + [d], head + 1, target) + GatherFrom(files, rec, path, head, target, d + 1, n);
      assert r == Reached(files, head + 1, v, path + [d], target) + ReachedFrom(files, head, rec, path, target, d + 1);
      assert g == r;
    }
  }

  /** A non-null daughter whose gathering from a blank buffer emits what
      the tree holds does so from any buffer. */
  lemma GatherChildReached(files: seq<seq<byte>>, rec: seq<byte>, path: seq<nat>, head: nat, target: nat, d: nat, clnex: seq<byte>)
    requires head < target < |files| && d < Base
    requires |rec| == ClassArray && |clnex| == ClassMemory
    requires Slot(rec, d) != OffsNull && ChildReached(files, rec, path, head, target, d)
    ensures var v := Slot(rec, d);
      Gather(files, Load(files[head + 1], v, clnex), path + [d], head + 1, target)
        == Reached(files, head + 1, v, path + [d], target)
  {
    var v := Slot(rec, d);
    var n := Load(files[head + 1], v, clnex);
    var b := Load(files[head + 1], v, Blank());
    assert ReadRecord(files[head + 1], v).Some?;
    GatherPrefix(files, n, b, path + [d], head + 1, target);
  }

  /** On well-formed files `le_system_query` answers what the tree holds. */
  lemma SystemAnswerAgrees(files: seq<seq<byte>>, digits: seq<nat>, size: nat, span: nat)
    requires Digits(digits, |files|) && WellFormed(files)
    ensures SystemAnswer(files, digits, size, span) == Answer(files, digits, size, span)
  {
    if size + span < |files| {
      DescendLocate(files, digits, size, 0, 0, Blank());
      LocateAligned(files, digits, size, 0, 0);
      match Locate(files, digits, size, 0, 0)
      case None =>
      case Some(o) =>
        var c := Descend(files, digits, size, 0, 0, Blank()).value;
        GatherReached(files, c, digits[..size], size, size + span, o);
        assert SystemAnswer(files, digits, size, span) == Gather(files, c, digits[..size], size, size + span);
        assert Answer(files, digits, size, span) == Reached(files, size, o, digits[..size], size + span);
    }
  }

  // ---------------------------------------------------------------------
  // What an injection leaves behind

  /** After an injection from scale `k`, the address leads to a node at
      every scale from `k` down, in any files `f` that agree with the
      injection from scale `k` down. */
  lemma {:induction false} LocateInjected(f: seq<seq<byte>>, files: seq<seq<byte>>, k: nat, off: nat, c: seq<byte>, digits: seq<nat>, rgb: seq<byte>)
    requires k < |files| && |c| == ClassMemory && |rgb| == 3 && Digits(digits, |files|)
    requires forall i :: k < i < |files| ==> |files[i]| < OffsNull
    requires |f| == |files| && f[k..] == InjectFrom(files, k, off, c, digits, rgb)[k..]
    ensures Locate(f, digits, |f| - 1, k, off).Some?
    decreases |files| - k
  {
    var g := InjectFrom(files, k, off, c, digits, rgb);
    var rec, files', node' := InjectedRecord(files, k, off, c, digits, rgb);
    assert f[k] == f[k..][0] == g[k..][0] == g[k];
    if k + 1 < |files| {
      var nx := Slot(rec, digits[k]);
      var g' := InjectFrom(files', k + 1, nx, node', digits, rgb);
      assert f[k + 1..] == f[k..][1..] == g[k..][1..] == g'[k + 1..];
      LocateInjected(f, files', k + 1, nx, node', digits, rgb);
      LocateStep(f, digits, |f| - 1, k, off, rec);
    } else {
      LocateHere(f, digits, k, off, rec);
    }
  }

  /** One step of the injection: the record written at scale `k` reads
      back, and below the last scale the injection goes on from the offset
      in its slot for the next digit, which is not null. */
  lemma InjectedRecord(files: seq<seq<byte>>, k: nat, off: nat, c: seq<byte>, digits: seq<nat>, rgb: seq<byte>)
      returns (rec: seq<byte>, files': seq<seq<byte>>, node': seq<byte>)
    requires k < |files| && |c| == ClassMemory && |rgb| == 3 && Digits(digits, |files|)
    requires forall i :: k < i < |files| ==> |files[i]| < OffsNull
    ensures ReadRecord(InjectFrom(files, k, off, c, digits, rgb)[k], off) == Some(rec)
    ensures |files'| == |files| && |node'| == ClassMemory
    ensures forall i :: k < i < |files| ==> files'[i] == files[i]
    ensures k + 1 < |files| ==>
      && Slot(rec, digits[k]) != OffsNull
      && InjectFrom(files, k, off, c, digits, rgb) == InjectFrom(files', k + 1, Slot(rec, digits[k]), node', digits, rgb)
  {
    var f := InjectFrom(files, k, off, c, digits, rgb);
    var node := Visit(files[k], off, c, rgb);
    var d := digits[k];
    node' := Linked(files, k, node, d);
    rec := node'[..ClassArray];
    files' := files[k := WriteAt(files[k], off, rec)];
    RecordRoundTrip(files[k], off, rec);
    if k + 1 < |files| {
      var nx := Next(files, k, node, d);
      assert f == InjectFrom(files', k + 1, nx, node', digits, rgb);
      InjectKeepsAbove(files', k + 1, nx, node', digits, rgb, k);
      assert Slot(rec, d) == nx && nx != OffsNull by {
        SlotOfRecord(node', d);
        if Allocates(files, k, node, d) {
          SetOffsetThenSlot(node, d, |files[k + 1]|, d);
        }
      }
    } else {
      assert f == files';
    }
  }

  /** A query of the full address of an injected sample, with no span,
      answers exactly one node, at that address. */
  lemma InjectFound(files: seq<seq<byte>>, digits: seq<nat>, rgb: seq<byte>)
    requires |files| > 0 && |rgb| == 3 && Digits(digits, |files|)
    requires forall i :: 0 < i < |files| ==> |files[i]| < OffsNull
    ensures |Answer(Inject(files, digits, rgb), digits, |files| - 1, 0)| == 1
    ensures Answer(Inject(files, digits, rgb), digits, |files| - 1, 0)[0].path == digits[..|files| - 1]
  {
    var f := Inject(files, digits, rgb);
    LocateInjected(f, files, 0, 0, Blank(), digits, rgb);
  }

  /** Well-formed files are linked whatever is declared pending. */
  lemma WellFormedLinked(files: seq<seq<byte>>, k: nat, off: nat)
    requires WellFormed(files)
    ensures LinkedBut(files, k, off)
  {
    forall j: nat, o: nat, d: nat | j < |files| && RecordStart(files[j], o) && d < Base
      ensures Pointer(files, j, SlotAt(files[j], o, d), k, off)
    {
      assert Pointer(files, j, SlotAt(files[j], o, d), |files|, 0);
    }
  }

  /** Nothing can be pending past the last scale. */
  lemma LinkedDone(files: seq<seq<byte>>, off: nat)
    requires LinkedBut(files, |files|, off)
    ensures WellFormed(files)
  {
    forall j: nat, o: nat, d: nat | j < |files| && RecordStart(files[j], o) && d < Base
      ensures Pointer(files, j, SlotAt(files[j], o, d), |files|, 0)
    {
      assert Pointer(files, j, SlotAt(files[j], o, d), |files|, off);
    }
  }

  /** The children of the node the injection holds at scale `k` are null
      or records of scale `k + 1`: they come from the record found there or
      from a created node. */
  lemma VisitChild(files: seq<seq<byte>>, k: nat, off: nat, c: seq<byte>, rgb: seq<byte>, e: nat)
    requires k < |files| && |c| == ClassMemory && |rgb| == 3 && e < Base
    requires LinkedBut(files, k, off) && (RecordStart(files[k], off) || off == |files[k]|)
    ensures
      var v := Slot(Visit(files[k], off, c, rgb), e);
      v == OffsNull || (k + 1 < |files| && RecordStart(files[k + 1], v))
  {
    if ReadRecord(files[k], off).Some? {
      var l := Load(files[k], off, c);
      PushEffect(l, rgb, 0, e);
      SlotOfRecord(l, e);
      assert Slot(l, e) == SlotAt(files[k], off, e);
      assert Pointer(files, k, SlotAt(files[k], off, e), k, off);
    } else {
      CreatedShape(rgb, e);
    }
  }

  /** The children of the node written back at scale `k`: the one the walk
      allocated is the pending end of scale `k + 1`, the others are as
      `VisitChild` found them. */
  lemma WrittenChild(files: seq<seq<byte>>, k: nat, off: nat, c: seq<byte>, digits: seq<nat>, rgb: seq<byte>, e: nat)
    requires k < |files| && |c| == ClassMemory && |rgb| == 3 && Digits(digits, |files|) && e < Base
    requires LinkedBut(files, k, off) && (RecordStart(files[k], off) || off == |files[k]|)
    requires k + 1 < |files| ==> |files[k + 1]| < OffsNull
    ensures
      var node := Visit(files[k], off, c, rgb);
      var v := Slot(Linked(files, k, node, digits[k])[..ClassArray], e);
      var nx := Next(files, k, node, digits[k]);
      || v == OffsNull
      || (k + 1 < |files| && RecordStart(files[k + 1], v))
      || (k + 1 < |files| && v == nx == |files[k + 1]|)
  {
    var node := Visit(files[k], off, c, rgb);
    var d := digits[k];
    var node' := Linked(files, k, node, d);
    SlotOfRecord(node', e);
    VisitChild(files, k, off, c, rgb, e);
    if Allocates(files, k, node, d) {
      SetOffsetThenSlot(node, d, |files[k + 1]|, e);
    }
  }

  /** A child offset of another scale than the one written is still a
      pointer, now that the pending child of scale `k` has been written. */
  lemma OtherScalePointer(files: seq<seq<byte>>, k: nat, off: nat, rec: seq<byte>, nx: nat, j: nat, o: nat, e: nat)
    requires k < |files| && j < |files| && j != k && |rec| == ClassArray && e < Base
    requires LinkedBut(files, k, off) && (RecordStart(files[k], off) || off == |files[k]|)
    requires RecordStart(files[j], o)
    ensures
      var files' := files[k := WriteAt(files[k], off, rec)];
      Pointer(files', j, SlotAt(files'[j], o, e), k + 1, nx)
  {
    var v := SlotAt(files[j], o, e);
    assert Pointer(files, j, v, k, off);
    if j + 1 == k && v == off && off == |files[k]| {
      assert RecordStart(WriteAt(files[k], off, rec), off);
    }
  }

  /** A record of scale `k` the visit did not write keeps its children,
      which were pointers. */
  lemma OtherRecordPointer(files: seq<seq<byte>>, k: nat, off: nat, rec: seq<byte>, nx: nat, o: nat, e: nat)
    requires k < |files| && |rec| == ClassArray && e < Base
    requires LinkedBut(files, k, off) && (RecordStart(files[k], off) || off == |files[k]|)
    requires RecordStart(WriteAt(files[k], off, rec), o) && o != off
    ensures
      var files' := files[k := WriteAt(files[k], off, rec)];
      Pointer(files', k, SlotAt(files'[k], o, e), k + 1, nx)
  {
    var w := WriteAt(files[k], off, rec);
    Disjoint(o, off);
    assert RecordStart(files[k], o);
    assert w[o..o + ClassArray] == files[k][o..o + ClassArray];
    assert Pointer(files, k, SlotAt(files[k], o, e), k, off);
  }

  /** One visit of the injection: scale `k` keeps whole records, the
      pending child of scale `k` is now a record, and the only pending
      pointer is the child the visit allocated at the end of scale `k + 1`. */
  lemma VisitKeepsLinks(files: seq<seq<byte>>, k: nat, off: nat, c: seq<byte>, digits: seq<nat>, rgb: seq<byte>)
    requires k < |files| && |c| == ClassMemory && |rgb| == 3 && Digits(digits, |files|)
    requires LinkedBut(files, k, off) && (RecordStart(files[k], off) || off == |files[k]|)
    requires k + 1 < |files| ==> |files[k + 1]| < OffsNull
    ensures
      var node := Visit(files[k], off, c, rgb);
      var node' := Linked(files, k, node, digits[k]);
      var files' := files[k := WriteAt(files[k], off, node'[..ClassArray])];
      var nx := Next(files, k, node, digits[k]);
      && LinkedBut(files', k + 1, nx)
      && (k + 1 < |files| ==> RecordStart(files'[k + 1], nx) || nx == |files'[k + 1]|)
      && |files'[k]| == (if off == |files[k]| then |files[k]| + ClassArray else |files[k]|)
  {
    var node := Visit(files[k], off, c, rgb);
    var d := digits[k];
    var node' := Linked(files, k, node, d);
    var rec := node'[..ClassArray];
    var w := WriteAt(files[k], off, rec);
    var files' := files[k := w];
    var nx := Next(files, k, node, d);
    assert |w| == (if off == |files[k]| then |files[k]| + ClassArray else |files[k]|);
    assert |w| % ClassArray == 0 by {
      if off == |files[k]| {
        LemmaModUnique(|w|, ClassArray, |files[k]| / ClassArray + 1, 0);
      }
    }
    assert w[off..off + ClassArray] == rec;
    forall j: nat, o: nat, e: nat | j < |files'| && RecordStart(files'[j], o) && e < Base
      ensures Pointer(files', j, SlotAt(files'[j], o, e), k + 1, nx)
    {
      if j != k {
        OtherScalePointer(files, k, off, rec, nx, j, o, e);
      } else if o == off {
        WrittenChild(files, k, off, c, digits, rgb, e);
      } else {
        OtherRecordPointer(files, k, off, rec, nx, o, e);
      }
    }
    if k + 1 < |files| && !Allocates(files, k, node, d) {
      VisitChild(files, k, off, c, rgb, d);
    }
  }

  /** The injection keeps scale files well formed: afterwards every non-null
      child offset of scale `k` starts a record of scale `k + 1` again. */
  lemma {:induction false} InjectKeepsLinks(f: seq<seq<byte>>, files: seq<seq<byte>>, k: nat, off: nat, c: seq<byte>, digits: seq<nat>, rgb: seq<byte>)
    requires k < |files| && |c| == ClassMemory && |rgb| == 3 && Digits(digits, |files|)
    requires LinkedBut(files, k, off) && (RecordStart(files[k], off) || off == |files[k]|)
    requires forall i :: k < i < |files| ==> |files[i]| < OffsNull
    requires f == InjectFrom(files, k, off, c, digits, rgb)
    ensures WellFormed(f)
    decreases |files| - k
  {
    var node := Visit(files[k], off, c, rgb);
    var d := digits[k];
    var node' := Linked(files, k, node, d);
    var files' := files[k := WriteAt(files[k], off, node'[..ClassArray])];
    var nx := Next(files, k, node, d);
    VisitKeepsLinks(files, k, off, c, digits, rgb);
    if k + 1 < |files| {
      assert f == InjectFrom(files', k + 1, nx, node', digits, rgb);
      InjectKeepsLinks(f, files', k + 1, nx, node', digits, rgb);
    } else {
      assert f == files';
      LinkedDone(files', nx);
    }
  }

  /** An empty scale file or the record at its start is where the root is. */
  lemma RootStart(file: seq<byte>)
    requires |file| % ClassArray == 0
    ensures RecordStart(file, 0) || 0 == |file|
  {
    if |file| < ClassArray {
      LemmaModUnique(|file|, ClassArray, 0, |file|);
    }
  }

  /** `le_system_inject` keeps well-formed scale files well formed. */
  lemma InjectWellFormed(files: seq<seq<byte>>, digits: seq<nat>, rgb: seq<byte>)
    requires |files| > 0 && |rgb| == 3 && Digits(digits, |files|)
    requires WellFormed(files)
    requires forall i :: 0 < i < |files| ==> |files[i]| < OffsNull
    ensures WellFormed(Inject(files, digits, rgb))
  {
    WellFormedLinked(files, 0, 0);
    RootStart(files[0]);
    InjectKeepsLinks(Inject(files, digits, rgb), files, 0, 0, Blank(), digits, rgb);
  }

  /** Each scale file of well-formed files grows by one record at most. */
  lemma {:induction false} InjectGrowth(files: seq<seq<byte>>, k: nat, off: nat, c: seq<byte>, digits: seq<nat>, rgb: seq<byte>, j: nat)
    requires k < |files| && |c| == ClassMemory && |rgb| == 3 && Digits(digits, |files|)
    requires LinkedBut(files, k, off) && (RecordStart(files[k], off) || off == |files[k]|)
    requires forall i :: k < i < |files| ==> |files[i]| < OffsNull
    requires j < |files|
    ensures
      var n := |InjectFrom(files, k, off, c, digits, rgb)[j]|;
      n == |files[j]| || n == |files[j]| + ClassArray
    decreases |files| - k
  {
    var node := Visit(files[k], off, c, rgb);
    var d := digits[k];
    var node' := Linked(files, k, node, d);
    var files' := files[k := WriteAt(files[k], off, node'[..ClassArray])];
    var nx := Next(files, k, node, d);
    VisitKeepsLinks(files, k, off, c, digits, rgb);
    var f := InjectFrom(files, k, off, c, digits, rgb);
    if k + 1 < |files| {
      assert f == InjectFrom(files', k + 1, nx, node', digits, rgb);
      if j <= k {
        InjectKeepsAbove(files', k + 1, nx, node', digits, rgb, j);
        assert f[j] == files'[j];
      } else {
        InjectGrowth(files', k + 1, nx, node', digits, rgb, j);
        assert files'[j] == files[j];
      }
    } else {
      assert f == files';
    }
  }
}
