// The storage system of eratosthene-system.c: the configuration checks of
// `le_system_create`, the handshake authorisation of `le_system_set_format`,
// the time buckets `le_system_io_open` opens, the injection and the query
// run on the scale files of the open bucket, and the bucket list of
// `le_system_times`. The file system is a map from bucket key to the scale
// files of that bucket; which scale streams can be opened, the directory
// listing and the parsed configuration are parameters.

module System {
  import opened Common
  import opened Streams
  import opened FixedClass
  import opened Walks

  // ---------------------------------------------------------------------
  // Configuration

  /** The range checks of `le_system_create` (and `le_server_set_config`):
      the number of scales must lie in `1 .. UseDepth - 1`, which is checked
      first, then the time discretisation must be positive. */
  function ConfigStatus(sparam: int, tparam: int): (st: Status)
    ensures st == Success <==> 0 < sparam < UseDepth && tparam > 0
    ensures st == ErrDepth <==> !(0 < sparam < UseDepth)
    ensures st == ErrTime <==> 0 < sparam < UseDepth && tparam <= 0
  {
    if sparam <= 0 || sparam >= UseDepth then ErrDepth
    else if tparam <= 0 then ErrTime
    else Success
  }

  /** The configuration file `<root>/system` as `le_system_create` finds it. */
  datatype ConfigFile = Missing | Unreadable | Values(sparam: int, tparam: int)

  /** The status of the structure `le_system_create` returns. */
  function CreateStatus(f: ConfigFile): (st: Status)
    ensures f.Missing? ==> st == ErrIoAccess
    ensures f.Unreadable? ==> st == ErrIoRead
    ensures f.Values? ==> st == ConfigStatus(f.sparam, f.tparam)
    ensures st == Success <==> f.Values? && 0 < f.sparam < UseDepth && f.tparam > 0
  {
    match f
    case Missing => ErrIoAccess
    case Unreadable => ErrIoRead
    case Values(s, t) => ConfigStatus(s, t)
  }

  // ---------------------------------------------------------------------
  // Handshake

  // The handshake modes (`LE_NETWORK_MODE_*MOD`) and the array formats
  // (`LE_ARRAY_64*`). Their values are not in the files modelled; only
  // that they are distinct matters here.
  const IMod: nat := 1
  const QMod: nat := 2
  const AMod: nat := 3
  const SMod: nat := 4
  const TMod: nat := 5
  const Array64S: nat := 1
  const Array64R: nat := 2
  const Array64T: nat := 3

  /** The answers of the handshake: one authorisation per mode, or
      `_LE_HAND_NULL`. */
  datatype Grant = IAth | QAth | AAth | SAth | TAth | HandNull

  /** The authorisation table of `le_system_set_format`: injection only in
      format 64S, queries in 64S or 64R, the time list only in 64T, the
      remaining two modes in any format, and nothing for any other mode. */
  function Authorise(mode: nat, format: nat): (g: Grant)
    ensures g == IAth <==> mode == IMod && format == Array64S
    ensures g == QAth <==> mode == QMod && (format == Array64S || format == Array64R)
    ensures g == AAth <==> mode == AMod && format == Array64T
    ensures g == SAth <==> mode == SMod
    ensures g == TAth <==> mode == TMod
  {
    if mode == IMod then (if format == Array64S then IAth else HandNull)
    else if mode == QMod then (if format == Array64S || format == Array64R then QAth else HandNull)
    else if mode == AMod then (if format == Array64T then AAth else HandNull)
    else if mode == SMod then SAth
    else if mode == TMod then TAth
    else HandNull
  }

  // ---------------------------------------------------------------------
  // Time buckets

  /** The scale streams of a system and the bucket key cached for them:
      for each scale, the bucket its stream is open on, or none (`NULL`). */
  datatype Opening = Opening(flag: int, scale: seq<Option<int>>)

  /** Every stream open on the cached bucket, unless no bucket is cached. */
  predicate Ready(h: Opening)
  {
    h.flag != TimeNull ==> forall i :: 0 <= i < |h.scale| ==> h.scale[i] == Some(h.flag)
  }

  /** The streams after the opening loop for bucket `key` in which the
      scale `opens` is the first whose file cannot be opened: the streams
      before it are open on `key`, its own is `NULL`, the later ones are
      left as they were. */
  function Opened(scale: seq<Option<int>>, key: int, opens: nat): (r: seq<Option<int>>)
    ensures |r| == |scale|
    ensures forall i :: 0 <= i < |r| ==> r[i] == (if i < opens then Some(key) else if i == opens then None else scale[i])
  {
    seq(|scale|, i requires 0 <= i < |scale| => if i < opens then Some(key) else if i == opens then None else scale[i])
  }

  /** `le_system_io_open` as written: the key is cached before the streams
      are opened, so a failed opening is remembered as a success. */
  function OpenAsWritten(h: Opening, key: int, opens: nat): (Status, Opening)
  {
    if key == h.flag then (Success, h)
    else if opens >= |h.scale| then (Success, Opening(key, Opened(h.scale, key, opens)))
    else (ErrIoAccess, Opening(key, Opened(h.scale, key, opens)))
  }

  /** `le_system_io_open` corrected: the key is cached only once every
      stream is open, and a failed opening leaves no key cached. */
  function Open(h: Opening, key: int, opens: nat): (r: (Status, Opening))
    requires Ready(h)
    ensures Ready(r.1) && |r.1.scale| == |h.scale|
    ensures r.0 == Success ==> forall i :: 0 <= i < |h.scale| ==> r.1.scale[i] == Some(key)
    ensures r.0 == Success <==> (key == h.flag && key != TimeNull) || opens >= |h.scale|
    ensures r.0 != Success ==> r.0 == ErrIoAccess
  {
    if key == h.flag && key != TimeNull then (Success, h)
    else if opens >= |h.scale| then (Success, Opening(key, Opened(h.scale, key, opens)))
    else (ErrIoAccess, Opening(TimeNull, Opened(h.scale, key, opens)))
  }

  /** As written, a failed opening is followed by an opening of the same
      bucket that succeeds at once while the stream of scale 0 is `NULL`:
      the scale-0 file of bucket 1 cannot be opened once, and is then used
      as if it had been. */
  lemma OpenAsWrittenStale()
    ensures var h0 := Opening(TimeNull, [None, None]);
      var (st1, h1) := OpenAsWritten(h0, 1, 0);
      var (st2, h2) := OpenAsWritten(h1, 1, 2);
      && st1 == ErrIoAccess && st2 == Success
      && h2.scale[0] == None && !Ready(h2)
  {
  }

  /** Corrected, the same two openings open every stream. */
  lemma OpenRetries()
    ensures var h0 := Opening(TimeNull, [None, None]);
      var (st1, h1) := Open(h0, 1, 0);
      var (st2, h2) := Open(h1, 1, 2);
      && st1 == ErrIoAccess && st2 == Success
      && h2.scale == [Some(1), Some(1)]
  {
  }

  /** The disk after the `mkdir` and the `w+` openings for bucket `key`: a
      bucket that did not exist gets `n` empty scale files. */
  function Bucket(disk: map<int, seq<seq<byte>>>, key: int, n: nat): (r: map<int, seq<seq<byte>>>)
    ensures key in r && r.Keys == disk.Keys + {key}
    ensures forall b :: b in disk ==> r[b] == disk[b]
    ensures key !in disk ==> r[key] == seq(n, _ => [])
  {
    if key in disk then disk else disk[key := seq(n, _ => [])]
  }

  // ---------------------------------------------------------------------
  // Bucket list

  /** A directory entry as `readdir` returns it. */
  datatype Entry = Entry(name: string, isDir: bool)

  predicate IsDigit(c: char)
  {
    '0' <= c <= '9'
  }

  /** The leading decimal digits of `s`. */
  function DigitRun(s: string): (r: string)
    ensures |r| <= |s| && r == s[..|r|]
    ensures forall i :: 0 <= i < |r| ==> IsDigit(r[i])
    ensures |r| < |s| ==> !IsDigit(s[|r|])
  {
    if s == [] || !IsDigit(s[0]) then [] else [s[0]] + DigitRun(s[1..])
  }

  /** The number a string of decimal digits writes. */
  function Value(ds: string): (v: nat)
    requires forall i :: 0 <= i < |ds| ==> IsDigit(ds[i])
  {
    if ds == [] then 0
    else
      assert IsDigit(ds[|ds| - 1]);
      Value(ds[..|ds| - 1]) * 10 + (ds[|ds| - 1] as int - '0' as int)
  }

  /** `n` written in decimal. */
  function Decimal(n: nat): (s: string)
    ensures |s| > 0 && forall i :: 0 <= i < |s| ==> IsDigit(s[i])
  {
    var c := ('0' as int + n % 10) as char;
    if n < 10 then [c] else Decimal(n / 10) + [c]
  }

  /** `strtoull(s, NULL, 10)` on a directory name: the value of its leading
      digits, saturated at the largest 64-bit unsigned value. */
  function StrToULL(s: string): (v: nat)
    ensures v < Two64
  {
    var d := Value(DigitRun(s));
    if d < Two64 then d else Two64 - 1
  }

  /** The decimal writing of a number is read back as that number. */
  lemma {:induction false} DecimalValue(n: nat)
    ensures Value(Decimal(n)) == n
  {
    var c := ('0' as int + n % 10) as char;
    if n >= 10 {
      var s := Decimal(n / 10) + [c];
      assert s[..|s| - 1] == Decimal(n / 10);
      DecimalValue(n / 10);
    }
  }

  /** A name made of decimal digits only is parsed whole. */
  lemma {:induction false} DigitRunAll(s: string)
    requires forall i :: 0 <= i < |s| ==> IsDigit(s[i])
    ensures DigitRun(s) == s
  {
    if s != [] {
      DigitRunAll(s[1..]);
    }
  }

  /** A bucket directory named by its key is read back as that key. */
  lemma BucketNameRead(n: nat)
    requires n < Two64
    ensures StrToULL(Decimal(n)) == n
  {
    DigitRunAll(Decimal(n));
    DecimalValue(n);
  }

  /** 2^64, the modulus of the unsigned 64-bit arithmetic. */
  const Two64: int := 0x1_0000_0000_0000_0000

  /** A 64-bit unsigned product read as `le_time_t`: reduced modulo 2^64
      and taken in two's complement. */
  function Wrap64(v: int): (r: int)
    ensures Int64Min <= r <= Int64Max
    ensures Int64Min <= v <= Int64Max ==> r == v
    ensures (r - v) % Two64 == 0
  {
    var u := v % Two64;
    var q := v / Two64;
    if u <= Int64Max then
      LemmaModUnique(u - v, Two64, -q, 0);
      ModInt64(v);
      u
    else
      LemmaModUnique(u - Two64 - v, Two64, -q - 1, 0);
      ModInt64(v);
      u - Two64
  }

  /** A 64-bit signed value modulo 2^64 is its unsigned reading. */
  lemma ModInt64(v: int)
    ensures Int64Min <= v <= Int64Max ==> v % Two64 == (if v < 0 then v + Two64 else v)
  {
    if Int64Min <= v < 0 {
      LemmaModUnique(v, Two64, -1, v + Two64);
    } else if 0 <= v <= Int64Max {
      LemmaModUnique(v, Two64, 0, v);
    }
  }

  /** The time `le_system_times` lists for a bucket directory. */
  function BucketTime(tparam: nat, name: string): int
  {
    Wrap64(tparam * StrToULL(name))
  }

  /** The list `le_system_times` builds: one time per directory entry, in
      the order of the listing, "." and ".." included. */
  function TimesOf(tparam: nat, entries: seq<Entry>): (r: seq<int>)
    ensures |r| <= |entries|
  {
    if entries == [] then []
    else
      var last := entries[|entries| - 1];
      TimesOf(tparam, entries[..|entries| - 1]) + (if last.isDir then [BucketTime(tparam, last.name)] else [])
  }

  /** The entries "." and ".." are listed as the time of bucket 0. */
  lemma DotsListed(tparam: nat)
    ensures TimesOf(tparam, [Entry(".", true), Entry("..", true)]) == [0, 0]
  {
    assert DigitRun(".") == [];
    assert DigitRun("..") == [];
    var e := [Entry(".", true), Entry("..", true)];
    assert e[..1] == [Entry(".", true)];
    assert e[..1][..0] == [];
  }

  /** A bucket directory named by its key is listed as the key times the
      discretisation. */
  lemma BucketListed(tparam: nat, n: nat)
    requires n < Two64 && tparam * n <= Int64Max
    ensures TimesOf(tparam, [Entry(Decimal(n), true)]) == [tparam * n]
  {
    BucketNameRead(n);
    assert [Entry(Decimal(n), true)][..0] == [];
  }

  /** The first `k` daughters of the gathering loop come first in the
      hits of all of them. */
  lemma GatherFromSplit(files: seq<seq<byte>>, rec: seq<byte>, path: seq<nat>, head: nat, target: nat, d: nat, clnex: seq<byte>, hits: seq<Hit>, sub: seq<Hit>)
    requires |rec| == ClassArray && |clnex| == ClassMemory && head < target < |files| && d < Base
    requires Slot(rec, d) != OffsNull
    requires sub == Gather(files, Load(files[head + 1], Slot(rec, d), clnex), path + [d], head + 1, target)
    ensures hits + GatherFrom(files, rec, path, head, target, d, clnex)
      == (hits + sub) + GatherFrom(files, rec, path, head, target, d + 1, Load(files[head + 1], Slot(rec, d), clnex))
  {
  }

  /** `le_system_query_gather`: the representatives below the node held in
      `c` at scale `head`, daughters in ascending digit order, the daughter
      buffer shared by the loop. */
  method GatherNode(files: seq<seq<byte>>, c: seq<byte>, path: seq<nat>, head: nat, target: nat) returns (hits: seq<Hit>)
    requires |c| == ClassMemory && head <= target < |files|
    ensures hits == Gather(files, c, path, head, target)
    decreases target - head, 1
  {
    if head < target {
      ghost var rec := c[..ClassArray];
      var clnex := Blank();
      hits := [];
      var d: nat := 0;
      while d < Base
        invariant d <= Base && |clnex| == ClassMemory
        invariant hits + GatherFrom(files, rec, path, head, target, d, clnex) == GatherFrom(files, rec, path, head, target, 0, Blank())
        decreases Base - d
      {
        hits, clnex := GatherChild(files, c, path, head, target, d, clnex, hits);
        d := d + 1;
      }
      assert GatherFrom(files, rec, path, head, target, d, clnex) == [];
      assert hits + [] == hits;
    } else {
      hits := [Hit(path, Colour(c))];
    }
  }

  /** One round of the gathering loop: daughter `d`, when not null, is
      read into the shared daughter buffer and gathered below. */
  method GatherChild(files: seq<seq<byte>>, c: seq<byte>, path: seq<nat>, head: nat, target: nat, d: nat, clnex: seq<byte>, hits: seq<Hit>)
    returns (hits': seq<Hit>, clnex': seq<byte>)
    requires |c| == ClassMemory && |clnex| == ClassMemory && head < target < |files| && d < Base
    ensures |clnex'| == ClassMemory
    ensures hits' + GatherFrom(files, c[..ClassArray], path, head, target, d + 1, clnex')
      == hits + GatherFrom(files, c[..ClassArray], path, head, target, d, clnex)
    decreases target - head, 0
  {
    var v := Slot(c, d);
    SlotOfRecord(c, d);
    if v != OffsNull {
      clnex' := Load(files[head + 1], v, clnex);
      var sub := GatherNode(files, clnex', path + [d], head + 1, target);
      GatherFromSplit(files, c[..ClassArray], path, head, target, d, clnex, hits, sub);
      hits' := hits + sub;
    } else {
      hits', clnex' := hits, clnex;
    }
  }

  /** The descent loop of `le_system_query`: the node at scale `size` on
      the address, or none when a read fails or a child is null on the
      way. */
  method DescendNodes(files: seq<seq<byte>>, digits: seq<nat>, size: nat) returns (found: bool, c: seq<byte>)
    requires size < |files| && Digits(digits, |files|)
    ensures found <==> Descend(files, digits, size, 0, 0, Blank()).Some?
    ensures found ==> c == Descend(files, digits, size, 0, 0, Blank()).value
  {
    var depth := 0;
    var offset: nat := 0;
    c := Blank();
    while true
      invariant depth <= size && |c| == ClassMemory
      invariant Descend(files, digits, size, depth, offset, c) == Descend(files, digits, size, 0, 0, Blank())
      decreases size - depth
    {
      if ReadRecord(files[depth], offset).None? {
        return false, c;
      }
      c := Load(files[depth], offset, c);
      offset := Slot(c, digits[depth]);
      if depth == size {
        return true, c;
      }
      if offset == OffsNull {
        return false, c;
      }
      depth := depth + 1;
    }
  }

  // ---------------------------------------------------------------------
  // The system

  /** A storage system (`le_system_t`). */
  class System {
    /** `sm_sparam`: the number of scales. */
    const sparam: nat
    /** `sm_tparam`: the time discretisation. */
    const tparam: nat
    /** `sm_format`: the array format of the last handshake. */
    var format: nat
    /** The open scale streams and the bucket key cached for them. */
    var streams: Opening
    /** The scale files of each bucket directory. */
    var disk: map<int, seq<seq<byte>>>

    ghost predicate Valid()
      reads this
    {
      && ConfigStatus(sparam, tparam) == Success
      && |streams.scale| == sparam && Ready(streams)
      && (streams.flag != TimeNull ==> streams.flag in disk)
      && forall b :: b in disk ==> |disk[b]| == sparam
    }

    /** A system configured as `le_system_create` accepts, no stream open. */
    constructor (sparam: nat, tparam: nat, disk: map<int, seq<seq<byte>>>)
      requires ConfigStatus(sparam, tparam) == Success
      requires forall b :: b in disk ==> |disk[b]| == sparam
      ensures Valid()
      ensures this.sparam == sparam && this.tparam == tparam && this.disk == disk
      ensures format == Array64S && streams == Opening(TimeNull, seq(sparam, _ => None))
    {
      this.sparam := sparam;
      this.tparam := tparam;
      this.disk := disk;
      format := Array64S;
      streams := Opening(TimeNull, seq(sparam, _ => None));
    }

    /** `le_system_set_format`: the format is taken from the handshake
      whatever the mode, then the mode is authorised. */
    method SetFormat(hand: nat) returns (g: Grant)
      requires Valid()
      modifies this
      ensures Valid() && streams == old(streams) && disk == old(disk)
      ensures format == hand / 256
      ensures g == Authorise(hand % 256, format)
    {
      format := hand / 256;
      g := Authorise(hand % 256, format);
    }

    /** `le_system_io_open` as written. The scale streams are modelled as
      they are, but the cached key no longer says they are open. */
    method IoOpenAsWritten(time: int, opens: nat) returns (st: Status)
      requires Valid()
      modifies this
      ensures format == old(format)
      ensures var key := CDiv(time, tparam);
        && (st, streams) == OpenAsWritten(old(streams), key, opens)
        && disk == (if key == old(streams).flag then old(disk) else Bucket(old(disk), key, sparam))
    {
      var key := CDiv(time, tparam);
      if key == streams.flag {
        return Success;
      }
      streams := streams.(flag := key);
      disk := Bucket(disk, key, sparam);
      ghost var s0 := streams.scale;
      var parse := 0;
      while parse < sparam
        invariant parse <= sparam && |streams.scale| == sparam && streams.flag == key
        invariant format == old(format) && disk == Bucket(old(disk), key, sparam)
        invariant forall i :: 0 <= i < parse ==> streams.scale[i] == Some(key)
        invariant streams.scale[parse..] == s0[parse..]
        invariant parse <= opens
      {
        if parse == opens {
          streams := streams.(scale := streams.scale[parse := None]);
          assert streams.scale == Opened(s0, key, opens);
          return ErrIoAccess;
        }
        streams := streams.(scale := streams.scale[parse := Some(key)]);
        parse := parse + 1;
      }
      assert streams.scale == Opened(s0, key, opens);
      st := Success;
    }

    /** `le_system_io_open` corrected: the bucket of `time` is opened
      unless it is the cached one, and it is cached only once all of its
      scale streams are open. */
    method IoOpen(time: int, opens: nat) returns (st: Status)
      requires Valid()
      modifies this
      ensures Valid() && format == old(format)
      ensures var key := CDiv(time, tparam);
        && (st, streams) == Open(old(streams), key, opens)
        && disk == Bucket(old(disk), key, sparam)
      ensures st == Success ==> CDiv(time, tparam) in disk
    {
      var key := CDiv(time, tparam);
      if key == streams.flag && key != TimeNull {
        return Success;
      }
      disk := Bucket(disk, key, sparam);
      ghost var s0 := streams.scale;
      var parse := 0;
      while parse < sparam
        invariant parse <= sparam && |streams.scale| == sparam && streams.flag == old(streams.flag)
        invariant format == old(format) && disk == Bucket(old(disk), key, sparam)
        invariant forall i :: 0 <= i < parse ==> streams.scale[i] == Some(key)
        invariant streams.scale[parse..] == s0[parse..]
        invariant parse <= opens
      {
        if parse == opens {
          streams := Opening(TimeNull, streams.scale[parse := None]);
          assert streams.scale == Opened(s0, key, opens);
          return ErrIoAccess;
        }
        streams := streams.(scale := streams.scale[parse := Some(key)]);
        parse := parse + 1;
      }
      assert streams.scale == Opened(s0, key, opens);
      streams := streams.(flag := key);
      st := Success;
    }

    /** `le_system_inject`: the bucket of `time` is opened, then the sample
      of colour `rgb` at the address `digits` is injected into its scale
      files, one node per scale. */
    method Inject(time: int, digits: seq<nat>, rgb: seq<byte>, opens: nat)
      requires Valid() && Digits(digits, sparam) && |rgb| == 3
      modifies this
      ensures Valid() && format == old(format)
      ensures var key := CDiv(time, tparam);
        var (st, h) := Open(old(streams), key, opens);
        var d := Bucket(old(disk), key, sparam);
        && streams == h
        && disk == (if st == Success then d[key := Walks.Inject(d[key], digits, rgb)] else d)
    {
      var st := IoOpen(time, opens);
      if st != Success {
        return;
      }
      var key := CDiv(time, tparam);
      var files := InjectWalk(disk[key], digits, rgb);
      disk := disk[key := files];
    }

    /** `le_system_query`: nothing when the address and its span reach past
      the last scale, or when the bucket cannot be opened; otherwise the
      descent to the node of the address and the gathering below it. */
    method Query(time: int, digits: seq<nat>, size: nat, span: nat, opens: nat) returns (hits: seq<Hit>)
      requires Valid() && Digits(digits, sparam)
      modifies this
      ensures Valid() && format == old(format)
      ensures size + span >= sparam ==> hits == [] && streams == old(streams) && disk == old(disk)
      ensures size + span < sparam ==>
        var key := CDiv(time, tparam);
        var (st, h) := Open(old(streams), key, opens);
        && streams == h && disk == Bucket(old(disk), key, sparam)
        && hits == (if st == Success then SystemAnswer(disk[key], digits, size, span) else [])
    {
      if size + span >= sparam {
        return [];
      }
      var st := IoOpen(time, opens);
      if st != Success {
        return [];
      }
      var files := disk[CDiv(time, tparam)];
      var found, c := DescendNodes(files, digits, size);
      if !found {
        return [];
      }
      hits := GatherNode(files, c, digits[..size], size, size + span);
    }

    /** `le_system_times`: the time of every directory of the listing. */
    method Times(entries: seq<Entry>) returns (times: seq<int>)
      ensures times == TimesOf(tparam, entries)
    {
      times := [];
      var i := 0;
      while i < |entries|
        invariant i <= |entries| && times == TimesOf(tparam, entries[..i])
      {
        assert entries[..i + 1][..i] == entries[..i];
        if entries[i].isDir {
          times := times + [BucketTime(tparam, entries[i].name)];
        }
        i := i + 1;
      }
      assert entries[..i] == entries;
    }
  }
}
