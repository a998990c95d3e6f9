// The server side of eratosthene-server.c: the configuration checks of
// `le_server_set_config`, the time stack of `le_server_set_tenum` and
// `le_server_set_tfree`, the nearest-bucket reduction of
// `le_server_reduce`, the record chunking of `le_server_inject_client`
// with the injection of each record (`le_server_inject`, the walk of
// Walks.InjectWalk), and the query of `le_server_query` dispatched by
// `le_server_query_client`. Sockets are sequences of read results, the
// directory listing and the configuration file are parameters, and the
// address module is a function from a record to its digits.

module Server {
  import opened Common
  import opened FixedClass
  import opened Walks
  import opened System

  // ---------------------------------------------------------------------
  // Configuration

  /** The configuration file as `le_server_set_config` finds it: absent,
      or the integers `fscanf` can read from it (none, one, or two and
      more). */
  datatype Found = Absent | Fields(values: seq<int>)

  /** The status `le_server_set_config` returns. */
  function SetConfigStatus(f: Found): (st: Status)
    ensures st == Success <==> f.Fields? && |f.values| >= 2 && 0 < f.values[0] < UseDepth && f.values[1] > 0
  {
    match f
    case Absent => ErrIoAccess
    case Fields(v) => if |v| < 2 then ErrIoRead else ConfigStatus(v[0], v[1])
  }

  /** The same file as `le_system_create` sees it. */
  function AsConfigFile(f: Found): ConfigFile
  {
    match f
    case Absent => Missing
    case Fields(v) => if |v| < 2 then Unreadable else Values(v[0], v[1])
  }

  /** The server accepts exactly the configurations the system accepts,
      with the same error for each rejected one. */
  lemma SetConfigAgrees(f: Found)
    ensures SetConfigStatus(f) == CreateStatus(AsConfigFile(f))
  {
  }

  // ---------------------------------------------------------------------
  // Time stack

  /** The state of the `sv_time` allocation: never allocated (`NULL`),
      live, or freed and not reset. */
  datatype Block = NoBlock | Live | Freed

  /** `strtoimax(s, NULL, 10)`: an optional sign and the leading decimal
      digits, saturated at the `int64` bounds. */
  function StrToIMax(s: string): (v: int)
    ensures Int64Min <= v <= Int64Max
  {
    if |s| > 0 && s[0] == '-' then
      var d: int := Value(DigitRun(s[1..]));
      if -d < Int64Min then Int64Min else -d
    else
      var t := if |s| > 0 && s[0] == '+' then s[1..] else s;
      var d := Value(DigitRun(t));
      if d > Int64Max then Int64Max else d
  }

  /** The name of the directory of bucket `n` (`"%" _LE_TIME_P`). */
  function TimeName(n: int): (s: string)
  {
    if n < 0 then "-" + Decimal(-n) else Decimal(n)
  }

  /** Every bucket directory name is read back as its bucket, and none of
      them starts with a dot. */
  lemma TimeNameRead(n: int)
    requires Int64Min <= n <= Int64Max
    ensures StrToIMax(TimeName(n)) == n
    ensures |TimeName(n)| > 0 && TimeName(n)[0] != '.'
  {
    if n < 0 {
      var s := TimeName(n);
      assert s[1..] == Decimal(-n);
      DigitRunAll(Decimal(-n));
      DecimalValue(-n);
    } else {
      DigitRunAll(Decimal(n));
      DecimalValue(n);
    }
  }

  /** The entries `le_server_set_tenum` keeps: directories whose name does
      not start with a dot. */
  predicate Listed(e: Entry)
  {
    e.isDir && (|e.name| == 0 || e.name[0] != '.')
  }

  /** The times `le_server_set_tenum` appends for a listing, in order. */
  function Stack(entries: seq<Entry>): (r: seq<int>)
    ensures |r| <= |entries|
  {
    if entries == [] then []
    else
      var last := entries[|entries| - 1];
      Stack(entries[..|entries| - 1]) + (if Listed(last) then [StrToIMax(last.name)] else [])
  }

  /** The times of a listing split in two are those of each part. */
  lemma {:induction false} StackAppend(a: seq<Entry>, b: seq<Entry>)
    ensures Stack(a + b) == Stack(a) + Stack(b)
    decreases |b|
  {
    if b != [] {
      var b' := b[..|b| - 1];
      assert (a + b)[..|a + b| - 1] == a + b';
      StackAppend(a, b');
    } else {
      assert a + b == a;
    }
  }

  /** One more entry adds its time when it is listed. */
  lemma StackStep(entries: seq<Entry>, i: nat)
    requires i < |entries|
    ensures Stack(entries[..i + 1]) == Stack(entries[..i]) + (if Listed(entries[i]) then [StrToIMax(entries[i].name)] else [])
  {
    assert entries[..i + 1][..i] == entries[..i];
  }

  /** The times of a prefix of a listing are a prefix of its times. */
  lemma StackPrefix(entries: seq<Entry>, i: nat)
    requires i <= |entries|
    ensures |Stack(entries[..i])| <= |Stack(entries)|
    ensures Stack(entries)[..|Stack(entries[..i])|] == Stack(entries[..i])
  {
    StackAppend(entries[..i], entries[i..]);
    assert entries[..i] + entries[i..] == entries;
  }

  /** The directory entries of the buckets `keys`. */
  function BucketEntries(keys: seq<int>): (es: seq<Entry>)
    ensures |es| == |keys|
  {
    if keys == [] then [] else BucketEntries(keys[..|keys| - 1]) + [Entry(TimeName(keys[|keys| - 1]), true)]
  }

  /** The bucket directories are read back as their keys. */
  lemma {:induction false} StackOfBuckets(keys: seq<int>)
    requires forall i :: 0 <= i < |keys| ==> Int64Min <= keys[i] <= Int64Max
    ensures Stack(BucketEntries(keys)) == keys
    decreases |keys|
  {
    if keys != [] {
      var n := |keys| - 1;
      var es := BucketEntries(keys);
      assert es[..n] == BucketEntries(keys[..n]);
      StackOfBuckets(keys[..n]);
      TimeNameRead(keys[n]);
      assert keys == keys[..n] + [keys[n]];
    }
  }

  /** A listing of the root, "." and ".." first, then the bucket
      directories of `keys`, is read back as those keys. */
  lemma StackOfRoot(keys: seq<int>)
    requires forall i :: 0 <= i < |keys| ==> Int64Min <= keys[i] <= Int64Max
    ensures Stack([Entry(".", true), Entry("..", true)] + BucketEntries(keys)) == keys
  {
    var dots := [Entry(".", true), Entry("..", true)];
    assert dots[..1] == [Entry(".", true)];
    assert dots[..1][..0] == [];
    assert Stack(dots) == [];
    StackAppend(dots, BucketEntries(keys));
    StackOfBuckets(keys);
  }

  /** `realloc` of the stack is defined: it is not a freed pointer, or the
      listing adds nothing to the stack. */
  predicate TenumSafe(b: Block, entries: seq<Entry>)
  {
    b != Freed || Stack(entries) == []
  }

  /** The block after `le_server_set_tfree` as written: freed, and left
      dangling. */
  function FreedAsWritten(b: Block): Block
  {
    if b == NoBlock then NoBlock else Freed
  }

  /** As written, the `set_tfree` and `set_tenum` pair that ends every
      injection frees the stack and then reallocates the freed pointer as
      soon as one bucket directory exists. */
  lemma TfreeThenTenumAsWritten()
    ensures !TenumSafe(FreedAsWritten(Live), [Entry("1", true)])
  {
    assert [Entry("1", true)][..0] == [];
    assert DigitRun("1") == "1";
  }

  // ---------------------------------------------------------------------
  // Nearest bucket

  /** The index `le_server_reduce` selects in the stack `ts` for the bucket
      `a`, scanning in order from the distance `_LE_TIME_MAX`: an index
      replaces the current choice when its distance is strictly smaller. */
  function Nearest(ts: seq<int>, a: int): (r: Option<nat>)
    ensures r.Some? ==> r.value < |ts|
  {
    if ts == [] then None
    else
      var n := |ts| - 1;
      var p := Nearest(ts[..n], a);
      if Abs(ts[n] - a) < Distance(ts, a, p) then Some(n) else p
  }

  /** The distance of the choice `p`, `_LE_TIME_MAX` for none. */
  function Distance(ts: seq<int>, a: int, p: Option<nat>): int
  {
    if p.None? || p.value >= |ts| then TimeMax else Abs(ts[p.value] - a)
  }

  /** The selected bucket is the first of the nearest ones, and none is
      selected exactly when every distance is at least `_LE_TIME_MAX`. */
  lemma {:induction false} NearestMinimal(ts: seq<int>, a: int)
    ensures var r := Nearest(ts, a);
      && (r.None? <==> forall j :: 0 <= j < |ts| ==> Abs(ts[j] - a) >= TimeMax)
      && (r.Some? ==> Abs(ts[r.value] - a) < TimeMax)
      && (r.Some? ==> forall j :: 0 <= j < |ts| ==> Abs(ts[j] - a) >= Abs(ts[r.value] - a))
      && (r.Some? ==> forall j :: 0 <= j < r.value ==> Abs(ts[j] - a) > Abs(ts[r.value] - a))
  {
    if ts != [] {
      var n := |ts| - 1;
      var ts' := ts[..n];
      NearestMinimal(ts', a);
      assert forall j :: 0 <= j < n ==> ts'[j] == ts[j];
    }
  }

  /** The time `le_server_reduce` gives the address: the nearest bucket
      times the discretisation, or `_LE_TIME_NULL` times it when no bucket
      qualifies. */
  function ReducedTime(ts: seq<int>, tcfg: int, t: int): int
    requires tcfg > 0
  {
    match Nearest(ts, CDiv(t, tcfg))
    case None => TimeNull * tcfg
    case Some(i) => ts[i] * tcfg
  }

  /** The reduced time lies in the bucket selected. */
  lemma ReducedBucket(ts: seq<int>, tcfg: int, t: int)
    requires tcfg > 0
    ensures CDiv(ReducedTime(ts, tcfg, t), tcfg)
      == match Nearest(ts, CDiv(t, tcfg)) case None => TimeNull case Some(i) => ts[i]
  {
    var x := match Nearest(ts, CDiv(t, tcfg)) case None => TimeNull case Some(i) => ts[i];
    assert ReducedTime(ts, tcfg, t) == x * tcfg;
    CDivExact(x, tcfg);
  }

  // ---------------------------------------------------------------------
  // Record chunking

  /** `LE_ARRAY_SD`, the length of an injected record: three coordinates
      of eight bytes and three colour bytes (the macro is not in the files
      modelled). */
  const PoseBytes: nat := 24
  const RecordBytes: nat := 27

  /** The colour of a record. */
  function RecordData(r: seq<byte>): (rgb: seq<byte>)
    requires |r| == RecordBytes
    ensures |rgb| == 3
  {
    r[PoseBytes..]
  }

  /** What a `read` on the client socket returns: some bytes, the end of
      the stream (0) or an error (-1). */
  datatype Read = Got(bytes: seq<byte>) | Closed | Failed

  /** The return value of the read. */
  function Returned(r: Read): int
  {
    match r
    case Got(b) => |b|
    case Closed => 0
    case Failed => -1
  }

  /** The bytes the read adds to the buffer. */
  function Bytes(r: Read): seq<byte>
  {
    if r.Got? then r.bytes else []
  }

  /** All the bytes received by a sequence of reads. */
  function Received(socket: seq<Read>): seq<byte>
  {
    if socket == [] then [] else Received(socket[..|socket| - 1]) + Bytes(socket[|socket| - 1])
  }

  /** The records concatenated. */
  function Flatten(rs: seq<seq<byte>>): seq<byte>
  {
    if rs == [] then [] else Flatten(rs[..|rs| - 1]) + rs[|rs| - 1]
  }

  lemma {:induction false} FlattenAppend(a: seq<seq<byte>>, b: seq<seq<byte>>)
    ensures Flatten(a + b) == Flatten(a) + Flatten(b)
    decreases |b|
  {
    if b != [] {
      assert (a + b)[..|a + b| - 1] == a + b[..|b| - 1];
      FlattenAppend(a, b[..|b| - 1]);
    } else {
      assert a + b == a;
    }
  }

  /** The whole records of a buffer, in order. */
  function Split(buf: seq<byte>): (rs: seq<seq<byte>>)
    requires |buf| % RecordBytes == 0
    ensures Flatten(rs) == buf
    ensures forall k :: 0 <= k < |rs| ==> |rs[k]| == RecordBytes
    decreases |buf|
  {
    if buf == [] then []
    else
      var n := |buf| - RecordBytes;
      var rs := Split(buf[..n]) + [buf[n..]];
      assert rs[..|rs| - 1] == Split(buf[..n]);
      rs
  }

  /** Records all of `RecordBytes` bytes. */
  predicate Whole(rs: seq<seq<byte>>)
  {
    forall k :: 0 <= k < |rs| ==> |rs[k]| == RecordBytes
  }

  /** The state of the injection loop of `le_server_inject_client`: the
      bridge (the partial record at the head of the buffer), the retry
      counter and the records handed to the injection so far. */
  datatype Client = Client(pending: seq<byte>, retry: nat, records: seq<seq<byte>>)

  /** One round of the loop as written: the read count is added to the
      bridge before the test, so an end of stream with a bridge pending
      counts as data, and an error (-1) shortens the bridge by one byte. */
  function StepAsWritten(c: Client, r: Read): Client
    requires |c.pending| < RecordBytes
  {
    var buf := c.pending + Bytes(r);
    var count := |c.pending| + Returned(r);
    if count > 0 then
      var round := count - count % RecordBytes;
      if round != 0 then Client(buf[round..count], 0, c.records + Split(buf[..round]))
      else Client(buf[..count], 0, c.records)
    else Client(c.pending, c.retry + 1, c.records)
  }

  /** One round corrected: only a read that brings bytes resets the retry
      counter; the bridge is kept whole otherwise. The records and the
      bridge always hold exactly the bytes received. */
  function Step(c: Client, r: Read): (c': Client)
    requires |c.pending| < RecordBytes && Whole(c.records)
    ensures |c'.pending| < RecordBytes && Whole(c'.records)
    ensures Flatten(c'.records) + c'.pending == Flatten(c.records) + c.pending + Bytes(r)
    ensures Returned(r) > 0 ==> c'.retry == 0
    ensures Returned(r) <= 0 ==> c' == c.(retry := c.retry + 1)
  {
    if Returned(r) > 0 then
      var buf := c.pending + r.bytes;
      var round := |buf| - |buf| % RecordBytes;
      var rs := Split(buf[..round]);
      KeepBytes(c.records, rs, c.pending, r.bytes, round);
      Client(buf[round..], 0, c.records + rs)
    else Client(c.pending, c.retry + 1, c.records)
  }

  /** Handing on the whole records at the head of a buffer loses no byte. */
  lemma KeepBytes(records: seq<seq<byte>>, rs: seq<seq<byte>>, pending: seq<byte>, bytes: seq<byte>, round: nat)
    requires round <= |pending + bytes| && Flatten(rs) == (pending + bytes)[..round]
    ensures Flatten(records + rs) + (pending + bytes)[round..] == Flatten(records) + pending + bytes
  {
    var buf := pending + bytes;
    FlattenAppend(records, rs);
    calc {
      Flatten(records + rs) + buf[round..];
      (Flatten(records) + buf[..round]) + buf[round..];
      Flatten(records) + (buf[..round] + buf[round..]);
      { assert buf[..round] + buf[round..] == buf; }
      Flatten(records) + buf;
      Flatten(records) + pending + bytes;
    }
  }

  /** The rounds of the loop as written over a sequence of reads. */
  function RunAsWritten(c: Client, socket: seq<Read>): (c': Client)
    requires |c.pending| < RecordBytes
    ensures |c'.pending| < RecordBytes
  {
    if socket == [] then c
    else
      var p := RunAsWritten(c, socket[..|socket| - 1]);
      var r := StepAsWritten(p, socket[|socket| - 1]);
      assert |r.pending| <= |p.pending| + |Bytes(socket[|socket| - 1])|;
      if |r.pending| < RecordBytes then r else p
  }

  /** The rounds of the corrected loop over a sequence of reads. */
  function Run(c: Client, socket: seq<Read>): (c': Client)
    requires |c.pending| < RecordBytes && Whole(c.records)
    ensures |c'.pending| < RecordBytes && Whole(c'.records)
  {
    if socket == [] then c
    else
      var p := Run(c, socket[..|socket| - 1]);
      Step(p, socket[|socket| - 1])
  }

  lemma Associative(a: seq<byte>, b: seq<byte>, c: seq<byte>)
    ensures (a + b) + c == a + (b + c)
  {
  }

  /** The records handed on and the bridge hold exactly the bytes
      received, in order: no byte is lost or repeated. */
  lemma {:induction false} RunKeepsBytes(c: Client, socket: seq<Read>)
    requires |c.pending| < RecordBytes && Whole(c.records)
    ensures var c' := Run(c, socket);
      Flatten(c'.records) + c'.pending == Flatten(c.records) + c.pending + Received(socket)
  {
    if socket != [] {
      var n := |socket| - 1;
      RunKeepsBytes(c, socket[..n]);
      var p := Run(c, socket[..n]);
      var q := Run(c, socket);
      var r := socket[n];
      assert q == Step(p, r);
      var x, y := Flatten(p.records) + p.pending, Flatten(c.records) + c.pending;
      assert Flatten(q.records) + q.pending == x + Bytes(r);
      assert x == y + Received(socket[..n]);
      assert Received(socket) == Received(socket[..n]) + Bytes(r);
      Associative(y, Received(socket[..n]), Bytes(r));
    }
  }

  /** As written, while a partial record is pending, the end of the stream
      never raises the retry counter: the loop, which ends only after
      `_LE_USE_RETRY` rounds in a row without data, never ends. */
  lemma {:induction false} ClosedLivelock(c: Client, n: nat)
    requires 0 < |c.pending| < RecordBytes
    ensures RunAsWritten(c, seq(n, _ => Closed)) == c.(retry := if n == 0 then c.retry else 0)
  {
    if n > 0 {
      var socket := seq(n, _ => Closed);
      assert socket[..n - 1] == seq(n - 1, _ => Closed);
      ClosedLivelock(c, n - 1);
      var p := RunAsWritten(c, socket[..n - 1]);
      assert p == c.(retry := p.retry);
      ClosedStepAsWritten(p);
    }
  }

  /** As written, an end of stream with a bridge pending keeps the bridge
      and resets the retry counter. */
  lemma ClosedStepAsWritten(c: Client)
    requires 0 < |c.pending| < RecordBytes
    ensures StepAsWritten(c, Closed) == c.(retry := 0)
  {
    var count := |c.pending|;
    assert count % RecordBytes == count;
    assert (c.pending + [])[..count] == c.pending;
  }

  /** As written, an error on the socket drops the last byte of the
      pending bridge. */
  lemma FailedDropsByte()
    ensures StepAsWritten(Client([1, 2], 0, []), Failed) == Client([1], 0, [])
  {
    var b: seq<byte> := [1, 2];
    assert b[..1] == [1];
  }

  /** Corrected, `_LE_USE_RETRY` rounds without data end the loop, the
      bridge kept. */
  lemma {:induction false} ClosedEnds(c: Client, n: nat)
    requires |c.pending| < RecordBytes && Whole(c.records)
    ensures Run(c, seq(n, _ => Closed)) == c.(retry := c.retry + n)
  {
    if n > 0 {
      var socket := seq(n, _ => Closed);
      assert socket[..n - 1] == seq(n - 1, _ => Closed);
      ClosedEnds(c, n - 1);
    }
  }

  /** A record that starts before the end of the whole records ends
      within them. */
  lemma RecordFits(parse: nat, round: nat)
    requires parse < round && parse % RecordBytes == 0 && round % RecordBytes == 0
    ensures parse + RecordBytes <= round && (parse + RecordBytes) % RecordBytes == 0
  {
  }

  /** The parsing loop of `le_server_inject_client` and its bridge: the
      whole records at the head of the buffer, in order, and the partial
      record left after them. */
  method HandOn(buf: seq<byte>) returns (records: seq<seq<byte>>, bridge: seq<byte>)
    ensures var round := |buf| - |buf| % RecordBytes;
      records == Split(buf[..round]) && bridge == buf[round..]
  {
    var round := |buf| - |buf| % RecordBytes;
    records := [];
    var parse := 0;
    while parse < round
      invariant parse <= round && parse % RecordBytes == 0 && round % RecordBytes == 0
      invariant records == Split(buf[..parse])
    {
      RecordFits(parse, round);
      assert buf[..parse + RecordBytes][..parse] == buf[..parse];
      records := records + [buf[parse..parse + RecordBytes]];
      parse := parse + RecordBytes;
    }
    bridge := buf[round..];
  }

  /** The empty loop state. */
  function Start(): Client
  {
    Client([], 0, [])
  }

  /** One round of the reading loop of `le_server_inject_client`,
      corrected. */
  method ClientRound(bridge: seq<byte>, retry: nat, records: seq<seq<byte>>, r: Read)
    returns (bridge': seq<byte>, retry': nat, records': seq<seq<byte>>)
    requires |bridge| < RecordBytes && Whole(records)
    ensures Client(bridge', retry', records') == Step(Client(bridge, retry, records), r)
  {
    if r.Got? && |r.bytes| > 0 {
      var whole;
      whole, bridge' := HandOn(bridge + r.bytes);
      StepGot(Client(bridge, retry, records), r, whole, bridge');
      records' := records + whole;
      retry' := 0;
    } else {
      bridge', retry', records' := bridge, retry + 1, records;
    }
  }

  /** The first `used` reads were all consumed while fewer than
      `_LE_USE_RETRY` rounds in a row had brought no data. */
  predicate Running(socket: seq<Read>, used: nat)
    requires used <= |socket|
  {
    forall u :: 0 <= u < used ==> Run(Start(), socket[..u]).retry < UseRetry
  }

  /** A round taken below the retry limit extends the running prefix. */
  lemma RunningStep(socket: seq<Read>, used: nat)
    requires used < |socket| && Running(socket, used)
    requires Run(Start(), socket[..used]).retry < UseRetry
    ensures Running(socket, used + 1)
  {
  }

  /** The reading loop of `le_server_inject_client`, corrected: the reads
      are consumed until `_LE_USE_RETRY` rounds in a row bring no data (or
      the modelled reads run out); every whole record received is handed
      on, in order, and the bridge keeps the partial record. */
  method ClientLoop(socket: seq<Read>) returns (records: seq<seq<byte>>, bridge: seq<byte>, retry: nat, used: nat)
    ensures used <= |socket| && Client(bridge, retry, records) == Run(Start(), socket[..used])
    ensures used == |socket| || retry == UseRetry
    ensures Running(socket, used)
  {
    records, bridge, retry, used := [], [], 0, 0;
    while retry < UseRetry && used < |socket|
      invariant used <= |socket| && Client(bridge, retry, records) == Run(Start(), socket[..used])
      invariant retry <= UseRetry
      invariant Running(socket, used)
      decreases |socket| - used
    {
      RunningStep(socket, used);
      RunStep(Start(), socket, used);
      bridge, retry, records := ClientRound(bridge, retry, records, socket[used]);
      used := used + 1;
    }
  }

  /** A read that brings bytes hands on what `HandOn` finds in the
      bridge and the bytes together. */
  lemma StepGot(c: Client, r: Read, whole: seq<seq<byte>>, bridge: seq<byte>)
    requires |c.pending| < RecordBytes && Whole(c.records) && r.Got? && |r.bytes| > 0
    requires var buf := c.pending + r.bytes; var round := |buf| - |buf| % RecordBytes;
      whole == Split(buf[..round]) && bridge == buf[round..]
    ensures Step(c, r) == Client(bridge, 0, c.records + whole)
  {
  }

  /** One more read is one more round. */
  lemma RunStep(c: Client, socket: seq<Read>, i: nat)
    requires |c.pending| < RecordBytes && Whole(c.records) && i < |socket|
    ensures Run(c, socket[..i + 1]) == Step(Run(c, socket[..i]), socket[i])
  {
    assert socket[..i + 1][..i] == socket[..i];
  }

  /** The injection of records, one after the other, into the scale files:
      each record's colour at the address the address module computes for
      it. */
  function InjectAll(files: seq<seq<byte>>, records: seq<seq<byte>>, address: seq<byte> -> seq<nat>): (r: seq<seq<byte>>)
    requires |files| > 0 && Whole(records)
    requires forall k :: 0 <= k < |records| ==> Digits(address(records[k]), |files|)
    ensures |r| == |files|
  {
    if records == [] then files
    else
      var n := |records| - 1;
      Walks.Inject(InjectAll(files, records[..n], address), address(records[n]), RecordData(records[n]))
  }

  /** `le_server_inject` for each record in turn. */
  method InjectRecords(files: seq<seq<byte>>, records: seq<seq<byte>>, address: seq<byte> -> seq<nat>) returns (r: seq<seq<byte>>)
    requires |files| > 0 && Whole(records)
    requires forall k :: 0 <= k < |records| ==> Digits(address(records[k]), |files|)
    ensures r == InjectAll(files, records, address)
  {
    r := files;
    var i := 0;
    while i < |records|
      invariant i <= |records| && r == InjectAll(files, records[..i], address)
    {
      InjectAllStep(files, records, address, i);
      r := InjectWalk(r, address(records[i]), RecordData(records[i]));
      i := i + 1;
    }
    assert records[..i] == records;
  }

  /** One more record is one more injection. */
  lemma InjectAllStep(files: seq<seq<byte>>, records: seq<seq<byte>>, address: seq<byte> -> seq<nat>, i: nat)
    requires |files| > 0 && Whole(records) && i < |records|
    requires forall k :: 0 <= k < |records| ==> Digits(address(records[k]), |files|)
    ensures Whole(records[..i]) && Whole(records[..i + 1])
    ensures InjectAll(files, records[..i + 1], address)
      == Walks.Inject(InjectAll(files, records[..i], address), address(records[i]), RecordData(records[i]))
  {
    assert records[..i + 1][..i] == records[..i];
  }

  /** An injection into well-formed files grows each scale file by one
      record at most. */
  lemma InjectGrows(files: seq<seq<byte>>, digits: seq<nat>, rgb: seq<byte>)
    requires |files| > 0 && |rgb| == 3 && Digits(digits, |files|)
    requires WellFormed(files)
    requires forall i :: 0 < i < |files| ==> |files[i]| < OffsNull
    ensures forall j :: 0 <= j < |files| ==> |Walks.Inject(files, digits, rgb)[j]| <= |files[j]| + ClassArray
  {
    WellFormedLinked(files, 0, 0);
    RootStart(files[0]);
    forall j | 0 <= j < |files|
      ensures |Walks.Inject(files, digits, rgb)[j]| <= |files[j]| + ClassArray
    {
      InjectGrowth(files, 0, 0, Blank(), digits, rgb, j);
    }
  }

  /** A session of injections keeps well-formed scale files well formed,
      as long as no scale file grows to the null offset. */
  lemma {:induction false} InjectAllWellFormed(files: seq<seq<byte>>, records: seq<seq<byte>>, address: seq<byte> -> seq<nat>)
    requires |files| > 0 && Whole(records)
    requires forall k :: 0 <= k < |records| ==> Digits(address(records[k]), |files|)
    requires WellFormed(files)
    requires forall i :: 0 < i < |files| ==> |files[i]| + ClassArray * |records| < OffsNull
    ensures WellFormed(InjectAll(files, records, address))
    ensures forall j :: 0 <= j < |files| ==> |InjectAll(files, records, address)[j]| <= |files[j]| + ClassArray * |records|
    decreases |records|
  {
    if records != [] {
      var n := |records| - 1;
      var rs := records[..n];
      assert forall k :: 0 <= k < n ==> rs[k] == records[k];
      InjectAllWellFormed(files, rs, address);
      var f := InjectAll(files, rs, address);
      assert forall i :: 0 <= i < |files| ==> |f[i]| <= |files[i]| + ClassArray * n;
      assert ClassArray * |records| == ClassArray * n + ClassArray;
      InjectWellFormed(f, address(records[n]), RecordData(records[n]));
      InjectGrows(f, address(records[n]), RecordData(records[n]));
    }
  }

  // ---------------------------------------------------------------------
  // Query

  /** `le_server_query`: the node of scale `parse` at `offset` is read; on
      the address prefix the child for the address digit is followed, at
      scale `target` the node is emitted with its address, and between
      the two every child is visited in ascending digit order. Nothing is
      emitted below a record that cannot be read or a null child. */
  method QueryNode(files: seq<seq<byte>>, digits: seq<nat>, size: nat, target: nat, parse: nat, offset: nat, path: seq<nat>) returns (hits: seq<Hit>)
    requires size <= target < |files| && parse <= target && Digits(digits, |files|)
    ensures parse < size ==> hits == match Locate(files, digits, size, parse, offset)
      case None => []
      case Some(o) => Reached(files, size, o, path, target)
    ensures parse >= size ==> hits == Reached(files, parse, offset, path, target)
    decreases target - parse, 2
  {
    var rec := ReadRecord(files[parse], offset);
    if rec.None? {
      return [];
    }
    var c := rec.value;
    if parse < size {
      var o := Slot(c, digits[parse]);
      if o == OffsNull {
        return [];
      }
      hits := QueryNode(files, digits, size, target, parse + 1, o, path);
      if parse + 1 == size && ReadRecord(files[size], o).Some? {
        LocateHere(files, digits, size, o, ReadRecord(files[size], o).value);
      }
    } else if parse == target {
      hits := [Hit(path, Colour(c))];
    } else {
      hits := QueryChildren(files, digits, size, target, parse, c, path);
    }
  }

  /** The daughter enumeration of `le_server_query`: the children of the
      record `c` of scale `parse`, in ascending digit order, each with its
      digit appended to the address. */
  method QueryChildren(files: seq<seq<byte>>, digits: seq<nat>, size: nat, target: nat, parse: nat, c: seq<byte>, path: seq<nat>) returns (hits: seq<Hit>)
    requires size <= parse < target < |files| && Digits(digits, |files|) && |c| == ClassArray
    ensures hits == ReachedFrom(files, parse, c, path, target, 0)
    decreases target - parse, 1
  {
    hits := [];
    var d: nat := 0;
    while d < Base
      invariant d <= Base
      invariant hits + ReachedFrom(files, parse, c, path, target, d) == ReachedFrom(files, parse, c, path, target, 0)
    {
      var o := Slot(c, d);
      var sub: seq<Hit> := [];
      if o != OffsNull {
        sub := QueryNode(files, digits, size, target, parse + 1, o, path + [d]);
      }
      ReachedFromSplit(files, parse, c, path, target, d, hits, sub);
      hits := hits + sub;
      d := d + 1;
    }
  }

  /** The nodes below the children `d` and up are those below child `d`
      followed by those below the children after it. */
  lemma ReachedFromSplit(files: seq<seq<byte>>, k: nat, c: seq<byte>, path: seq<nat>, target: nat, d: nat, hits: seq<Hit>, sub: seq<Hit>)
    requires k < target < |files| && |c| == ClassArray && d < Base
    requires sub == if Slot(c, d) == OffsNull then [] else Reached(files, k + 1, Slot(c, d), path + [d], target)
    ensures hits + ReachedFrom(files, k, c, path, target, d) == (hits + sub) + ReachedFrom(files, k, c, path, target, d + 1)
  {
  }

  /** A query of the address `digits[..size]` with span `span` in the scale
      files of a bucket answers `Walks.Answer`. */
  method Query(files: seq<seq<byte>>, digits: seq<nat>, size: nat, span: nat) returns (hits: seq<Hit>)
    requires size + span < |files| && Digits(digits, |files|)
    ensures hits == Answer(files, digits, size, span)
  {
    hits := QueryNode(files, digits, size, size + span, 0, 0, digits[..size]);
    if size == 0 && ReadRecord(files[0], 0).Some? {
      LocateHere(files, digits, 0, 0, ReadRecord(files[0], 0).value);
    }
  }

  /** The answer of a bucket to a query: nothing when the bucket directory
      does not exist, since the read stream cannot be created. */
  function BucketAnswer(disk: map<int, seq<seq<byte>>>, key: int, digits: seq<nat>, size: nat, span: nat): seq<Hit>
    requires key in disk ==> Digits(digits, |disk[key]|)
  {
    if key in disk then Answer(disk[key], digits, size, span) else []
  }

  /** Bit `s` of a query mode. */
  predicate ModeBit(mode: nat, s: nat)
  {
    if s == 0 then mode % 2 == 1 else (mode / 2) % 2 == 1
  }

  // ---------------------------------------------------------------------
  // The server

  /** A server (`le_server_t`): its root path, its configuration, its
      stack of bucket times and the bucket directories under the root. */
  class Server {
    /** `sv_path`. */
    var path: string
    /** `sv_scfg`: the number of scales. */
    var scfg: int
    /** `sv_tcfg`: the time discretisation. */
    var tcfg: int
    /** `sv_time[0 .. sv_size)`. */
    var stack: seq<int>
    /** The state of the `sv_time` allocation. */
    var block: Block
    /** The scale files of each bucket directory. */
    var disk: map<int, seq<seq<byte>>>

    /** The configuration holds and every bucket has one file per scale. */
    ghost predicate Configured()
      reads this
    {
      && ConfigStatus(scfg, tcfg) == Success
      && forall b :: b in disk ==> |disk[b]| == scfg
    }

    /** A server on `path` before its configuration is read. */
    constructor (path: string, disk: map<int, seq<seq<byte>>>)
      ensures this.path == path && this.disk == disk
      ensures scfg == 0 && tcfg == 0 && stack == [] && block == NoBlock
    {
      this.path := path;
      this.disk := disk;
      scfg, tcfg := 0, 0;
      stack, block := [], NoBlock;
    }

    /** `le_server_set_config`: "/system" is appended to the path; the
      number of scales is assigned when it can be read, the time
      discretisation too when it can be read after it; the path is cut
      back only when both values are accepted. */
    method SetConfig(f: Found) returns (st: Status)
      modifies this
      ensures st == SetConfigStatus(f)
      ensures path == if st == Success then old(path) else old(path) + "/system"
      ensures scfg == if f.Fields? && |f.values| >= 1 then f.values[0] else old(scfg)
      ensures tcfg == if f.Fields? && |f.values| >= 2 then f.values[1] else old(tcfg)
      ensures stack == old(stack) && block == old(block) && disk == old(disk)
    {
      var plen := |path|;
      path := path + "/system";
      if f.Absent? {
        return ErrIoAccess;
      }
      if |f.values| < 1 {
        return ErrIoRead;
      }
      scfg := f.values[0];
      if |f.values| < 2 {
        return ErrIoRead;
      }
      tcfg := f.values[1];
      if scfg <= 0 || scfg >= UseDepth {
        return ErrDepth;
      }
      if tcfg <= 0 {
        return ErrTime;
      }
      path := path[..plen];
      st := Success;
    }

    /** `le_server_set_tenum`: the time of every listed directory is
      appended to the stack in order, one `realloc` per time; `allocs` is
      the number of them that succeed. */
    method SetTenum(entries: seq<Entry>, allocs: nat) returns (st: Status)
      requires TenumSafe(block, entries)
      modifies this
      ensures var s := Stack(entries);
        var n := if |s| <= allocs then |s| else allocs;
        && stack == old(stack) + s[..n]
        && block == (if n > 0 then Live else old(block))
      ensures st == Success <==> |Stack(entries)| <= allocs
      ensures st != Success ==> st == ErrMemory
      ensures path == old(path) && scfg == old(scfg) && tcfg == old(tcfg) && disk == old(disk)
    {
      var i, count := 0, 0;
      while i < |entries|
        invariant i <= |entries| && count == |Stack(entries[..i])| <= allocs
        invariant stack == old(stack) + Stack(entries[..i])
        invariant block == (if count > 0 then Live else old(block))
        invariant path == old(path) && scfg == old(scfg) && tcfg == old(tcfg) && disk == old(disk)
      {
        var e := entries[i];
        StackStep(entries, i);
        if Listed(e) {
          if count == allocs {
            StackPrefix(entries, i + 1);
            assert Stack(entries)[..allocs] == Stack(entries[..i + 1])[..allocs] == Stack(entries[..i]);
            return ErrMemory;
          }
          stack := stack + [StrToIMax(e.name)];
          block := Live;
          count := count + 1;
        }
        i := i + 1;
      }
      assert entries[..i] == entries;
      assert Stack(entries)[..count] == Stack(entries);
      st := Success;
    }

    /** `le_server_set_tfree` as written: the stack is emptied and its
      memory freed, but the pointer is kept. */
    method SetTfreeAsWritten()
      modifies this
      ensures stack == [] && block == FreedAsWritten(old(block))
      ensures path == old(path) && scfg == old(scfg) && tcfg == old(tcfg) && disk == old(disk)
    {
      if block != NoBlock {
        block := Freed;
      }
      stack := [];
    }

    /** `le_server_set_tfree` corrected: the pointer is reset as well. */
    method SetTfree()
      modifies this
      ensures stack == [] && block == NoBlock
      ensures path == old(path) && scfg == old(scfg) && tcfg == old(tcfg) && disk == old(disk)
    {
      block := NoBlock;
      stack := [];
    }

    /** `le_server_reduce`: the running minimum of the distances from the
      stack times to the bucket of `t`, the first strictly smaller one
      replacing the current choice. */
    method Reduce(t: int) returns (r: int)
      requires tcfg > 0
      ensures r == ReducedTime(stack, tcfg, t)
    {
      var atime := CDiv(t, tcfg);
      var rtime := TimeNull;
      var dtime := TimeMax;
      var parse := 0;
      while parse < |stack|
        invariant parse <= |stack|
        invariant match Nearest(stack[..parse], atime)
          case None => rtime == TimeNull && dtime == TimeMax
          case Some(i) => rtime == stack[i] && dtime == Abs(stack[i] - atime)
      {
        assert stack[..parse + 1][..parse] == stack[..parse];
        assert Distance(stack[..parse + 1], atime, Nearest(stack[..parse], atime)) == dtime;
        var stime := Abs(stack[parse] - atime);
        if stime < dtime {
          dtime := stime;
          rtime := stack[parse];
        }
        parse := parse + 1;
      }
      assert stack[..parse] == stack;
      r := rtime * tcfg;
    }

    /** `le_server_query_client`: a query whose address and span reach past
      the last scale is abandoned with no reply; otherwise each time slot
      whose mode bit is set is reduced to its nearest bucket and queried,
      slot 0 first, and the reply holds the address times and the nodes
      found. */
    method QueryClient(mode: nat, times: seq<int>, digits: seq<nat>, size: nat, span: nat) returns (reply: Option<(seq<int>, seq<Hit>)>)
      requires Configured() && |times| == 2 && Digits(digits, scfg)
      ensures size + span >= scfg ==> reply.None?
      ensures size + span < scfg ==> reply.Some?
      ensures size + span < scfg && reply.Some? ==>
        var (ts, hits) := reply.value;
        && |ts| == 2
        && ts[0] == (if ModeBit(mode, 0) then ReducedTime(stack, tcfg, times[0]) else times[0])
        && ts[1] == (if ModeBit(mode, 1) then ReducedTime(stack, tcfg, times[1]) else times[1])
        && hits == (if ModeBit(mode, 0) then BucketAnswer(disk, CDiv(ts[0], tcfg), digits, size, span) else [])
                 + (if ModeBit(mode, 1) then BucketAnswer(disk, CDiv(ts[1], tcfg), digits, size, span) else [])
    {
      if size + span >= scfg {
        return None;
      }
      var ts := times;
      var hits: seq<Hit> := [];
      if ModeBit(mode, 0) {
        var r, found := QueryTime(ts[0], digits, size, span);
        ts := ts[0 := r];
        hits := hits + found;
      }
      if ModeBit(mode, 1) {
        var r, found := QueryTime(ts[1], digits, size, span);
        ts := ts[1 := r];
        hits := hits + found;
      }
      reply := Some((ts, hits));
    }

    /** One time of a query: the time reduced to the nearest bucket of the
        stack, and the answer of that bucket. */
    method QueryTime(t: int, digits: seq<nat>, size: nat, span: nat) returns (r: int, found: seq<Hit>)
      requires Configured() && Digits(digits, scfg) && size + span < scfg
      ensures r == ReducedTime(stack, tcfg, t)
      ensures found == BucketAnswer(disk, CDiv(r, tcfg), digits, size, span)
    {
      r := Reduce(t);
      found := [];
      var key := CDiv(r, tcfg);
      if key in disk {
        found := Query(disk[key], digits, size, span);
      }
    }

    /** `le_server_inject_client`, corrected: nothing happens unless the
      time can be read and the bucket stream created; otherwise every
      whole record received is injected into the bucket of the time, and
      the stack is freed and enumerated again. */
    method InjectClient(time: Option<int>, created: bool, socket: seq<Read>, address: seq<byte> -> seq<nat>, entries: seq<Entry>, allocs: nat)
      returns (records: seq<seq<byte>>)
      requires Configured()
      requires forall r :: |r| == RecordBytes ==> Digits(address(r), scfg)
      modifies this
      ensures path == old(path) && scfg == old(scfg) && tcfg == old(tcfg)
      ensures Configured()
      ensures Whole(records)
      ensures time.None? || !created ==> records == [] && stack == old(stack) && block == old(block) && disk == old(disk)
      ensures time.Some? && created ==>
        var key := CDiv(time.value, tcfg);
        var d := Bucket(old(disk), key, scfg);
        var s := Stack(entries);
        && (exists used :: 0 <= used <= |socket|
              && records == Run(Start(), socket[..used]).records
              && (used == |socket| || Run(Start(), socket[..used]).retry == UseRetry)
              && Running(socket, used))
        && disk == d[key := InjectAll(d[key], records, address)]
        && stack == s[..if |s| <= allocs then |s| else allocs]
    {
      if time.None? || !created {
        return [];
      }
      var key := CDiv(time.value, tcfg);
      disk := Bucket(disk, key, scfg);
      var bridge, retry, used;
      records, bridge, retry, used := ClientLoop(socket);
      var files := InjectRecords(disk[key], records, address);
      disk := disk[key := files];
      var st := Restack(entries, allocs);
    }

    /** The end of `le_server_inject_client`, corrected: the stack is
      freed with `le_server_set_tfree` (which also resets the pointer) and
      enumerated again with `le_server_set_tenum`, whatever the state of
      its memory block before. */
    method Restack(entries: seq<Entry>, allocs: nat) returns (st: Status)
      modifies this
      ensures var s := Stack(entries);
        stack == s[..if |s| <= allocs then |s| else allocs]
      ensures st == Success <==> |Stack(entries)| <= allocs
      ensures st != Success ==> st == ErrMemory
      ensures path == old(path) && scfg == old(scfg) && tcfg == old(tcfg) && disk == old(disk)
    {
      SetTfree();
      st := SetTenum(entries, allocs);
    }
  }
}
