/** The activity log: its value, its byte encoding, and the log, transaction and
    segment objects that change it. */
module ActivityLogs {
  import opened Wire
  import opened Activities

  /** `sizeof(log_header)`: a 4-byte count and a 64-byte hash. */
  const LOG_HEADER_SIZE := 68

  datatype LogHeader = LogHeader(numRecords: Int32, hash: Hash512)

  /** What a log holds, and what a segment of one holds. */
  datatype LogState = LogState(header: LogHeader, log: seq<Record>)

  const FRESH := LogState(LogHeader(0, ZERO_HASH), [])

  ghost predicate AllWellFormed(log: seq<Record>) {
    forall r <- log :: r.WellFormed()
  }

  // ---------------------------------------------------------------- encoding

  /** The records one after the other, with no count and no separator. */
  function LogBytes(log: seq<Record>): string {
    if log == [] then "" else Encode(log[0]) + LogBytes(log[1..])
  }

  function StateBytes(s: LogState): string {
    Bytes(s.header.numRecords, 4) + s.header.hash + LogBytes(s.log)
  }

  /** Reads `n` records; the second component is what is left of the buffer. */
  function DecodeRecords(s: string, n: int): (r: Option<(seq<Record>, string)>)
    ensures r.Some? ==> |r.value.0| == if n < 0 then 0 else n
    decreases if n < 0 then 0 else n
  {
    if n <= 0 then Some(([], s)) else
    var first := DecodeRecord(s);
    if first.None? then None else
    var others := DecodeRecords(s[HEADER_SIZE + |first.value.content|..], n - 1);
    if others.None? then None else
    Some(([first.value] + others.value.0, others.value.1))
  }

  function DecodeLogHeader(s: string): LogHeader
    requires |s| >= LOG_HEADER_SIZE
  {
    LogHeader(ReadInt32(s[..4]), s[4..68])
  }

  /** Reads a header and as many records as it announces. */
  function DecodeState(s: string): Option<(LogState, string)> {
    if |s| < LOG_HEADER_SIZE then None else
    var header := DecodeLogHeader(s);
    var records := DecodeRecords(s[LOG_HEADER_SIZE..], header.numRecords);
    if records.None? then None else
    Some((LogState(header, records.value.0), records.value.1))
  }

  lemma {:induction false} LogBytesAppend(a: seq<Record>, b: seq<Record>)
    ensures LogBytes(a + b) == LogBytes(a) + LogBytes(b)
  {
    if a == [] {
      assert a + b == b;
    } else {
      assert (a + b)[1..] == a[1..] + b;
      LogBytesAppend(a[1..], b);
    }
  }

  lemma LogBytesOne(r: Record)
    ensures LogBytes([r]) == Encode(r)
  {
    var log := [r];
    assert log[1..] == [];
    assert LogBytes(log) == Encode(r) + "";
  }

  lemma LogBytesPush(log: seq<Record>, r: Record)
    ensures LogBytes(log + [r]) == LogBytes(log) + Encode(r)
  {
    LogBytesOne(r);
    LogBytesAppend(log, [r]);
  }

  lemma LogBytesPrefix(log: seq<Record>, i: nat)
    requires i < |log|
    ensures LogBytes(log[..i + 1]) == LogBytes(log[..i]) + Encode(log[i])
    ensures |LogBytes(log[..i + 1])| <= |LogBytes(log)|
  {
    assert log[..i + 1] == log[..i] + [log[i]];
    LogBytesPush(log[..i], log[i]);
    assert log == log[..i + 1] + log[i + 1..];
    LogBytesAppend(log[..i + 1], log[i + 1..]);
  }

  /** Where the parts of a serialised log lie: the count, the hash, and each record
      directly behind the records before it. */
  lemma StateLayout(s: LogState, i: nat)
    requires i < |s.log|
    ensures var bytes := StateBytes(s);
            var at := LOG_HEADER_SIZE + |LogBytes(s.log[..i])|;
            && bytes[..4] == Bytes(s.header.numRecords, 4) && bytes[4..68] == s.header.hash
            && at + |Encode(s.log[i])| <= |bytes|
            && bytes[at..at + |Encode(s.log[i])|] == Encode(s.log[i])
            && |bytes| == LOG_HEADER_SIZE + |LogBytes(s.log)|
  {
    var header := Bytes(s.header.numRecords, 4) + s.header.hash;
    var front, back := LogBytes(s.log[..i]), LogBytes(s.log[i + 1..]);
    assert s.log == s.log[..i + 1] + s.log[i + 1..];
    LogBytesPrefix(s.log, i);
    LogBytesAppend(s.log[..i + 1], s.log[i + 1..]);
    assert StateBytes(s) == header + front + Encode(s.log[i]) + back;
    Middle(header + front, Encode(s.log[i]), back);
  }

  lemma Middle(before: string, part: string, after: string)
    ensures (before + part + after)[|before|..|before| + |part|] == part
  {
  }

  // ---------------------------------------------------------- state changes

  /** The position of the first record with a hash, or the length of the log. */
  function IndexOf(log: seq<Record>, hash: Hash512): (i: nat)
    ensures i <= |log|
    ensures i < |log| ==> log[i].header.hash == hash
    ensures forall j | 0 <= j < i :: log[j].header.hash != hash
  {
    if log == [] || log[0].header.hash == hash then 0 else 1 + IndexOf(log[1..], hash)
  }

  /** The log after `write_record`. */
  function Written(sha: Digest, s: LogState, r: Record): LogState {
    var log := s.log + [r];
    LogState(LogHeader(Wrap32(s.header.numRecords + 1), sha(LogBytes(log))), log)
  }

  /** The log after `write_segment`. */
  function Extended(sha: Digest, s: LogState, segment: seq<Record>): LogState {
    var log := s.log + segment;
    LogState(LogHeader(Wrap32(s.header.numRecords + |segment|), sha(LogBytes(log))), log)
  }

  /** What `generate_record` makes for the end of a log. */
  function Generated(sha: Digest, log: seq<Record>, header: RecordHeader, content: Option<Text>): Record {
    var record := Record(header, if content.Some? then content.value else "");
    if log != [] then Rehashed(sha, record.Sized(), log[|log| - 1].header.hash)
    else PartialHashed(sha, if content.Some? then record.Sized() else record)
  }

  /** The records after the first one with the hash; `None` when there is none. */
  function SegmentAfter(log: seq<Record>, hash: Hash512): Option<seq<Record>> {
    var i := IndexOf(log, hash);
    if i == |log| then None else Some(log[i + 1..])
  }

  lemma WrapSucc(n: int, k: int)
    ensures Wrap32(Wrap32(n) + k) == Wrap32(n + k)
  {
    assert (n % 0x1_0000_0000 + k) % 0x1_0000_0000 == (n + k) % 0x1_0000_0000 by {
      var q := n / 0x1_0000_0000;
      assert n + k == (n % 0x1_0000_0000 + k) + q * 0x1_0000_0000;
    }
  }

  // --------------------------------------------------------------- objects

  /** The result of a call on a transaction: the guard may throw
      `transaction_invalid_state`, a search `transaction_read_fail`. */
  datatype Result<+T> = Ok(value: T) | InvalidState | ReadFail

  /** Copies the encodings of all records into a buffer, advancing a pointer. */
  method CopyRecords(log: seq<Record>, heap: array<char>, at: nat)
    requires at + |LogBytes(log)| == heap.Length
    modifies heap
    ensures heap[..] == old(heap[..at]) + LogBytes(log)
  {
    var ptr := at;
    assert log[..|log|] == log;
    for i := 0 to |log|
      invariant ptr == at + |LogBytes(log[..i])| <= heap.Length
      invariant heap[..ptr] == old(heap[..at]) + LogBytes(log[..i])
    {
      LogBytesPrefix(log, i);
      ptr := CopyRecord(log[i], heap, ptr);
    }
    assert heap[..ptr] == heap[..];
  }

  method CopyRecord(r: Record, heap: array<char>, at: nat) returns (ptr: nat)
    requires at + |Encode(r)| <= heap.Length
    modifies heap
    ensures ptr == at + |Encode(r)|
    ensures heap[..ptr] == old(heap[..at]) + Encode(r)
  {
    var s := Encode(r);
    Copy(s, heap, at);
    ptr := at + |s|;
  }

  /** Adds up the sizes of all records. */
  method SumSizes(log: seq<Record>, start: nat) returns (size: nat)
    ensures size == start + |LogBytes(log)|
  {
    size := start;
    assert log[..|log|] == log;
    for i := 0 to |log|
      invariant size == start + |LogBytes(log[..i])|
    {
      LogBytesPrefix(log, i);
      size := size + (HEADER_SIZE + |log[i].content|);
    }
  }

  method SerialiseState(s: LogState) returns (heap: array<char>)
    ensures fresh(heap) && heap[..] == StateBytes(s)
  {
    var size := SumSizes(s.log, LOG_HEADER_SIZE);
    heap := new char[size];
    var header := Bytes(s.header.numRecords, 4) + s.header.hash;
    Copy(header, heap, 0);
    assert heap[..LOG_HEADER_SIZE] == header;
    CopyRecords(s.log, heap, LOG_HEADER_SIZE);
  }

  /** Records read earlier, put in front of the result of reading on. */
  ghost function Prefixed(done: seq<Record>, r: Option<(seq<Record>, string)>): Option<(seq<Record>, string)> {
    if r.None? then None else Some((done + r.value.0, r.value.1))
  }

  lemma DecodeStep(s: string, n: nat, done: seq<Record>)
    requires n > 0 && DecodeRecords(s, n).Some?
    ensures DecodeRecord(s).Some?
    ensures var r := DecodeRecord(s).value;
            && Prefixed(done, DecodeRecords(s, n))
            == Prefixed(done + [r], DecodeRecords(s[HEADER_SIZE + |r.content|..], n - 1))
  {
    var r := DecodeRecord(s).value;
    var others := DecodeRecords(s[HEADER_SIZE + |r.content|..], n - 1).value;
    assert done + ([r] + others.0) == done + [r] + others.0;
  }

  /** Reads one record and moves the pointer past it. */
  method TakeRecord(serial: array<char>, at: nat) returns (r: Record, ptr: nat)
    requires at <= serial.Length && DecodeRecord(serial[at..]).Some?
    ensures r == DecodeRecord(serial[at..]).value
    ensures ptr <= serial.Length && serial[ptr..] == serial[at..][HEADER_SIZE + |r.content|..]
  {
    var a := new Activity();
    a.Deserialise(serial, at);
    r := a.Value();
    ptr := at + (HEADER_SIZE + |a.content|);
  }

  class LogSegment {
    var header: LogHeader
    var segment: seq<Record>

    function State(): LogState
      reads this
    {
      LogState(header, segment)
    }

    constructor (hash: Hash512, segment: seq<Record>)
      ensures State() == LogState(LogHeader(Wrap32(|segment|), hash), segment)
    {
      this.segment := segment;
      header := LogHeader(Wrap32(|segment|), hash);
    }

    constructor FromBytes(serial: array<char>)
      requires DecodeState(serial[..]).Some?
      ensures State() == DecodeState(serial[..]).value.0
    {
      header, segment := FRESH.header, [];
      new;
      var end := Deserialise(serial);
    }

    method Serialise() returns (heap: array<char>)
      ensures fresh(heap) && heap[..] == StateBytes(State())
    {
      heap := SerialiseState(State());
    }

    method LogSize() returns (size: nat)
      ensures size == |StateBytes(State())|
    {
      size := SumSizes(segment, LOG_HEADER_SIZE);
    }

    /** The caller's pointer has to lead to a whole segment.  The result is the
        position of the first byte that was not read. */
    method Deserialise(serial: array<char>) returns (ptr: nat)
      requires DecodeState(serial[..]).Some? && segment == []
      modifies this
      ensures State() == DecodeState(serial[..]).value.0
      ensures ptr <= serial.Length && serial[ptr..] == DecodeState(serial[..]).value.1
    {
      header := DecodeLogHeader(serial[..]);
      ptr := LOG_HEADER_SIZE;
      var n := if header.numRecords > 0 then header.numRecords else 0;
      assert serial[..][ptr..] == serial[ptr..];
      ghost var all := DecodeRecords(serial[ptr..], n);
      assert all == DecodeRecords(serial[ptr..], header.numRecords);
      assert [] + all.value.0 == all.value.0;
      for i := 0 to n
        invariant ptr <= serial.Length
        invariant header == old(DecodeLogHeader(serial[..]))
        invariant all == Prefixed(segment, DecodeRecords(serial[ptr..], n - i))
      {
        DecodeStep(serial[ptr..], n - i, segment);
        var r;
        r, ptr := TakeRecord(serial, ptr);
        segment := segment + [r];
      }
    }
  }

  class ActivityLog {
    const sha: Digest
    var header: LogHeader
    var log: seq<Record>
    var locked: bool       // m_mutex
    var transacting: bool

    function State(): LogState
      reads this
    {
      LogState(header, log)
    }

    constructor (sha: Digest)
      ensures State() == FRESH && !locked && !transacting && this.sha == sha
    {
      this.sha := sha;
      header, log, locked, transacting := FRESH.header, [], false, false;
    }

    /** `lock()` returns only once the mutex is free. */
    method BeginTransaction() returns (t: LogTransaction)
      requires !locked
      modifies this
      ensures fresh(t) && t.base == this && t.valid
      ensures locked && transacting && State() == old(State())
    {
      locked := true;
      transacting := true;
      t := new LogTransaction(this);
    }

    /** `unlock()` is for a mutex that is held. */
    method EndTransaction()
      requires locked
      modifies this
      ensures !locked && !transacting && State() == old(State())
    {
      transacting := false;
      locked := false;
    }
  }

  class LogTransaction {
    const base: ActivityLog
    var valid: bool

    constructor (base: ActivityLog)
      ensures this.base == base && valid
    {
      this.base, valid := base, true;
    }

    /** The move constructor: the new handle is valid whatever the old one was. */
    constructor Move(orig: LogTransaction)
      modifies orig
      ensures base == orig.base && valid && !orig.valid
    {
      base, valid := orig.base, true;
      new;
      orig.valid := false;
    }

    method Destroy()
      requires valid ==> base.locked
      modifies base
      ensures base.State() == old(base.State())
      ensures if valid then !base.locked && !base.transacting
              else base.locked == old(base.locked) && base.transacting == old(base.transacting)
    {
      if !valid { return; }
      base.EndTransaction();
    }

    method ReadRecord(hash: Hash512) returns (r: Result<Record>)
      ensures !valid ==> r.InvalidState?
      ensures valid ==> var i := IndexOf(base.log, hash);
                        r == if i < |base.log| then Ok(base.log[i]) else ReadFail
    {
      if !valid { return InvalidState; }
      for i := 0 to |base.log|
        invariant i <= IndexOf(base.log, hash)
      {
        if base.log[i].header.hash == hash {
          return Ok(base.log[i]);
        }
      }
      return ReadFail;
    }

    method WriteRecord(record: Activity) returns (r: Result<()>)
      modifies base
      ensures base.locked == old(base.locked) && base.transacting == old(base.transacting)
      ensures !valid ==> r.InvalidState? && base.State() == old(base.State())
      ensures valid ==> r == Ok(()) && base.State() == Written(base.sha, old(base.State()), record.Value())
    {
      if !valid { return InvalidState; }
      base.log := base.log + [record.Value()];
      var hash := LogHash();
      base.header := base.header.(hash := hash.value);
      base.header := base.header.(numRecords := Wrap32(base.header.numRecords + 1));
      return Ok(());
    }

    method WriteSegment(segment: LogSegment) returns (r: Result<()>)
      modifies base
      ensures base.locked == old(base.locked) && base.transacting == old(base.transacting)
      ensures !valid ==> r.InvalidState? && base.State() == old(base.State())
      ensures valid ==> r == Ok(()) && base.State() == Extended(base.sha, old(base.State()), segment.segment)
    {
      if !valid { return InvalidState; }
      ghost var s, from := segment.segment, base.header.numRecords;
      for i := 0 to |segment.segment|
        invariant segment.segment == s
        invariant base.log == old(base.log) + s[..i]
        invariant base.header.numRecords == Wrap32(from + i)
        invariant base.locked == old(base.locked) && base.transacting == old(base.transacting)
      {
        WrapSucc(from + i, 1);
        base.log := base.log + [segment.segment[i]];
        base.header := base.header.(numRecords := Wrap32(base.header.numRecords + 1));
      }
      assert s[..|s|] == s;
      RewriteLogHash();
      return Ok(());
    }

    method GenerateRecord(header: RecordHeader) returns (r: Result<Activity>)
      ensures !valid ==> r.InvalidState?
      ensures valid ==> r.Ok? && fresh(r.value) && r.value.Value() == Generated(base.sha, base.log, header, None)
    {
      if !valid { return InvalidState; }
      var a: Activity;
      if |base.log| == 0 {
        a := new Activity.Bare(base.sha, header);
      } else {
        a := new Activity.Linked(base.sha, header, "", base.log[|base.log| - 1].header.hash);
      }
      return Ok(a);
    }

    method GenerateRecordWith(header: RecordHeader, content: Text) returns (r: Result<Activity>)
      ensures !valid ==> r.InvalidState?
      ensures valid ==>
                r.Ok? && fresh(r.value) && r.value.Value() == Generated(base.sha, base.log, header, Some(content))
    {
      if !valid { return InvalidState; }
      var a: Activity;
      if |base.log| == 0 {
        a := new Activity.First(base.sha, header, content);
      } else {
        a := new Activity.Linked(base.sha, header, content, base.log[|base.log| - 1].header.hash);
      }
      return Ok(a);
    }

    method LogSizePartial() returns (r: Result<nat>)
      ensures r == if valid then Ok(|LogBytes(base.log)|) else InvalidState
    {
      if !valid { return InvalidState; }
      var size := SumSizes(base.log, 0);
      return Ok(size);
    }

    method SerialisePartial() returns (r: Result<array<char>>)
      ensures !valid ==> r.InvalidState?
      ensures valid ==> r.Ok? && fresh(r.value) && r.value[..] == LogBytes(base.log)
    {
      if !valid { return InvalidState; }
      var size := LogSizePartial();
      var heap := new char[size.value];
      CopyRecords(base.log, heap, 0);
      return Ok(heap);
    }

    method LogSize() returns (r: Result<nat>)
      ensures r == if valid then Ok(|StateBytes(base.State())|) else InvalidState
    {
      if !valid { return InvalidState; }
      var size := SumSizes(base.log, LOG_HEADER_SIZE);
      return Ok(size);
    }

    method Serialise() returns (r: Result<array<char>>)
      ensures !valid ==> r.InvalidState?
      ensures valid ==> r.Ok? && fresh(r.value) && r.value[..] == StateBytes(base.State())
    {
      if !valid { return InvalidState; }
      var heap := SerialiseState(base.State());
      return Ok(heap);
    }

    method LogHash() returns (r: Result<Hash512>)
      ensures r == if valid then Ok(base.sha(LogBytes(base.log))) else InvalidState
    {
      if !valid { return InvalidState; }
      var serial := SerialisePartial();
      return Ok(base.sha(serial.value[..]));
    }

    method RewriteLogHash()
      requires valid
      modifies base`header
      ensures base.header == old(base.header).(hash := base.sha(LogBytes(base.log)))
    {
      var hash := LogHash();
      base.header := base.header.(hash := hash.value);
    }

    method LogVerification() returns (r: Result<bool>)
      ensures r == if valid then Ok(base.header.hash == base.sha(LogBytes(base.log))) else InvalidState
    {
      if !valid { return InvalidState; }
      var hash := LogHash();
      return Ok(hash.value == base.header.hash);
    }

    /** `back()` needs a record to look at. */
    method HeadVerification(record: Activity) returns (r: Result<bool>)
      requires valid ==> base.log != []
      ensures !valid ==> r.InvalidState?
      ensures valid ==> r == Ok(LinksTo(base.sha, record.Value(), base.log[|base.log| - 1].header.hash))
    {
      if !valid { return InvalidState; }
      var check := new Activity.Linked(base.sha, record.header, record.content, base.log[|base.log| - 1].header.hash);
      return Ok(check.header.hash == record.header.hash);
    }

    method SegmentFrom(hash: Hash512) returns (r: Result<LogSegment>)
      ensures !valid ==> r.InvalidState?
      ensures valid && SegmentAfter(base.log, hash).None? ==> r.ReadFail?
      ensures valid && SegmentAfter(base.log, hash).Some? ==>
                var c := SegmentAfter(base.log, hash).value;
                r.Ok? && fresh(r.value) && r.value.State() == LogState(LogHeader(Wrap32(|c|), base.header.hash), c)
    {
      if !valid { return InvalidState; }
      var inc := false;
      var c: seq<Record> := [];
      ghost var k := IndexOf(base.log, hash);
      for i := 0 to |base.log|
        invariant inc <==> k < i
        invariant c == if inc then base.log[k + 1..i] else []
      {
        if inc { c := c + [base.log[i]]; }
        if base.log[i].header.hash == hash { inc := true; }
      }
      if !inc { return ReadFail; }
      var segment := new LogSegment(base.header.hash, c);
      return Ok(segment);
    }
  }
}
