/** What the hashes of a log say about its records.  SHA-512 is an arbitrary
    function here, so each result ends in "or here is a collision". */
module TamperEvidence {
  import opened Wire
  import opened Activities
  import opened ActivityLogs

  // ------------------------------------------------ the hash over the whole log

  lemma DecodeFirst(r: Record, after: string, n: nat)
    requires r.WellFormed()
    ensures DecodeRecords(Encode(r) + after, n + 1)
         == var others := DecodeRecords(after, n);
            if others.None? then None else Some(([r] + others.value.0, others.value.1))
  {
    RecordRoundTrip(r, after);
    assert (Encode(r) + after)[|Encode(r)|..] == after;
  }

  lemma Peel(log: seq<Record>, rest: string)
    requires log != []
    ensures LogBytes(log) + rest == Encode(log[0]) + (LogBytes(log[1..]) + rest)
  {
    Associative(Encode(log[0]), LogBytes(log[1..]), rest);
  }

  lemma DecodeOneMore(log: seq<Record>, tail: string, rest: string)
    requires log != [] && log[0].WellFormed()
    requires DecodeRecords(tail, |log| - 1) == Some((log[1..], rest))
    ensures DecodeRecords(Encode(log[0]) + tail, |log|) == Some((log, rest))
  {
    DecodeFirst(log[0], tail, |log| - 1);
    assert [log[0]] + log[1..] == log;
  }

  lemma {:induction false} RecordsRoundTrip(log: seq<Record>, rest: string)
    requires AllWellFormed(log)
    ensures DecodeRecords(LogBytes(log) + rest, |log|) == Some((log, rest))
  {
    if log == [] {
      assert "" + rest == rest;
    } else {
      RecordsRoundTrip(log[1..], rest);
      Peel(log, rest);
      DecodeOneMore(log, LogBytes(log[1..]) + rest, rest);
    }
  }

  /** The concatenation has neither a count nor separators, and still two logs of
      well-formed records never share one. */
  lemma {:induction false} LogBytesInjective(a: seq<Record>, b: seq<Record>)
    requires AllWellFormed(a) && AllWellFormed(b)
    requires LogBytes(a) == LogBytes(b)
    ensures a == b
  {
    if a != [] && b != [] {
      RecordRoundTrip(a[0], LogBytes(a[1..]));
      RecordRoundTrip(b[0], LogBytes(b[1..]));
      var size := |Encode(a[0])|;
      assert LogBytes(a)[size..] == LogBytes(a[1..]) && LogBytes(b)[size..] == LogBytes(b[1..]);
      LogBytesInjective(a[1..], b[1..]);
      assert a == [a[0]] + a[1..] && b == [b[0]] + b[1..];
    }
  }

  /** The log hash determines the log. */
  lemma LogHashDetermines(sha: Digest, a: seq<Record>, b: seq<Record>)
    requires AllWellFormed(a) && AllWellFormed(b)
    requires sha(LogBytes(a)) == sha(LogBytes(b))
    ensures a == b || Collision(sha, LogBytes(a), LogBytes(b))
  {
    if LogBytes(a) == LogBytes(b) {
      LogBytesInjective(a, b);
    }
  }

  /** Accepting a segment when the rewritten header hash equals the hash that the
      segment carries: whatever records arrived, the follower then has the
      leader's log, and it accepts every segment that gives it that log. */
  lemma AcceptingByHash(sha: Digest, leader: LogState, follower: LogState, segment: LogState)
    requires AllWellFormed(leader.log) && AllWellFormed(follower.log) && AllWellFormed(segment.log)
    requires leader.header.hash == sha(LogBytes(leader.log)) == segment.header.hash
    ensures var after := Extended(sha, follower, segment.log);
            || Collision(sha, LogBytes(after.log), LogBytes(leader.log))
            || (after.header.hash == segment.header.hash <==> after.log == leader.log)
  {
    var after := Extended(sha, follower, segment.log);
    if after.header.hash == segment.header.hash {
      LogHashDetermines(sha, after.log, leader.log);
    }
  }

  // ------------------------------------------------------------- the hash chain

  /** What is hashed for the last record of a log. */
  ghost function LastPreimage(log: seq<Record>): string
    requires log != []
  {
    var i := |log| - 1;
    if i == 0 then EncodePartial(log[0]) else Encode(log[i].Sized().WithHash(log[i - 1].header.hash))
  }

  /** What is hashed for each record of a log. */
  ghost function Preimages(log: seq<Record>): (p: seq<string>)
    ensures |p| == |log|
  {
    if log == [] then [] else Preimages(log[..|log| - 1]) + [LastPreimage(log)]
  }

  ghost function Preimage(log: seq<Record>, i: nat): string
    requires i < |log|
  {
    Preimages(log)[i]
  }

  lemma {:induction false} PreimageAt(log: seq<Record>, i: nat)
    requires i < |log|
    ensures Preimage(log, i) == LastPreimage(log[..i + 1])
    decreases |log|
  {
    var front := log[..|log| - 1];
    if i < |front| {
      PreimageAt(front, i);
      assert front[..i + 1] == log[..i + 1];
    } else {
      assert log[..i + 1] == log;
    }
  }

  lemma PreimageFirst(log: seq<Record>)
    requires log != []
    ensures Preimage(log, 0) == EncodePartial(log[0])
  {
    PreimageAt(log, 0);
  }

  lemma PreimageNext(log: seq<Record>, i: nat)
    requires 0 < i < |log|
    ensures Preimage(log, i) == Encode(log[i].Sized().WithHash(log[i - 1].header.hash))
  {
    PreimageAt(log, i);
  }

  /** Every record verifies against its predecessor, the first one on its own. */
  ghost predicate Chained(sha: Digest, log: seq<Record>) {
    && (log != [] ==> log[0] == PartialHashed(sha, log[0]))
    && forall i | 0 < i < |log| :: LinksTo(sha, log[i], log[i - 1].header.hash)
  }

  lemma ChainedHash(sha: Digest, log: seq<Record>, i: nat)
    requires Chained(sha, log) && i < |log|
    ensures log[i].header.hash == sha(Preimage(log, i))
  {
    if i == 0 {
      PreimageFirst(log);
    } else {
      PreimageNext(log, i);
      assert LinksTo(sha, log[i], log[i - 1].header.hash);
    }
  }

  lemma SameLink(r: Record, q: Record, beforeR: Hash512, beforeQ: Hash512)
    requires r.WellFormed() && q.WellFormed() && r.header.hash == q.header.hash
    requires r.Sized().WithHash(beforeR) == q.Sized().WithHash(beforeQ)
    ensures r == q && beforeR == beforeQ
  {
    assert r == r.Sized().WithHash(beforeR).WithHash(r.header.hash);
    assert q == q.Sized().WithHash(beforeQ).WithHash(r.header.hash);
  }

  /** Up to record `n` of `a` and record `d + n` of `b` the logs agree, down to the
      first record of `a`, and what was hashed for that one is what was hashed
      for its counterpart. */
  ghost predicate Aligned(a: seq<Record>, n: nat, b: seq<Record>, d: nat)
    requires n < |a| && d + n < |b|
  {
    && (forall i | 0 < i <= n :: a[i] == b[d + i])
    && a[0].header.hash == b[d].header.hash
    && Preimage(a, 0) == Preimage(b, d)
  }

  /** What was hashed for record `k` of `a` and for record `d + k` of `b` collides. */
  ghost predicate CollisionAt(sha: Digest, a: seq<Record>, b: seq<Record>, d: nat, k: nat)
    requires k < |a| && d + k < |b|
  {
    Collision(sha, Preimage(a, k), Preimage(b, d + k))
  }

  /** Equal preimages of records with the same hash are those of equal records
      after equal hashes. */
  lemma SamePreimage(a: seq<Record>, i: nat, b: seq<Record>, j: nat)
    requires AllWellFormed(a) && AllWellFormed(b)
    requires 0 < i < |a| && 0 < j < |b| && a[i].header.hash == b[j].header.hash
    requires Preimage(a, i) == Preimage(b, j)
    ensures a[i] == b[j] && a[i - 1].header.hash == b[j - 1].header.hash
  {
    PreimageNext(a, i);
    PreimageNext(b, j);
    EncodeInjective(a[i].Sized().WithHash(a[i - 1].header.hash), b[j].Sized().WithHash(b[j - 1].header.hash));
    SameLink(a[i], b[j], a[i - 1].header.hash, b[j - 1].header.hash);
  }

  /** Two records with the same hash: their preimages collide, or the records are
      equal and so are the hashes before them. */
  lemma StepBack(sha: Digest, a: seq<Record>, n: nat, b: seq<Record>, m: nat)
    requires AllWellFormed(a) && AllWellFormed(b) && Chained(sha, a) && Chained(sha, b)
    requires n < |a| && m < |b| && a[n].header.hash == b[m].header.hash
    requires !Collision(sha, Preimage(a, n), Preimage(b, m))
    ensures Preimage(a, n) == Preimage(b, m)
    ensures n > 0 && m > 0 ==> a[n] == b[m] && a[n - 1].header.hash == b[m - 1].header.hash
  {
    ChainedHash(sha, a, n);
    ChainedHash(sha, b, m);
    if n > 0 && m > 0 {
      SamePreimage(a, n, b, m);
    }
  }

  /** Finds the collision when the logs are not aligned. */
  lemma {:induction false} FindCollision(sha: Digest, a: seq<Record>, n: nat, b: seq<Record>, d: nat) returns (k: nat)
    requires AllWellFormed(a) && AllWellFormed(b) && Chained(sha, a) && Chained(sha, b)
    requires n < |a| && d + n < |b| && a[n].header.hash == b[d + n].header.hash
    ensures k <= n && (Aligned(a, n, b, d) || CollisionAt(sha, a, b, d, k))
    decreases n
  {
    k := n;
    if !CollisionAt(sha, a, b, d, n) {
      StepBack(sha, a, n, b, d + n);
      if n > 0 {
        k := FindCollision(sha, a, n - 1, b, d);
        AlignedUp(a, n, b, d);
      }
    }
  }

  lemma AlignedUp(a: seq<Record>, n: nat, b: seq<Record>, d: nat)
    requires 0 < n < |a| && d + n < |b| && a[n] == b[d + n]
    ensures Aligned(a, n - 1, b, d) ==> Aligned(a, n, b, d)
  {
  }

  /** Two chained logs of any lengths with a hash in common agree before it. */
  lemma ChainAlignment(sha: Digest, a: seq<Record>, n: nat, b: seq<Record>, d: nat)
    requires AllWellFormed(a) && AllWellFormed(b) && Chained(sha, a) && Chained(sha, b)
    requires n < |a| && d + n < |b| && a[n].header.hash == b[d + n].header.hash
    ensures Aligned(a, n, b, d) || exists k: nat | k <= n :: CollisionAt(sha, a, b, d, k)
  {
    var k := FindCollision(sha, a, n, b, d);
  }

  /** Two chained logs of the same length that end in the same hash are equal. */
  lemma ChainDetermines(sha: Digest, a: seq<Record>, b: seq<Record>)
    requires AllWellFormed(a) && AllWellFormed(b) && Chained(sha, a) && Chained(sha, b)
    requires 0 < |a| == |b| && a[|a| - 1].header.hash == b[|b| - 1].header.hash
    ensures a == b || exists k: nat | k < |a| :: Collision(sha, Preimage(a, k), Preimage(b, k))
  {
    var k := FindCollision(sha, a, |a| - 1, b, 0);
    if Aligned(a, |a| - 1, b, 0) {
      PreimageFirst(a);
      PreimageFirst(b);
      EncodePartialInjective(a[0], b[0]);
      assert a[0] == b[0];
    }
  }

  /** When a hash occurs twice in a chained log, a collision is at hand, or what
      was hashed for the first record was hashed again for a later one. */
  lemma RepeatedHash(sha: Digest, log: seq<Record>, i: nat, j: nat)
    requires AllWellFormed(log) && Chained(sha, log)
    requires i < j < |log| && log[i].header.hash == log[j].header.hash
    ensures Preimage(log, 0) == Preimage(log, j - i)
         || exists k: nat | k <= i :: Collision(sha, Preimage(log, k), Preimage(log, j - i + k))
  {
    var k := FindCollision(sha, log, i, log, j - i);
  }

  // ------------------------------------------------- why the lengths are given

  lemma {:induction false} ZeroBytes(k: nat)
    ensures forall i | 0 <= i < k :: Bytes(0, k)[i] == '\0'
  {
    if k > 0 {
      ZeroBytes(k - 1);
      assert Bytes(0, k) == ['\0'] + Bytes(0, k - 1);
    }
  }

  /** The fields before the signature in a header that announces 64 bytes. */
  function SampleStart(): (s: string)
    ensures |s| == 24 && s[16..] == Bytes(64, 8)
  {
    Bytes(0, 8) + Bytes(0, 4) + PADDING + Bytes(64, 8)
  }

  function SampleHash(): Hash512 {
    SampleStart() + Bytes(0, 40)
  }

  function SampleDigest(): Digest {
    (s: string) => if |s| == 280 then SampleHash() else ZERO_HASH
  }

  const SAMPLE_ONE := [Record(ZERO_HEADER.(msgSize := 64), Bytes(0, 64))]
  const SAMPLE_TWO := [Record(ZERO_HEADER.(hash := SampleHash()), ""), Record(ZERO_HEADER, "")]

  lemma SampleHashes()
    ensures SampleHash() != ZERO_HASH
  {
    ZeroBytes(64);
    Ranges();
    UnsignedOfBytes(64, 8);
    UnsignedOfBytes(0, 8);
    ZeroBytes(8);
    assert SampleHash()[16..24] == SampleStart()[16..];
    assert ZERO_HASH[16..24] == Bytes(0, 8);
  }

  lemma SampleFields(tail: string)
    requires tail == EncodePartial(Record(ZERO_HEADER, ""))
    ensures |tail| == 280 && forall i | 0 <= i < 280 :: tail[i] == '\0'
  {
    ZeroBytes(8);
    ZeroBytes(4);
    ZeroBytes(256);
  }

  lemma SamplePreimages()
    ensures Preimage(SAMPLE_ONE, 0) == Preimage(SAMPLE_TWO, 1)
    ensures |Preimage(SAMPLE_ONE, 0)| == 344 && |Preimage(SAMPLE_TWO, 0)| == 280
  {
    var tail := EncodePartial(Record(ZERO_HEADER, ""));
    PreimageFirst(SAMPLE_ONE);
    PreimageFirst(SAMPLE_TWO);
    PreimageNext(SAMPLE_TWO, 1);
    SampleFields(tail);
    ZeroBytes(40);
    ZeroBytes(64);
    ZeroBytes(256);
    assert Bytes(0, 256) + Bytes(0, 64) == Bytes(0, 40) + tail;
    assert SAMPLE_TWO[1].Sized().WithHash(SampleHash()) == Record(ZERO_HEADER.(hash := SampleHash()), "");
    assert Preimage(SAMPLE_TWO, 1) == SampleStart() + Bytes(0, 40) + tail;
    assert Preimage(SAMPLE_ONE, 0) == SampleStart() + Bytes(0, 256) + Bytes(0, 64);
    Associative(SampleStart(), Bytes(0, 40), tail);
    Associative(SampleStart(), Bytes(0, 256), Bytes(0, 64));
  }

  /** The lengths have to be equal: for some digest there are chained logs of one and
      of two well-formed records that end in the same hash, though no two of their
      preimages collide, since a first record is hashed without a hash before it. */
  lemma LengthsMatter() returns (sha: Digest, a: seq<Record>, b: seq<Record>)
    ensures AllWellFormed(a) && AllWellFormed(b) && Chained(sha, a) && Chained(sha, b)
    ensures |a| == 1 && |b| == 2 && a[0].header.hash == b[1].header.hash && a[0] != b[1]
    ensures !Collision(sha, Preimage(a, 0), Preimage(b, 0)) && !Collision(sha, Preimage(a, 0), Preimage(b, 1))
    ensures !Collision(sha, Preimage(b, 0), Preimage(b, 1))
  {
    sha, a, b := SampleDigest(), SAMPLE_ONE, SAMPLE_TWO;
    SamplePreimages();
    SampleHashes();
    SampleChains();
  }

  lemma SampleChains()
    ensures Chained(SampleDigest(), SAMPLE_ONE) && Chained(SampleDigest(), SAMPLE_TWO)
  {
    SamplePreimages();
    assert LinksTo(SampleDigest(), SAMPLE_TWO[1], SAMPLE_TWO[0].header.hash);
  }

  // ------------------------------------------------------------------- runs

  /** What a generated record holds: the given content, or none, the fields of the
      given header, the length of the content except for a first record without any, and
      the digest of all this behind the last hash of the log, if there is one. */
  lemma GeneratedHolds(sha: Digest, log: seq<Record>, header: RecordHeader, content: Option<Text>)
    ensures var r := Generated(sha, log, header, content);
            var text := if content == None then "" else content.value;
            var size := if log == [] && content == None then header.msgSize else |text|;
            var previous := if log == [] then "" else log[|log| - 1].header.hash;
            && r.content == text
            && r.header.timestamp == header.timestamp
            && r.header.kind == header.kind
            && r.header.msgSize == size
            && r.header.signature == header.signature
            && r.header.hash
            == sha(previous + (HeaderFields(header.timestamp, header.kind, size, header.signature) + text))
  {
    var record := Record(header, if content == None then "" else content.value);
    var sized := if log == [] && content == None then record else record.Sized();
    assert EncodePartial(sized)
        == HeaderFields(header.timestamp, header.kind, sized.header.msgSize, header.signature) + record.content;
    if log == [] {
      assert "" + EncodePartial(sized) == EncodePartial(sized);
    }
  }

  /** A generated record is well formed unless it is the first of its log, has no
      content and a header that says otherwise. */
  lemma GeneratedWellFormed(sha: Digest, log: seq<Record>, header: RecordHeader, content: Option<Text>)
    ensures Generated(sha, log, header, content).WellFormed()
       <==> log != [] || content.Some? || header.msgSize == 0
  {
  }

  /** `head_verification` accepts every record generated for the same log. */
  lemma GeneratedVerifies(sha: Digest, log: seq<Record>, header: RecordHeader, content: Option<Text>)
    requires log != []
    ensures LinksTo(sha, Generated(sha, log, header, content), log[|log| - 1].header.hash)
  {
    var r := Generated(sha, log, header, content);
    var previous := log[|log| - 1].header.hash;
    var record := Record(header, if content.Some? then content.value else "");
    assert r.Sized().WithHash(previous) == record.Sized().WithHash(previous);
  }

  /** One step of a node's own log. */
  datatype ChainOp =
    | Append(header: RecordHeader, content: Option<Text>)
    | CatchUp(other: seq<Record>)

  /** Catching up asks the other log for what follows the local back hash; nothing
      is written when that hash is not there.  An empty log has no back hash. */
  function ChainStep(sha: Digest, s: LogState, op: ChainOp): LogState {
    match op
    case Append(header, content) => Written(sha, s, Generated(sha, s.log, header, content))
    case CatchUp(other) =>
      if s.log == [] then s else
      var segment := SegmentAfter(other, s.log[|s.log| - 1].header.hash);
      if segment.None? then s else Extended(sha, s, segment.value)
  }

  /** A step keeps the log and adds to it: one record with the given content and fields,
      or what follows the local back hash in the other log, if that holds it. */
  lemma ChainStepAdds(sha: Digest, s: LogState, op: ChainOp)
    ensures var after := ChainStep(sha, s, op);
            && s.log <= after.log
            && match op {
                 case Append(header, content) =>
                   && |after.log| == |s.log| + 1
                   && var r := after.log[|s.log|];
                      && r.content == (if content == None then "" else content.value)
                      && r.header.timestamp == header.timestamp && r.header.kind == header.kind
                      && r.header.signature == header.signature
                 case CatchUp(other) =>
                   var k := if s.log == [] then |other| else IndexOf(other, s.log[|s.log| - 1].header.hash);
                   after.log == s.log + if k == |other| then [] else other[k + 1..]
               }
  {
    match op
    case Append(header, content) => GeneratedHolds(sha, s.log, header, content);
    case CatchUp(other) => assert s.log + [] == s.log;
  }

  function ChainRun(sha: Digest, s: LogState, ops: seq<ChainOp>): LogState {
    if ops == [] then s
    else ChainStep(sha, ChainRun(sha, s, ops[..|ops| - 1]), ops[|ops| - 1])
  }

  /** The hash before record `i` of a segment that follows `previous`. */
  ghost function Before(previous: Hash512, segment: seq<Record>, i: nat): Hash512
    requires i < |segment|
  {
    if i == 0 then previous else segment[i - 1].header.hash
  }

  lemma ChainedAppend(sha: Digest, log: seq<Record>, segment: seq<Record>)
    requires Chained(sha, log) && log != []
    requires forall i | 0 <= i < |segment| ::
               LinksTo(sha, segment[i], Before(log[|log| - 1].header.hash, segment, i))
    ensures Chained(sha, log + segment)
  {
    var whole := log + segment;
    forall i | 0 < i < |whole| ensures LinksTo(sha, whole[i], whole[i - 1].header.hash) {
      if i < |log| {
        assert LinksTo(sha, log[i], log[i - 1].header.hash);
      } else {
        var j := i - |log|;
        assert LinksTo(sha, segment[j], Before(log[|log| - 1].header.hash, segment, j));
      }
    }
  }

  lemma ChainStepKept(sha: Digest, s: LogState, op: ChainOp)
    requires Chained(sha, s.log) && (op.CatchUp? ==> Chained(sha, op.other))
    ensures Chained(sha, ChainStep(sha, s, op).log)
  {
    match op
    case Append(header, content) =>
      var r := Generated(sha, s.log, header, content);
      if s.log == [] {
        assert [] + [r] == [r];
      } else {
        GeneratedVerifies(sha, s.log, header, content);
        ChainedAppend(sha, s.log, [r]);
      }
    case CatchUp(other) =>
      if s.log != [] {
        var back := s.log[|s.log| - 1].header.hash;
        var k := IndexOf(other, back);
        if k < |other| {
          var segment := other[k + 1..];
          forall i | 0 <= i < |segment|
            ensures LinksTo(sha, segment[i], Before(back, segment, i))
          {
            assert LinksTo(sha, other[k + 1 + i], other[k + i].header.hash);
          }
          ChainedAppend(sha, s.log, segment);
        }
      }
  }

  /** The chain is kept by every run of generated records and catch-ups from
      chained logs, which need share no more with this one than its back hash. */
  lemma {:induction false} ChainKept(sha: Digest, s: LogState, ops: seq<ChainOp>)
    requires Chained(sha, s.log)
    requires forall op <- ops :: op.CatchUp? ==> Chained(sha, op.other)
    ensures Chained(sha, ChainRun(sha, s, ops).log)
  {
    if ops != [] {
      ChainKept(sha, s, ops[..|ops| - 1]);
      ChainStepKept(sha, ChainRun(sha, s, ops[..|ops| - 1]), ops[|ops| - 1]);
    }
  }

  /** An operation whose records tell their lengths. */
  ghost predicate Sound(op: ChainOp) {
    match op
    case Append(header, content) => content.Some? || header.msgSize == 0
    case CatchUp(other) => AllWellFormed(other)
  }

  /** Runs of such operations keep all records well formed, as the results above
      ask for. */
  lemma {:induction false} WellFormedKept(sha: Digest, s: LogState, ops: seq<ChainOp>)
    requires AllWellFormed(s.log) && forall op <- ops :: Sound(op)
    ensures AllWellFormed(ChainRun(sha, s, ops).log)
  {
    if ops != [] {
      var before, op := ChainRun(sha, s, ops[..|ops| - 1]), ops[|ops| - 1];
      WellFormedKept(sha, s, ops[..|ops| - 1]);
      assert Sound(op);
      if op.Append? {
        GeneratedWellFormed(sha, before.log, op.header, op.content);
      }
    }
  }
}
