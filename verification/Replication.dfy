/** Segments on the wire, and a follower that catches up with a leader. */
module Replication {
  import opened Wire
  import opened Activities
  import opened ActivityLogs
  import opened TamperEvidence

  // ------------------------------------------------------------- wire format

  lemma LogHeaderRoundTrip(h: LogHeader, rest: string)
    ensures DecodeLogHeader(Bytes(h.numRecords, 4) + h.hash + rest) == h
    ensures (Bytes(h.numRecords, 4) + h.hash + rest)[LOG_HEADER_SIZE..] == rest
  {
    var s := Bytes(h.numRecords, 4) + h.hash + rest;
    Ranges();
    SignedOfBytes(h.numRecords, 4);
    assert s[..4] == Bytes(h.numRecords, 4) && s[4..68] == h.hash;
  }

  /** A serialised segment or log is read back with its header, its records and
      exactly the bytes that follow it left over, if and only if its count fits
      the header's 32-bit field. */
  lemma StateRoundTrip(s: LogState, rest: string)
    requires AllWellFormed(s.log) && s.header.numRecords == Wrap32(|s.log|)
    ensures DecodeState(StateBytes(s) + rest) == Some((s, rest)) <==> |s.log| < 0x8000_0000
  {
    var body := LogBytes(s.log) + rest;
    DecodeBody(s.header, body);
    Associative(Bytes(s.header.numRecords, 4) + s.header.hash, LogBytes(s.log), rest);
    WrapExact(|s.log|);
    if |s.log| < 0x8000_0000 {
      RecordsRoundTrip(s.log, rest);
    }
  }

  lemma WrapExact(n: nat)
    ensures Wrap32(n) == n <==> n < 0x8000_0000
  {
  }

  lemma DecodeBody(h: LogHeader, body: string)
    ensures DecodeState(Bytes(h.numRecords, 4) + h.hash + body)
         == var r := DecodeRecords(body, h.numRecords);
            if r.None? then None else Some((LogState(h, r.value.0), r.value.1))
  {
    LogHeaderRoundTrip(h, body);
  }

  // -------------------------------------------------------------- catching up

  datatype Pair = Pair(leader: LogState, follower: LogState)

  datatype Op =
    | LeaderWrite(record: Record)
    | LeaderExtend(segment: seq<Record>)
    | CatchUp

  /** `follower.write_segment(leader.segment_from(follower.back().hash))` */
  function CaughtUp(sha: Digest, leader: LogState, follower: LogState): LogState
    requires follower.log != []
  {
    var segment := SegmentAfter(leader.log, follower.log[|follower.log| - 1].header.hash);
    if segment.None? then follower else Extended(sha, follower, segment.value)
  }

  function Step(sha: Digest, p: Pair, op: Op): Pair {
    match op
    case LeaderWrite(r) => p.(leader := Written(sha, p.leader, r))
    case LeaderExtend(segment) => p.(leader := Extended(sha, p.leader, segment))
    case CatchUp => if p.follower.log == [] then p else p.(follower := CaughtUp(sha, p.leader, p.follower))
  }

  function Run(sha: Digest, p: Pair, ops: seq<Op>): Pair {
    if ops == [] then p else Step(sha, Run(sha, p, ops[..|ops| - 1]), ops[|ops| - 1])
  }

  ghost predicate HeaderAgrees(sha: Digest, s: LogState) {
    s.header == LogHeader(Wrap32(|s.log|), sha(LogBytes(s.log)))
  }

  ghost predicate DistinctHashes(log: seq<Record>) {
    forall i, j | 0 <= i < j < |log| :: log[i].header.hash != log[j].header.hash
  }

  /** The follower's log is a non-empty prefix of the leader's. */
  ghost predicate Follows(sha: Digest, p: Pair) {
    && HeaderAgrees(sha, p.leader) && HeaderAgrees(sha, p.follower)
    && [] < p.follower.log <= p.leader.log
  }

  ghost predicate Knows(log: seq<Record>, hash: Hash512) {
    exists r <- log :: r.header.hash == hash
  }

  /** There is a segment after a hash exactly when the log holds the hash, and it is all
      that follows the first record with it. */
  lemma SegmentExactly(log: seq<Record>, hash: Hash512)
    ensures Knows(log, hash) <==> SegmentAfter(log, hash).Some?
    ensures SegmentAfter(log, hash).Some? ==>
              exists k | 0 <= k < |log| ::
                && log[k].header.hash == hash
                && (forall j | 0 <= j < k :: log[j].header.hash != hash)
                && log == log[..k + 1] + SegmentAfter(log, hash).value
  {
    var k := IndexOf(log, hash);
    if k < |log| {
      assert log[k] in log;
      assert log == log[..k + 1] + log[k + 1..];
    }
  }

  /** Whatever the two logs are, catching up changes nothing when the leader does not
      know the back hash, and else appends what follows that hash there, counts it and
      hashes the whole log. */
  lemma CatchUpAny(sha: Digest, leader: LogState, follower: LogState)
    requires follower.log != []
    ensures var back := follower.log[|follower.log| - 1].header.hash;
            var after := CaughtUp(sha, leader, follower);
            if !Knows(leader.log, back) then after == follower
            else SegmentAfter(leader.log, back).Some?
                 && after.log == follower.log + SegmentAfter(leader.log, back).value
                 && after.header.hash == sha(LogBytes(after.log))
                 && after.header.numRecords
                 == Wrap32(follower.header.numRecords + |SegmentAfter(leader.log, back).value|)
  {
    SegmentExactly(leader.log, follower.log[|follower.log| - 1].header.hash);
  }

  /** A catch-up of a follower that is a prefix yields the leader's log exactly
      when the back hash occurs nowhere earlier in the leader's log. */
  lemma CatchUpExact(sha: Digest, leader: LogState, follower: LogState)
    requires [] < follower.log <= leader.log
    ensures var back := follower.log[|follower.log| - 1].header.hash;
            (CaughtUp(sha, leader, follower).log == leader.log
             <==> forall i | 0 <= i < |follower.log| - 1 :: leader.log[i].header.hash != back)
  {
    var n := |follower.log|;
    var back := follower.log[n - 1].header.hash;
    assert leader.log[n - 1] == follower.log[n - 1];
    var k := IndexOf(leader.log, back);
    var c := leader.log[k + 1..];
    assert SegmentAfter(leader.log, back) == Some(c);
    assert |follower.log + c| == n + |leader.log| - k - 1;
    if k == n - 1 {
      assert follower.log + c == leader.log;
    }
  }

  /** A leader and a follower with the same two records, whose hashes are the same:
      catching up gives the follower a third. */
  lemma CatchUpSample(sha: Digest)
    ensures var r := Record(ZERO_HEADER, "");
            var s := LogState(LogHeader(2, sha(LogBytes([r, r]))), [r, r]);
            && Follows(sha, Pair(s, s))
            && CaughtUp(sha, s, s).log == [r, r, r]
  {
    var r := Record(ZERO_HEADER, "");
    assert IndexOf([r, r], r.header.hash) == 0;
    assert [r, r][1..] == [r] && [r, r] + [r] == [r, r, r];
  }

  lemma CatchUpStep(sha: Digest, p: Pair)
    requires Follows(sha, p) && DistinctHashes(p.leader.log)
    ensures Step(sha, p, Op.CatchUp).follower == p.leader
  {
    CatchUpExact(sha, p.leader, p.follower);
    var n := |p.follower.log|;
    var segment := SegmentAfter(p.leader.log, p.follower.log[n - 1].header.hash).value;
    WrapSucc(n, |segment|);
  }

  lemma LeaderStep(sha: Digest, p: Pair, op: Op)
    requires Follows(sha, p) && !op.CatchUp?
    ensures Follows(sha, Step(sha, p, op))
  {
    match op
    case LeaderWrite(r) => WrapSucc(|p.leader.log|, 1);
    case LeaderExtend(segment) => WrapSucc(|p.leader.log|, |segment|);
  }

  lemma LeaderGrows(sha: Digest, p: Pair, op: Op)
    ensures p.leader.log <= Step(sha, p, op).leader.log
  {
  }

  /** Over every interleaving of leader writes and catch-ups in which the leader's
      hashes stay distinct, the follower stays a prefix of the leader, and right
      after a catch-up the two have the same log, count and hash. */
  lemma {:induction false} ReplicationKept(sha: Digest, p: Pair, ops: seq<Op>)
    requires Follows(sha, p) && DistinctHashes(Run(sha, p, ops).leader.log)
    ensures Follows(sha, Run(sha, p, ops))
    ensures ops != [] && ops[|ops| - 1].CatchUp? ==> Run(sha, p, ops).follower == Run(sha, p, ops).leader
  {
    if ops != [] {
      var before := Run(sha, p, ops[..|ops| - 1]);
      var op := ops[|ops| - 1];
      LeaderGrows(sha, before, op);
      DistinctPrefix(before.leader.log, Step(sha, before, op).leader.log);
      ReplicationKept(sha, p, ops[..|ops| - 1]);
      if op.CatchUp? {
        CatchUpStep(sha, before);
      } else {
        LeaderStep(sha, before, op);
      }
    }
  }

  /** What was hashed for the first record was hashed again for a later one. */
  ghost predicate FirstHashedAgain(log: seq<Record>) {
    exists d: nat | 0 < d < |log| :: Preimage(log, 0) == Preimage(log, d)
  }

  /** What was hashed for two records of the log collides. */
  ghost predicate Collides(sha: Digest, log: seq<Record>) {
    exists i: nat, j: nat | i < j < |log| :: Collision(sha, Preimage(log, i), Preimage(log, j))
  }

  lemma DistinctOrCollision(sha: Digest, log: seq<Record>)
    requires AllWellFormed(log) && Chained(sha, log)
    ensures DistinctHashes(log) || FirstHashedAgain(log) || Collides(sha, log)
  {
    if i, j :| 0 <= i < j < |log| && log[i].header.hash == log[j].header.hash {
      RepeatedFound(sha, log, i, j);
    }
  }

  lemma RepeatedFound(sha: Digest, log: seq<Record>, i: nat, j: nat)
    requires AllWellFormed(log) && Chained(sha, log)
    requires i < j < |log| && log[i].header.hash == log[j].header.hash
    ensures FirstHashedAgain(log) || Collides(sha, log)
  {
    RepeatedHash(sha, log, i, j);
    if Preimage(log, 0) != Preimage(log, j - i) {
      var k: nat :| k <= i && Collision(sha, Preimage(log, k), Preimage(log, j - i + k));
    }
  }

  /** When the leader's log is chained and well formed, as its own runs keep it, the
      hashes need not be distinct: the same holds, or a collision or a second use of the
      first preimage is found in that log. */
  lemma ReplicationOrCollision(sha: Digest, p: Pair, ops: seq<Op>)
    requires Follows(sha, p)
    requires AllWellFormed(Run(sha, p, ops).leader.log) && Chained(sha, Run(sha, p, ops).leader.log)
    ensures var after := Run(sha, p, ops);
            || (Follows(sha, after) && (ops != [] && ops[|ops| - 1].CatchUp? ==> after.follower == after.leader))
            || FirstHashedAgain(after.leader.log)
            || Collides(sha, after.leader.log)
  {
    DistinctOrCollision(sha, Run(sha, p, ops).leader.log);
    if DistinctHashes(Run(sha, p, ops).leader.log) {
      ReplicationKept(sha, p, ops);
    }
  }

  /** The records that the leader writes, in order. */
  function LeaderRecords(ops: seq<Op>): seq<Record> {
    if ops == [] then [] else
    var before := LeaderRecords(ops[..|ops| - 1]);
    match ops[|ops| - 1]
    case LeaderWrite(r) => before + [r]
    case LeaderExtend(segment) => before + segment
    case CatchUp => before
  }

  /** In every run the leader's log is the one it had and all the records it wrote. */
  lemma {:induction false} LeaderHolds(sha: Digest, p: Pair, ops: seq<Op>)
    ensures Run(sha, p, ops).leader.log == p.leader.log + LeaderRecords(ops)
  {
    if ops != [] {
      LeaderHolds(sha, p, ops[..|ops| - 1]);
    }
  }

  lemma DistinctPrefix(a: seq<Record>, b: seq<Record>)
    requires a <= b && DistinctHashes(b)
    ensures DistinctHashes(a)
  {
    forall i, j | 0 <= i < j < |a| ensures a[i].header.hash != a[j].header.hash {
      assert b[i].header.hash != b[j].header.hash;
    }
  }

  // ------------------------------------------------------------------ objects

  lemma SegmentWellFormed(log: seq<Record>, hash: Hash512)
    requires AllWellFormed(log) && SegmentAfter(log, hash).Some?
    ensures AllWellFormed(SegmentAfter(log, hash).value)
    ensures |SegmentAfter(log, hash).value| <= |log|
  {
  }

  /** A catch-up by way of the wire: the leader's segment is serialised, read back by
      the follower and written to its log. */
  method CatchUpOverWire(leader: LogTransaction, follower: LogTransaction) returns (caught: bool)
    requires leader.valid && follower.valid && leader.base != follower.base
    requires AllWellFormed(leader.base.log) && |leader.base.log| < 0x8000_0000
    requires follower.base.log != []
    modifies follower.base
    ensures follower.base.State() == CaughtUp(follower.base.sha, leader.base.State(), old(follower.base.State()))
    ensures caught <==> Knows(leader.base.log, old(follower.base.log[|follower.base.log| - 1].header.hash))
  {
    var back := follower.base.log[|follower.base.log| - 1].header.hash;
    var segment := leader.SegmentFrom(back);
    SegmentExactly(leader.base.log, back);
    if segment.ReadFail? { return false; }
    SegmentWellFormed(leader.base.log, back);
    StateRoundTrip(segment.value.State(), "");
    var serial := segment.value.Serialise();
    assert serial[..] + "" == serial[..];
    var received := new LogSegment.FromBytes(serial);
    var status := follower.WriteSegment(received);
    return true;
  }
}
