/** Activity records: their value, their byte encoding and the object whose
    fields the constructors, `rehash` and `deserialise` overwrite. */
module Activities {
  import opened Wire

  type Hash512 = s: string | |s| == 64 witness Bytes(0, 64)
  type Hash2048 = s: string | |s| == 256 witness Bytes(0, 256)

  /** SHA-512 (FIPS 180-4) is not modelled: every result holds for any digest. */
  type Digest = string -> Hash512

  const ZERO_HASH: Hash512 := Bytes(0, 64)
  const ZERO_SIGNATURE: Hash2048 := Bytes(0, 256)

  /** Two different byte strings with the same digest. */
  ghost predicate Collision(sha: Digest, a: string, b: string) {
    a != b && sha(a) == sha(b)
  }

  datatype RecordHeader = RecordHeader(
    hash: Hash512, timestamp: Int64, kind: Int32, msgSize: UInt64, signature: Hash2048)

  const ZERO_HEADER := RecordHeader(ZERO_HASH, 0, 0, 0, ZERO_SIGNATURE)

  /** The value of an activity object. */
  datatype Record = Record(header: RecordHeader, content: Text) {

    /** The header tells the length of the content. */
    predicate WellFormed() {
      header.msgSize == |content|
    }

    function WithHash(hash: Hash512): Record {
      this.(header := header.(hash := hash))
    }

    function Sized(): Record {
      this.(header := header.(msgSize := |content|))
    }
  }

  // ---------------------------------------------------------------- encoding

  /** `sizeof(activity_header)`: 64 + 8 + 4 + 4 (padding) + 8 + 256. */
  const HEADER_SIZE := 344

  const PADDING := "\0\0\0\0"

  /** The header without its hash, then the content. */
  function EncodePartial(r: Record): (s: string)
    ensures |s| == HEADER_SIZE - 64 + |r.content|
  {
    Bytes(r.header.timestamp, 8) + Bytes(r.header.kind, 4) + PADDING + Bytes(r.header.msgSize, 8)
    + r.header.signature + r.content
  }

  function Encode(r: Record): (s: string)
    ensures |s| == HEADER_SIZE + |r.content|
  {
    r.header.hash + EncodePartial(r)
  }

  /** Where each field of a record lies among the bytes; numbers are written with
      `Bytes`. */
  lemma RecordLayout(r: Record)
    ensures var s, h := Encode(r), r.header;
            && s[..64] == h.hash && s[64..72] == Bytes(h.timestamp, 8) && s[72..76] == Bytes(h.kind, 4)
            && s[76..80] == "\0\0\0\0" && s[80..88] == Bytes(h.msgSize, 8)
            && s[88..344] == h.signature && s[344..] == r.content && EncodePartial(r) == s[64..]
  {
    var h, s := r.header, EncodePartial(r);
    PartialLayout(Bytes(h.timestamp, 8), Bytes(h.kind, 4), Bytes(h.msgSize, 8), h.signature, r.content);
    assert s[12..16] == PADDING;
    AfterHash(h.hash, s);
  }

  lemma AfterHash(hash: Hash512, s: string)
    requires |s| >= 280
    ensures var whole := hash + s;
            && whole[..64] == hash && whole[64..72] == s[..8] && whole[72..76] == s[8..12]
            && whole[76..80] == s[12..16] && whole[80..88] == s[16..24] && whole[88..344] == s[24..280]
            && whole[344..] == s[280..] && whole[64..] == s
  {
  }

  /** Reads a header from the front of a buffer. */
  function DecodeHeader(s: string): RecordHeader
    requires |s| >= HEADER_SIZE
  {
    RecordHeader(s[..64], ReadInt64(s[64..72]), ReadInt32(s[72..76]), ReadUInt64(s[80..88]), s[88..344])
  }

  /** Reads a record from the front of a buffer; `None` when the buffer is too
      short for the header or for the content the header announces. */
  function DecodeRecord(s: string): (r: Option<Record>)
    ensures r.Some? ==> r.value.WellFormed() && HEADER_SIZE + |r.value.content| <= |s|
  {
    if |s| < HEADER_SIZE then None else
    var header := DecodeHeader(s);
    if HEADER_SIZE + header.msgSize > |s| then None else
    Some(Record(header, s[HEADER_SIZE..HEADER_SIZE + header.msgSize]))
  }

  lemma CutIn(a: string, b: string, i: nat, j: nat)
    requires i <= j <= |a|
    ensures (a + b)[i..j] == a[i..j]
  {
  }

  lemma CutAfter(a: string, b: string, j: nat)
    requires j <= |b|
    ensures (a + b)[|a|..|a| + j] == b[..j]
  {
  }

  /** Where the fields lie in the encoding without the hash. */
  lemma PartialLayout(time: string, kind: string, size: string, sign: string, tail: string)
    requires |time| == 8 && |kind| == 4 && |size| == 8 && |sign| == 256
    ensures var s := time + kind + PADDING + size + sign + tail;
            s[..8] == time && s[8..12] == kind && s[16..24] == size && s[24..280] == sign && s[280..] == tail
  {
    var s2 := time + kind;
    var s3 := s2 + PADDING;
    var s4 := s3 + size;
    var s5 := s4 + sign;
    CutIn(s5, tail, 0, 24);
    CutIn(s5, tail, 24, 280);
    CutIn(s4, sign, 0, 24);
    CutAfter(s4, sign, 256);
    CutAfter(s3, size, 8);
    CutIn(s3, size, 0, 12);
  }

  lemma DecodeAfterHash(hash: Hash512, s: string)
    requires |s| >= 280
    ensures DecodeHeader(hash + s)
         == RecordHeader(hash, ReadInt64(s[..8]), ReadInt32(s[8..12]), ReadUInt64(s[16..24]), s[24..280])
    ensures (hash + s)[HEADER_SIZE..] == s[280..]
  {
    var whole := hash + s;
    assert whole[..64] == hash;
    assert whole[64..72] == s[..8];
    assert whole[72..76] == s[8..12];
    assert whole[80..88] == s[16..24];
    assert whole[88..344] == s[24..280];
  }

  lemma HeaderRoundTrip(r: Record, rest: string)
    ensures DecodeHeader(Encode(r) + rest) == r.header
    ensures (Encode(r) + rest)[HEADER_SIZE..] == r.content + rest
  {
    var h := r.header;
    var time, kind, size := Bytes(h.timestamp, 8), Bytes(h.kind, 4), Bytes(h.msgSize, 8);
    var fields := time + kind + PADDING + size + h.signature;
    Associative(h.hash, fields + r.content, rest);
    Associative(fields, r.content, rest);
    PartialLayout(time, kind, size, h.signature, r.content + rest);
    DecodeAfterHash(h.hash, fields + (r.content + rest));
    FieldsRoundTrip(h);
  }

  lemma FieldsRoundTrip(h: RecordHeader)
    ensures ReadInt64(Bytes(h.timestamp, 8)) == h.timestamp
    ensures ReadInt32(Bytes(h.kind, 4)) == h.kind
    ensures ReadUInt64(Bytes(h.msgSize, 8)) == h.msgSize
  {
    Ranges();
    SignedOfBytes(h.timestamp, 8);
    SignedOfBytes(h.kind, 4);
    UnsignedOfBytes(h.msgSize, 8);
  }

  /** Decoding undoes encoding, whatever follows in the buffer, for exactly the
      records whose header tells their length. */
  lemma RecordRoundTrip(r: Record, rest: string)
    ensures DecodeRecord(Encode(r) + rest) == Some(r) <==> r.WellFormed()
  {
    HeaderRoundTrip(r, rest);
    var s := Encode(r) + rest;
    if r.WellFormed() {
      assert s[HEADER_SIZE..HEADER_SIZE + |r.content|] == s[HEADER_SIZE..][..|r.content|] == r.content;
    }
  }

  /** One whole encoding stands for one record. */
  lemma EncodeInjective(r: Record, q: Record)
    requires Encode(r) == Encode(q)
    ensures r == q
  {
    HeaderRoundTrip(r, "");
    HeaderRoundTrip(q, "");
    assert Encode(r) + "" == Encode(r) && Encode(q) + "" == Encode(q);
    assert r.content + "" == r.content && q.content + "" == q.content;
  }

  /** The encoding without the hash stands for everything but the hash. */
  lemma EncodePartialInjective(r: Record, q: Record)
    requires EncodePartial(r) == EncodePartial(q)
    ensures r.WithHash(q.header.hash) == q
  {
    EncodeInjective(r.WithHash(q.header.hash), q);
  }

  // ---------------------------------------------------------------- hashing

  function PartialHashed(sha: Digest, r: Record): Record {
    r.WithHash(sha(EncodePartial(r)))
  }

  function Rehashed(sha: Digest, r: Record, salt: Hash512): Record {
    r.WithHash(sha(Encode(r.WithHash(salt))))
  }

  /** The record's hash is the one its content gets when linked after `previous`. */
  predicate LinksTo(sha: Digest, r: Record, previous: Hash512) {
    Rehashed(sha, r.Sized(), previous).header.hash == r.header.hash
  }

  /** The bytes between the hash and the content of a record. */
  function HeaderFields(timestamp: Int64, kind: Int32, size: UInt64, signature: Hash2048): string {
    Bytes(timestamp, 8) + Bytes(kind, 4) + ['\0', '\0', '\0', '\0'] + Bytes(size, 8) + signature
  }

  /** A record is accepted after `previous` exactly when its hash is the digest of that
      hash, its fields with the length of its content, and its content. */
  lemma LinksExactly(sha: Digest, r: Record, previous: Hash512)
    ensures LinksTo(sha, r, previous)
       <==> r.header.hash
            == sha(previous
                   + (HeaderFields(r.header.timestamp, r.header.kind, |r.content|, r.header.signature) + r.content))
  {
    assert EncodePartial(r.Sized().WithHash(previous))
        == HeaderFields(r.header.timestamp, r.header.kind, |r.content|, r.header.signature) + r.content;
  }

  /** An activity: a header and a content that are overwritten step by step. */
  class Activity {
    var header: RecordHeader
    var content: Text

    function Value(): Record
      reads this
    {
      Record(header, content)
    }

    constructor ()
      ensures Value() == Record(ZERO_HEADER, "")
    {
      header, content := ZERO_HEADER, "";
    }

    /** Keeps the `msg_size` it is given. */
    constructor Bare(sha: Digest, hdr: RecordHeader)
      ensures Value() == PartialHashed(sha, Record(hdr, ""))
    {
      header, content := hdr, "";
      new;
      PartialHash(sha);
    }

    constructor First(sha: Digest, hdr: RecordHeader, msg: Text)
      ensures Value() == PartialHashed(sha, Record(hdr, msg).Sized())
    {
      header, content := hdr.(msgSize := |msg|), msg;
      new;
      PartialHash(sha);
    }

    constructor Linked(sha: Digest, hdr: RecordHeader, msg: Text, salt: Hash512)
      ensures Value() == Rehashed(sha, Record(hdr, msg).Sized(), salt)
    {
      header, content := hdr.(msgSize := |msg|), msg;
      new;
      Rehash(sha, salt);
    }

    method Serialise() returns (serial: array<char>)
      ensures fresh(serial) && serial[..] == Encode(Value())
    {
      serial := new char[HEADER_SIZE + |content|];
      Copy(header.hash, serial, 0);
      var rest := EncodePartial(Value());
      Copy(rest, serial, 64);
    }

    method SerialisePartial() returns (serial: array<char>)
      ensures fresh(serial) && serial[..] == EncodePartial(Value())
    {
      serial := new char[HEADER_SIZE - 64 + |content|];
      var fields := EncodePartial(Record(header, ""));
      Copy(fields, serial, 0);
      Copy(content, serial, HEADER_SIZE - 64);
    }

    /** The caller's pointer has to lead to a whole record. */
    method Deserialise(serial: array<char>, at: nat)
      requires at <= serial.Length && DecodeRecord(serial[at..]).Some?
      modifies this
      ensures Value() == DecodeRecord(serial[at..]).value
    {
      header := DecodeHeader(serial[at..]);
      content := serial[at..][HEADER_SIZE..HEADER_SIZE + header.msgSize];
    }

    method PartialHash(sha: Digest)
      modifies this
      ensures Value() == PartialHashed(sha, old(Value()))
    {
      var serial := SerialisePartial();
      header := header.(hash := sha(serial[..]));
    }

    method Rehash(sha: Digest, salt: Hash512)
      modifies this
      ensures Value() == Rehashed(sha, old(Value()), salt)
    {
      header := header.(hash := salt);
      var serial := Serialise();
      header := header.(hash := sha(serial[..]));
    }
  }
}
