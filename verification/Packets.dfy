/** DVSP packets and the frames they carry. */
module Packets {
  import opened Wire
  import opened Texts

  datatype Error = EmptyContent | MalformedUrl | LengthError | AddressError | MetaspaceError | NetworkError

  /** What a call comes to: a value, a C++ exception, or undefined behaviour, such
      as a read outside a buffer. */
  datatype Outcome<+T> = Value(value: T) | Throws(error: Error) | Undefined {
    predicate IsFailure() {
      !Value?
    }

    function PropagateFailure<U>(): Outcome<U>
      requires !Value?
    {
      if Undefined? then Undefined else Throws(error)
    }

    function Extract(): T
      requires Value?
    {
      value
    }
  }

  // message types
  const UNDEFINED: Int8 := 0
  const GSN_REGISTER_HOST: Int8 := 1
  const GSN_UNREGISTER_HOST: Int8 := 2
  const GSN_RESOLUTION: Int8 := 3
  const GSN_LOCAL_AREA: Int8 := 4
  const GSN_HOSTNAME: Int8 := 6
  const GSN_REQUEST: Int8 := 7
  const GSN_RESPONSE: Int8 := 8
  const GTN_ROOT_NODES: Int8 := 10

  // response codes
  const NETSPACE_ERROR: Int32 := 101
  const MALFORMED_CONTENT: Int32 := 103
  const NETSPACE_DUPLICATE: Int32 := 104
  const OK: Int32 := 200

  // ----------------------------------------------------------------- packets

  /** `sizeof(dvsp_header)`, packed: 1 + 1 + 4 + 4 + 4. */
  const PACKET_HEADER_SIZE := 14

  datatype Header = Header(kind: Int8, part: UInt8, size: UInt32, origin: Ipv4, destination: Ipv4)

  const BLANK_HEADER := Header(UNDEFINED, 0, 0, NO_ADDRESS, NO_ADDRESS)

  /** A header and the bytes of the content buffer; a null buffer has none. */
  datatype Packet = Packet(header: Header, content: string) {

    /** `str_content` and `copy_content`: a new buffer; the size field has 32 bits. */
    function With(data: string): Packet {
      Packet(header.(size := |data| % 0x1_0000_0000), data)
    }

    /** `to_string`: the content from an offset to the size in the header; from an
        offset beyond it the length is taken for a huge one. */
    function Text(offset: nat): Outcome<string> {
      if header.size == 0 || content == "" then Throws(EmptyContent)
      else if header.size > |content| || offset > |content| then Undefined
      else if offset > header.size then Throws(LengthError)
      else Value(content[offset..header.size])
    }

    /** `serialise` */
    function Serial(): Outcome<string> {
      if header.size != 0 && content == "" then Throws(EmptyContent)
      else if header.size <= |content| then Value(HeaderBytes(header) + content[..header.size])
      else Undefined
    }
  }

  function HeaderBytes(h: Header): (s: string)
    ensures |s| == PACKET_HEADER_SIZE
  {
    Bytes(h.kind, 1) + Bytes(h.part, 1) + Bytes(h.size, 4) + AddressBytes(h.origin) + AddressBytes(h.destination)
  }

  function ReadHeader(s: string): Header
    requires |s| >= PACKET_HEADER_SIZE
  {
    Header(ReadInt8(s[0]), s[1] as int % 256, ReadUInt32(s[2..6]), ReadAddress(s[6..10]), ReadAddress(s[10..14]))
  }

  /** Where each field of a packet header lies among the bytes. */
  lemma HeaderLayout(h: Header)
    ensures var s := HeaderBytes(h);
            && s[0] as int == h.kind % 256 && s[1] as int == h.part && s[2..6] == Bytes(h.size, 4)
            && s[6] as int == h.origin.a && s[7] as int == h.origin.b
            && s[8] as int == h.origin.c && s[9] as int == h.origin.d
            && s[10] as int == h.destination.a && s[11] as int == h.destination.b
            && s[12] as int == h.destination.c && s[13] as int == h.destination.d
  {
    OneByte(h.kind);
    OneByte(h.part);
  }

  /** `deserialise`: `None` when the buffer is shorter than its header says. */
  function ReadPacket(s: string): Option<Packet> {
    if |s| < PACKET_HEADER_SIZE then None else
    var h := ReadHeader(s);
    if |s| < PACKET_HEADER_SIZE + h.size then None else
    Some(Packet(h, s[PACKET_HEADER_SIZE..PACKET_HEADER_SIZE + h.size]))
  }

  lemma OneByte(n: int)
    requires -0x80 <= n < 0x100
    ensures Bytes(n, 1) == [(n % 256) as char]
    ensures n < 0x80 ==> ReadInt8(Bytes(n, 1)[0]) == n
    ensures n >= 0 ==> Bytes(n, 1)[0] as int % 256 == n
  {
    assert Bytes(n / 256, 0) == "";
    assert Bytes(n, 1) == [(n % 256) as char] + Bytes(n / 256, 0);
  }

  lemma HeaderRoundTrip(h: Header, rest: string)
    ensures ReadHeader(HeaderBytes(h) + rest) == h
  {
    var s := HeaderBytes(h) + rest;
    OneByte(h.kind);
    OneByte(h.part);
    Ranges();
    UnsignedOfBytes(h.size, 4);
    assert s[0] == Bytes(h.kind, 1)[0] && s[1] == Bytes(h.part, 1)[0];
    assert s[2..6] == Bytes(h.size, 4);
    assert s[6..10] == AddressBytes(h.origin);
    assert s[10..14] == AddressBytes(h.destination);
  }

  /** Sending a packet and reading it gives the packet with the part of its content
      that the size field counts, so the same packet exactly when that is all. */
  lemma PacketRoundTrip(p: Packet, rest: string)
    requires p.Serial().Value?
    ensures ReadPacket(p.Serial().value + rest) == Some(p.(content := p.content[..p.header.size]))
    ensures ReadPacket(p.Serial().value + rest) == Some(p) <==> p.header.size == |p.content|
  {
    var body := p.content[..p.header.size];
    assert p.content[..|p.content|] == p.content;
    var s := p.Serial().value + rest;
    assert s == HeaderBytes(p.header) + (body + rest);
    HeaderRoundTrip(p.header, body + rest);
    assert s[PACKET_HEADER_SIZE..PACKET_HEADER_SIZE + p.header.size] == body;
  }

  /** Content that was set is read back whole exactly when its length fits the
      size field; setting no content leaves nothing to read. */
  lemma ContentRoundTrip(p: Packet, data: string)
    ensures p.With(data).Serial().Value?
    ensures p.With(data).Text(0) == Value(data) <==> 0 < |data| < 0x1_0000_0000
    ensures p.With(data).content == data && p.With(data).header.(size := p.header.size) == p.header
  {
    if 0 < |data| < 0x1_0000_0000 {
      assert data[0..|data|] == data;
    }
  }

  // ------------------------------------------------------------------ frames

  /** The bytes a frame has beyond its text were never written. */
  type Junk = s: string | |s| == 125 witness Bytes(0, 125)

  const FRAME_REGISTER_SIZE := 128
  const FRAME_SERVICE_SIZE := 5

  /** A text in an array of 125 bytes. */
  function Padded(text: string, junk: Junk): (s: string)
    requires |text| <= 125
    ensures |s| == 125
  {
    text + junk[|text|..]
  }

  /** `construct_frame_register` */
  function RegisterFrame(kind: Int8, text: string, protocol: Int8, junk: Junk): Outcome<string> {
    if |text| > 125 then Undefined else
    Value(Bytes(kind, 1) + Bytes(|text|, 1) + Bytes(protocol, 1) + Padded(text, junk))
  }

  /** `construct_frame_address` */
  function AddressFrame(address: Ipv4, protocol: Int8): string {
    Bytes(OK, 4) + Bytes(protocol, 1) + AddressBytes(address)
  }

  /** Where each field of the frames lies among the bytes, a length-counted text last. */
  lemma FrameLayouts(kind: Int8, text: string, protocol: Int8, address: Ipv4, junk: Junk)
    requires |text| <= 125
    ensures var s := RegisterFrame(kind, text, protocol, junk).value;
            && |s| == 128 && s[0] as int == kind % 256 && s[1] as int == |text|
            && s[2] as int == protocol % 256 && s[3..3 + |text|] == text
    ensures var s := AddressFrame(address, protocol);
            && |s| == 9 && s[..4] == Bytes(200, 4) && s[4] as int == protocol % 256
            && s[5..] == [address.a as char, address.b as char, address.c as char, address.d as char]
    ensures var s := HostnameFrame(text, protocol, junk).value;
            && |s| == 131 && s[..4] == Bytes(200, 4) && s[4] as int == protocol % 256
            && s[5] as int == |text| && s[6..6 + |text|] == text
  {
    OneByte(kind);
    OneByte(protocol);
    OneByte(|text|);
    HostnameLayout(text, protocol, junk);
  }

  lemma HostnameLayout(text: string, protocol: Int8, junk: Junk)
    requires |text| <= 125
    ensures HostnameFrame(text, protocol, junk)
         == Value(Bytes(OK, 4) + Bytes(protocol, 1) + Bytes(|text|, 1) + Padded(text, junk))
  {
    assert text[..|text|] == text;
    assert ReadInt8((|text| % 256) as char) == |text|;
  }

  /** What the receiver of an address frame reads from it. */
  function ReadAddressFrame(s: string): Option<(Int32, Int8, Ipv4)> {
    if |s| != 9 then None else Some((ReadInt32(s[..4]), ReadInt8(s[4]), ReadAddress(s[5..9])))
  }

  lemma AddressFrameRoundTrip(address: Ipv4, protocol: Int8)
    ensures ReadAddressFrame(AddressFrame(address, protocol)) == Some((OK, protocol, address))
  {
    var s := AddressFrame(address, protocol);
    Ranges();
    SignedOfBytes(OK, 4);
    OneByte(protocol);
    AddressBytesRoundTrip(address);
    assert s[..4] == Bytes(OK, 4);
    assert s[4] == Bytes(protocol, 1)[0];
    assert s[5..9] == AddressBytes(address);
  }

  /** `construct_frame_hostname`: the length goes through a `char`. */
  function HostnameFrame(hostname: string, protocol: Int8, junk: Junk): Outcome<string> {
    var len := ReadInt8((|hostname| % 256) as char);
    if 0 <= len <= 125 then
      Value(Bytes(OK, 4) + Bytes(protocol, 1) + Bytes(len, 1) + Padded(hostname[..len], junk))
    else Undefined
  }

  /** What the receiver of a hostname frame reads from it. */
  function ReadHostnameFrame(s: string): Option<(Int32, Int8, string)> {
    if |s| != 131 then None else
    var len := ReadInt8(s[5]);
    if 0 <= len <= 125 then Some((ReadInt32(s[..4]), ReadInt8(s[4]), s[6..6 + len])) else None
  }

  /** A hostname frame can be made, and read back whole, for every name of up to
      125 bytes. */
  lemma HostnameFrameRoundTrip(hostname: string, protocol: Int8, junk: Junk)
    requires |hostname| <= 125
    ensures var f := HostnameFrame(hostname, protocol, junk);
            f.Value? && ReadHostnameFrame(f.value) == Some((OK, protocol, hostname))
  {
    var s := HostnameFrame(hostname, protocol, junk).value;
    var n := |hostname|;
    assert hostname[..n] == hostname;
    Ranges();
    SignedOfBytes(OK, 4);
    OneByte(protocol);
    OneByte(n);
    assert s[..4] == Bytes(OK, 4);
    assert s[6..6 + n] == hostname;
  }

  // ------------------------------------------------------------------ object

  /** The content pointer: null, a live buffer, or a buffer that was freed while the
      pointer was kept. */
  datatype Buffer = Null | Live(bytes: string) | Freed

  /** The buffer after `reset` and the copy that follows it: content without bytes
      frees the buffer that was there and keeps the pointer. */
  function Replaced(before: Buffer, data: string): Buffer {
    if data != "" then Live(data) else if before.Null? then Null else Freed
  }

  class DvspPacket {
    var header: Header
    var buffer: Buffer

    function Content(): string
      reads this
    {
      if buffer.Live? then buffer.bytes else ""
    }

    function Value(): Packet
      reads this
    {
      Packet(header, Content())
    }

    /** The pointer does not lead to freed memory, so the packet can be changed and
        destroyed. */
    predicate Intact()
      reads this
    {
      !buffer.Freed?
    }

    constructor ()
      ensures Value() == Packet(BLANK_HEADER, "") && buffer == Null
    {
      header, buffer := BLANK_HEADER, Null;
    }

    /** The copy constructor allocates a buffer for any size, also for none. */
    constructor Copy(orig: DvspPacket)
      requires orig.header.size <= |orig.Content()|
      ensures header == orig.header && buffer == Live(orig.Content()[..orig.header.size])
    {
      header, buffer := orig.header, Live(orig.Content()[..orig.header.size]);
    }

    /** The pointer has to lead to a whole packet. */
    constructor FromBytes(serial: array<char>)
      requires ReadPacket(serial[..]).Some?
      ensures Value() == ReadPacket(serial[..]).value && Intact()
    {
      header, buffer := ReadHeader(serial[..]), Null;
      new;
      Reset(header.size);
      if header.size != 0 {
        buffer := Live(serial[PACKET_HEADER_SIZE..PACKET_HEADER_SIZE + header.size]);
      }
    }

    /** Freeing needs a pointer that is null or live. */
    method Reset(size: nat)
      requires Intact()
      modifies this
      ensures header == old(header).(size := size % 0x1_0000_0000)
      ensures if size == 0 then buffer == Replaced(old(buffer), "") else buffer.Live? && |buffer.bytes| == size
    {
      if !buffer.Null? { buffer := Freed; }
      header := header.(size := size % 0x1_0000_0000);
      if size == 0 { return; }
      buffer := Live(Bytes(0, size));
    }

    method Clear()
      requires Intact()
      modifies this
      ensures Value() == Packet(BLANK_HEADER, "") && buffer == Replaced(old(buffer), "")
    {
      header := BLANK_HEADER;
      Reset(0);
    }

    method StrContent(data: string)
      requires Intact()
      modifies this
      ensures Value() == old(Value()).With(data) && buffer == Replaced(old(buffer), data)
    {
      Reset(|data|);
      if data != "" { buffer := Live(data); }
    }

    method ToString(offset: nat) returns (s: Outcome<string>)
      requires Intact()
      ensures s == Value().Text(offset)
    {
      if header.size == 0 || Content() == "" { return Throws(EmptyContent); }
      if header.size > |Content()| || offset > |Content()| { return Undefined; }
      if offset > header.size { return Throws(LengthError); }
      return Outcome.Value(Content()[offset..header.size]);
    }

    method Serialise() returns (serial: Outcome<array<char>>)
      requires Intact()
      ensures serial.Value? ==> fresh(serial.value) && Value().Serial() == Outcome.Value(serial.value[..])
      ensures !serial.Value? ==> Value().Serial() == serial.PropagateFailure()
    {
      var content := Content();
      if header.size != 0 && content == "" { return Throws(EmptyContent); }
      if header.size > |content| { return Undefined; }
      var bytes := new char[PACKET_HEADER_SIZE + header.size];
      var head := HeaderBytes(header);
      Wire.Copy(head, bytes, 0);
      assert bytes[..PACKET_HEADER_SIZE] == head;
      Wire.Copy(content[..header.size], bytes, PACKET_HEADER_SIZE);
      assert bytes[..] == head + content[..header.size];
      return Outcome.Value(bytes);
    }
  }
}
