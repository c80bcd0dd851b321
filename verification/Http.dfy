/** The HTTP request that carries a packet to another node. */
module Http {
  import opened Wire
  import opened Texts
  import opened Packets

  const POST_LINE := "POST /spring/spring_hook.php HTTP/1.1"
  const AGENT_LINE := "User-Agent: SpringDVS"
  const TYPE_LINE := "Content-Type: application/octet-stream"
  const EOL := "\r\n"

  function RequestLines(hostname: string, size: nat): seq<string> {
    [POST_LINE, "Host: " + hostname, AGENT_LINE, TYPE_LINE, "Content-Length: " + Digits(size)]
  }

  /** Every line with its end. */
  function Joined(lines: seq<string>): string {
    if lines == [] then "" else lines[0] + EOL + Joined(lines[1..])
  }

  /** `generate_header`, for a packet of the given size. */
  function RequestHead(hostname: string, size: nat): string {
    Joined(RequestLines(hostname, size)) + EOL
  }

  /** `size()` of a packet: its header and the content its size field counts. */
  function PacketSize(p: Packet): nat {
    PACKET_HEADER_SIZE + p.header.size
  }

  function Request(hostname: string, p: Packet): Outcome<string> {
    var bytes :- p.Serial();
    Value(RequestHead(hostname, PacketSize(p)) + bytes)
  }

  /** An empty line: two line ends in a row. */
  predicate BlankAt(s: string, i: nat) {
    i + 4 <= |s| && s[i] == '\r' && s[i + 1] == '\n' && s[i + 2] == '\r' && s[i + 3] == '\n'
  }

  ghost predicate NoBlank(s: string) {
    forall i: nat | i < |s| :: !BlankAt(s, i)
  }

  /** The first empty line, or the length. */
  function FindBlank(s: string): (k: nat)
    ensures k <= |s|
    ensures k < |s| ==> BlankAt(s, k)
    ensures forall i: nat | i < k :: !BlankAt(s, i)
    decreases |s|
  {
    if s == "" || BlankAt(s, 0) then 0 else
    var k := FindBlank(s[1..]);
    assert forall i: nat | 0 < i < |s| :: BlankAt(s, i) == BlankAt(s[1..], i - 1);
    1 + k
  }

  /** How a receiver splits a request: at the first empty line. */
  function SplitRequest(s: string): Option<(string, string)> {
    var k := FindBlank(s);
    if k == |s| then None else Some((s[..k], s[k + 4..]))
  }

  /** The number at the end of a head, after the last space. */
  function AnnouncedLength(head: string): int {
    var j := FindLast(head, ' ');
    if j == |head| then 0 else Number(head[j + 1..])
  }

  lemma {:induction false} JoinedPush(lines: seq<string>, line: string)
    ensures Joined(lines + [line]) == Joined(lines) + (line + EOL)
  {
    if lines == [] {
      assert [line][1..] == [];
      assert Joined([line]) == line + EOL + "";
    } else {
      assert (lines + [line])[1..] == lines[1..] + [line];
      JoinedPush(lines[1..], line);
      Associative(lines[0] + EOL, Joined(lines[1..]), line + EOL);
    }
  }

  lemma JoinedFive(l: seq<string>)
    requires |l| == 5
    ensures Joined(l) == l[0] + EOL + (l[1] + EOL) + (l[2] + EOL) + (l[3] + EOL) + (l[4] + EOL)
  {
    JoinedPush([], l[0]);
    JoinedPush([l[0]], l[1]);
    JoinedPush([l[0], l[1]], l[2]);
    JoinedPush([l[0], l[1], l[2]], l[3]);
    JoinedPush([l[0], l[1], l[2], l[3]], l[4]);
    assert "" + (l[0] + EOL) == l[0] + EOL;
    assert [] + [l[0]] == [l[0]] && [l[0]] + [l[1]] == [l[0], l[1]];
    assert [l[0], l[1]] + [l[2]] == [l[0], l[1], l[2]] && [l[0], l[1], l[2]] + [l[3]] == [l[0], l[1], l[2], l[3]];
    assert [l[0], l[1], l[2], l[3]] + [l[4]] == l;
  }

  /** Text that starts with neither half of a line end makes no empty line with the
      text before it. */
  lemma BlankJoin(x: string, y: string)
    requires y != "" ==> y[0] != '\r' && y[0] != '\n'
    ensures NoBlank(x + y) <==> NoBlank(x) && NoBlank(y)
  {
    var s := x + y;
    forall i: nat ensures i < |x| && BlankAt(x, i) ==> BlankAt(s, i) {
    }
    forall i: nat ensures i < |y| ==> BlankAt(y, i) == BlankAt(s, |x| + i) {
    }
    forall i: nat ensures i < |x| && BlankAt(s, i) ==> BlankAt(x, i) {
    }
    assert forall i: nat | |x| <= i < |s| && BlankAt(s, i) :: BlankAt(y, i - |x|);
  }

  /** The line begins with something other than a line end. */
  predicate Starts(line: string) {
    line != "" && line[0] != '\r' && line[0] != '\n'
  }

  lemma {:induction false} JoinedBlank(lines: seq<string>)
    requires forall line <- lines :: Starts(line)
    ensures NoBlank(Joined(lines)) <==> forall line <- lines :: NoBlank(line + EOL)
  {
    if lines != [] {
      var rest := lines[1..];
      assert Starts(lines[0]) && forall line <- rest :: line in lines;
      JoinedBlank(rest);
      if rest != [] {
        assert rest[0] in lines && Starts(rest[0]);
        assert Joined(rest)[0] == rest[0][0];
      }
      BlankJoin(lines[0] + EOL, Joined(rest));
      assert lines == [lines[0]] + rest;
    }
  }

  /** Splitting after lines that end in an empty one gives them and what follows
      exactly when there is no empty line among them. */
  lemma SplitExactly(lines: string, body: string)
    requires |lines| >= 2 && lines[|lines| - 2..] == EOL
    ensures SplitRequest(lines + EOL + body) == Some((lines[..|lines| - 2], body)) <==> NoBlank(lines)
  {
    var s := lines + EOL + body;
    var n := |lines| - 2;
    assert s[n] == lines[n..][0] && s[n + 1] == lines[n..][1];
    assert BlankAt(s, n);
    assert forall i: nat | i < |lines| && BlankAt(lines, i) :: BlankAt(s, i) && i < n;
    assert forall i: nat | i < n && BlankAt(s, i) :: BlankAt(lines, i);
    assert s[..n] == lines[..n] && s[n + 4..] == body;
  }

  lemma PlainLine(line: string)
    requires '\r' !in line
    ensures NoBlank(line + EOL)
  {
    assert forall i | 0 <= i < |line| :: (line + EOL)[i] == line[i];
  }

  /** The text ends in a line end. */
  predicate EndsLine(s: string) {
    |s| >= 2 && s[|s| - 2] == '\r' && s[|s| - 1] == '\n'
  }

  lemma HostLine(hostname: string)
    ensures NoBlank("Host: " + hostname + EOL) <==> NoBlank(hostname) && !EndsLine(hostname)
  {
    var host, line := "Host: ", "Host: " + hostname + EOL;
    forall i: nat ensures i < |hostname| && BlankAt(hostname, i) ==> BlankAt(line, 6 + i) {
    }
    if EndsLine(hostname) {
      assert BlankAt(line, 6 + |hostname| - 2);
    }
    forall i: nat
      ensures i < |line| && BlankAt(line, i) ==>
                i >= 6 && (BlankAt(hostname, i - 6) || (EndsLine(hostname) && i == 4 + |hostname|))
    {
    }
  }

  lemma LengthLine(size: nat)
    ensures '\r' !in "Content-Length: " + Digits(size) && ' ' !in Digits(size)
  {
  }

  predicate Ordinary(line: string) {
    Starts(line) && '\r' !in line
  }

  /** Among lines without a carriage return, one line decides. */
  lemma FiveBlank(a: string, b: string, c: string, d: string, e: string)
    requires Ordinary(a) && Starts(b) && Ordinary(c) && Ordinary(d) && Ordinary(e)
    ensures NoBlank(Joined([a, b, c, d, e])) <==> NoBlank(b + EOL)
  {
    JoinedBlank([a, b, c, d, e]);
    PlainLine(a);
    PlainLine(c);
    PlainLine(d);
    PlainLine(e);
    assert b in [a, b, c, d, e];
  }

  lemma FixedLines(size: nat)
    ensures Ordinary(POST_LINE) && Ordinary(AGENT_LINE) && Ordinary(TYPE_LINE)
    ensures Ordinary("Content-Length: " + Digits(size))
  {
    LengthLine(size);
  }

  lemma LinesBlank(hostname: string, size: nat)
    ensures NoBlank(Joined(RequestLines(hostname, size))) <==> NoBlank(hostname) && !EndsLine(hostname)
  {
    HostLine(hostname);
    FixedLines(size);
    assert Starts("Host: " + hostname);
    FiveBlank(POST_LINE, "Host: " + hostname, AGENT_LINE, TYPE_LINE, "Content-Length: " + Digits(size));
  }

  /** The lines of a request without the last line end. */
  function HeadText(hostname: string, size: nat): string {
    var lines := RequestLines(hostname, size);
    Joined(lines[..4]) + lines[4]
  }

  lemma HeadLines(hostname: string, size: nat)
    ensures Joined(RequestLines(hostname, size)) == HeadText(hostname, size) + EOL
  {
    var lines := RequestLines(hostname, size);
    assert lines == lines[..4] + [lines[4]];
    JoinedPush(lines[..4], lines[4]);
    Associative(Joined(lines[..4]), lines[4], EOL);
  }

  lemma LengthAnnounced(hostname: string, size: nat)
    ensures AnnouncedLength(HeadText(hostname, size)) == size
  {
    var before := Joined(RequestLines(hostname, size)[..4]) + "Content-Length:";
    var head := HeadText(hostname, size);
    assert head == before + [' '] + Digits(size);
    LengthLine(size);
    FindFinal(before, ' ', Digits(size));
    NumberOfDigits(size);
    assert head[|before| + 1..] == Digits(size);
  }

  lemma SplitHead(head: string, body: string)
    ensures SplitRequest(head + EOL + EOL + body) == Some((head, body)) <==> NoBlank(head + EOL)
  {
    var lines := head + EOL;
    assert lines[..|lines| - 2] == head && lines[|lines| - 2..] == EOL;
    SplitExactly(lines, body);
  }

  /** A receiver that splits the request at its first empty line finds the header
      lines, which announce the length of the packet, and the packet's bytes, exactly
      when the hostname holds no empty line and does not end in a line end. */
  lemma RequestReadable(hostname: string, p: Packet)
    requires p.Serial().Value?
    ensures SplitRequest(Request(hostname, p).value) == Some((HeadText(hostname, PacketSize(p)), p.Serial().value))
       <==> NoBlank(hostname) && !EndsLine(hostname)
    ensures AnnouncedLength(HeadText(hostname, PacketSize(p))) == |p.Serial().value|
  {
    HeadLines(hostname, PacketSize(p));
    LinesBlank(hostname, PacketSize(p));
    LengthAnnounced(hostname, PacketSize(p));
    SplitHead(HeadText(hostname, PacketSize(p)), p.Serial().value);
  }

  lemma HeadGlued(hostname: string, size: nat)
    ensures HeadText(hostname, size) == Glued(RequestLines(hostname, size), EOL)
  {
    var l := RequestLines(hostname, size);
    JoinedPush(l[..4], l[4]);
    FourGlued(l[0], l[1], l[2], l[3], l[4]);
    assert l == [l[0], l[1], l[2], l[3], l[4]] && l[..4] == [l[0], l[1], l[2], l[3]];
  }

  lemma FourGlued(a: string, b: string, c: string, d: string, e: string)
    ensures Joined([a, b, c, d]) + e == Glued([a, b, c, d, e], EOL)
  {
    JoinedGlued([a, b, c, d], e);
    assert [a, b, c, d] + [e] == [a, b, c, d, e];
  }

  lemma {:induction false} JoinedGlued(lines: seq<string>, last: string)
    ensures Joined(lines) + last == Glued(lines + [last], EOL)
  {
    if lines != [] {
      JoinedGlued(lines[1..], last);
      assert (lines + [last])[1..] == lines[1..] + [last];
      Associative(lines[0] + EOL, Joined(lines[1..]), last);
    } else {
      assert "" + last == last;
    }
  }

  lemma NoPair(line: string)
    requires '\r' !in line
    ensures !HasPair(line, '\r', '\n') && !HasPair(line + ['\r'], '\r', '\n')
  {
    assert forall i | 0 <= i < |line| :: (line + ['\r'])[i] == line[i];
  }

  lemma HostPair(hostname: string)
    ensures HasPair("Host: " + hostname + ['\r'], '\r', '\n') <==> HasPair(hostname, '\r', '\n')
  {
    var line := "Host: " + hostname + ['\r'];
    var i, j := FindPair(hostname, '\r', '\n'), FindPair(line, '\r', '\n');
    if i < |hostname| {
      assert line[6 + i] == '\r' && line[6 + i + 1] == '\n';
    }
    if j < |line| {
      assert j >= 6 && hostname[j - 6] == '\r' && hostname[j - 5] == '\n';
    }
  }

  lemma FiveSeparable(a: string, b: string, c: string, d: string, e: string, x: char, y: char)
    requires !HasPair(a + [x], x, y) && !HasPair(c + [x], x, y) && !HasPair(d + [x], x, y) && !HasPair(e, x, y)
    ensures Separable([a, b, c, d, e], x, y) <==> !HasPair(b + [x], x, y)
  {
    assert [a, b, c, d, e][1..] == [b, c, d, e] && [b, c, d, e][1..] == [c, d, e];
    assert [c, d, e][1..] == [d, e] && [d, e][1..] == [e] && [e][1..] == [];
    assert Separable([e], x, y);
    assert Separable([c, d, e], x, y);
  }

  /** The header lines, read one by one, are the request for the hook, the given host, the
      agent, the type and the length, exactly when the hostname holds no line end. */
  lemma LinesReadable(hostname: string, size: nat)
    ensures Pieces(HeadText(hostname, size), '\r', '\n')
         == ["POST /spring/spring_hook.php HTTP/1.1", "Host: " + hostname, "User-Agent: SpringDVS",
             "Content-Type: application/octet-stream", "Content-Length: " + Digits(size)]
       <==> !HasPair(hostname, '\r', '\n')
  {
    var length := "Content-Length: " + Digits(size);
    HeadGlued(hostname, size);
    PiecesExactly(RequestLines(hostname, size), '\r', '\n');
    FixedLines(size);
    NoPair(POST_LINE);
    NoPair(AGENT_LINE);
    NoPair(TYPE_LINE);
    NoPair(length);
    HostPair(hostname);
    FiveSeparable(POST_LINE, "Host: " + hostname, AGENT_LINE, TYPE_LINE, length, '\r', '\n');
  }

  lemma RequestBody(hostname: string, p: Packet)
    requires p.Serial().Value? && NoBlank(hostname) && !EndsLine(hostname)
    ensures Request(hostname, p).Value?
    ensures SplitRequest(Request(hostname, p).value).Some?
    ensures SplitRequest(Request(hostname, p).value).value.1 == p.Serial().value
  {
    RequestReadable(hostname, p);
  }

  class HttpFrame {
    const frame: Packet
    const hostname: string
    var header: string

    constructor (frame: Packet, hostname: string)
      ensures this.frame == frame && this.hostname == hostname
      ensures header == RequestHead(hostname, PacketSize(frame))
    {
      this.frame, this.hostname, header := frame, hostname, "";
      new;
      GenerateHeader();
    }

    method GenerateHeader()
      modifies this
      ensures header == RequestHead(hostname, PacketSize(frame))
    {
      ghost var lines := RequestLines(hostname, PacketSize(frame));
      var ss := POST_LINE + EOL;
      ss := ss + ("Host: " + hostname + EOL);
      ss := ss + (AGENT_LINE + EOL);
      ss := ss + (TYPE_LINE + EOL);
      ss := ss + ("Content-Length: " + Digits(PacketSize(frame)) + EOL);
      JoinedFive(lines);
      assert ss == Joined(lines);
      ss := ss + EOL;
      header := ss;
    }

    method Serialise() returns (serial: Outcome<array<char>>)
      requires header == RequestHead(hostname, PacketSize(frame))
      ensures serial.Value? ==> fresh(serial.value) && Request(hostname, frame) == Outcome.Value(serial.value[..])
      ensures !serial.Value? ==> Request(hostname, frame) == serial.PropagateFailure()
    {
      var bytes := frame.Serial();
      if bytes.Throws? { return Throws(bytes.error); }
      if bytes.Undefined? { return Undefined; }
      var heap := new char[|header| + |bytes.value|];
      Copy(header, heap, 0);
      assert heap[..|header|] == header;
      Copy(bytes.value, heap, |header|);
      assert heap[..] == header + bytes.value;
      return Outcome.Value(heap);
    }
  }
}
