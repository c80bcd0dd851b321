/** The root node's protocol handler: what one packet does to the node table and
    what is answered, and the object that does it. */
module RootNode {
  import opened Wire
  import opened Texts
  import opened Packets
  import opened Tables
  import Http
  import Urls

  /** What the handler uses and the model leaves open: the metaspace database
      (`None` throws), the exchange with another node by HTTP (`None` throws), and
      what stands in memory that is sent without having been written. */
  datatype Env = Env(
    metaspace: string -> Option<string>,
    send: (string, Ipv4) -> Option<Packet>,
    junk: Junk)

  function Respond(code: Int32): Packet {
    Packet(BLANK_HEADER.(kind := GSN_RESPONSE), "").With(Bytes(code, 4))
  }

  /** A response with its whole content in the size field. */
  ghost predicate Tells(p: Packet) {
    p.header.kind == GSN_RESPONSE && p.Text(0) == Outcome.Value(p.content)
  }

  /** A response that is received whole and reads as a code. */
  ghost predicate Says(p: Packet, code: Int32) {
    Tells(p) && |p.content| == 4 && ReadInt32(p.content) == code
  }

  lemma RespondSays(code: Int32)
    ensures Says(Respond(code), code) && Respond(code).header == BLANK_HEADER.(kind := GSN_RESPONSE, size := 4)
  {
    ContentRoundTrip(Packet(BLANK_HEADER.(kind := GSN_RESPONSE), ""), Bytes(code, 4));
    Ranges();
    SignedOfBytes(code, 4);
  }

  // ------------------------------------------------------------ registration

  /** The text before the first bar and the text after it; without a bar, the whole
      text twice, since `find` then gives the largest `size_t` and adding one to
      it gives zero. */
  function SplitName(text: string): (string, string) {
    var i := Find(text, '|');
    if i == |text| then (text, text) else (text[..i], text[i + 1..])
  }

  datatype Registration = Registration(kind: Int8, text: string, protocol: Int8)

  /** Reads a registration frame; a length beyond the array reads outside it and a
      negative one makes `assign` throw. */
  function ReadRegistration(content: string): Outcome<Option<Registration>> {
    if |content| < FRAME_REGISTER_SIZE then Undefined else
    var kind, len := ReadInt8(content[0]), ReadInt8(content[1]);
    if kind >= FINAL then Outcome.Value(None)
    else if len < 0 then Throws(LengthError)
    else if len > 125 then Undefined
    else Outcome.Value(Some(Registration(kind, content[3..3 + len], ReadInt8(content[2]))))
  }

  function NodeOf(r: Registration, from: Ipv4): Outcome<Node> {
    var (hostname, suid) := SplitName(r.text);
    match ParseAddress(AddressText(from))
    case Some(address) => Outcome.Value(Node(r.kind, hostname, address, r.protocol, suid))
    case None => Throws(AddressError)
  }

  function Register(table: seq<Node>, content: string, from: Ipv4): (seq<Node>, Outcome<Packet>) {
    match ReadRegistration(content)
    case Throws(e) => (table, Throws(e))
    case Undefined => (table, Undefined)
    case Value(None) => (table, Outcome.Value(Respond(MALFORMED_CONTENT)))
    case Value(Some(r)) =>
      var (hostname, suid) := SplitName(r.text);
      if FindHost(table, hostname) != |table| || FindSuid(table, suid) != |table| then
        (table, Outcome.Value(Respond(NETSPACE_DUPLICATE)))
      else
        var node := NodeOf(r, from);
        if node.Value? then (table + [node.value], Outcome.Value(Respond(OK)))
        else (table, node.PropagateFailure())
  }

  function Unregister(table: seq<Node>, from: Ipv4): (seq<Node>, Outcome<Packet>) {
    match ParseAddress(AddressText(from))
    case None => (table, Throws(AddressError))
    case Some(address) =>
      var it := FindAddress(table, address);
      if it == |table| then (table, Outcome.Value(Respond(NETSPACE_ERROR)))
      else (Erased(table, it), Outcome.Value(Respond(OK)))
  }

  // -------------------------------------------------------------- resolution

  function ParseUrl(text: string): Outcome<Urls.Url> {
    match Urls.Decode(text)
    case Some(url) => Outcome.Value(url)
    case None => Throws(MalformedUrl)
  }

  function AddressReply(header: Header, node: Node): Packet {
    Packet(header.(kind := GSN_RESPONSE), "").With(AddressFrame(node.address, node.protocol))
  }

  /** The reply for a host that the node itself has to find. */
  function Locate(table: seq<Node>, host: string, header: Header): Packet {
    var it := FindHost(table, host);
    if it == |table| then Respond(NETSPACE_ERROR) else AddressReply(header, table[it])
  }

  /** The request for a shorter URL, addressed to the node that is to go on. */
  function Onward(url: Urls.Url, header: Header, node: Node): Packet {
    var next := Packet(header, "").With(Urls.Print(url));
    next.(header := next.header.(destination := node.address))
  }

  function ResolveGeosub(env: Env, table: seq<Node>, query: string, header: Header): Outcome<Packet> {
    match env.metaspace(query)
    case None => Throws(MetaspaceError)
    case Some(host) => Outcome.Value(Locate(table, host, header))
  }

  function ResolveLabel(table: seq<Node>, url: Urls.Url, header: Header): Packet
    requires url.route != []
  {
    var host := url.route[|url.route| - 1];
    var it := FindHost(table, host);
    if it == |table| || |url.route| == 1 then Locate(table, host, header) else Onward(url, header, table[it])
  }

  /** The answer for a URL that lost its last label: the last one left is looked
      up, and with more before it the request goes on to the node found. */
  function ResolveRoute(env: Env, table: seq<Node>, url: Urls.Url, header: Header): Outcome<Packet> {
    if url.route == [] && url.geosub != "" then ResolveGeosub(env, table, url.geosub, header)
    else if url.route == [] then Undefined
    else Outcome.Value(ResolveLabel(table, url, header))
  }

  function Resolve(env: Env, table: seq<Node>, p: Packet): Outcome<Packet> {
    var text :- p.Text(0);
    var url :- ParseUrl(text);
    if url.route == [] then Undefined
    else ResolveRoute(env, table, url.(route := url.route[..|url.route| - 1]), p.header)
  }

  // ----------------------------------------------------------------- queries

  function NodesOf(table: seq<Node>, kind: Int8): seq<Node> {
    if table == [] then [] else
    var front, node := table[..|table| - 1], table[|table| - 1];
    if node.kind == kind then NodesOf(front, kind) + [node] else NodesOf(front, kind)
  }

  function Entry(n: Node): string {
    n.hostname + "|" + n.suid + "|" + AddressText(n.address) + ";"
  }

  /** `construct_frame_network` */
  function Listing(nodes: seq<Node>): string {
    if nodes == [] then "" else Listing(nodes[..|nodes| - 1]) + Entry(nodes[|nodes| - 1])
  }

  function ListNodes(table: seq<Node>, header: Header, kind: Int8): Packet {
    Packet(header.(kind := GSN_RESPONSE), "").With(Listing(NodesOf(table, kind)))
  }

  function Hostname(env: Env, table: seq<Node>, content: string): Outcome<Packet> {
    if |content| < 4 then Undefined else
    var it := FindAddress(table, ReadAddress(content[..4]));
    if it == |table| then Outcome.Value(Respond(NETSPACE_ERROR)) else
    var frame :- HostnameFrame(table[it].hostname, table[it].protocol, env.junk);
    Outcome.Value(Packet(BLANK_HEADER.(kind := GSN_RESPONSE), "").With(frame))
  }

  /** A packet with a node as its destination. */
  function Addressed(p: Packet, node: Node): Packet {
    p.(header := p.header.(destination := node.address))
  }

  /** What a node answers when it is sent packet `p`: its payload, `None` for an answer
      that does not count. */
  function Ask(env: Env, node: Node, p: Packet): Outcome<Option<string>> {
    var request :- Http.Request(node.hostname, p);
    match env.send(request, node.address)
    case None => Throws(NetworkError)
    case Some(answer) =>
      if answer.header.kind != GSN_RESPONSE then Outcome.Value(None)
      else if |answer.content| < FRAME_SERVICE_SIZE then Undefined
      else if ReadInt32(answer.content[..4]) != OK then Outcome.Value(None)
      else
        var payload :- answer.Text(FRAME_SERVICE_SIZE);
        Outcome.Value(Some(payload))
  }

  /** One node is asked: the packet is framed before its destination is changed, so it
      goes out with the destination it came with.  Without a query the packet's buffer
      is freed twice. */
  function QueryOne(env: Env, table: seq<Node>, p: Packet, suid: string, query: string): Outcome<string> {
    var it := FindSuid(table, suid);
    if it == |table| then Outcome.Value("")
    else if query == "" then Undefined
    else
      var answer :- Ask(env, table[it], p.With(query));
      Outcome.Value(if answer.Some? then answer.value else "")
  }

  /** The payloads of the http nodes that answered, in table order; each is sent the
      packet with itself as the destination. */
  function Payloads(env: Env, table: seq<Node>, p: Packet): Outcome<seq<string>> {
    if table == [] then Outcome.Value([]) else
    var front, node := table[..|table| - 1], table[|table| - 1];
    var payloads :- Payloads(env, front, p);
    if node.protocol != HTTP then Outcome.Value(payloads) else
    var answer :- Ask(env, node, Addressed(p, node));
    Outcome.Value(if answer.Some? then payloads + [answer.value] else payloads)
  }

  /** The parts with a double colon between them. */
  function Join(parts: seq<string>): string {
    if parts == [] then ""
    else if |parts| == 1 then parts[0]
    else Join(parts[..|parts| - 1]) + "::" + parts[|parts| - 1]
  }

  /** All nodes are asked.  Without a query the packet's buffer is freed for the first
      node, whatever its protocol, and then again. */
  function QueryAll(env: Env, table: seq<Node>, p: Packet, query: string): Outcome<string> {
    if table == [] then Outcome.Value("")
    else if query == "" then Undefined
    else
      var payloads :- Payloads(env, table, p.With(query));
      Outcome.Value(Join(payloads))
  }

  /** The packet is copied before it is read, which reads outside a buffer that is
      shorter than the size field says. */
  function Query(env: Env, table: seq<Node>, p: Packet): Outcome<Packet> {
    if p.header.size > |p.content| then Undefined else
    var text :- p.Text(0);
    var url :- ParseUrl(text);
    if url.route == [] then Undefined else
    var answer :- if url.route[0] == "esusx" then QueryAll(env, table, p, url.query)
                  else QueryOne(env, table, p, url.route[0], url.query);
    Outcome.Value(Packet(BLANK_HEADER.(kind := GSN_RESPONSE), "").With(answer))
  }

  // ------------------------------------------------------------- one packet

  /** The table and the answer after a packet from an address. */
  function Process(env: Env, table: seq<Node>, p: Packet, from: Ipv4): (seq<Node>, Outcome<Packet>) {
    if p.header.kind == GSN_REGISTER_HOST then Register(table, p.content, from)
    else if p.header.kind == GSN_UNREGISTER_HOST then Unregister(table, from)
    else if p.header.kind == GSN_RESOLUTION then (table, Resolve(env, table, p))
    else if p.header.kind == GSN_LOCAL_AREA then (table, Outcome.Value(ListNodes(table, p.header, ORG)))
    else if p.header.kind == GTN_ROOT_NODES then (table, Outcome.Value(ListNodes(table, p.header, ROOT)))
    else if p.header.kind == GSN_HOSTNAME then (table, Hostname(env, table, p.content))
    else if p.header.kind == GSN_REQUEST then (table, Query(env, table, p))
    else (table, Outcome.Value(Respond(MALFORMED_CONTENT)))
  }

  // ------------------------------------------------------------------ object

  /** A call came to the outcome that was specified, with a packet that can be used. */
  ghost predicate Yields(out: Outcome<DvspPacket>, spec: Outcome<Packet>)
    reads if out.Value? then {out.value} else {}
  {
    match out
    case Value(packet) => packet.Intact() && spec == Outcome.Value(packet.Value())
    case Throws(e) => spec == Throws(e)
    case Undefined => spec == Undefined
  }

  class ProtocolHandler {
    const nstable: NetspaceTable
    const env: Env

    constructor (nstable: NetspaceTable, env: Env)
      ensures this.nstable == nstable && this.env == env
    {
      this.nstable, this.env := nstable, env;
    }

    method ProcessPacket(packet: DvspPacket, addr: Ipv4) returns (out: Outcome<DvspPacket>)
      requires packet.Intact()
      modifies nstable
      ensures out.Value? ==> fresh(out.value)
      ensures Yields(out, Process(env, old(nstable.table), packet.Value(), addr).1)
      ensures nstable.table == Process(env, old(nstable.table), packet.Value(), addr).0
    {
      var kind := packet.header.kind;
      if kind == GSN_REGISTER_HOST { out := RegisterHost(packet, addr); }
      else if kind == GSN_UNREGISTER_HOST { out := UnregisterHost(packet, addr); }
      else if kind == GSN_RESOLUTION { out := ResolveGsn(packet); }
      else if kind == GSN_LOCAL_AREA { out := Nodes(packet, ORG); }
      else if kind == GTN_ROOT_NODES { out := Nodes(packet, ROOT); }
      else if kind == GSN_HOSTNAME { out := HostnameOf(packet); }
      else if kind == GSN_REQUEST { out := QueryPacket(packet); }
      else {
        var p := Response(MALFORMED_CONTENT);
        out := Outcome.Value(p);
      }
    }

    method Response(code: Int32) returns (p: DvspPacket)
      ensures fresh(p) && p.Intact() && p.Value() == Respond(code)
    {
      p := new DvspPacket();
      p.header := p.header.(kind := GSN_RESPONSE);
      p.StrContent(Bytes(code, 4));
    }

    method RegisterHost(packet: DvspPacket, addr: Ipv4) returns (out: Outcome<DvspPacket>)
      modifies nstable
      ensures out.Value? ==> fresh(out.value)
      ensures Yields(out, Register(old(nstable.table), packet.Content(), addr).1)
      ensures nstable.table == Register(old(nstable.table), packet.Content(), addr).0
    {
      if |packet.Content()| < FRAME_REGISTER_SIZE { return Undefined; }
      var st := packet.Content()[..FRAME_REGISTER_SIZE];
      var kind, len := ReadInt8(st[0]), ReadInt8(st[1]);
      var p: DvspPacket;
      if kind >= FINAL {
        p := Response(MALFORMED_CONTENT);
        return Outcome.Value(p);
      }
      if len < 0 { return Throws(LengthError); }
      if len > 125 { return Undefined; }
      var tmp := st[3..3 + len];
      assert tmp == packet.Content()[3..3 + len];
      var (hostname, suid) := SplitName(tmp);
      if FindHost(nstable.table, hostname) != |nstable.table| {
        p := Response(NETSPACE_DUPLICATE);
        return Outcome.Value(p);
      }
      if FindSuid(nstable.table, suid) != |nstable.table| {
        p := Response(NETSPACE_DUPLICATE);
        return Outcome.Value(p);
      }
      var address := ParseAddress(AddressText(addr));
      if address.None? { return Throws(AddressError); }
      nstable.AddNode(Node(kind, hostname, address.value, ReadInt8(st[2]), suid));
      p := Response(OK);
      return Outcome.Value(p);
    }

    method UnregisterHost(packet: DvspPacket, addr: Ipv4) returns (out: Outcome<DvspPacket>)
      modifies nstable
      ensures out.Value? ==> fresh(out.value)
      ensures Yields(out, Unregister(old(nstable.table), addr).1)
      ensures nstable.table == Unregister(old(nstable.table), addr).0
    {
      var address := ParseAddress(AddressText(addr));
      if address.None? { return Throws(AddressError); }
      var it := FindAddress(nstable.table, address.value);
      var p: DvspPacket;
      if it == |nstable.table| {
        p := Response(NETSPACE_ERROR);
        return Outcome.Value(p);
      }
      nstable.EraseNode(it);
      p := Response(OK);
      return Outcome.Value(p);
    }

    /** A packet with the header of a request, made an answer with an address. */
    method AddressResponse(header: Header, node: Node) returns (p: DvspPacket)
      ensures fresh(p) && p.Intact() && p.Value() == AddressReply(header, node)
    {
      p := new DvspPacket();
      p.header := header;
      p.header := p.header.(kind := GSN_RESPONSE);
      p.StrContent(AddressFrame(node.address, node.protocol));
    }

    method ResolveGsn(packet: DvspPacket) returns (out: Outcome<DvspPacket>)
      requires packet.Intact()
      ensures out.Value? ==> fresh(out.value)
      ensures Yields(out, Resolve(env, nstable.table, packet.Value()))
    {
      var text := packet.ToString(0);
      if !text.Value? { return text.PropagateFailure(); }
      var url := new Urls.NetspaceUrl(text.value);
      var ok := url.DecodeUrl();
      if !ok { return Throws(MalformedUrl); }
      Urls.DecodeNormal(text.value);
      url.gsn := url.gsn[..|url.gsn| - 1];
      out := Route(url, packet.header);
    }

    /** The rest of `resolve_gsn`, for a URL that lost its last label. */
    method Route(url: Urls.NetspaceUrl, header: Header) returns (out: Outcome<DvspPacket>)
      modifies url`url
      ensures out.Value? ==> fresh(out.value)
      ensures Yields(out, ResolveRoute(env, nstable.table, old(url.Value()), header))
    {
      if |url.gsn| == 0 && url.glq != "" {
        out := Geosub(url.glq, header);
        return;
      }
      if |url.gsn| == 0 { return Undefined; }
      var p := RouteLabel(url, header);
      return Outcome.Value(p);
    }

    method RouteLabel(url: Urls.NetspaceUrl, header: Header) returns (p: DvspPacket)
      requires url.gsn != []
      modifies url`url
      ensures fresh(p) && p.Intact() && p.Value() == ResolveLabel(nstable.table, old(url.Value()), header)
    {
      var it := FindHost(nstable.table, url.gsn[|url.gsn| - 1]);
      if it == |nstable.table| {
        p := Response(NETSPACE_ERROR);
      } else if |url.gsn| == 1 {
        p := AddressResponse(header, nstable.table[it]);
      } else {
        p := Forward(url, header, nstable.table[it]);
      }
    }

    /** The search of the metaspace for a URL without other labels. */
    method Geosub(query: string, header: Header) returns (out: Outcome<DvspPacket>)
      ensures out.Value? ==> fresh(out.value)
      ensures Yields(out, ResolveGeosub(env, nstable.table, query, header))
    {
      var host := env.metaspace(query);
      if host.None? { return Throws(MetaspaceError); }
      var p := LocateHost(host.value, header);
      return Outcome.Value(p);
    }

    method LocateHost(host: string, header: Header) returns (p: DvspPacket)
      ensures fresh(p) && p.Intact() && p.Value() == Locate(nstable.table, host, header)
    {
      var it := FindHost(nstable.table, host);
      if it == |nstable.table| {
        p := Response(NETSPACE_ERROR);
      } else {
        p := AddressResponse(header, nstable.table[it]);
      }
    }

    /** The request as it goes on to a node. */
    method Forward(url: Urls.NetspaceUrl, header: Header, node: Node) returns (p: DvspPacket)
      modifies url`url
      ensures fresh(p) && p.Intact() && p.Value() == Onward(old(url.Value()), header, node)
    {
      p := new DvspPacket();
      p.header := header;
      var shorter := url.ToString();
      p.StrContent(shorter);
      p.header := p.header.(destination := node.address);
    }

    /** `local_gsn` and `root_nodes` */
    method Nodes(packet: DvspPacket, kind: Int8) returns (out: Outcome<DvspPacket>)
      ensures out.Value? && fresh(out.value) && out.value.Intact()
      ensures out.value.Value() == ListNodes(nstable.table, packet.header, kind)
    {
      var nodes := SelectNodes(kind);
      var value := NetworkText(nodes);
      var p := new DvspPacket();
      p.header := packet.header;
      p.header := p.header.(kind := GSN_RESPONSE);
      p.StrContent(value);
      return Outcome.Value(p);
    }

    /** `nodes_of` */
    method SelectNodes(kind: Int8) returns (nodes: seq<Node>)
      ensures nodes == NodesOf(nstable.table, kind)
    {
      nodes := [];
      for i := 0 to |nstable.table|
        invariant nodes == NodesOf(nstable.table[..i], kind)
      {
        assert nstable.table[..i + 1][..i] == nstable.table[..i];
        var n := nstable.table[i];
        if n.kind == kind { nodes := nodes + [n]; }
      }
      assert nstable.table[..|nstable.table|] == nstable.table;
    }

    static method NetworkText(nodes: seq<Node>) returns (ss: string)
      ensures ss == Listing(nodes)
    {
      ss := "";
      for i := 0 to |nodes|
        invariant ss == Listing(nodes[..i])
      {
        assert nodes[..i + 1][..i] == nodes[..i];
        var n := nodes[i];
        ss := ss + (n.hostname + "|" + n.suid + "|" + AddressText(n.address) + ";");
      }
      assert nodes[..|nodes|] == nodes;
    }

    method HostnameOf(packet: DvspPacket) returns (out: Outcome<DvspPacket>)
      ensures out.Value? ==> fresh(out.value)
      ensures Yields(out, Hostname(env, nstable.table, packet.Content()))
    {
      if |packet.Content()| < 4 { return Undefined; }
      var it := FindAddress(nstable.table, ReadAddress(packet.Content()[..4]));
      var p: DvspPacket;
      if it == |nstable.table| {
        p := Response(NETSPACE_ERROR);
        return Outcome.Value(p);
      }
      var node := nstable.table[it];
      p := new DvspPacket();
      p.header := p.header.(kind := GSN_RESPONSE);
      var fh := HostnameFrame(node.hostname, node.protocol, env.junk);
      if !fh.Value? { return fh.PropagateFailure(); }
      p.StrContent(fh.value);
      return Outcome.Value(p);
    }

    method QueryPacket(packet: DvspPacket) returns (out: Outcome<DvspPacket>)
      requires packet.Intact()
      ensures out.Value? ==> fresh(out.value)
      ensures Yields(out, Query(env, nstable.table, packet.Value()))
    {
      if packet.header.size > |packet.Content()| { return Undefined; }
      var copy := new DvspPacket.Copy(packet);
      var text := packet.ToString(0);
      if !text.Value? { return text.PropagateFailure(); }
      var url := new Urls.NetspaceUrl(text.value);
      var ok := url.DecodeUrl();
      if !ok { return Throws(MalformedUrl); }
      Urls.DecodeNormal(text.value);
      var ss: Outcome<string>;
      if url.gsn[0] == "esusx" {
        ss := AskAll(packet, url.spq);
      } else {
        ss := AskOne(packet, url.gsn[0], url.spq);
      }
      if !ss.Value? { return ss.PropagateFailure(); }
      var p := new DvspPacket();
      p.header := p.header.(kind := GSN_RESPONSE);
      p.StrContent(ss.value);
      return Outcome.Value(p);
    }

    /** The exchange of a framed packet for an answer. */
    method Exchange(frame: Http.HttpFrame, address: Ipv4, ghost node: Node) returns (answer: Outcome<Option<string>>)
      requires frame.header == Http.RequestHead(frame.hostname, Http.PacketSize(frame.frame))
      requires frame.hostname == node.hostname && address == node.address
      ensures answer == Ask(env, node, frame.frame)
    {
      var serial := frame.Serialise();
      if !serial.Value? { return serial.PropagateFailure(); }
      var recv := env.send(serial.value[..], address);
      if recv.None? { return Throws(NetworkError); }
      if recv.value.header.kind != GSN_RESPONSE { return Outcome.Value(None); }
      if |recv.value.content| < FRAME_SERVICE_SIZE { return Undefined; }
      if ReadInt32(recv.value.content[..4]) != OK { return Outcome.Value(None); }
      var str := recv.value.Text(FRAME_SERVICE_SIZE);
      if !str.Value? { return str.PropagateFailure(); }
      return Outcome.Value(Some(str.value));
    }

    /** `query_one`: the frame holds a copy of the packet from before the destination
        is set. */
    method AskOne(original: DvspPacket, suid: string, query: string) returns (ss: Outcome<string>)
      requires original.header.size <= |original.Content()|
      ensures ss == QueryOne(env, nstable.table, original.Value(), suid, query)
    {
      var it := FindSuid(nstable.table, suid);
      if it == |nstable.table| { return Outcome.Value(""); }
      var node := nstable.table[it];
      var packet := new DvspPacket.Copy(original);
      packet.StrContent(query);
      if !packet.Intact() { return Undefined; }
      var frame := new Http.HttpFrame(packet.Value(), node.hostname);
      packet.header := packet.header.(destination := node.address);
      var answer := Exchange(frame, packet.header.destination, node);
      if !answer.Value? { return answer.PropagateFailure(); }
      return Outcome.Value(if answer.value.Some? then answer.value.value else "");
    }

    /** `query_all`: the flag tells whether a separator is still to come. */
    method AskAll(original: DvspPacket, query: string) returns (out: Outcome<string>)
      requires original.header.size <= |original.Content()|
      ensures out == QueryAll(env, nstable.table, original.Value(), query)
    {
      var ss, first := "", true;
      var packet := new DvspPacket.Copy(original);
      ghost var asked := original.Value().With(query);
      ghost var table := nstable.table;
      ghost var payloads: seq<string> := [];
      for i := 0 to |nstable.table|
        invariant nstable.table == table && packet.buffer.Live?
        invariant i > 0 ==> query != ""
        invariant Payloads(env, table[..i], asked) == Outcome.Value(payloads)
        invariant (first <==> payloads == []) && ss == Join(payloads)
        invariant packet.header.(size := 0, destination := NO_ADDRESS)
               == asked.header.(size := 0, destination := NO_ADDRESS)
      {
        var node := nstable.table[i];
        assert table[..i + 1][..i] == table[..i];
        packet.StrContent(query);
        if !packet.Intact() { return Undefined; }
        packet.header := packet.header.(destination := node.address);
        assert packet.Value() == Addressed(asked, node);
        if node.protocol == HTTP {
          var frame := new Http.HttpFrame(packet.Value(), node.hostname);
          var answer := Exchange(frame, packet.header.destination, node);
          if !answer.Value? {
            FirstFailure(env, table, asked, i);
            return answer.PropagateFailure();
          }
          if answer.value.Some? {
            JoinMore(payloads, answer.value.value);
            if !first { ss := ss + "::"; } else { first := false; }
            ss := ss + answer.value.value;
            payloads := payloads + [answer.value.value];
          }
        }
      }
      assert table[..|table|] == table;
      return Outcome.Value(ss);
    }
  }

  /** The payloads are joined by double colons. */
  lemma {:induction false} JoinGlues(parts: seq<string>)
    ensures Join(parts) == Glued(parts, "::")
  {
    if |parts| > 1 {
      var front, part := parts[..|parts| - 1], parts[|parts| - 1];
      JoinGlues(front);
      GluedPush(front, part, "::");
      assert parts == front + [part];
    }
  }

  lemma JoinMore(parts: seq<string>, part: string)
    ensures Join(parts + [part]) == if parts == [] then "" + part else Join(parts) + "::" + part
  {
    assert (parts + [part])[..|parts|] == parts;
  }

  /** When a node cannot be asked, the nodes after it make no difference. */
  lemma {:induction false} FirstFailure(env: Env, table: seq<Node>, p: Packet, i: nat)
    requires i < |table| && table[i].protocol == HTTP && Payloads(env, table[..i], p).Value?
    requires !Ask(env, table[i], Addressed(p, table[i])).Value?
    ensures Payloads(env, table, p) == Ask(env, table[i], Addressed(p, table[i])).PropagateFailure()
    decreases |table|
  {
    var front := table[..|table| - 1];
    if i < |front| {
      assert front[..i] == table[..i];
      FirstFailure(env, front, p, i);
    }
  }
}
