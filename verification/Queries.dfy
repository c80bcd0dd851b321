/** What the answers to fan-out queries tell. */
module Queries {
  import opened Wire
  import opened Texts
  import opened Packets
  import opened Tables
  import opened RootNode
  import opened Registry
  import opened Resolution
  import Http
  import Urls

  // ----------------------------------------------------------------- fan-out

  /** The packet with a node as its destination. */
  function SentTo(p: Packet, n: Node): Packet {
    p.(header := p.header.(destination := n.address))
  }

  /** What comes back from a node for a packet: the request for its hostname is sent to
      its address. */
  function Exchanged(env: Env, n: Node, sent: Packet): Outcome<Packet> {
    match Http.Request(n.hostname, sent)
    case Throws(e) => Throws(e)
    case Undefined => Undefined
    case Value(request) =>
      match env.send(request, n.address)
      case None => Throws(NetworkError)
      case Some(answer) => Outcome.Value(answer)
  }

  /** A response that begins with the code 200 and the byte behind it and has the bytes
      that its size field counts. */
  predicate Carries(answer: Packet) {
    && answer.header.kind == 8
    && 5 <= answer.header.size <= |answer.content|
    && ReadInt32(answer.content[..4]) == 200
  }

  /** No response, or one with another code. */
  predicate Refuses(answer: Packet) {
    answer.header.kind != 8 || (|answer.content| >= 5 && ReadInt32(answer.content[..4]) != 200)
  }

  /** How an exchange ends that brings neither a payload nor a refusal: bytes are read
      that are not there, or the size field leaves no payload behind the frame. */
  function Failure(e: Outcome<Packet>): Outcome<Packet>
    requires e.Value? ==> !Carries(e.value) && !Refuses(e.value)
  {
    if !e.Value? then e
    else if |e.value.content| < 5 || e.value.header.size > |e.value.content| then Undefined
    else Throws(if e.value.header.size == 0 then EmptyContent else LengthError)
  }

  /** Asking comes to the payload exactly for a response with the code 200 and all its
      bytes, to nothing exactly for a refusal, and else to the failure. */
  lemma AskExactly(env: Env, n: Node, sent: Packet)
    ensures var e := Exchanged(env, n, sent);
            var asked := Ask(env, n, sent);
            if e.Value? && Carries(e.value) then asked == Outcome.Value(Some(e.value.content[5..e.value.header.size]))
            else if e.Value? && Refuses(e.value) then asked == Outcome.Value(None)
            else asked == Failure(e).PropagateFailure()
  {
  }

  /** The node is asked and its answer counts. */
  function Counts(env: Env, p: Packet): Node -> bool {
    (n: Node) =>
      var e := Exchanged(env, n, SentTo(p, n));
      n.protocol == HTTP && e.Value? && Carries(e.value)
  }

  /** The node is asked and the exchange does not come to an end. */
  function Fails(env: Env, p: Packet): Node -> bool {
    (n: Node) =>
      var e := Exchanged(env, n, SentTo(p, n));
      n.protocol == HTTP && !(e.Value? && (Carries(e.value) || Refuses(e.value)))
  }

  /** The payload of an answer, nothing without one. */
  function Payload(e: Outcome<Packet>): string {
    if e.Value? && Carries(e.value) then e.value.content[5..e.value.header.size] else ""
  }

  function PayloadsOf(env: Env, nodes: seq<Node>, p: Packet): seq<string> {
    seq(|nodes|, i requires 0 <= i < |nodes| => Payload(Exchanged(env, nodes[i], SentTo(p, nodes[i]))))
  }

  lemma SelectPush(front: seq<Node>, node: Node, keep: Node -> bool)
    ensures Select(front + [node], keep) == Select(front, keep) + if keep(node) then [node] else []
  {
    SelectAppend(front, [node], keep);
    SelectOne(node, keep);
  }

  lemma PayloadsOfPush(env: Env, nodes: seq<Node>, more: seq<Node>, p: Packet)
    ensures PayloadsOf(env, nodes + more, p) == PayloadsOf(env, nodes, p) + PayloadsOf(env, more, p)
  {
  }

  lemma PayloadsOfOne(env: Env, node: Node, p: Packet)
    ensures PayloadsOf(env, [node], p) == [Payload(Exchanged(env, node, SentTo(p, node)))]
    ensures PayloadsOf(env, [], p) == []
  {
  }

  lemma PayloadsPush(env: Env, front: seq<Node>, node: Node, p: Packet, parts: seq<string>)
    requires Payloads(env, front, p) == Outcome.Value(parts) && !Fails(env, p)(node)
    ensures Payloads(env, front + [node], p)
         == Outcome.Value(parts + if Counts(env, p)(node) then [Payload(Exchanged(env, node, SentTo(p, node)))] else [])
  {
    AskExactly(env, node, SentTo(p, node));
    assert (front + [node])[..|front|] == front;
    assert parts + [] == parts;
  }

  lemma {:induction false} PayloadsSelect(env: Env, table: seq<Node>, p: Packet)
    requires forall n <- table :: !Fails(env, p)(n)
    ensures Payloads(env, table, p) == Outcome.Value(PayloadsOf(env, Select(table, Counts(env, p)), p))
    decreases |table|
  {
    PayloadsOfOne(env, Node(0, "", NO_ADDRESS, 0, ""), p);
    if table != [] {
      var front, node := table[..|table| - 1], table[|table| - 1];
      assert node in table && forall n <- front :: n in table;
      PayloadsSelect(env, front, p);
      var counted := Select(front, Counts(env, p));
      PayloadsPush(env, front, node, p, PayloadsOf(env, counted, p));
      assert table == front + [node];
      SelectPush(front, node, Counts(env, p));
      PayloadsOfPush(env, counted, if Counts(env, p)(node) then [node] else [], p);
      PayloadsOfOne(env, node, p);
    }
  }

  lemma PayloadsFail(env: Env, table: seq<Node>, p: Packet, i: nat)
    requires i < |table| && Fails(env, p)(table[i]) && forall j | 0 <= j < i :: !Fails(env, p)(table[j])
    ensures Payloads(env, table, p) == Failure(Exchanged(env, table[i], SentTo(p, table[i]))).PropagateFailure()
  {
    AskExactly(env, table[i], SentTo(p, table[i]));
    PayloadsSelect(env, table[..i], p);
    FirstFailure(env, table, p, i);
  }

  /** Asking all nodes: when every exchange comes to an end, the payloads are, in table
      order, those of exactly the http nodes whose answers count; otherwise there is
      the failure of the first exchange that does not. */
  lemma FanOut(env: Env, table: seq<Node>, p: Packet)
    ensures var i := FindIf(table, Fails(env, p));
            && (forall n <- Select(table, Counts(env, p)) :: n in table && Counts(env, p)(n))
            && Payloads(env, table, p)
            == if i == |table| then Outcome.Value(PayloadsOf(env, Select(table, Counts(env, p)), p))
               else Failure(Exchanged(env, table[i], SentTo(p, table[i]))).PropagateFailure()
  {
    var i := FindIf(table, Fails(env, p));
    SelectFrom(table, Counts(env, p));
    if i == |table| {
      PayloadsSelect(env, table, p);
    } else {
      PayloadsFail(env, table, p, i);
    }
  }

  /** The response that carries a text. */
  function TextReply(text: string): Packet {
    Packet(BLANK_HEADER.(kind := GSN_RESPONSE), "").With(text)
  }

  lemma ProcessQuery(env: Env, table: seq<Node>, p: Packet, from: Ipv4, url: Urls.Url)
    requires p.header.kind == GSN_REQUEST && UrlOf(p) == Some(url)
    ensures var text := if url.route[0] == "esusx" then QueryAll(env, table, p, url.query)
                        else QueryOne(env, table, p, url.route[0], url.query);
            var (after, answer) := Process(env, table, p, from);
            && after == table
            && answer == if text.Value? then Outcome.Value(TextReply(text.value)) else text.PropagateFailure()
  {
  }

  /** What all nodes say to a query: nothing when there are none, undefined behaviour
      without a query, else the payloads of exactly the http nodes whose answers count,
      in table order with double colons between them, or the failure of the first
      exchange that does not come to an end. */
  function AllSaid(env: Env, table: seq<Node>, asked: Packet): Outcome<string> {
    var i := FindIf(table, Fails(env, asked));
    if table == [] then Outcome.Value("")
    else if asked.content == "" then Undefined
    else if i < |table| then Failure(Exchanged(env, table[i], SentTo(asked, table[i]))).PropagateFailure()
    else Outcome.Value(Glued(PayloadsOf(env, Select(table, Counts(env, asked)), asked), "::"))
  }

  lemma AllText(env: Env, table: seq<Node>, p: Packet, query: string)
    ensures QueryAll(env, table, p, query) == AllSaid(env, table, p.With(query))
  {
    JoinGlues(PayloadsOf(env, Select(table, Counts(env, p.With(query))), p.With(query)));
    FanOut(env, table, p.With(query));
  }

  /** The answer to a request for a URL whose first label is "esusx" is what all nodes
      say to its query. */
  lemma AnswerFromAll(env: Env, table: seq<Node>, p: Packet, from: Ipv4, url: Urls.Url)
    requires p.header.kind == GSN_REQUEST && UrlOf(p) == Some(url) && url.route[0] == "esusx"
    ensures var said := AllSaid(env, table, p.With(url.query));
            var (after, answer) := Process(env, table, p, from);
            && after == table
            && answer == if said.Value? then Outcome.Value(TextReply(said.value)) else said.PropagateFailure()
  {
    ProcessQuery(env, table, p, from, url);
    AllText(env, table, p, url.query);
  }

  /** What a request for one node is answered with. */
  function ReplyOf(env: Env, node: Node, asked: Packet): Outcome<Packet> {
    var e := Exchanged(env, node, asked);
    if e.Value? && (Carries(e.value) || Refuses(e.value)) then Outcome.Value(TextReply(Payload(e))) else Failure(e)
  }

  lemma AnswerFromFirst(env: Env, table: seq<Node>, p: Packet, from: Ipv4, url: Urls.Url)
    requires p.header.kind == GSN_REQUEST && UrlOf(p) == Some(url) && url.route[0] != "esusx"
    ensures var i := FindSuid(table, url.route[0]);
            var (after, answer) := Process(env, table, p, from);
            && after == table
            && answer == if i == |table| then Outcome.Value(TextReply(""))
                         else if url.query == "" then Undefined
                         else ReplyOf(env, table[i], p.With(url.query))
  {
    ProcessQuery(env, table, p, from, url);
    var i := FindSuid(table, url.route[0]);
    if i < |table| {
      AskExactly(env, table[i], p.With(url.query));
    }
  }

  /** The answer to a request for any other URL, in every run: nothing when no node has
      the first label as its suid; else there is just one such node, and the answer is
      what that one answers to the request with the destination it came with, or
      undefined behaviour without a query. */
  lemma AnswerFromOne(env: Env, events: seq<Event>, p: Packet, from: Ipv4, url: Urls.Url)
    requires Defined(env, events)
    requires p.header.kind == GSN_REQUEST && UrlOf(p) == Some(url) && url.route[0] != "esusx"
    ensures var table := TableAfter(env, events);
            var (after, answer) := Process(env, table, p, from);
            && after == table
            && ((forall n <- table :: n.suid != url.route[0]) ==> answer == Outcome.Value(TextReply("")))
            && (forall n <- table | n.suid == url.route[0] ::
                  && answer == (if url.query == "" then Undefined else ReplyOf(env, n, p.With(url.query)))
                  && forall m <- table | m.suid == n.suid :: m == n)
  {
    var table := TableAfter(env, events);
    RegistryUnique(env, events);
    AnswerFromFirst(env, table, p, from, url);
    var i := FindSuid(table, url.route[0]);
    if i < |table| {
      assert table[i] in table;
    }
  }

  /** Every response that comes back holds a service frame and all the content that
      its size field counts. */
  ghost predicate Wellbehaved(env: Env) {
    forall request, address :: env.send(request, address).Some? ==> WholeAnswer(env.send(request, address).value)
  }

  ghost predicate WholeAnswer(answer: Packet) {
    answer.header.kind == GSN_RESPONSE ==>
      |answer.content| >= FRAME_SERVICE_SIZE && answer.header.size == |answer.content|
  }

  lemma ExchangeDefined(env: Env, node: Node, p: Packet, query: string, destination: Ipv4)
    requires Wellbehaved(env)
    ensures var asked := p.With(query);
            var e := Exchanged(env, node, asked.(header := asked.header.(destination := destination)));
            !e.Undefined? && (e.Value? && !Carries(e.value) && !Refuses(e.value) ==> !Failure(e).Undefined?)
  {
  }

  /** There is a node that a URL asks. */
  predicate Asks(table: seq<Node>, url: Urls.Url)
    requires url.route != []
  {
    if url.route[0] == "esusx" then table != [] else FindSuid(table, url.route[0]) < |table|
  }

  /** Among nodes whose responses are whole, a request leads to undefined behaviour
      exactly when it has less content than its size field says, or when its URL has no
      query and there is a node to ask. */
  lemma RequestUndefined(env: Env, table: seq<Node>, p: Packet, from: Ipv4)
    requires Wellbehaved(env) && p.header.kind == GSN_REQUEST
    ensures Process(env, table, p, from).1 == Undefined
       <==> p.header.size > |p.content|
            || (UrlOf(p).Some? && UrlOf(p).value.query == "" && Asks(table, UrlOf(p).value))
  {
    match UrlOf(p)
    case Some(url) => UrlUndefined(env, table, p, from, url);
    case None => NoUrl(env, table, p, from);
  }

  /** A request without a URL asks no node: without content and with another text it ends
      in its exception. */
  lemma NoUrl(env: Env, table: seq<Node>, p: Packet, from: Ipv4)
    requires p.header.kind == GSN_REQUEST && UrlOf(p) == None
    ensures var (after, answer) := Process(env, table, p, from);
            && after == table
            && answer == if p.header.size > |p.content| then Undefined
                         else Throws(if p.header.size == 0 then EmptyContent else MalformedUrl)
  {
  }

  lemma UrlUndefined(env: Env, table: seq<Node>, p: Packet, from: Ipv4, url: Urls.Url)
    requires Wellbehaved(env) && p.header.kind == GSN_REQUEST && UrlOf(p) == Some(url)
    ensures p.header.size <= |p.content|
    ensures Process(env, table, p, from).1 == Undefined <==> url.query == "" && Asks(table, url)
  {
    if url.route[0] == "esusx" {
      AnswerFromAll(env, table, p, from, url);
      var i := FindIf(table, Fails(env, p.With(url.query)));
      if i < |table| {
        ExchangeDefined(env, table[i], p, url.query, table[i].address);
      }
    } else {
      AnswerFromFirst(env, table, p, from, url);
      var i := FindSuid(table, url.route[0]);
      if i < |table| {
        var asked := p.With(url.query);
        ExchangeDefined(env, table[i], p, url.query, p.header.destination);
        assert asked.(header := asked.header.(destination := p.header.destination)) == asked;
      }
    }
  }

  // ---------------------------------------------------- what the nodes receive

  /** A receiver that splits requests at the first empty line finds the packet. */
  ghost predicate Readable(hostname: string) {
    Http.NoBlank(hostname) && !Http.EndsLine(hostname)
  }

  /** The packet that a node reads from a request. */
  function ReadByNode(node: Node, sent: Packet): Option<Packet> {
    match Http.Request(node.hostname, sent)
    case Value(request) =>
      var split := Http.SplitRequest(request);
      if split.None? then None else ReadPacket(split.value.1)
    case _ => None
  }

  lemma WholePacket(p: Packet)
    requires p.header.size == |p.content|
    ensures p.Serial().Value? && ReadPacket(p.Serial().value) == Some(p)
  {
    PacketRoundTrip(p, "");
    assert p.Serial().value + "" == p.Serial().value;
  }

  lemma ReadWhole(node: Node, sent: Packet)
    requires Readable(node.hostname) && sent.header.size == |sent.content|
    ensures ReadByNode(node, sent) == Some(sent)
  {
    WholePacket(sent);
    Http.RequestBody(node.hostname, sent);
  }

  /** When all nodes are asked, each reads the query, addressed to itself. */
  lemma AskedPacket(node: Node, p: Packet, query: string)
    requires |query| < 0x1_0000_0000 && Readable(node.hostname)
    ensures ReadByNode(node, Addressed(p.With(query), node)) == Some(Addressed(p.With(query), node))
    ensures Addressed(p.With(query), node).header.destination == node.address
    ensures Addressed(p.With(query), node).content == query
  {
    ReadWhole(node, Addressed(p.With(query), node));
  }

  /** When one node is asked, it reads the query with the destination of the request
      that came in, so addressed to itself exactly when that one already was. */
  lemma OneAskedPacket(node: Node, p: Packet, query: string)
    requires |query| < 0x1_0000_0000 && Readable(node.hostname)
    ensures ReadByNode(node, p.With(query)) == Some(p.With(query))
    ensures p.With(query).content == query && p.With(query).header.destination == p.header.destination
    ensures ReadByNode(node, p.With(query)) == Some(Addressed(p.With(query), node))
       <==> p.header.destination == node.address
  {
    ReadWhole(node, p.With(query));
  }

  /** A request to the root node for the node at another address, which reads a packet
      that is not addressed to it. */
  lemma MisaddressedSample() returns (node: Node, p: Packet, read: Packet)
    ensures p.header.kind == GSN_REQUEST && UrlOf(p) == Some(Urls.Url(["s"], "", "", "q"))
    ensures ReadByNode(node, p.With("q")) == Some(read) && node.suid == "s"
    ensures read.header.destination != node.address
  {
    var url := Urls.Url(["s"], "", "", "q");
    node := Node(ORG, "h", Ipv4(1, 2, 3, 4), HTTP, "s");
    p := Packet(BLANK_HEADER.(kind := GSN_REQUEST, destination := Ipv4(5, 6, 7, 8)), "").With(Urls.Print(url));
    Urls.PrintThenDecode(url);
    assert 0 < |Urls.Print(url)| < 100 by {
      Urls.PrintWeight(url);
      assert Urls.Dotted(["s"]) == Urls.Dotted([]) + "s" + ".";
    }
    ContentRoundTrip(Packet(BLANK_HEADER.(kind := GSN_REQUEST, destination := Ipv4(5, 6, 7, 8)), ""), Urls.Print(url));
    OneAskedPacket(node, p, "q");
    read := p.With("q");
  }
}
