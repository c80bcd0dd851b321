/** Resolution over many hops: each node drops the last label of the URL, looks up
    the next one and prints the URL again for the node it found. */
module Resolution {
  import opened Wire
  import opened Texts
  import opened Packets
  import opened Tables
  import opened RootNode
  import Urls

  /** The tables of the nodes that can be reached. */
  type Network = map<Ipv4, seq<Node>>

  /** The URL that a packet carries, if it carries one. */
  function UrlOf(p: Packet): (url: Option<Urls.Url>)
    ensures url.Some? ==> url.value.route != []
  {
    match p.Text(0)
    case Value(text) => Urls.Decode(text)
    case _ => None
  }

  function LabelCount(p: Packet): nat {
    match UrlOf(p)
    case Some(url) => |url.route|
    case None => 0
  }

  function Drop(url: Urls.Url): Urls.Url
    requires url.route != []
  {
    url.(route := url.route[..|url.route| - 1])
  }

  lemma ShorterPrint(url: Urls.Url)
    requires |url.route| > 1
    ensures |Urls.Print(Drop(url))| <= |Urls.Print(url)|
  {
    Urls.PrintWeight(url);
    Urls.PrintWeight(Drop(url));
  }

  /** A URL read from a packet fits a packet when it is printed again. */
  lemma CarriedUrl(p: Packet, url: Urls.Url)
    requires UrlOf(p) == Some(url)
    ensures Urls.Clean(url) && |Urls.Print(url)| < 0x1_0000_0000
  {
    Urls.DecodeNormal(p.Text(0).value);
  }

  /** The next node reads from the request exactly the URL without its last label. */
  lemma OnwardUrl(p: Packet, url: Urls.Url, header: Header, node: Node)
    requires UrlOf(p) == Some(url) && |url.route| > 2
    ensures UrlOf(Onward(Drop(url), header, node)) == Some(Drop(url))
  {
    CarriedUrl(p, url);
    ShorterPrint(url);
    Urls.PrintThenDecode(Drop(url));
    ContentRoundTrip(Packet(header, ""), Urls.Print(Drop(url)));
  }

  /** What a handler passes on is the request it got with the last label dropped. */
  lemma PassedOn(env: Env, table: seq<Node>, p: Packet, q: Packet)
    requires p.header.kind == GSN_RESOLUTION && q.header.kind == GSN_RESOLUTION
    requires Resolve(env, table, p) == Outcome.Value(q)
    ensures UrlOf(p).Some? && LabelCount(p) > 2
    ensures UrlOf(q) == Some(Drop(UrlOf(p).value))
  {
    var url := UrlOf(p).value;
    var host := Drop(url).route[|url.route| - 2];
    OnwardUrl(p, url, p.header, table[FindHost(table, host)]);
  }

  /** How a resolution ends: with an answer, an exception, undefined behaviour, or
      at an address where there is no node. */
  datatype Result = Answered(packet: Packet) | Failed(error: Error) | Broken | Lost(at: Ipv4)

  /** A request is given to the node at an address; an answer ends the resolution, a
      request that comes back goes to the node it is addressed to.  The second
      component lists the requests that nodes handled. */
  function Deliver(env: Env, net: Network, at: Ipv4, p: Packet, from: Ipv4): (Result, seq<Packet>)
    requires p.header.kind == GSN_RESOLUTION
    decreases LabelCount(p)
  {
    if at !in net then (Lost(at), []) else
    match Process(env, net[at], p, from).1
    case Throws(e) => (Failed(e), [p])
    case Undefined => (Broken, [p])
    case Value(q) =>
      if q.header.kind != GSN_RESOLUTION then (Answered(q), [p]) else
      PassedOn(env, net[at], p, q);
      var (result, hops) := Deliver(env, net, q.header.destination, q, at);
      (result, [p] + hops)
  }

  /** The reference: labels are looked up from right to left, each in the table of
      the node found for the one before. */
  datatype Found = Host(node: Node) | NoHost | NoNode(at: Ipv4)

  function Lookup(net: Network, at: Ipv4, labels: seq<string>): Found
    requires labels != []
    decreases |labels|
  {
    if at !in net then NoNode(at) else
    var it := FindHost(net[at], labels[|labels| - 1]);
    if it == |net[at]| then NoHost
    else if |labels| == 1 then Host(net[at][it])
    else Lookup(net, net[at][it].address, labels[..|labels| - 1])
  }

  /** The answer reads as the address and protocol of a node, or as an error code. */
  ghost predicate Agrees(r: Result, f: Found) {
    match f
    case Host(node) =>
      r.Answered? && Tells(r.packet) && ReadAddressFrame(r.packet.content) == Some((OK, node.protocol, node.address))
    case NoHost => r.Answered? && Says(r.packet, NETSPACE_ERROR)
    case NoNode(at) => r == Lost(at)
  }

  /** Every request on the way carries the URL with one label less than the one
      before and everything else unchanged. */
  ghost predicate Dwindling(hops: seq<Packet>, url: Urls.Url) {
    && |hops| < |url.route|
    && forall k | 0 <= k < |hops| :: UrlOf(hops[k]) == Some(url.(route := url.route[..|url.route| - k]))
  }

  lemma DwindlingPush(p: Packet, hops: seq<Packet>, url: Urls.Url)
    requires UrlOf(p) == Some(url) && url.route != [] && Dwindling(hops, Drop(url))
    ensures Dwindling([p] + hops, url)
  {
    forall k | 0 <= k < |hops| + 1
      ensures UrlOf(([p] + hops)[k]) == Some(url.(route := url.route[..|url.route| - k]))
    {
      if k == 0 {
        assert url.route[..|url.route|] == url.route;
      } else {
        var shorter := Drop(url).route[..|Drop(url).route| - (k - 1)];
        assert UrlOf(hops[k - 1]) == Some(Drop(url).(route := shorter));
        assert shorter == url.route[..|url.route| - k];
      }
    }
  }

  lemma AddressReadable(header: Header, node: Node)
    ensures Agrees(Answered(AddressReply(header, node)), Host(node))
  {
    ContentRoundTrip(Packet(header.(kind := GSN_RESPONSE), ""), AddressFrame(node.address, node.protocol));
    AddressFrameRoundTrip(node.address, node.protocol);
  }

  lemma ErrorReadable()
    ensures Agrees(Answered(Respond(NETSPACE_ERROR)), NoHost)
  {
    RespondSays(NETSPACE_ERROR);
  }

  /** The answer that a handler gives to a request with at least two labels. */
  lemma OneHop(env: Env, net: Network, at: Ipv4, p: Packet)
    requires at in net && LabelCount(p) >= 2
    ensures var url := Drop(UrlOf(p).value);
            var it := FindHost(net[at], url.route[|url.route| - 1]);
            Resolve(env, net[at], p) == Outcome.Value(
              if it == |net[at]| then Respond(NETSPACE_ERROR)
              else if |url.route| == 1 then AddressReply(p.header, net[at][it])
              else Onward(url, p.header, net[at][it]))
  {
  }

  /** A request with at least two labels ends as the reference says, after at most
      one handler call for each label looked up, each with its shorter URL. */
  ghost predicate Resolved(env: Env, net: Network, at: Ipv4, p: Packet, from: Ipv4)
    requires p.header.kind == GSN_RESOLUTION && LabelCount(p) >= 2
  {
    var url := UrlOf(p).value;
    var (result, hops) := Deliver(env, net, at, p, from);
    var found := Lookup(net, at, Drop(url).route);
    && Agrees(result, found)
    && Dwindling(hops, url)
    && (found.Host? ==> |hops| == |url.route| - 1)
  }

  lemma NoNodeThere(env: Env, net: Network, at: Ipv4, p: Packet, from: Ipv4)
    requires p.header.kind == GSN_RESOLUTION && LabelCount(p) >= 2 && at !in net
    ensures Resolved(env, net, at, p, from)
  {
    assert Dwindling([], UrlOf(p).value);
  }

  lemma DeliverHere(env: Env, net: Network, at: Ipv4, p: Packet, from: Ipv4, q: Packet)
    requires p.header.kind == GSN_RESOLUTION && q.header.kind != GSN_RESOLUTION && at in net
    requires Resolve(env, net[at], p) == Outcome.Value(q)
    ensures Deliver(env, net, at, p, from) == (Answered(q), [p])
  {
  }

  lemma DwindlingOne(p: Packet, url: Urls.Url)
    requires UrlOf(p) == Some(url) && |url.route| >= 2
    ensures Dwindling([p], url)
  {
    assert Dwindling([], Drop(url));
    DwindlingPush(p, [], url);
    assert [p] + [] == [p];
  }

  /** The first node answers by itself: it has no such host. */
  lemma EndsMissing(env: Env, net: Network, at: Ipv4, p: Packet, from: Ipv4)
    requires p.header.kind == GSN_RESOLUTION && LabelCount(p) >= 2 && at in net
    requires FindHost(net[at], UrlOf(p).value.route[LabelCount(p) - 2]) == |net[at]|
    ensures Resolved(env, net, at, p, from)
  {
    OneHop(env, net, at, p);
    DwindlingOne(p, UrlOf(p).value);
    DeliverHere(env, net, at, p, from, Respond(NETSPACE_ERROR));
    ErrorReadable();
  }

  /** The first node answers by itself: the host is label 0. */
  lemma EndsFound(env: Env, net: Network, at: Ipv4, p: Packet, from: Ipv4)
    requires p.header.kind == GSN_RESOLUTION && LabelCount(p) == 2 && at in net
    requires FindHost(net[at], UrlOf(p).value.route[0]) < |net[at]|
    ensures Resolved(env, net, at, p, from)
  {
    var node := net[at][FindHost(net[at], UrlOf(p).value.route[0])];
    OneHop(env, net, at, p);
    DwindlingOne(p, UrlOf(p).value);
    DeliverHere(env, net, at, p, from, AddressReply(p.header, node));
    AddressReadable(p.header, node);
  }

  lemma DeliverOn(env: Env, net: Network, at: Ipv4, p: Packet, from: Ipv4, q: Packet)
    requires p.header.kind == GSN_RESOLUTION && q.header.kind == GSN_RESOLUTION && at in net
    requires Resolve(env, net[at], p) == Outcome.Value(q)
    ensures var (result, hops) := Deliver(env, net, q.header.destination, q, at);
            Deliver(env, net, at, p, from) == (result, [p] + hops)
  {
  }

  lemma LookupOn(net: Network, at: Ipv4, labels: seq<string>)
    requires at in net && |labels| > 1 && FindHost(net[at], labels[|labels| - 1]) < |net[at]|
    ensures var node := net[at][FindHost(net[at], labels[|labels| - 1])];
            Lookup(net, at, labels) == Lookup(net, node.address, labels[..|labels| - 1])
  {
  }

  /** The request that the first node passes on. */
  lemma NextRequest(env: Env, net: Network, at: Ipv4, p: Packet) returns (q: Packet)
    requires p.header.kind == GSN_RESOLUTION && LabelCount(p) > 2 && at in net
    requires FindHost(net[at], UrlOf(p).value.route[LabelCount(p) - 2]) < |net[at]|
    ensures q.header.kind == GSN_RESOLUTION && UrlOf(q) == Some(Drop(UrlOf(p).value))
    ensures Resolve(env, net[at], p) == Outcome.Value(q)
    ensures q.header.destination == net[at][FindHost(net[at], UrlOf(p).value.route[LabelCount(p) - 2])].address
  {
    var url := UrlOf(p).value;
    var node := net[at][FindHost(net[at], url.route[|url.route| - 2])];
    q := Onward(Drop(url), p.header, node);
    OneHop(env, net, at, p);
    OnwardUrl(p, url, p.header, node);
  }

  /** The first node passes the request on. */
  lemma GoesOn(env: Env, net: Network, at: Ipv4, p: Packet, from: Ipv4, q: Packet)
    requires p.header.kind == GSN_RESOLUTION && LabelCount(p) > 2 && at in net
    requires FindHost(net[at], UrlOf(p).value.route[LabelCount(p) - 2]) < |net[at]|
    requires q.header.kind == GSN_RESOLUTION && UrlOf(q) == Some(Drop(UrlOf(p).value))
    requires Resolve(env, net[at], p) == Outcome.Value(q)
    requires q.header.destination == net[at][FindHost(net[at], UrlOf(p).value.route[LabelCount(p) - 2])].address
    requires Resolved(env, net, q.header.destination, q, at)
    ensures Resolved(env, net, at, p, from)
  {
    DeliverOn(env, net, at, p, from, q);
    LookupOn(net, at, Drop(UrlOf(p).value).route);
    DwindlingPush(p, Deliver(env, net, q.header.destination, q, at).1, UrlOf(p).value);
  }

  /** Resolving a URL with n >= 2 labels ends after at most n - 1 handler calls with
      what the reference finds for all labels but the last: the address of label
      0, or the error at the first label missing. */
  lemma {:induction false} MultiHop(env: Env, net: Network, at: Ipv4, p: Packet, from: Ipv4)
    requires p.header.kind == GSN_RESOLUTION && LabelCount(p) >= 2
    ensures Resolved(env, net, at, p, from)
    decreases LabelCount(p)
  {
    var url := UrlOf(p).value;
    if at !in net {
      NoNodeThere(env, net, at, p, from);
    } else {
      var it := FindHost(net[at], url.route[|url.route| - 2]);
      if it == |net[at]| {
        EndsMissing(env, net, at, p, from);
      } else if |url.route| == 2 {
        EndsFound(env, net, at, p, from);
      } else {
        var q := NextRequest(env, net, at, p);
        MultiHop(env, net, q.header.destination, q, at);
        GoesOn(env, net, at, p, from, q);
      }
    }
  }

  /** A request read from the wire makes a node look at the back of an empty route
      exactly when its URL has one label and no geosub query; no later node ever
      does. */
  lemma BrokenExactly(env: Env, net: Network, at: Ipv4, p: Packet, from: Ipv4)
    requires p.header.kind == GSN_RESOLUTION && p.header.size == |p.content| && at in net
    ensures Deliver(env, net, at, p, from).0 == Broken
       <==> LabelCount(p) == 1 && UrlOf(p).value.geosub == ""
  {
    if p.Text(0).Value? {
      Urls.DecodeNormal(p.Text(0).value);
    }
    if LabelCount(p) >= 2 {
      MultiHop(env, net, at, p, from);
    }
  }

  /** A single label with a geosub query ends at the first node, with the address of
      the host that the metaspace names. */
  lemma GeosubQuery(env: Env, net: Network, at: Ipv4, p: Packet, from: Ipv4, host: string)
    requires p.header.kind == GSN_RESOLUTION && LabelCount(p) == 1 && at in net
    requires UrlOf(p).value.geosub != "" && env.metaspace(UrlOf(p).value.geosub) == Some(host)
    ensures var (result, hops) := Deliver(env, net, at, p, from);
            hops == [p] && Agrees(result, Lookup(net, at, [host]))
  {
    var it := FindHost(net[at], host);
    assert [host][|[host]| - 1] == host;
    ErrorReadable();
    if it < |net[at]| {
      AddressReadable(p.header, net[at][it]);
    }
  }

  /** A request read from the wire fails exactly at the first node: without content, with
      a text that does not go on after the scheme, or when the metaspace fails. */
  lemma FailsExactly(env: Env, net: Network, at: Ipv4, p: Packet, from: Ipv4, e: Error)
    requires p.header.kind == GSN_RESOLUTION && p.header.size == |p.content| && at in net
    ensures Deliver(env, net, at, p, from).0 == Failed(e)
       <==> || (p.content == "" && e == EmptyContent)
            || (p.content != "" && !(Urls.SCHEME < p.content) && e == MalformedUrl)
            || (LabelCount(p) == 1 && UrlOf(p).value.geosub != ""
                && env.metaspace(UrlOf(p).value.geosub) == None && e == MetaspaceError)
  {
    if p.content != "" {
      assert p.content[0..|p.content|] == p.content;
      Urls.DecodeNormal(p.content);
    }
    if LabelCount(p) >= 2 {
      MultiHop(env, net, at, p, from);
    }
  }

  // ------------------------------------------------------------------ headers

  /** The same request or an answer to it: origin and part are those of the request. */
  ghost predicate SameAsker(p: Packet, q: Packet) {
    q.header.origin == p.header.origin && q.header.part == p.header.part
  }

  ghost predicate KeptBy(q: Packet, header: Header) {
    || (q.header == BLANK_HEADER.(kind := GSN_RESPONSE, size := 4) && Says(q, NETSPACE_ERROR))
    || q.header == header.(kind := GSN_RESPONSE, size := 9)
  }

  lemma LocateKept(table: seq<Node>, host: string, header: Header)
    ensures KeptBy(Locate(table, host, header), header)
  {
    RespondSays(NETSPACE_ERROR);
  }

  lemma LabelKept(table: seq<Node>, url: Urls.Url, header: Header)
    requires url.route != []
    ensures var q := ResolveLabel(table, url, header);
            || KeptBy(q, header)
            || (q.header == header.(size := q.header.size, destination := q.header.destination)
                && exists n <- table :: q.header.destination == n.address)
  {
    var host := url.route[|url.route| - 1];
    LocateKept(table, host, header);
    var it := FindHost(table, host);
    if it < |table| {
      assert table[it] in table;
    }
  }

  /** What a node gives back for a request: a code, an answer that keeps the request's
      origin, part and destination, or the request for the next node, which keeps origin
      and part and goes to a node of the table. */
  lemma HeaderKept(env: Env, table: seq<Node>, p: Packet, from: Ipv4)
    requires p.header.kind == GSN_RESOLUTION && Process(env, table, p, from).1.Value?
    ensures var q := Process(env, table, p, from).1.value;
            || KeptBy(q, p.header)
            || (q.header.kind == GSN_RESOLUTION && SameAsker(p, q)
                && exists n <- table :: q.header.destination == n.address)
  {
    ProcessResolution(env, table, p, from);
    var url := Drop(UrlOf(p).value);
    if url.route != [] {
      LabelKept(table, url, p.header);
    } else {
      LocateKept(table, env.metaspace(url.geosub).value, p.header);
    }
  }

  lemma ProcessResolution(env: Env, table: seq<Node>, p: Packet, from: Ipv4)
    requires p.header.kind == GSN_RESOLUTION
    ensures Process(env, table, p, from).1 == Resolve(env, table, p)
    ensures Resolve(env, table, p)
         == if UrlOf(p).Some? then ResolveRoute(env, table, Drop(UrlOf(p).value), p.header)
            else if p.Text(0).Value? then Throws(MalformedUrl) else p.Text(0).PropagateFailure()
  {
  }

  /** However many nodes a resolution takes, each handles a request with the origin and
      the part of the first, and so does the answer, unless it is an error code with a
      blank header; an address answer has the destination of the last request. */
  lemma {:induction false} AskerKept(env: Env, net: Network, at: Ipv4, p: Packet, from: Ipv4)
    requires p.header.kind == GSN_RESOLUTION
    ensures var (result, hops) := Deliver(env, net, at, p, from);
            && (forall k | 0 <= k < |hops| :: hops[k].header.kind == GSN_RESOLUTION && SameAsker(p, hops[k]))
            && (result.Answered? && !Says(result.packet, NETSPACE_ERROR) ==>
                  && hops != [] && SameAsker(p, result.packet)
                  && result.packet.header == hops[|hops| - 1].header.(kind := GSN_RESPONSE, size := 9))
    decreases LabelCount(p)
  {
    if at in net && Process(env, net[at], p, from).1.Value? {
      HeaderKept(env, net[at], p, from);
      var q := Process(env, net[at], p, from).1.value;
      if q.header.kind == GSN_RESOLUTION {
        PassedOn(env, net[at], p, q);
        AskerKept(env, net, q.header.destination, q, at);
        DeliverOn(env, net, at, p, from, q);
      }
    }
  }

  /** Such a first request: "spring://a". */
  lemma BrokenSample(env: Env, net: Network, at: Ipv4, from: Ipv4)
    requires at in net
    ensures var p := Packet(BLANK_HEADER.(kind := GSN_RESOLUTION), "").With("spring://a");
            Deliver(env, net, at, p, from) == (Broken, [p])
  {
    var url := Urls.Url(["a"], "", "", "");
    var p := Packet(BLANK_HEADER.(kind := GSN_RESOLUTION), "").With("spring://a");
    Urls.PrintThenDecode(url);
    assert Urls.Print(url) == "spring://a" by {
      assert Urls.Labels(["a"]) == Urls.Dotted(["a"][..0]) + "a" && ["a"][..0] == [];
    }
    ContentRoundTrip(Packet(BLANK_HEADER.(kind := GSN_RESOLUTION), ""), "spring://a");
    BrokenExactly(env, net, at, p, from);
  }
}
