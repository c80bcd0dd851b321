/** What the answers to listing requests tell, and when they can be mistaken. */
module Listings {
  import opened Wire
  import opened Texts
  import opened Packets
  import opened Tables
  import opened RootNode
  import opened Registry

  // ---------------------------------------------------------------- listings

  /** What an entry of a listing says about a node. */
  datatype Summary = Summary(hostname: string, suid: string, address: Ipv4)

  function Summarise(nodes: seq<Node>): seq<Summary> {
    if nodes == [] then [] else [Summary(nodes[0].hostname, nodes[0].suid, nodes[0].address)] + Summarise(nodes[1..])
  }

  /** The text up to the first bar, up to the last one, and after it. */
  function SplitBars(s: string): Option<(string, string, string)> {
    var i, j := Find(s, '|'), FindLast(s, '|');
    if i >= j || j == |s| then None else Some((s[..i], s[i + 1..j], s[j + 1..]))
  }

  /** The reference reading of an entry: name, suid and address between bars. */
  function ParseEntry(s: string): Option<Summary> {
    var parts := SplitBars(s);
    if parts.None? then None else
    var address := ParseAddress(parts.value.2);
    if address.None? then None else Some(Summary(parts.value.0, parts.value.1, address.value))
  }

  /** Where the first entry of a listing ends: at the first semicolon after the first
      bar. */
  function EndOfEntry(s: string): (e: nat)
    ensures e <= |s|
  {
    var i := Find(s, '|');
    if i == |s| then |s| else i + 1 + Find(s[i + 1..], ';')
  }

  /** The reference reading of a listing, entry by entry. */
  function ParseListing(s: string): Option<seq<Summary>>
    decreases |s|
  {
    if s == "" then Some([]) else
    var e := EndOfEntry(s);
    if e == |s| then None else
    var first := ParseEntry(s[..e]);
    if first.None? then None else
    var others := ParseListing(s[e + 1..]);
    if others.None? then None else Some([first.value] + others.value)
  }

  function EntryText(n: Node): string {
    n.hostname + "|" + n.suid + "|" + AddressText(n.address)
  }

  lemma AddressTextPlain(x: Ipv4)
    ensures '|' !in AddressText(x) && ';' !in AddressText(x)
  {
    if '|' in AddressText(x) {
      AddressTextChars(x, '|');
    }
    if ';' in AddressText(x) {
      AddressTextChars(x, ';');
    }
  }

  lemma Halves(x: string, y: string)
    ensures var s := x + "|" + y; s[..|x|] == x && s[|x| + 1..] == y
  {
  }

  lemma BarsFound(a: string, b: string, c: string)
    requires '|' !in a && '|' !in c
    ensures var s := a + "|" + b + "|" + c;
            Find(s, '|') == |a| && FindLast(s, '|') == |a + "|" + b|
  {
    FindFirst(a, '|', b + "|" + c);
    assert a + ['|'] + (b + "|" + c) == a + "|" + b + "|" + c;
    FindFinal(a + "|" + b, '|', c);
  }

  lemma SplitRoundTrip(a: string, b: string, c: string)
    requires '|' !in a && '|' !in c
    ensures SplitBars(a + "|" + b + "|" + c) == Some((a, b, c))
  {
    var x := a + "|" + b;
    var s := x + "|" + c;
    BarsFound(a, b, c);
    Halves(a, b);
    Halves(x, c);
    assert s[..|a|] == x[..|a|] && s[|a| + 1..|x|] == x[|a| + 1..];
  }

  lemma EntryRoundTrip(n: Node)
    requires '|' !in n.hostname
    ensures ParseEntry(EntryText(n)) == Some(Summary(n.hostname, n.suid, n.address))
  {
    AddressTextPlain(n.address);
    AddressTextRoundTrip(n.address);
    SplitRoundTrip(n.hostname, n.suid, AddressText(n.address));
  }

  lemma {:induction false} ListingAppend(a: seq<Node>, b: seq<Node>)
    ensures Listing(a + b) == Listing(a) + Listing(b)
    decreases |b|
  {
    if b == [] {
      assert a + b == a;
    } else {
      var front, n := b[..|b| - 1], b[|b| - 1];
      assert (a + b)[..|a + b| - 1] == a + front;
      ListingAppend(a, front);
      Associative(Listing(a), Listing(front), Entry(n));
    }
  }

  lemma ListingOne(n: Node)
    ensures Listing([n]) == Entry(n)
  {
    assert [n][..0] == [];
    assert "" + Entry(n) == Entry(n);
  }

  lemma ListingFirst(nodes: seq<Node>)
    requires nodes != []
    ensures Listing(nodes) == Entry(nodes[0]) + Listing(nodes[1..])
  {
    assert nodes == [nodes[0]] + nodes[1..];
    ListingAppend([nodes[0]], nodes[1..]);
    ListingOne(nodes[0]);
  }

  ghost predicate BarFree(nodes: seq<Node>) {
    forall n <- nodes :: '|' !in n.hostname
  }

  /** The suids hold no semicolon. */
  ghost predicate PlainSuids(nodes: seq<Node>) {
    forall n <- nodes :: ';' !in n.suid
  }

  lemma EntryEnds(n: Node, rest: string)
    requires '|' !in n.hostname && ';' !in n.suid
    ensures var s := Entry(n) + rest;
            && EndOfEntry(s) == |EntryText(n)| < |s|
            && s[..|EntryText(n)|] == EntryText(n)
            && s[|EntryText(n)| + 1..] == rest
  {
    var s := Entry(n) + rest;
    var address := AddressText(n.address);
    var tail := n.suid + "|" + address;
    assert s == n.hostname + ['|'] + (tail + ";" + rest);
    FindFirst(n.hostname, '|', tail + ";" + rest);
    AddressTextPlain(n.address);
    assert s[|n.hostname| + 1..] == tail + [';'] + rest;
    FindFirst(tail, ';', rest);
    assert s == EntryText(n) + ";" + rest;
  }

  /** A listing of nodes without bars in their hostnames and semicolons in their suids
      is read back exactly; hostnames may hold semicolons. */
  lemma {:induction false} ListingReadable(nodes: seq<Node>)
    requires BarFree(nodes) && PlainSuids(nodes)
    ensures ParseListing(Listing(nodes)) == Some(Summarise(nodes))
  {
    if nodes != [] {
      var n, rest := nodes[0], nodes[1..];
      assert n in nodes && forall m <- rest :: m in nodes;
      ListingFirst(nodes);
      EntryEnds(n, Listing(rest));
      EntryRoundTrip(n);
      ListingReadable(rest);
    }
  }

  /** Such nodes with the same listing have the same names and addresses. */
  lemma ListingInjective(a: seq<Node>, b: seq<Node>)
    requires BarFree(a) && PlainSuids(a) && BarFree(b) && PlainSuids(b)
    requires Listing(a) == Listing(b)
    ensures Summarise(a) == Summarise(b)
  {
    ListingReadable(a);
    ListingReadable(b);
  }

  lemma {:induction false} SummariseAt(nodes: seq<Node>)
    ensures |Summarise(nodes)| == |nodes|
    ensures forall i | 0 <= i < |nodes| ::
              Summarise(nodes)[i] == Summary(nodes[i].hostname, nodes[i].suid, nodes[i].address)
  {
    if nodes != [] {
      SummariseAt(nodes[1..]);
      assert forall i | 0 < i < |nodes| ::
          Summarise(nodes)[i] == Summarise(nodes[1..])[i - 1] && nodes[i] == nodes[1..][i - 1];
    }
  }

  // --------------------------------------------------------------- ambiguity

  /** A suid that ends one entry and begins another. */
  function Blend(s: string, x: Ipv4, g: string, t: string): string {
    s + "|" + AddressText(x) + ";" + g + "|" + t
  }

  /** One node whose entry is the entries of two. */
  function Merge(a: Node, b: Node): Node {
    b.(hostname := a.hostname, suid := Blend(a.suid, a.address, b.hostname, b.suid))
  }

  lemma MergeText(h: string, s: string, x: string, g: string, t: string, y: string)
    ensures h + "|" + (s + "|" + x + ";" + g + "|" + t) + "|" + y + ";"
         == (h + "|" + s + "|" + x + ";") + (g + "|" + t + "|" + y + ";")
  {
  }

  lemma MergeEntry(a: Node, b: Node)
    ensures Entry(Merge(a, b)) == Entry(a) + Entry(b)
  {
    MergeText(a.hostname, a.suid, AddressText(a.address), b.hostname, b.suid, AddressText(b.address));
  }

  /** Two entries of a listing are one entry of another. */
  lemma Regrouped(front: seq<Node>, a: Node, b: Node, back: seq<Node>)
    ensures Listing(front + [Merge(a, b)] + back) == Listing(front + [a, b] + back)
    ensures |Summarise(front + [Merge(a, b)] + back)| < |Summarise(front + [a, b] + back)|
  {
    ListingFirst([a, b]);
    ListingOne(b);
    assert [a, b][1..] == [b];
    MergeEntry(a, b);
    ListingOne(Merge(a, b));
    ListingAppend(front, [a, b]);
    ListingAppend(front, [Merge(a, b)]);
    ListingAppend(front + [a, b], back);
    ListingAppend(front + [Merge(a, b)], back);
    SummariseAt(front + [a, b] + back);
    SummariseAt(front + [Merge(a, b)] + back);
  }

  /** Other nodes, with bar-free hostnames as registration keeps them, have the same
      listing and different names or addresses. */
  ghost predicate Confusable(nodes: seq<Node>, other: seq<Node>) {
    BarFree(other) && Listing(other) == Listing(nodes) && Summarise(other) != Summarise(nodes)
  }

  ghost predicate Blended(suid: string) {
    exists s, x, g, t :: '|' !in g && suid == Blend(s, x, g, t)
  }

  /** Any nodes have the listing of a single node, with the hostname of the first. */
  lemma {:induction false} MergeAll(nodes: seq<Node>) returns (n: Node)
    requires nodes != [] && BarFree(nodes)
    ensures n.hostname == nodes[0].hostname && Entry(n) == Listing(nodes)
    ensures if |nodes| == 1 then n == nodes[0] else |n.suid| > |nodes[0].suid| && |n.suid| > |nodes[|nodes| - 1].suid|
  {
    assert nodes[0] in nodes;
    if |nodes| == 1 {
      n := nodes[0];
      assert nodes == [n];
      ListingOne(n);
    } else {
      assert forall m <- nodes[1..] :: m in nodes;
      var m := MergeAll(nodes[1..]);
      n := Merge(nodes[0], m);
      MergeEntry(nodes[0], m);
      ListingFirst(nodes);
    }
  }

  lemma EntryUnique(n: Node, m: Node)
    requires '|' !in n.hostname && '|' !in m.hostname && Entry(n) == Entry(m)
    ensures n.hostname == m.hostname && n.suid == m.suid && n.address == m.address
  {
    assert Entry(n)[..|Entry(n)| - 1] == EntryText(n);
    assert Entry(m)[..|Entry(m)| - 1] == EntryText(m);
    EntryRoundTrip(n);
    EntryRoundTrip(m);
  }

  /** Vectors of any nodes with bar-free hostnames, also of nodes with suids that no
      registration holds: `construct_frame_network` gives the same text for others
      exactly for two nodes or more, and for one whose suid is blended. */
  lemma VectorAmbiguousExactly(nodes: seq<Node>)
    requires BarFree(nodes)
    ensures (exists other :: Confusable(nodes, other))
       <==> |nodes| >= 2 || (|nodes| == 1 && Blended(nodes[0].suid))
  {
    if |nodes| >= 2 {
      ManyConfusable(nodes);
    } else if |nodes| == 1 {
      var n := nodes[0];
      assert nodes == [n] && n in nodes;
      if s, x, g, t :| '|' !in g && n.suid == Blend(s, x, g, t) {
        HalvesConfusable(n, s, x, g, t);
      }
      if other :| Confusable(nodes, other) {
        var first, m := TwoReadings(n, other);
      }
    } else if other :| Confusable(nodes, other) {
      BothBegin(nodes, other);
    }
  }

  lemma ManyConfusable(nodes: seq<Node>)
    requires BarFree(nodes) && |nodes| >= 2
    ensures Confusable(nodes, [] + [Merge(nodes[0], nodes[1])] + nodes[2..])
  {
    assert nodes == [] + [nodes[0], nodes[1]] + nodes[2..];
    assert nodes[0] in nodes && forall m <- nodes[2..] :: m in nodes;
    Regrouped([], nodes[0], nodes[1], nodes[2..]);
  }

  /** The two nodes that share the entry of one. */
  function Halved(n: Node, s: string, x: Ipv4, g: string, t: string): seq<Node> {
    [n.(suid := s, address := x), n.(hostname := g, suid := t)]
  }

  lemma HalvesConfusable(n: Node, s: string, x: Ipv4, g: string, t: string)
    requires '|' !in n.hostname && '|' !in g && n.suid == Blend(s, x, g, t)
    ensures Confusable([n], Halved(n, s, x, g, t))
  {
    var a, b := n.(suid := s, address := x), n.(hostname := g, suid := t);
    Regrouped([], a, b, []);
    assert [] + [Merge(a, b)] + [] == [n] && [] + [a, b] + [] == Halved(n, s, x, g, t);
  }

  /** Nodes that are taken for a single one are two or more, and its suid is blended of
      the first of them and the rest. */
  lemma TwoReadings(n: Node, other: seq<Node>) returns (first: Node, m: Node)
    requires '|' !in n.hostname && Confusable([n], other)
    ensures |other| >= 2 && first == other[0] && first.hostname == n.hostname
    ensures '|' !in m.hostname && n.suid == Blend(first.suid, first.address, m.hostname, m.suid)
    ensures m.hostname == other[1].hostname
    ensures if |other| == 2 then m == other[1]
            else |m.suid| > |other[1].suid| && |m.suid| > |other[|other| - 1].suid|
  {
    ListingOne(n);
    assert other != [];
    first := other[0];
    assert first in other && forall m <- other[1..] :: m in other;
    if |other| == 1 {
      assert other == [first];
      ListingOne(first);
      EntryUnique(n, first);
      SummariseAt([n]);
      SummariseAt(other);
      assert false;
    }
    assert other[1] in other;
    m := MergeAll(other[1..]);
    ListingFirst(other);
    MergeEntry(first, m);
    EntryUnique(n, Merge(first, m));
  }

  // ------------------------------------------------------------- over runs

  function OfKind(kind: Int8): Node -> bool {
    (n: Node) => n.kind == kind
  }

  lemma {:induction false} NodesOfSelects(table: seq<Node>, kind: Int8)
    ensures NodesOf(table, kind) == Select(table, OfKind(kind))
  {
    if table != [] {
      var front, node := table[..|table| - 1], table[|table| - 1];
      NodesOfSelects(front, kind);
      assert table == front + [node];
      SelectAppend(front, [node], OfKind(kind));
      SelectOne(node, OfKind(kind));
      assert Select(front, OfKind(kind)) + [] == Select(front, OfKind(kind));
    }
  }

  /** The type of the nodes that a listing request asks for. */
  function ListedKind(request: Int8): Option<Int8> {
    if request == GSN_LOCAL_AREA then Some(ORG) else if request == GTN_ROOT_NODES then Some(ROOT) else None
  }

  function Listed(table: seq<Node>, p: Packet): seq<Node>
    requires ListedKind(p.header.kind).Some?
  {
    Select(table, OfKind(ListedKind(p.header.kind).value))
  }

  /** The answer to a request with the listing of nodes. */
  function ListingReply(p: Packet, nodes: seq<Node>): Packet {
    Packet(p.header.(kind := GSN_RESPONSE), "").With(Listing(nodes))
  }

  lemma AnswerListing(env: Env, table: seq<Node>, p: Packet, from: Ipv4)
    requires ListedKind(p.header.kind).Some?
    ensures Process(env, table, p, from) == (table, Outcome.Value(ListingReply(p, Listed(table, p))))
  {
    NodesOfSelects(table, ListedKind(p.header.kind).value);
  }

  /** Nodes that a table can hold together, all of the type that a request asks for. */
  ghost predicate Holdable(nodes: seq<Node>, p: Packet) {
    Proper(nodes) && forall n <- nodes :: ListedKind(p.header.kind) == Some(n.kind)
  }

  lemma ProperBarFree(nodes: seq<Node>)
    requires Proper(nodes)
    ensures BarFree(nodes)
  {
  }

  lemma ListedHoldable(env: Env, events: seq<Event>, p: Packet)
    requires Defined(env, events) && ListedKind(p.header.kind).Some?
    ensures Holdable(Listed(TableAfter(env, events), p), p)
  {
    RegistryUnique(env, events);
    SelectProper(TableAfter(env, events), OfKind(ListedKind(p.header.kind).value));
    SelectFrom(TableAfter(env, events), OfKind(ListedKind(p.header.kind).value));
  }

  /** In every run the answer to a request for the local area or the root nodes is the
      listing of exactly the organisations or roots in the table, in order.  A receiver
      reads the whole of it when it is not empty and has less than 2^32 bytes, and reads
      it back as those nodes when their suids hold no semicolon; hostnames need no
      condition. */
  lemma RunListing(env: Env, events: seq<Event>, p: Packet, from: Ipv4)
    requires Defined(env, events) && ListedKind(p.header.kind).Some?
    ensures var table := TableAfter(env, events);
            var nodes := Listed(table, p);
            && Process(env, table, p, from) == (table, Outcome.Value(ListingReply(p, nodes)))
            && (ListingReply(p, nodes).Text(0) == Outcome.Value(Listing(nodes))
                <==> 0 < |Listing(nodes)| < 0x1_0000_0000)
            && (PlainSuids(nodes) ==> ParseListing(Listing(nodes)) == Some(Summarise(nodes)))
  {
    var nodes := Listed(TableAfter(env, events), p);
    AnswerListing(env, TableAfter(env, events), p, from);
    ListedHoldable(env, events, p);
    ProperBarFree(nodes);
    ContentRoundTrip(Packet(p.header.(kind := GSN_RESPONSE), ""), Listing(nodes));
    if PlainSuids(nodes) {
      ListingReadable(nodes);
    }
  }

  /** Two runs after which the same request gets the same text have the same names and
      addresses to tell, when the suids listed hold no semicolon. */
  lemma RunsToldApart(env: Env, one: seq<Event>, two: seq<Event>, p: Packet, from: Ipv4)
    requires Defined(env, one) && Defined(env, two) && ListedKind(p.header.kind).Some?
    requires PlainSuids(Listed(TableAfter(env, one), p)) && PlainSuids(Listed(TableAfter(env, two), p))
    requires Process(env, TableAfter(env, one), p, from).1 == Process(env, TableAfter(env, two), p, from).1
    ensures Summarise(Listed(TableAfter(env, one), p)) == Summarise(Listed(TableAfter(env, two), p))
  {
    RunListing(env, one, p, from);
    RunListing(env, two, p, from);
  }

  // ------------------------------------------------------ ambiguity over runs

  /** After another run the request has the same answer, for nodes with different names
      or addresses. */
  ghost predicate Alike(env: Env, events: seq<Event>, other: seq<Event>, p: Packet, from: Ipv4)
    requires ListedKind(p.header.kind).Some?
  {
    && Defined(env, other)
    && Process(env, TableAfter(env, other), p, from).1 == Process(env, TableAfter(env, events), p, from).1
    && Summarise(Listed(TableAfter(env, other), p)) != Summarise(Listed(TableAfter(env, events), p))
  }

  ghost predicate Ambiguous(env: Env, events: seq<Event>, p: Packet, from: Ipv4)
    requires ListedKind(p.header.kind).Some?
  {
    exists other :: Alike(env, events, other, p, from)
  }

  /** The nodes of another reading can register and then the answer is the same. */
  lemma ReadingReached(env: Env, events: seq<Event>, p: Packet, from: Ipv4, other: seq<Node>)
    requires Defined(env, events) && ListedKind(p.header.kind).Some?
    requires Holdable(other, p) && Confusable(Listed(TableAfter(env, events), p), other)
    ensures Alike(env, events, AskingAll(other, env.junk), p, from)
  {
    ProperReached(env, other, env.junk);
    SelectAll(other, OfKind(ListedKind(p.header.kind).value));
    AnswerListing(env, other, p, from);
    AnswerListing(env, TableAfter(env, events), p, from);
  }

  /** The answer after a run is ambiguous exactly when its text is the listing of other
      nodes that a table can hold together. */
  lemma AmbiguousExactly(env: Env, events: seq<Event>, p: Packet, from: Ipv4)
    requires Defined(env, events) && ListedKind(p.header.kind).Some?
    ensures Ambiguous(env, events, p, from)
       <==> exists other :: Holdable(other, p) && Confusable(Listed(TableAfter(env, events), p), other)
  {
    var nodes := Listed(TableAfter(env, events), p);
    if other :| Holdable(other, p) && Confusable(nodes, other) {
      ReadingReached(env, events, p, from, other);
    }
    if run :| Alike(env, events, run, p, from) {
      var other := Listed(TableAfter(env, run), p);
      AnswerListing(env, TableAfter(env, events), p, from);
      AnswerListing(env, TableAfter(env, run), p, from);
      ListedHoldable(env, run, p);
      ProperBarFree(other);
      assert Holdable(other, p) && Confusable(nodes, other);
    }
  }

  // ------------------------------------------- the condition for plain suids

  /** Two entries, without the address of the second, fit the text of one
      registration. */
  predicate Fit(a: Node, b: Node) {
    |a.hostname| + 1 + |a.suid| + 1 + |AddressText(a.address)| + 1 + |b.hostname| + 1 + |b.suid| <= 125
  }

  predicate FitAt(nodes: seq<Node>, i: nat) {
    i + 1 < |nodes| && Fit(nodes[i], nodes[i + 1])
  }

  lemma FitLater(nodes: seq<Node>, i: nat)
    requires nodes != [] && FitAt(nodes[1..], i)
    ensures FitAt(nodes, i + 1)
  {
  }

  lemma MergedProper(front: seq<Node>, a: Node, b: Node, back: seq<Node>)
    requires Proper(front + [a, b] + back)
    requires Fit(a, b)
    requires forall m <- front + back :: m.suid != Merge(a, b).suid
    ensures Proper(front + [Merge(a, b)] + back)
  {
    var nodes, other := front + [a, b] + back, front + [Merge(a, b)] + back;
    var k := |front|;
    assert nodes[k] == a && nodes[k + 1] == b && a in nodes && b in nodes;
    forall n | n in other ensures Registrable(n) {
      assert n == Merge(a, b) || n in nodes;
    }
    forall i, j | 0 <= i < j < |other|
      ensures other[i].hostname != other[j].hostname && other[i].suid != other[j].suid
    {
      var i', j' := if i <= k then i else i + 1, if j <= k then j else j + 1;
      assert nodes[i'].hostname != nodes[j'].hostname && nodes[i'].suid != nodes[j'].suid;
      assert i != k ==> other[i] == nodes[i'] && other[i] in front + back;
      assert j != k ==> other[j] == nodes[j'] && other[j] in front + back;
    }
  }

  /** Two entries that fit one registration make a listing ambiguous, unless their
      blended suid is taken. */
  lemma MergeAmbiguous(
      env: Env, events: seq<Event>, p: Packet, from: Ipv4, front: seq<Node>, a: Node, b: Node, back: seq<Node>)
    requires Defined(env, events) && ListedKind(p.header.kind).Some?
    requires Listed(TableAfter(env, events), p) == front + [a, b] + back && Fit(a, b)
    requires forall m <- front + back :: m.suid != Merge(a, b).suid
    ensures Ambiguous(env, events, p, from)
  {
    ListedHoldable(env, events, p);
    MergedHoldable(front, a, b, back, p);
    ReadingReached(env, events, p, from, front + [Merge(a, b)] + back);
  }

  /** A plain suid is not the blended one. */
  lemma PlainMergeAmbiguous(env: Env, events: seq<Event>, p: Packet, from: Ipv4, i: nat)
    requires Defined(env, events) && ListedKind(p.header.kind).Some?
    requires var nodes := Listed(TableAfter(env, events), p); PlainSuids(nodes) && FitAt(nodes, i)
    ensures Ambiguous(env, events, p, from)
  {
    var nodes := Listed(TableAfter(env, events), p);
    var front, a, b, back := nodes[..i], nodes[i], nodes[i + 1], nodes[i + 2..];
    assert nodes == front + [a, b] + back;
    assert forall m <- front + back :: m in nodes;
    assert Merge(a, b).suid[|a.suid| + 1 + |AddressText(a.address)|] == ';';
    MergeAmbiguous(env, events, p, from, front, a, b, back);
  }

  lemma MergedHoldable(front: seq<Node>, a: Node, b: Node, back: seq<Node>, p: Packet)
    requires Holdable(front + [a, b] + back, p) && Fit(a, b)
    requires forall m <- front + back :: m.suid != Merge(a, b).suid
    ensures Holdable(front + [Merge(a, b)] + back, p)
    ensures Confusable(front + [a, b] + back, front + [Merge(a, b)] + back)
  {
    var nodes, other := front + [a, b] + back, front + [Merge(a, b)] + back;
    MergedProper(front, a, b, back);
    Regrouped(front, a, b, back);
    ProperBarFree(other);
    assert nodes[|front| + 1] == b && b in nodes;
    assert forall m <- other :: m == Merge(a, b) || m in nodes;
  }

  /** Where the first entry ends in a text that begins with another entry: before the
      address of that one, or with it. */
  lemma EntryBoundary(w: string, address: string, rest: string)
    requires '|' !in address && ';' !in address
    ensures var s := w + "|" + address + ";" + rest;
            var e := EndOfEntry(s);
            (e < |w| && s[e] == ';') || e == |w| + 1 + |address|
  {
    var s := w + "|" + address + ";" + rest;
    var n := |w| + 1 + |address|;
    var i := Find(s, '|');
    BoundaryChars(w, address, rest);
    FindBefore(s, '|', |w|);
    FindBefore(s[i + 1..], ';', n - i - 1);
  }

  lemma BoundaryChars(w: string, address: string, rest: string)
    requires ';' !in address
    ensures var s := w + "|" + address + ";" + rest;
            var n := |w| + 1 + |address|;
            s[|w|] == '|' && s[n] == ';' && forall j | |w| < j < n :: s[j] != ';'
  {
    var s := w + "|" + address + ";" + rest;
    assert forall j | |w| < j < |w| + 1 + |address| :: s[j] == address[j - |w| - 1];
  }

  /** In a listing that begins with another entry, the second node's name ends before
      the address of that entry. */
  lemma SecondFits(nodes: seq<Node>, v: string, x: Ipv4, rest: string)
    requires nodes != [] && BarFree(nodes) && PlainSuids(nodes)
    requires Listing(nodes) == v + "|" + AddressText(x) + ";" + rest
    ensures |nodes[0].hostname| + 1 + |nodes[0].suid| <= |v|
  {
    var n := nodes[0];
    assert n in nodes;
    AddressTextPlain(x);
    AddressTextPlain(n.address);
    ListingFirst(nodes);
    EntryEnds(n, Listing(nodes[1..]));
    EntryBoundary(v, AddressText(x), rest);
    if |EntryText(n)| >= |v| {
      assert EntryText(n) == v + ['|'] + AddressText(x);
      FindFinal(v, '|', AddressText(x));
      FindFinal(n.hostname + "|" + n.suid, '|', AddressText(n.address));
    }
  }

  /** When an entry of another reading begins with the first entry and goes on, it
      holds the second one up to its address. */
  lemma FirstTwoFit(nodes: seq<Node>, n: Node, rest: string)
    requires nodes != [] && BarFree(nodes) && PlainSuids(nodes) && Registrable(n)
    requires Listing(nodes) == Entry(n) + rest && EntryText(nodes[0]) != EntryText(n)
    ensures FitAt(nodes, 0)
  {
    var m, w := nodes[0], n.hostname + "|" + n.suid;
    assert m in nodes && forall k <- nodes[1..] :: k in nodes;
    ListingFirst(nodes);
    FirstIsPart(m, Listing(nodes[1..]), n, rest);
    SecondFits(nodes[1..], w[|EntryText(m)| + 1..], n.address, rest);
    LongSuid(n, m);
  }

  lemma FirstIsPart(m: Node, others: string, n: Node, rest: string)
    requires '|' !in m.hostname && ';' !in m.suid
    requires Entry(m) + others == Entry(n) + rest && EntryText(m) != EntryText(n)
    ensures var w, e := n.hostname + "|" + n.suid, |EntryText(m)|;
            && EntryText(m) <= w && e < |w|
            && others == w[e + 1..] + "|" + AddressText(n.address) + ";" + rest
            && others != ""
  {
    var w, x, e := n.hostname + "|" + n.suid, AddressText(n.address), |EntryText(m)|;
    AddressTextPlain(n.address);
    EntryEnds(m, others);
    EntryBoundary(w, x, rest);
    EntrySlices(w, x, rest, if e < |w| then e else 0);
  }

  lemma EntrySlices(w: string, x: string, rest: string, e: nat)
    ensures var s := w + "|" + x + ";" + rest;
            && s[..|w| + 1 + |x|] == w + "|" + x
            && (e < |w| ==> s[..e] == w[..e] && s[e + 1..] == w[e + 1..] + "|" + x + ";" + rest)
  {
  }

  /** A node whose name begins with the entry of another has a bar in its suid. */
  lemma LongSuid(n: Node, m: Node)
    requires Registrable(n) && EntryText(m) <= n.hostname + "|" + n.suid
    ensures |n.hostname| + 1 + |n.suid| <= 125
  {
    var w, k := n.hostname + "|" + n.suid, |m.hostname + "|" + m.suid|;
    assert w[|m.hostname|] == EntryText(m)[|m.hostname|] == '|';
    assert w[k] == EntryText(m)[k] == '|';
    assert forall j | 0 <= j < |n.hostname| :: w[j] == n.hostname[j];
    assert n.suid[k - |n.hostname| - 1] == w[k];
  }

  lemma BothBegin(nodes: seq<Node>, other: seq<Node>)
    requires Listing(nodes) == Listing(other) && Summarise(nodes) != Summarise(other)
    ensures nodes != [] && other != []
    ensures Listing(nodes) == Entry(nodes[0]) + Listing(nodes[1..])
    ensures Listing(other) == Entry(other[0]) + Listing(other[1..])
  {
    if nodes != [] {
      ListingFirst(nodes);
    }
    if other != [] {
      ListingFirst(other);
    }
  }

  lemma SameTail(entry: string, a: string, b: string)
    requires entry + a == entry + b
    ensures a == b
  {
    assert (entry + a)[|entry|..] == a && (entry + b)[|entry|..] == b;
  }

  lemma SameFirst(nodes: seq<Node>, other: seq<Node>)
    requires nodes != [] && other != [] && EntryText(nodes[0]) == EntryText(other[0])
    requires BarFree(nodes) && PlainSuids(nodes) && forall n <- other :: Registrable(n)
    requires Listing(nodes) == Listing(other) && Summarise(nodes) != Summarise(other)
    ensures BarFree(nodes[1..]) && PlainSuids(nodes[1..]) && forall n <- other[1..] :: Registrable(n)
    ensures Listing(nodes[1..]) == Listing(other[1..]) && Summarise(nodes[1..]) != Summarise(other[1..])
  {
    BothBegin(nodes, other);
    var m, n := nodes[0], other[0];
    assert m in nodes && n in other;
    assert forall k <- nodes[1..] :: k in nodes;
    assert forall k <- other[1..] :: k in other;
    EntryUnique(m, n);
    SameTail(Entry(m), Listing(nodes[1..]), Listing(other[1..]));
  }

  /** Two readings of a listing, one with plain suids: some two entries of that one are
      in one entry of the other. */
  lemma {:induction false} PlainFit(nodes: seq<Node>, other: seq<Node>)
    requires BarFree(nodes) && PlainSuids(nodes) && forall n <- other :: Registrable(n)
    requires Listing(nodes) == Listing(other) && Summarise(nodes) != Summarise(other)
    ensures exists i: nat :: FitAt(nodes, i)
    decreases |nodes|
  {
    BothBegin(nodes, other);
    assert other[0] in other;
    if EntryText(nodes[0]) == EntryText(other[0]) {
      SameFirst(nodes, other);
      PlainFit(nodes[1..], other[1..]);
      var i: nat :| FitAt(nodes[1..], i);
      FitLater(nodes, i);
    } else {
      FirstTwoFit(nodes, other[0], Listing(other[1..]));
    }
  }

  /** When the listed suids hold no semicolon, the answer after a run is ambiguous
      exactly when two entries next to each other fit the text of one registration. */
  lemma PlainAmbiguousExactly(env: Env, events: seq<Event>, p: Packet, from: Ipv4)
    requires Defined(env, events) && ListedKind(p.header.kind).Some?
    requires PlainSuids(Listed(TableAfter(env, events), p))
    ensures Ambiguous(env, events, p, from) <==> exists i: nat :: FitAt(Listed(TableAfter(env, events), p), i)
  {
    var nodes := Listed(TableAfter(env, events), p);
    ListedHoldable(env, events, p);
    ProperBarFree(nodes);
    AmbiguousExactly(env, events, p, from);
    if other :| Holdable(other, p) && Confusable(nodes, other) {
      PlainFit(nodes, other);
    }
    if i: nat :| FitAt(nodes, i) {
      PlainMergeAmbiguous(env, events, p, from, i);
    }
  }

  // ------------------------------------------- the condition for a single node

  /** The suid ends one entry and begins another, and the two have different names. */
  ghost predicate Splits(n: Node) {
    exists s, x, g, t :: SplitsInto(n, s, x, g, t)
  }

  ghost predicate SplitsInto(n: Node, s: string, x: Ipv4, g: string, t: string) {
    '|' !in g && g != n.hostname && s != t && n.suid == Blend(s, x, g, t)
  }

  /** A registered suid that is blended of the entries of two nodes with free names:
      after a run in which the two are registered in place of the one, the answer is
      the same. */
  lemma SplitAmbiguous(
      env: Env, events: seq<Event>, p: Packet, from: Ipv4,
      front: seq<Node>, n: Node, back: seq<Node>, s: string, x: Ipv4, g: string, t: string)
    requires Defined(env, events) && ListedKind(p.header.kind).Some?
    requires Listed(TableAfter(env, events), p) == front + [n] + back && n.suid == Blend(s, x, g, t)
    requires Proper(front + Halved(n, s, x, g, t) + back)
    ensures Alike(env, events, AskingAll(front + Halved(n, s, x, g, t) + back, env.junk), p, from)
  {
    var a, b := n.(suid := s, address := x), n.(hostname := g, suid := t);
    var nodes, other := front + [n] + back, front + [a, b] + back;
    assert Halved(n, s, x, g, t) == [a, b] && Merge(a, b) == n;
    Regrouped(front, a, b, back);
    ListedHoldable(env, events, p);
    ProperBarFree(other);
    assert n in nodes;
    assert forall m <- other :: m == a || m == b || m in nodes;
    ReadingReached(env, events, p, from, other);
  }

  lemma HalvedProper(n: Node, s: string, x: Ipv4, g: string, t: string)
    requires Registrable(n) && SplitsInto(n, s, x, g, t)
    ensures Proper(Halved(n, s, x, g, t))
  {
    assert n.suid[|s|] == '|';
  }

  /** Distinct nodes that are taken for a single one: its suid splits. */
  lemma ReadingSplits(n: Node, other: seq<Node>)
    requires '|' !in n.hostname && Proper(other) && Confusable([n], other)
    ensures Splits(n)
  {
    var first, m := TwoReadings(n, other);
    if first.suid != m.suid {
      assert SplitsInto(n, first.suid, first.address, m.hostname, m.suid);
    } else {
      var last, front := other[|other| - 1], other[..|other| - 1];
      assert forall k <- front :: k in other;
      var f := MergeAll(front);
      ListingOne(n);
      MergeEntry(f, last);
      assert last in other;
      EntryUnique(n, Merge(f, last));
      assert SplitsInto(n, f.suid, f.address, last.hostname, last.suid);
    }
  }

  /** With one node listed, whatever its suid, the answer after a run is ambiguous
      exactly when the suid splits. */
  lemma SingleAmbiguousExactly(env: Env, events: seq<Event>, p: Packet, from: Ipv4, n: Node)
    requires Defined(env, events) && ListedKind(p.header.kind).Some?
    requires Listed(TableAfter(env, events), p) == [n]
    ensures Ambiguous(env, events, p, from) <==> Splits(n)
  {
    ListedHoldable(env, events, p);
    assert n in [n];
    AmbiguousExactly(env, events, p, from);
    if other :| Holdable(other, p) && Confusable([n], other) {
      ReadingSplits(n, other);
    }
    if s, x, g, t :| SplitsInto(n, s, x, g, t) {
      SplitAlone(env, events, p, from, n, s, x, g, t);
    }
  }

  lemma SplitAlone(
      env: Env, events: seq<Event>, p: Packet, from: Ipv4, n: Node, s: string, x: Ipv4, g: string, t: string)
    requires Defined(env, events) && ListedKind(p.header.kind).Some?
    requires Listed(TableAfter(env, events), p) == [n] && Registrable(n) && SplitsInto(n, s, x, g, t)
    ensures Proper(Halved(n, s, x, g, t))
    ensures Alike(env, events, AskingAll(Halved(n, s, x, g, t), env.junk), p, from)
  {
    HalvedProper(n, s, x, g, t);
    assert [] + [n] + [] == [n] && [] + Halved(n, s, x, g, t) + [] == Halved(n, s, x, g, t);
    SplitAmbiguous(env, events, p, from, [], n, [], s, x, g, t);
  }

  /** One registration and two registrations after which a request for the local area
      has the same answer. */
  lemma AmbiguousSample(env: Env, p: Packet, from: Ipv4) returns (one: seq<Event>, two: seq<Event>)
    requires p.header.kind == GSN_LOCAL_AREA
    ensures Defined(env, one) && |TableAfter(env, one)| == 1 && |TableAfter(env, two)| == 2
    ensures Alike(env, one, two, p, from)
  {
    var x := Ipv4(1, 2, 3, 4);
    assert |AddressText(x)| == 7;
    var n := Node(ORG, "h", Ipv4(5, 6, 7, 8), HTTP, Blend("s", x, "g", "t"));
    var halves := Halved(n, "s", x, "g", "t");
    assert SplitsInto(n, "s", x, "g", "t");
    HalvedProper(n, "s", x, "g", "t");
    one, two := AskingAll([n], env.junk), AskingAll(halves, env.junk);
    ProperReached(env, [n], env.junk);
    ProperReached(env, halves, env.junk);
    SelectAll([n], OfKind(ORG));
    SplitAlone(env, one, p, from, n, "s", x, "g", "t");
  }

  // -------------------------------------------- why entries do not say it all

  /** Two listings whose entries end in different places. */
  lemma Shifted(h: string, s: string, x: Ipv4, g: string, y: Ipv4, k: string, t: string, n: Node, m: Node)
    requires n == m.(hostname := h, suid := s, address := x)
    ensures var nodes := [n, m.(hostname := g, suid := AddressText(y) + ";" + k + "|" + t)];
            var other := [n.(suid := s + "|" + AddressText(x) + ";" + g, address := y), m.(hostname := k, suid := t)];
            Listing(nodes) == Listing(other)
  {
    var nodes := [n, m.(hostname := g, suid := AddressText(y) + ";" + k + "|" + t)];
    var other := [n.(suid := s + "|" + AddressText(x) + ";" + g, address := y), m.(hostname := k, suid := t)];
    PairListing(nodes[0], nodes[1]);
    PairListing(other[0], other[1]);
    ShiftedText(h, s, AddressText(x), g, AddressText(y), k, t, AddressText(m.address));
  }

  lemma PairListing(a: Node, b: Node)
    ensures Listing([a, b]) == Entry(a) + Entry(b)
  {
    assert [a, b] == [a] + [b];
    ListingAppend([a], [b]);
    ListingOne(a);
    ListingOne(b);
  }

  lemma ShiftedText(h: string, s: string, x: string, g: string, y: string, k: string, t: string, z: string)
    ensures (h + "|" + s + "|" + x + ";") + (g + "|" + (y + ";" + k + "|" + t) + "|" + z + ";")
         == (h + "|" + (s + "|" + x + ";" + g) + "|" + y + ";") + (k + "|" + t + "|" + z + ";")
  {
  }

  lemma NotBlended(suid: string)
    requires forall i, j | 0 <= i < j < |suid| :: !(suid[i] == suid[j] == '|')
    ensures !Blended(suid)
  {
    forall s, x, g, t ensures suid != Blend(s, x, g, t) {
      var first, second := |s|, |s + "|" + AddressText(x) + ";" + g|;
      assert Blend(s, x, g, t)[first] == '|' && Blend(s, x, g, t)[second] == '|';
    }
  }

  /** The address texts that the samples use have seven characters. */
  lemma SampleAddresses()
    ensures |AddressText(Ipv4(1, 2, 3, 4))| == |AddressText(Ipv4(5, 6, 7, 8))| == 7
  {
  }

  /** Two organisations, the second with a suid of 120 characters. */
  function ShiftedNodes(t: string): seq<Node> {
    [Node(ORG, "h", Ipv4(1, 2, 3, 4), HTTP, "s"),
     Node(ORG, "g", Ipv4(1, 2, 3, 4), HTTP, AddressText(Ipv4(5, 6, 7, 8)) + ";" + "k" + "|" + t)]
  }

  /** The other reading of their listing. */
  function ShiftedOther(t: string): seq<Node> {
    [Node(ORG, "h", Ipv4(5, 6, 7, 8), HTTP, "s" + "|" + AddressText(Ipv4(1, 2, 3, 4)) + ";" + "g"),
     Node(ORG, "k", Ipv4(1, 2, 3, 4), HTTP, t)]
  }

  lemma ShiftedHoldable(t: string, p: Packet)
    requires |t| == 110 && p.header.kind == GSN_LOCAL_AREA
    ensures Holdable(ShiftedNodes(t), p) && Holdable(ShiftedOther(t), p)
    ensures forall i: nat :: !FitAt(ShiftedNodes(t), i)
  {
    SampleAddresses();
  }

  lemma ShiftedConfusable(t: string)
    ensures Confusable(ShiftedNodes(t), ShiftedOther(t))
  {
    var nodes, other := ShiftedNodes(t), ShiftedOther(t);
    Shifted("h", "s", Ipv4(1, 2, 3, 4), "g", Ipv4(5, 6, 7, 8), "k", t, nodes[0], nodes[1]);
    SummariseAt(nodes);
    SummariseAt(other);
    assert |nodes[0].suid| < |other[0].suid|;
    assert Summarise(nodes)[0] != Summarise(other)[0];
  }

  lemma ShiftedPlain(t: string)
    requires '|' !in t
    ensures forall n <- ShiftedNodes(t) :: !Blended(n.suid)
  {
    AddressTextPlain(Ipv4(5, 6, 7, 8));
    NotBlended("s");
    NotBlended(ShiftedNodes(t)[1].suid);
  }

  /** A run after which the answer is ambiguous though no two entries fit one
      registration and no suid is blended: in the other reading the second entry begins
      further on. */
  lemma ShiftedSample(env: Env, p: Packet, from: Ipv4) returns (events: seq<Event>)
    requires p.header.kind == GSN_LOCAL_AREA
    ensures Defined(env, events) && Ambiguous(env, events, p, from)
    ensures var nodes := Listed(TableAfter(env, events), p);
            (forall i: nat :: !FitAt(nodes, i)) && forall n <- nodes :: !Blended(n.suid)
  {
    var t := seq(110, i => 'z');
    ShiftedHoldable(t, p);
    ShiftedConfusable(t);
    ShiftedPlain(t);
    events := AskingAll(ShiftedNodes(t), env.junk);
    ProperReached(env, ShiftedNodes(t), env.junk);
    SelectAll(ShiftedNodes(t), OfKind(ORG));
    ReadingReached(env, events, p, from, ShiftedOther(t));
  }
}
