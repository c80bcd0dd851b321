/** The node table over all runs of packets, and one registration from end to end. */
module Registry {
  import opened Wire
  import opened Texts
  import opened Packets
  import opened Tables
  import opened RootNode

  /** A packet that arrives from an address. */
  datatype Event = Event(packet: Packet, from: Ipv4)

  /** The table after a run that started with none. */
  function TableAfter(env: Env, events: seq<Event>): seq<Node> {
    if events == [] then [] else
    var e := events[|events| - 1];
    Process(env, TableAfter(env, events[..|events| - 1]), e.packet, e.from).0
  }

  /** No packet of the run led to undefined behaviour, after which nothing is
      promised. */
  ghost predicate Defined(env: Env, events: seq<Event>) {
    events == [] ||
    var before, e := events[..|events| - 1], events[|events| - 1];
    Defined(env, before) && !Process(env, TableAfter(env, before), e.packet, e.from).1.Undefined?
  }

  lemma RespondInjective(c: Int32, d: Int32)
    ensures Respond(c) == Respond(d) <==> c == d
  {
    Ranges();
    SignedOfBytes(c, 4);
    SignedOfBytes(d, 4);
  }

  /** The node that a registration from an address asks for. */
  function Wanted(r: Registration, from: Ipv4): Node {
    Node(r.kind, SplitName(r.text).0, from, r.protocol, SplitName(r.text).1)
  }

  ghost predicate Taken(table: seq<Node>, n: Node) {
    exists m <- table :: m.hostname == n.hostname || m.suid == n.suid
  }

  /** Some registration of up to 125 bytes asks for the node: for a hostname, a bar and
      a suid, or for one text without a bar that is both. */
  predicate Registrable(n: Node) {
    && n.kind < FINAL && '|' !in n.hostname
    && (|n.hostname| + 1 + |n.suid| <= 125 || (n.hostname == n.suid && |n.suid| <= 125))
  }

  /** A text with a bar falls apart at its first one; a text without is both names. */
  lemma NameSplits(text: string)
    ensures var (hostname, suid) := SplitName(text);
            && '|' !in hostname
            && if '|' in text then text == hostname + "|" + suid else hostname == suid == text
  {
    var i := Find(text, '|');
    assert text[..|text|] == text;
    if i < |text| {
      assert text == text[..i] + [text[i]] + text[i + 1..];
    }
  }

  /** A readable registration is accepted exactly when neither its hostname nor its
      suid is taken, and then its node, at the sender's address, is added. */
  lemma RegisterExactly(table: seq<Node>, content: string, from: Ipv4, r: Registration)
    requires ReadRegistration(content) == Outcome.Value(Some(r))
    ensures Register(table, content, from)
         == if Taken(table, Wanted(r, from)) then (table, Outcome.Value(Respond(NETSPACE_DUPLICATE)))
            else (table + [Wanted(r, from)], Outcome.Value(Respond(OK)))
  {
    AddressTextRoundTrip(from);
    var n := Wanted(r, from);
    var i, j := FindHost(table, n.hostname), FindSuid(table, n.suid);
    if i < |table| {
      assert table[i] in table;
    }
    if j < |table| {
      assert table[j] in table;
    }
  }

  lemma WantedRegistrable(content: string, from: Ipv4, r: Registration)
    requires ReadRegistration(content) == Outcome.Value(Some(r))
    ensures Registrable(Wanted(r, from))
  {
    NameSplits(r.text);
  }

  lemma UnregisterExactly(table: seq<Node>, from: Ipv4)
    ensures Unregister(table, from)
         == if FindAddress(table, from) == |table| then (table, Outcome.Value(Respond(NETSPACE_ERROR)))
            else (Erased(table, FindAddress(table, from)), Outcome.Value(Respond(OK)))
  {
    AddressTextRoundTrip(from);
  }

  // --------------------------------------------------------------- reference

  /** The node that an event adds to a table, if it does. */
  ghost function Accepted(table: seq<Node>, e: Event): Option<Node> {
    if e.packet.header.kind != GSN_REGISTER_HOST then None else
    match ReadRegistration(e.packet.content)
    case Value(Some(r)) => if Taken(table, Wanted(r, e.from)) then None else Some(Wanted(r, e.from))
    case _ => None
  }

  /** The event unregisters a node. */
  ghost predicate Leaves(table: seq<Node>, e: Event) {
    e.packet.header.kind == GSN_UNREGISTER_HOST && FindAddress(table, e.from) < |table|
  }

  /** The reference registry: a node joins at the end, or the sender's first leaves. */
  ghost function Next(table: seq<Node>, e: Event): seq<Node> {
    var node := Accepted(table, e);
    if node.Some? then table + [node.value]
    else if Leaves(table, e) then Erased(table, FindAddress(table, e.from))
    else table
  }

  ghost function Run(events: seq<Event>): seq<Node> {
    if events == [] then [] else Next(Run(events[..|events| - 1]), events[|events| - 1])
  }

  lemma RegisterRefines(table: seq<Node>, e: Event)
    requires e.packet.header.kind == GSN_REGISTER_HOST
    ensures Register(table, e.packet.content, e.from).0 == Next(table, e)
    ensures Register(table, e.packet.content, e.from).1 == Outcome.Value(Respond(OK)) <==> Accepted(table, e).Some?
  {
    RespondInjective(MALFORMED_CONTENT, OK);
    RespondInjective(NETSPACE_DUPLICATE, OK);
    match ReadRegistration(e.packet.content)
    case Value(Some(r)) => RegisterExactly(table, e.packet.content, e.from, r);
    case _ =>
  }

  lemma UnregisterRefines(table: seq<Node>, e: Event)
    requires e.packet.header.kind == GSN_UNREGISTER_HOST
    ensures Unregister(table, e.from).0 == Next(table, e)
    ensures Unregister(table, e.from).1 == Outcome.Value(Respond(OK)) <==> Leaves(table, e)
  {
    RespondInjective(NETSPACE_ERROR, OK);
    UnregisterExactly(table, e.from);
  }

  /** The handler changes the table as the reference does, and answers ok to exactly
      the registrations and unregistrations that change it. */
  lemma ProcessRefines(env: Env, table: seq<Node>, e: Event)
    ensures Process(env, table, e.packet, e.from).0 == Next(table, e)
    ensures e.packet.header.kind == GSN_REGISTER_HOST || e.packet.header.kind == GSN_UNREGISTER_HOST ==>
              (Process(env, table, e.packet, e.from).1 == Outcome.Value(Respond(OK))
               <==> Accepted(table, e).Some? || Leaves(table, e))
  {
    if e.packet.header.kind == GSN_REGISTER_HOST {
      RegisterRefines(table, e);
    } else if e.packet.header.kind == GSN_UNREGISTER_HOST {
      UnregisterRefines(table, e);
    }
  }

  lemma {:induction false} RunRefines(env: Env, events: seq<Event>)
    ensures TableAfter(env, events) == Run(events)
  {
    if events != [] {
      RunRefines(env, events[..|events| - 1]);
      ProcessRefines(env, Run(events[..|events| - 1]), events[|events| - 1]);
    }
  }

  // -------------------------------------------------------------- uniqueness

  /** Hostnames and suids are pairwise distinct, and each node can be registered. */
  ghost predicate Proper(table: seq<Node>) {
    && (forall i, j | 0 <= i < j < |table| :: table[i].hostname != table[j].hostname && table[i].suid != table[j].suid)
    && (forall n <- table :: Registrable(n))
  }

  lemma ProperAdd(table: seq<Node>, n: Node)
    requires Proper(table) && !Taken(table, n) && Registrable(n)
    ensures Proper(table + [n])
  {
    forall i | 0 <= i < |table| ensures table[i].hostname != n.hostname && table[i].suid != n.suid {
      assert table[i] in table;
    }
  }

  lemma ProperErase(table: seq<Node>, it: nat)
    requires Proper(table) && it < |table|
    ensures Proper(Erased(table, it))
  {
    var t := table[..it] + table[it + 1..];
    forall n | n in t ensures Registrable(n) {
      assert n in table;
    }
  }

  lemma NextProper(table: seq<Node>, e: Event)
    requires Proper(table)
    ensures Proper(Next(table, e))
  {
    var node := Accepted(table, e);
    if node.Some? {
      WantedRegistrable(e.packet.content, e.from, ReadRegistration(e.packet.content).value.value);
      ProperAdd(table, node.value);
    } else if Leaves(table, e) {
      ProperErase(table, FindAddress(table, e.from));
    }
  }

  lemma {:induction false} RunUnique(events: seq<Event>)
    ensures Proper(Run(events))
  {
    if events != [] {
      RunUnique(events[..|events| - 1]);
      NextProper(Run(events[..|events| - 1]), events[|events| - 1]);
    }
  }

  /** In every run hostnames and suids stay distinct, so that the first match for a
      hostname or a suid is the only one. */
  lemma RegistryUnique(env: Env, events: seq<Event>)
    requires Defined(env, events)
    ensures var table := TableAfter(env, events);
            && Proper(table)
            && forall i | 0 <= i < |table| ::
                 FindHost(table, table[i].hostname) == i && FindSuid(table, table[i].suid) == i
  {
    RunRefines(env, events);
    RunUnique(events);
  }

  /** In every run a hostname query is answered as soon as it holds an address: each
      stored hostname fits its frame. */
  lemma HostnameFits(env: Env, events: seq<Event>, content: string)
    requires Defined(env, events)
    ensures Hostname(env, TableAfter(env, events), content).Value? <==> |content| >= 4
    ensures |content| < 4 ==> Hostname(env, TableAfter(env, events), content) == Undefined
  {
    var table := TableAfter(env, events);
    RegistryUnique(env, events);
    if |content| >= 4 {
      var it := FindAddress(table, ReadAddress(content[..4]));
      if it < |table| {
        assert table[it] in table;
        HostnameFrameRoundTrip(table[it].hostname, table[it].protocol, env.junk);
      }
    }
  }

  /** The registration that asks for a node. */
  function Asking(n: Node, junk: Junk): Event
    requires Registrable(n)
  {
    var text := if |n.hostname| + 1 + |n.suid| <= 125 then n.hostname + "|" + n.suid else n.hostname;
    var frame := RegisterFrame(n.kind, text, n.protocol, junk).value;
    Event(Packet(BLANK_HEADER.(kind := GSN_REGISTER_HOST), "").With(frame), n.address)
  }

  lemma AskingAccepted(env: Env, table: seq<Node>, n: Node, junk: Junk)
    requires Registrable(n) && !Taken(table, n)
    ensures var e := Asking(n, junk);
            Process(env, table, e.packet, e.from) == (table + [n], Outcome.Value(Respond(OK)))
  {
    var text := if |n.hostname| + 1 + |n.suid| <= 125 then n.hostname + "|" + n.suid else n.hostname;
    SplitAtBar(n.hostname, n.suid);
    RegisterFrameRoundTrip(n.kind, text, n.protocol, junk);
    RegisterExactly(table, Asking(n, junk).packet.content, n.address, Registration(n.kind, text, n.protocol));
  }

  lemma SplitAtBar(hostname: string, suid: string)
    requires '|' !in hostname
    ensures SplitName(hostname + "|" + suid) == (hostname, suid)
    ensures SplitName(hostname) == (hostname, hostname)
  {
    var text := hostname + "|" + suid;
    assert text == hostname + ['|'] + suid;
    FindFirst(hostname, '|', suid);
    assert text[..|hostname|] == hostname && text[|hostname| + 1..] == suid;
  }

  /** The run in which nodes register one after the other. */
  function AskingAll(nodes: seq<Node>, junk: Junk): seq<Event>
    requires forall n <- nodes :: Registrable(n)
  {
    seq(|nodes|, i requires 0 <= i < |nodes| => assert nodes[i] in nodes; Asking(nodes[i], junk))
  }

  lemma {:induction false} ProperReached(env: Env, table: seq<Node>, junk: Junk)
    requires Proper(table)
    ensures var events := AskingAll(table, junk);
            Defined(env, events) && TableAfter(env, events) == table
  {
    if table != [] {
      var front, n := table[..|table| - 1], table[|table| - 1];
      var events := AskingAll(table, junk);
      assert table == front + [n] && n in table && forall m <- front :: m in table;
      assert events[..|front|] == AskingAll(front, junk);
      ProperReached(env, front, junk);
      AskingAccepted(env, front, n, junk);
    }
  }

  /** The tables that runs lead to are exactly those with distinct hostnames and
      distinct suids in which each node can be registered. */
  lemma TablesReached(env: Env, table: seq<Node>)
    ensures (exists events :: Defined(env, events) && TableAfter(env, events) == table) <==> Proper(table)
  {
    if Proper(table) {
      ProperReached(env, table, env.junk);
    }
    forall events | Defined(env, events) && TableAfter(env, events) == table ensures Proper(table) {
      RegistryUnique(env, events);
    }
  }

  // ------------------------------------------------------------------- queue

  function Select(table: seq<Node>, keep: Node -> bool): seq<Node> {
    if table == [] then []
    else (if keep(table[0]) then [table[0]] else []) + Select(table[1..], keep)
  }

  function At(a: Ipv4): Node -> bool {
    (n: Node) => n.address == a
  }

  function NotAt(a: Ipv4): Node -> bool {
    (n: Node) => n.address != a
  }

  lemma {:induction false} SelectAppend(s: seq<Node>, t: seq<Node>, keep: Node -> bool)
    ensures Select(s + t, keep) == Select(s, keep) + Select(t, keep)
  {
    if s == [] {
      assert s + t == t;
    } else {
      assert (s + t)[1..] == s[1..] + t;
      SelectAppend(s[1..], t, keep);
      var head := if keep(s[0]) then [s[0]] else [];
      assert head + Select(s[1..], keep) + Select(t, keep) == head + (Select(s[1..], keep) + Select(t, keep));
    }
  }

  lemma {:induction false} SelectNone(s: seq<Node>, keep: Node -> bool)
    requires forall n <- s :: !keep(n)
    ensures Select(s, keep) == []
  {
    if s != [] {
      assert s[0] in s;
      SelectNone(s[1..], keep);
    }
  }

  lemma {:induction false} SelectFrom(table: seq<Node>, keep: Node -> bool)
    ensures forall n <- Select(table, keep) :: n in table && keep(n)
  {
    if table != [] {
      SelectFrom(table[1..], keep);
    }
  }

  lemma {:induction false} SelectAll(table: seq<Node>, keep: Node -> bool)
    requires forall n <- table :: keep(n)
    ensures Select(table, keep) == table
  {
    if table != [] {
      assert table[0] in table;
      SelectAll(table[1..], keep);
    }
  }

  lemma {:induction false} SelectProper(table: seq<Node>, keep: Node -> bool)
    requires Proper(table)
    ensures Proper(Select(table, keep))
  {
    if table != [] {
      var n, tail := table[0], Select(table[1..], keep);
      assert n in table && forall m <- table[1..] :: m in table;
      SelectProper(table[1..], keep);
      SelectFrom(table[1..], keep);
      forall j | 0 <= j < |tail| ensures n.hostname != tail[j].hostname && n.suid != tail[j].suid {
        assert tail[j] in table[1..];
      }
    }
  }

  lemma SelectOne(n: Node, keep: Node -> bool)
    ensures Select([n], keep) == if keep(n) then [n] else []
  {
  }

  lemma SelectSplit(front: seq<Node>, n: Node, back: seq<Node>, keep: Node -> bool)
    ensures Select(front + [n] + back, keep)
         == Select(front, keep) + (if keep(n) then [n] else []) + Select(back, keep)
  {
    SelectAppend(front + [n], back, keep);
    SelectAppend(front, [n], keep);
    SelectOne(n, keep);
  }

  lemma DropOther(front: seq<Node>, n: Node, back: seq<Node>, keep: Node -> bool)
    requires !keep(n)
    ensures Select(front + back, keep) == Select(front + [n] + back, keep)
  {
    SelectSplit(front, n, back, keep);
    SelectAppend(front, back, keep);
    assert Select(front, keep) + [] == Select(front, keep);
  }

  lemma DropFirst(front: seq<Node>, n: Node, back: seq<Node>, keep: Node -> bool)
    requires keep(n) && forall m <- front :: !keep(m)
    ensures Select(front + [n] + back, keep) == [n] + Select(front + back, keep)
  {
    SelectSplit(front, n, back, keep);
    SelectAppend(front, back, keep);
    SelectNone(front, keep);
  }

  lemma Cut(table: seq<Node>, it: nat)
    requires it < |table|
    ensures table == table[..it] + [table[it]] + table[it + 1..]
  {
  }

  /** Erasing an entry that is not selected changes nothing in the selection. */
  lemma EraseOther(table: seq<Node>, it: nat, keep: Node -> bool)
    requires it < |table| && !keep(table[it])
    ensures Select(Erased(table, it), keep) == Select(table, keep)
  {
    Cut(table, it);
    DropOther(table[..it], table[it], table[it + 1..], keep);
  }

  /** Erasing the first entry that is selected drops it from the selection. */
  lemma EraseFirst(table: seq<Node>, it: nat, keep: Node -> bool)
    requires it < |table| && keep(table[it]) && forall n <- table[..it] :: !keep(n)
    ensures Select(table, keep) == [table[it]] + Select(Erased(table, it), keep)
  {
    Cut(table, it);
    DropFirst(table[..it], table[it], table[it + 1..], keep);
  }

  /** The accepted registrations from an address, in order. */
  ghost function Enqueued(events: seq<Event>, a: Ipv4): seq<Node> {
    if events == [] then [] else
    var before, e := events[..|events| - 1], events[|events| - 1];
    Enqueued(before, a) + Joining(Run(before), e, a)
  }

  ghost function Joining(table: seq<Node>, e: Event, a: Ipv4): seq<Node> {
    var node := Accepted(table, e);
    if e.from == a && node.Some? then [node.value] else []
  }

  /** The number of successful unregistrations from an address. */
  ghost function Dequeued(events: seq<Event>, a: Ipv4): nat {
    if events == [] then 0 else
    var before, e := events[..|events| - 1], events[|events| - 1];
    Dequeued(before, a) + if e.from == a && Leaves(Run(before), e) then 1 else 0
  }

  /** Unregistering takes the oldest entry of the sender and leaves the entries of
      all others, and their order, as they are. */
  lemma UnregisterOldest(table: seq<Node>, e: Event)
    requires Leaves(table, e)
    ensures var after := Next(table, e);
            && Select(after, NotAt(e.from)) == Select(table, NotAt(e.from))
            && Select(table, At(e.from)) != []
            && Select(after, At(e.from)) == Select(table, At(e.from))[1..]
  {
    var it := FindAddress(table, e.from);
    EraseOther(table, it, NotAt(e.from));
    EraseFirst(table, it, At(e.from));
  }

  /** One event, seen from one address. */
  lemma QueueStep(table: seq<Node>, e: Event, a: Ipv4)
    ensures var before, after := Select(table, At(a)), Select(Next(table, e), At(a));
            if e.from == a && Leaves(table, e) then before != [] && after == before[1..]
            else after == before + Joining(table, e, a)
  {
    var node := Accepted(table, e);
    if node.Some? {
      SelectAppend(table, [node.value], At(a));
      SelectOne(node.value, At(a));
    } else if Leaves(table, e) {
      if e.from == a {
        UnregisterOldest(table, e);
      } else {
        EraseOther(table, FindAddress(table, e.from), At(a));
      }
    }
  }

  /** What a queue holds after entries joined it or the first one left. */
  lemma QueueSlices(joined: seq<Node>, left: nat, more: seq<Node>)
    requires left <= |joined|
    ensures (joined + more)[left..] == joined[left..] + more
    ensures left < |joined| ==> joined[left..][1..] == joined[left + 1..]
  {
  }

  lemma {:induction false} RunIsQueue(events: seq<Event>, a: Ipv4)
    ensures Dequeued(events, a) <= |Enqueued(events, a)|
    ensures Select(Run(events), At(a)) == Enqueued(events, a)[Dequeued(events, a)..]
  {
    if events != [] {
      var before, e := events[..|events| - 1], events[|events| - 1];
      RunIsQueue(before, a);
      QueueStep(Run(before), e, a);
      QueueSlices(Enqueued(before, a), Dequeued(before, a), Joining(Run(before), e, a));
      assert Enqueued(before, a) + [] == Enqueued(before, a);
    }
  }

  /** For each address the table is a queue: in every run from an empty table its
      entries are the accepted registrations from that address, in order, without
      as many of the first as there were successful unregistrations from it. */
  lemma RegistryIsQueue(env: Env, events: seq<Event>, a: Ipv4)
    requires Defined(env, events)
    ensures Dequeued(events, a) <= |Enqueued(events, a)|
    ensures Select(TableAfter(env, events), At(a)) == Enqueued(events, a)[Dequeued(events, a)..]
  {
    RunRefines(env, events);
    RunIsQueue(events, a);
  }

  // ------------------------------------------------------------------ answers

  /** The node has the names that a registered text gives it. */
  ghost predicate Named(n: Node, text: string) {
    && '|' !in n.hostname
    && if '|' in text then text == n.hostname + "|" + n.suid else n.hostname == n.suid == text
  }

  /** The node is the one that a registration frame of the sender asks for: type, length
      of the text and protocol in the first three bytes, then the text. */
  ghost predicate AskedFor(n: Node, frame: string, from: Ipv4)
    requires |frame| >= FRAME_REGISTER_SIZE && 0 <= ReadInt8(frame[1]) <= 125
  {
    && n.kind == ReadInt8(frame[0]) && n.protocol == ReadInt8(frame[2]) && n.address == from
    && Named(n, frame[3..3 + ReadInt8(frame[1])])
  }

  lemma OneAskedFor(n: Node, m: Node, frame: string, from: Ipv4)
    requires |frame| >= FRAME_REGISTER_SIZE && 0 <= ReadInt8(frame[1]) <= 125
    requires AskedFor(n, frame, from) && AskedFor(m, frame, from)
    ensures n == m
  {
    var text := frame[3..3 + ReadInt8(frame[1])];
    if '|' in text {
      assert text == n.hostname + ['|'] + n.suid && text == m.hostname + ['|'] + m.suid;
      FindFirst(n.hostname, '|', n.suid);
      FindFirst(m.hostname, '|', m.suid);
      assert text[..|n.hostname|] == n.hostname && text[|n.hostname| + 1..] == n.suid;
      assert text[..|m.hostname|] == m.hostname && text[|m.hostname| + 1..] == m.suid;
    }
  }

  /** The outcome of a registration for every content, byte by byte: with at least a
      whole frame, a type that is not known is answered as malformed content, a length
      above 127 throws, one of 126 or 127 reads outside the frame, and otherwise one node
      is asked for, which is added and answered ok unless one of its names is taken. */
  lemma RegistrationOutcomes(env: Env, table: seq<Node>, p: Packet, from: Ipv4)
    requires p.header.kind == GSN_REGISTER_HOST
    ensures var (after, answer) := Process(env, table, p, from);
            var frame := p.content;
            if |frame| < FRAME_REGISTER_SIZE then after == table && answer == Undefined
            else if ReadInt8(frame[0]) >= FINAL then
              after == table && answer.Value? && Says(answer.value, MALFORMED_CONTENT)
            else if frame[1] as int % 256 > 127 then after == table && answer == Throws(LengthError)
            else if frame[1] as int % 256 > 125 then after == table && answer == Undefined
            else exists n :: AskedFor(n, frame, from) && answer.Value?
                             && if Taken(table, n) then after == table && Says(answer.value, NETSPACE_DUPLICATE)
                                else after == table + [n] && Says(answer.value, OK)
  {
    RespondSays(MALFORMED_CONTENT);
    ProcessRegister(env, table, p, from);
    match ReadRegistration(p.content)
    case Value(Some(r)) => ReadableOutcome(table, p.content, from, r);
    case _ =>
  }

  lemma ProcessRegister(env: Env, table: seq<Node>, p: Packet, from: Ipv4)
    requires p.header.kind == GSN_REGISTER_HOST
    ensures Process(env, table, p, from) == Register(table, p.content, from)
  {
  }

  lemma ReadableOutcome(table: seq<Node>, frame: string, from: Ipv4, r: Registration)
    requires ReadRegistration(frame) == Outcome.Value(Some(r))
    ensures |frame| >= FRAME_REGISTER_SIZE && ReadInt8(frame[0]) < FINAL && 0 <= ReadInt8(frame[1]) <= 125
    ensures var (after, answer) := Register(table, frame, from);
            exists n :: AskedFor(n, frame, from) && answer.Value?
                        && if Taken(table, n) then after == table && Says(answer.value, NETSPACE_DUPLICATE)
                           else after == table + [n] && Says(answer.value, OK)
  {
    RespondSays(NETSPACE_DUPLICATE);
    RespondSays(OK);
    NameSplits(r.text);
    RegisterExactly(table, frame, from, r);
    assert AskedFor(Wanted(r, from), frame, from);
  }

  /** An unregistration is answered ok when the sender has an entry, and else with an
      error; a packet of any type that is not handled is answered as malformed content
      and changes nothing. */
  lemma OtherAnswers(env: Env, table: seq<Node>, p: Packet, from: Ipv4)
    ensures var (after, answer) := Process(env, table, p, from);
            && (p.header.kind == GSN_UNREGISTER_HOST ==>
                  && answer.Value?
                  && if exists n <- table :: n.address == from then Says(answer.value, OK)
                     else after == table && Says(answer.value, NETSPACE_ERROR))
            && (p.header.kind !in {GSN_REGISTER_HOST, GSN_UNREGISTER_HOST, GSN_RESOLUTION, GSN_LOCAL_AREA,
                                   GTN_ROOT_NODES, GSN_HOSTNAME, GSN_REQUEST} ==>
                  after == table && answer.Value? && Says(answer.value, MALFORMED_CONTENT))
  {
    RespondSays(OK);
    RespondSays(NETSPACE_ERROR);
    RespondSays(MALFORMED_CONTENT);
    UnregisterExactly(table, from);
    var it := FindAddress(table, from);
    if it < |table| {
      assert table[it] in table;
    }
  }

  lemma {:induction false} SelectFirst(table: seq<Node>, a: Ipv4)
    ensures Select(table, At(a)) == [] <==> FindAddress(table, a) == |table|
    ensures Select(table, At(a)) != [] ==> Select(table, At(a))[0] == table[FindAddress(table, a)]
  {
    var it := FindAddress(table, a);
    if it == |table| {
      SelectNone(table, At(a));
    } else {
      EraseFirst(table, it, At(a));
    }
  }

  /** In every run a hostname query for an address is answered, to anyone, with the name
      and the protocol of the oldest entry at that address, and with an error when there
      is none; the answer is received whole. */
  lemma HostnameAnswers(env: Env, events: seq<Event>, p: Packet, asker: Ipv4)
    requires Defined(env, events) && p.header.kind == GSN_HOSTNAME && |p.content| >= 4
    ensures var table := TableAfter(env, events);
            var there := Select(table, At(ReadAddress(p.content[..4])));
            var (after, answer) := Process(env, table, p, asker);
            && after == table && answer.Value?
            && if there == [] then Says(answer.value, NETSPACE_ERROR)
               else Tells(answer.value)
                    && ReadHostnameFrame(answer.value.content) == Some((OK, there[0].protocol, there[0].hostname))
  {
    var table := TableAfter(env, events);
    var a := ReadAddress(p.content[..4]);
    var it := FindAddress(table, a);
    RegistryUnique(env, events);
    SelectFirst(table, a);
    ProcessHostname(env, table, p, asker);
    RespondSays(NETSPACE_ERROR);
    if it < |table| {
      assert table[it] in table;
      HostnameFrameRoundTrip(table[it].hostname, table[it].protocol, env.junk);
      var frame := HostnameFrame(table[it].hostname, table[it].protocol, env.junk).value;
      ContentRoundTrip(Packet(BLANK_HEADER.(kind := GSN_RESPONSE), ""), frame);
    }
  }

  // -------------------------------------------------------------- end to end

  lemma RegisterFrameRoundTrip(kind: Int8, text: string, protocol: Int8, junk: Junk)
    requires |text| <= 125
    ensures var frame := RegisterFrame(kind, text, protocol, junk).value;
            && |frame| == FRAME_REGISTER_SIZE
            && ReadRegistration(frame)
            == Outcome.Value(if kind < FINAL then Some(Registration(kind, text, protocol)) else None)
  {
    var frame := RegisterFrame(kind, text, protocol, junk).value;
    OneByte(kind);
    OneByte(|text|);
    OneByte(protocol);
    assert frame[3..3 + |text|] == text;
  }

  lemma Received(header: Header, data: string, rest: string)
    requires 0 < |data| < 0x1_0000_0000
    ensures var sent := Packet(header, "").With(data);
            sent.Serial().Value? && ReadPacket(sent.Serial().value + rest) == Some(sent)
  {
    PacketRoundTrip(Packet(header, "").With(data), rest);
  }

  /** A packet as a client makes it and as the node reads it, with `rest` behind it. */
  function Transmitted(header: Header, data: string, rest: string): Option<Packet> {
    match Packet(header, "").With(data).Serial()
    case Value(bytes) => ReadPacket(bytes + rest)
    case _ => None
  }

  /** A registration made by a client, put in a packet, sent, read and processed: it
      is accepted exactly when its type is known and its names are free. */
  lemma RegistrationAccepted(
      env: Env, table: seq<Node>, r: Registration, junk: Junk, header: Header, from: Ipv4, rest: string)
    requires |r.text| <= 125 && header.kind == GSN_REGISTER_HOST
    ensures var sent := Transmitted(header, RegisterFrame(r.kind, r.text, r.protocol, junk).value, rest);
            && sent.Some?
            && Process(env, table, sent.value, from)
            == if r.kind >= FINAL then (table, Outcome.Value(Respond(MALFORMED_CONTENT)))
               else if Taken(table, Wanted(r, from)) then (table, Outcome.Value(Respond(NETSPACE_DUPLICATE)))
               else (table + [Wanted(r, from)], Outcome.Value(Respond(OK)))
  {
    var frame := RegisterFrame(r.kind, r.text, r.protocol, junk).value;
    RegisterFrameRoundTrip(r.kind, r.text, r.protocol, junk);
    Received(header, frame, rest);
    if r.kind < FINAL {
      RegisterExactly(table, frame, from, r);
    }
  }

  /** A hostname query for the address of a node that is the only one there is
      answered with a frame that reads as the node's name. */
  lemma HostnameAnswered(env: Env, table: seq<Node>, n: Node, header: Header, asker: Ipv4, rest: string)
    requires FindAddress(table, n.address) == |table| && |n.hostname| <= 125 && header.kind == GSN_HOSTNAME
    ensures var asked := Transmitted(header, AddressBytes(n.address), rest);
            && asked.Some?
            && var (after, answer) := Process(env, table + [n], asked.value, asker);
               && after == table + [n]
               && answer.Value?
               && ReadHostnameFrame(answer.value.content) == Some((OK, n.protocol, n.hostname))
  {
    Received(header, AddressBytes(n.address), rest);
    HostnameOfNew(env, table, n);
    ProcessHostname(env, table + [n], Packet(header, "").With(AddressBytes(n.address)), asker);
  }

  lemma ProcessHostname(env: Env, table: seq<Node>, p: Packet, asker: Ipv4)
    requires p.header.kind == GSN_HOSTNAME
    ensures Process(env, table, p, asker) == (table, Hostname(env, table, p.content))
  {
  }

  /** From the registration of a text of at most 125 bytes by a client that has no
      entry yet to the answer to a hostname query by anyone: the answer reads as
      the text before the first bar. */
  lemma RegistrationEndToEnd(
      env: Env, table: seq<Node>, r: Registration, junk: Junk, from: Ipv4, asker: Ipv4,
      header: Header, query: Header, rest: string)
    requires |r.text| <= 125 && header.kind == GSN_REGISTER_HOST && query.kind == GSN_HOSTNAME
    requires FindAddress(table, from) == |table|
    ensures var sent := Transmitted(header, RegisterFrame(r.kind, r.text, r.protocol, junk).value, rest);
            var asked := Transmitted(query, AddressBytes(from), rest);
            && sent.Some? && asked.Some?
            && var (after, reply) := Process(env, table, sent.value, from);
               reply == Outcome.Value(Respond(OK)) ==>
                 var answer := Process(env, after, asked.value, asker).1;
                 && answer.Value?
                 && ReadHostnameFrame(answer.value.content)
                 == Some((OK, r.protocol, r.text[..Find(r.text, '|')]))
  {
    RegistrationAccepted(env, table, r, junk, header, from, rest);
    HostnameAnswered(env, table, Wanted(r, from), query, asker, rest);
    RespondInjective(MALFORMED_CONTENT, OK);
    RespondInjective(NETSPACE_DUPLICATE, OK);
    assert r.text[..|r.text|] == r.text;
  }

  lemma HostnameOfNew(env: Env, table: seq<Node>, n: Node)
    requires FindAddress(table, n.address) == |table| && |n.hostname| <= 125
    ensures var answer := Hostname(env, table + [n], AddressBytes(n.address));
            answer.Value? && ReadHostnameFrame(answer.value.content) == Some((OK, n.protocol, n.hostname))
  {
    AddressBytesRoundTrip(n.address);
    assert AddressBytes(n.address)[..4] == AddressBytes(n.address);
    assert (table + [n])[|table|] == n;
    assert FindAddress(table + [n], n.address) == |table|;
    HostnameFrameRoundTrip(n.hostname, n.protocol, env.junk);
  }
}
