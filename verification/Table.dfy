/** The table of the nodes that are registered with a root node. */
module Tables {
  import opened Wire
  import opened Texts

  // node types; FINAL is the end of the enumeration
  const ROOT: Int8 := 1
  const ORG: Int8 := 2
  const FINAL: Int8 := 5

  // service protocols
  const HTTP: Int8 := 1

  datatype Node = Node(kind: Int8, hostname: string, address: Ipv4, protocol: Int8, suid: string)

  /** `std::find_if`: the first match, or the length. */
  function FindIf(table: seq<Node>, matches: Node -> bool): (i: nat)
    ensures i <= |table|
    ensures i < |table| ==> matches(table[i])
    ensures forall j | 0 <= j < i :: !matches(table[j])
  {
    if table == [] || matches(table[0]) then 0 else 1 + FindIf(table[1..], matches)
  }

  function FindHost(table: seq<Node>, host: string): (i: nat)
    ensures i <= |table|
    ensures i < |table| ==> table[i].hostname == host
    ensures forall j | 0 <= j < i :: table[j].hostname != host
  {
    FindIf(table, (n: Node) => n.hostname == host)
  }

  function FindSuid(table: seq<Node>, suid: string): (i: nat)
    ensures i <= |table|
    ensures i < |table| ==> table[i].suid == suid
    ensures forall j | 0 <= j < i :: table[j].suid != suid
  {
    FindIf(table, (n: Node) => n.suid == suid)
  }

  function FindAddress(table: seq<Node>, address: Ipv4): (i: nat)
    ensures i <= |table|
    ensures i < |table| ==> table[i].address == address
    ensures forall j | 0 <= j < i :: table[j].address != address
  {
    FindIf(table, (n: Node) => n.address == address)
  }

  function Erased(table: seq<Node>, it: nat): seq<Node>
    requires it <= |table|
  {
    if it == |table| then table else table[..it] + table[it + 1..]
  }

  class NetspaceTable {
    var table: seq<Node>

    constructor ()
      ensures table == []
    {
      table := [];
    }

    method AddNode(node: Node)
      modifies this
      ensures table == old(table) + [node]
    {
      table := table + [node];
    }

    /** An iterator is a position; the end iterator erases nothing. */
    method EraseNode(it: nat)
      requires it <= |table|
      modifies this
      ensures table == Erased(old(table), it)
    {
      if it == |table| { return; }
      table := table[..it] + table[it + 1..];
    }

    method Clear()
      modifies this
      ensures table == []
    {
      table := [];
    }
  }
}
