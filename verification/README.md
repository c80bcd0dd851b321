# A model of the SpringDVS GSN node

Two parts of the node are modelled and proved correct.

**The activity log.** A log is a list of records, each hashed together with the hash
of the one before. Its header counts the records and holds a hash over all of them.
A log is changed through transactions, shipped in segments and written as bytes.
`Activity.dfy` and `ActivityLog.dfy` hold the values, the encodings and the classes
`Activity`, `ActivityLog`, `LogTransaction` and `LogSegment`; `TamperEvidence.dfy`,
`Replication.dfy` and `Transactions.dfy` prove what hashes, catch-ups and handles
guarantee.

**The root node.** A packet from an address changes the table of registered nodes and
gets an answer. Resolution passes a `spring://` URL from node to node. `Url.dfy` has
the URL parser and printer, `Packets.dfy`, `Http.dfy` and `Table.dfy` the packets,
frames, requests and the table, `RootNode.dfy` the protocol handler. `Resolution.dfy`,
`Registry.dfy`, `Listings.dfy` and `Queries.dfy` prove what whole resolutions, whole
runs, listings and the answers to queries amount to. `Wire.dfy` and `Text.dfy` are
about integers as bytes, searching, splitting, decimal numbers and addresses.

How to read the model:

- The value of each object is a datatype, and what an operation does to it is a
  function. The methods of the classes follow the source step by step; each ensures
  that the new state or the result is what the function gives. The theorems are about
  the functions, over all inputs and all runs.
- SHA-512 (FIPS 180-4) is a parameter, any function from strings to 64 bytes. A
  theorem that needs it to be collision free says instead that a collision between
  two named strings is at hand.
- The metaspace database, the exchange with another node by HTTP and bytes that are
  sent without having been written are parameters too (`RootNode.Env`).
- `Outcome` has a case for C++ exceptions and a case for undefined behaviour, such as
  a read outside a buffer or freeing one twice, so that the theorems can say exactly
  when they occur. Runs are about packets that do not lead to undefined behaviour
  (`Registry.Defined`).
- A `char` stands for a byte, `char` is signed, integers are little-endian and padding
  bytes are zero. The record count is a 32-bit `int` that wraps, the packet size a
  32-bit unsigned number that truncates, and `msg_size` has 64 bits.
- Addresses are IPv4. `begin_transaction` is a step only while the mutex is free.

Results about the code that a reader may not expect:

- A registration without a bar makes the whole text both hostname and suid, because
  `find` gives the largest `size_t` and adding one to it gives zero
  (`Registry.NameSplits`).
- Registering a second name from the same address is accepted; the tests expect an
  error (testing/nodes/root/mod_root_protocol.cpp:52-59), and the listing is text, not
  the binary frame of testing/nodes/root/mod_root_protocol.cpp:221-250. The model
  follows the code.
- The tables that runs lead to are exactly those with distinct hostnames and distinct
  suids in which each node fits a registration (`Registry.TablesReached`). So it can be
  said exactly when the answer to a listing request is ambiguous, that is, when another
  run leads to the same answer for nodes with other names or addresses. When no listed
  suid holds a semicolon: if and only if two entries next to each other fit the text
  of one registration (`Listings.PlainAmbiguousExactly`). For one listed node with any
  suid: if and only if the suid divides into the end of an entry and the beginning of
  another with different names (`Listings.SingleAmbiguousExactly`).
- Tables with plain suids are always told apart from each other
  (`Listings.RunsToldApart`); hostnames may hold semicolons. A blended suid, which
  registration accepts, gives the listing of two nodes (`Listings.SplitAmbiguous`,
  `Listings.AmbiguousSample`).
- A dot behind the route makes the text before it one more label: "spring://a/b.c" has
  the route a, b and the resource c (`Urls.DotSample`, `Urls.DecodeByPosition`).
- A hostname query is answered for the oldest entry at an address, which may have
  several (`Registry.HostnameAnswers`).
- A request for one node by its suid goes out with the destination of the request that
  came in, because the packet is framed before its destination is set
  (`Queries.OneAskedPacket`, `Queries.MisaddressedSample`); when all nodes are asked the
  destination is set first.
- A request whose URL has no query leads to undefined behaviour as soon as there is a
  node to ask: setting the empty content frees the packet's buffer and keeps the
  pointer, which the destructor frees again. When the nodes' responses are whole, the
  only other case is a request with less content than its size field says
  (`Queries.RequestUndefined`).
- A hostname that holds an empty line or ends in a line end moves the beginning of the
  body of its requests (`Http.RequestReadable`).
- A serialised log is read back if and only if it has fewer than 2^31 records
  (`Replication.StateRoundTrip`).
- Moving from a handle that was moved from makes a second valid handle; every other
  step keeps the handles safe (`Transactions.SafeStep`, `Transactions.MovedTwice`).
- A catch-up gives the leader's log if and only if the back hash does not occur
  earlier in it (`Replication.CatchUpExact`, `Replication.CatchUpSample`).
- A first request for a route of one label, such as "spring://a", reads the back of an
  empty route (`Resolution.BrokenExactly`, `Resolution.BrokenSample`).
- Logs of different lengths may end in the same hash without a collision, since a
  first record is hashed without a hash before it (`TamperEvidence.LengthsMatter`);
  `TamperEvidence.ChainAlignment` says what holds for all lengths.

## Model

| member | source | states |
|---|---|---|
| Activities.RecordRoundTrip | shared/activity/activity.cpp:50-77 | decoding an encoded record, whatever follows it, gives the record exactly when its header tells the content length |
| Activities.RecordLayout | shared/activity/activity.cpp:50-71 | each field of a record lies at its place in the packed header, with four bytes of padding, and the partial encoding is all behind the hash |
| Wire.BytesAt | shared/activity/activity.cpp:50-58 | a number in memory is its digits to the base 256, least significant first |
| Activities.LinksExactly | shared/activity/log_transaction.cpp:144-149 | head verification accepts a record exactly when its hash is the digest of the last hash, its fields with the true content length, and its content |
| Activities.EncodeInjective | shared/activity/activity.cpp:50-58 | two records with the same encoding are equal |
| Activities.EncodePartialInjective | shared/activity/activity.cpp:60-71 | two records with the same partial encoding differ at most in their hash |
| Activities.Activity.Bare | shared/activity/activity.cpp:7-11 | a record without content keeps the given size and is hashed without a hash before it |
| Activities.Activity.First | shared/activity/activity.cpp:13-18 | a first record gets its content length and the hash of everything but its hash |
| Activities.Activity.Linked | shared/activity/activity.cpp:20-32 | a linked record gets its content length and the hash of itself with the salt as its hash |
| Activities.Activity.Serialise | shared/activity/activity.cpp:50-58 | the buffer holds exactly the encoding of the record |
| Activities.Activity.SerialisePartial | shared/activity/activity.cpp:60-71 | the buffer holds exactly the encoding without the hash |
| Activities.Activity.Deserialise | shared/activity/activity.cpp:73-77 | the object becomes the record that the bytes at the pointer stand for |
| Activities.Activity.PartialHash | shared/activity/activity.cpp:79-83 | only the hash changes, to the digest of the partial encoding |
| Activities.Activity.Rehash | shared/activity/activity.cpp:85-89 | only the hash changes, to the digest of the record with the salt in its place |
| ActivityLogs.LogSegment.constructor | shared/activity/log_segment.cpp:4-8 | a segment holds the records, the given hash and their count |
| ActivityLogs.LogSegment.Serialise | shared/activity/log_segment.cpp:22-40 | the buffer holds exactly the header and the records |
| ActivityLogs.LogSegment.LogSize | shared/activity/log_segment.cpp:42-48 | the size is the number of bytes that serialising writes |
| ActivityLogs.LogSegment.Deserialise | shared/activity/log_segment.cpp:76-86 | header and as many records as it announces are read, and the pointer ends at the first byte not read |
| ActivityLogs.ActivityLog.constructor | shared/activity/activity_log.cpp:3-8 | a fresh log is empty, with a zero hash, free and not transacting |
| ActivityLogs.ActivityLog.BeginTransaction | shared/activity/activity_log.cpp:10-14 | the mutex is held, the flag set, a valid handle made and the log unchanged |
| ActivityLogs.ActivityLog.EndTransaction | shared/activity/activity_log.cpp:16-19 | the mutex is free, the flag clear and the log unchanged |
| ActivityLogs.LogTransaction.Move | shared/activity/log_transaction.cpp:10-15 | the new handle is valid for the same log and the old one is not, whatever it was |
| ActivityLogs.LogTransaction.Destroy | shared/activity/log_transaction.cpp:17-21 | only a valid handle ends the transaction; the log stays as it is |
| ActivityLogs.LogTransaction.ReadRecord | shared/activity/log_transaction.cpp:34-42 | the first record with the hash, an error without one, and the guard's error for an invalid handle |
| ActivityLogs.LogTransaction.WriteRecord | shared/activity/log_transaction.cpp:44-49 | one more record, counted and hashed into the header; nothing changes through an invalid handle |
| ActivityLogs.LogTransaction.WriteSegment | shared/activity/log_transaction.cpp:51-59 | all records of the segment, counted and hashed into the header; nothing changes through an invalid handle |
| ActivityLogs.LogTransaction.GenerateRecord | shared/activity/log_transaction.cpp:101-106 | a record without content, linked to the last hash or, in an empty log, to none |
| ActivityLogs.LogTransaction.GenerateRecordWith | shared/activity/log_transaction.cpp:108-112 | a record with content, linked to the last hash or, in an empty log, to none |
| ActivityLogs.LogTransaction.LogSize | shared/activity/log_transaction.cpp:119-126 | the size is the number of bytes that serialising writes |
| ActivityLogs.LogTransaction.LogVerification | shared/activity/log_transaction.cpp:137-142 | true exactly when the header hash is the hash of the log |
| ActivityLogs.LogTransaction.HeadVerification | shared/activity/log_transaction.cpp:144-149 | true exactly when the record links to the last hash of the log |
| ActivityLogs.LogTransaction.Serialise | shared/activity/log_transaction.cpp:151-170 | the buffer holds exactly the header and the records |
| ActivityLogs.LogTransaction.SerialisePartial | shared/activity/log_transaction.cpp:172-184 | the buffer holds exactly the records |
| ActivityLogs.LogTransaction.LogHash | shared/activity/log_transaction.cpp:186-192 | the digest of the concatenated records |
| ActivityLogs.LogTransaction.SegmentFrom | shared/activity/log_transaction.cpp:194-207 | the records after the first one with the hash, with the header hash of the log, or an error |
| ActivityLogs.StateLayout | shared/activity/log_segment.cpp:22-40 | count, hash and each record lie one behind the other in a serialised log |
| TamperEvidence.LogBytesInjective | shared/activity/log_transaction.cpp:172-184 | logs of well-formed records with the same concatenation are equal, without counts or separators |
| TamperEvidence.LogHashDetermines | shared/activity/log_transaction.cpp:186-192 | logs with the same log hash are equal, or their encodings collide |
| TamperEvidence.AcceptingByHash | shared/activity/log_transaction.cpp:51-59 | after writing any segment the header hash equals the leader's exactly when the whole logs are equal, or their encodings collide |
| TamperEvidence.ChainAlignment | shared/activity/activity.cpp:79-89 | two chained logs with a hash in common agree on all records before it down to the first of one, or two of their preimages collide |
| TamperEvidence.ChainDetermines | shared/activity/activity.cpp:79-89 | two chained logs of equal length that end in the same hash are equal, or two of their preimages collide |
| TamperEvidence.RepeatedHash | shared/activity/activity.cpp:79-89 | a hash that occurs twice in a chained log means a collision or that the first preimage is hashed again later |
| TamperEvidence.LengthsMatter | shared/activity/activity.cpp:79-89 | chained logs of lengths one and two that end in the same hash without any collision, for one digest |
| TamperEvidence.GeneratedHolds | shared/activity/log_transaction.cpp:101-112 | a generated record has the given content, timestamp, type and signature, the length of the content or, without content in an empty log, the given size, and the digest of all this behind the last hash |
| TamperEvidence.ChainStepAdds | shared/activity/log_transaction.cpp:44-112 | an append adds one record with what it was given, a catch-up what follows the local back hash in the other log |
| TamperEvidence.GeneratedWellFormed | shared/activity/log_transaction.cpp:101-112 | exactly when a generated record's header tells its content length |
| TamperEvidence.GeneratedVerifies | shared/activity/log_transaction.cpp:101-149 | head verification holds for every record generated for the same non-empty log |
| TamperEvidence.ChainKept | shared/activity/log_transaction.cpp:101-149 | every run of generated records and catch-ups from chained logs keeps every record verifying against the one before |
| TamperEvidence.WellFormedKept | shared/activity/log_transaction.cpp:51-112 | runs of generated records and catch-ups keep all records well formed, given a zero size in headers without content |
| Replication.StateRoundTrip | shared/activity/log_segment.cpp:22-86 | a serialised segment or log is read back whole, with exactly the bytes behind it left, if and only if it has fewer than 2^31 records |
| Replication.SegmentExactly | shared/activity/log_transaction.cpp:194-207 | a segment is exactly all records behind the first one with the hash, and there is one exactly when the log holds the hash |
| Replication.CatchUpAny | shared/activity/log_transaction.cpp:51-59 | for any two logs a catch-up appends, counts and hashes what follows the back hash in the leader's log, or changes nothing |
| Replication.LeaderHolds | shared/activity/log_transaction.cpp:44-59 | in every run the leader's log is the one it had and all the records it wrote, in order |
| Replication.CatchUpExact | shared/activity/log_transaction.cpp:194-207 | a prefix that catches up has the leader's log exactly when its back hash does not occur earlier there |
| Replication.CatchUpSample | shared/activity/log_transaction.cpp:194-207 | a follower equal to its leader, with a hash that repeats, is longer than it after a catch-up |
| Replication.ReplicationKept | shared/activity/log_transaction.cpp:44-59 | over every interleaving of leader writes and catch-ups with distinct hashes the follower is a prefix, and equal in log, count and hash right after a catch-up |
| Replication.ReplicationOrCollision | shared/activity/log_transaction.cpp:44-59 | for a chained, well-formed leader the same holds without distinct hashes, unless two preimages in its log collide or the first one was hashed again |
| Replication.CatchUpOverWire | testing/shared/mod_activity_log.cpp:195-200 | a segment taken, serialised, read back and written by the objects has the effect of one catch-up step |
| Transactions.SafeStep | shared/activity/log_transaction.cpp:3-21 | a step keeps mutex, flag, valid handle and number of ends in agreement exactly when it does not move a handle already moved from |
| Transactions.MovedTwice | shared/activity/log_transaction.cpp:10-15 | begin and two moves of the same handle leave two valid handles |
| Transactions.OnlyValidHandlesWrite | shared/include/activity/log_transaction.hpp:120-122 | the log changes only through a valid handle, and then only grows |
| Transactions.RunsAreSafe | shared/activity/log_transaction.cpp:3-59 | in every run the handles are safe, begins and ends match, the count is the length and the header hash the log hash from the first write on |
| Transactions.LogIsRecorded | shared/activity/log_transaction.cpp:44-59 | in every legal run the log is exactly the records written through the handle that was the last one made and not yet destroyed, in order, and that handle is the valid one |
| Transactions.VerifiesOnceWritten | shared/activity/log_transaction.cpp:137-142 | log verification holds in exactly the states after some write, or always if the digest of nothing is zero |
| Transactions.Client.Do | shared/activity/log_transaction.cpp:3-59 | the log and handle objects go through a step as the world of the theorems does |
| Transactions.Perform | shared/activity/log_transaction.cpp:3-59 | the objects go through every legal run as the worlds do |
| Transactions.ObjectsAreSafe | shared/activity/activity_log.cpp:10-19 | in every state the objects reach, the flag is the mutex, there is a valid handle exactly while it is held and never two, ends match begins, the log is what was written through the valid handles and the header is true of it |
| Urls.PrintThenDecode | shared/infrastructure/netspace_url.cpp:20-121 | a URL with a route and without separators in its parts survives printing and parsing, and the blank one is refused |
| Urls.RoundTripExactly | shared/infrastructure/netspace_url.cpp:20-121 | exactly the URLs with a route, without separators and not blank survive printing and parsing |
| Urls.DecodeByPosition | shared/infrastructure/netspace_url.cpp:20-81 | for every accepted text: labels are, in order, the pieces before a dot or colon anywhere and before a slash, question mark or NUL with no mark before; the other parts are the last pieces of their kind that a separator stores |
| Urls.DotSample | shared/infrastructure/netspace_url.cpp:40-43 | a dot behind a slash makes the text before it a label |
| Urls.DecodeNormal | shared/infrastructure/netspace_url.cpp:20-81 | exactly the strings longer than the scheme they start with are accepted; the parts hold no separator, the route is not empty and printing takes no more characters |
| Urls.DecodeThenPrint | shared/infrastructure/netspace_url.cpp:20-121 | printing what was parsed and parsing again changes nothing, unless it is the blank URL |
| Urls.NetspaceUrl.DecodeUrl | shared/infrastructure/netspace_url.cpp:20-81 | the loop over the characters gives the parts that the scanner gives, or refuses |
| Urls.NetspaceUrl.ToString | shared/infrastructure/netspace_url.cpp:103-121 | the loop over the labels gives the printed URL and stores it |
| Texts.AddressTextRoundTrip | shared/include/infrastructure/net_common.hpp:29-38 | the dotted form of an address is read back as the address |
| Texts.PiecesExactly | nodes/root/protocol_handler.cpp:273-278 | joined payloads are read back by splitting at double colons exactly when no payload holds one, and none but the last ends in a colon |
| Packets.PacketRoundTrip | shared/protocol/dvsp_packet.cpp:60-80 | a packet that is sent and read, whatever follows it, is the same exactly when its size field counts its whole content |
| Packets.HeaderLayout | shared/include/protocol/dvsp_packet.hpp:5-19 | type, part, size, origin and destination lie at their places in the packed header |
| Packets.FrameLayouts | shared/include/protocol/protocol_common.hpp:86-117 | the fields of registration, address and hostname frames lie at their places |
| Packets.ContentRoundTrip | shared/protocol/dvsp_packet.cpp:27-50 | content that was set is read back whole exactly when it is not empty and shorter than 2^32 bytes; the rest of the header is untouched |
| Packets.HostnameFrameRoundTrip | shared/include/protocol/protocol_common.hpp:110-117 | every name of up to 125 bytes fits a hostname frame and is read back from it with code and protocol |
| Packets.AddressFrameRoundTrip | shared/include/protocol/protocol_common.hpp:102-108 | address, protocol and code are read back from an address frame |
| Packets.DvspPacket.FromBytes | shared/protocol/dvsp_packet.cpp:71-80 | the object becomes the packet that the bytes stand for |
| Packets.DvspPacket.Copy | shared/protocol/dvsp_packet.cpp:11-16 | the copy has the header, the counted content and a buffer of its own, also for no content |
| Packets.DvspPacket.Reset | shared/include/protocol/dvsp_packet.hpp:81-90 | the size field is set; a size of zero frees a buffer that was there and keeps the pointer, any other size gives a new buffer |
| Packets.DvspPacket.StrContent | shared/protocol/dvsp_packet.cpp:27-31 | the content is the data and the size field its length in 32 bits; without data a buffer that was there is freed and the pointer kept |
| Packets.DvspPacket.ToString | shared/protocol/dvsp_packet.cpp:41-50 | the content from the offset to the size field, an exception for an empty packet or an offset beyond the size field, undefined outside the buffer |
| Packets.DvspPacket.Serialise | shared/protocol/dvsp_packet.cpp:60-69 | the buffer holds exactly the header and the counted content, or an exception when there is none |
| Http.RequestReadable | shared/protocol/http_frame.cpp:25-57 | splitting a request at its first empty line (section 3 of RFC 7230) gives the header lines and the packet's bytes exactly when the hostname holds no empty line and does not end in a line end; the lines announce the packet's length |
| Http.LinesReadable | shared/protocol/http_frame.cpp:46-57 | split at its line ends the header gives the hook, the given host, the agent, the type and the length, exactly when the hostname holds no line end |
| Http.HttpFrame.GenerateHeader | shared/protocol/http_frame.cpp:46-57 | the header is the five lines and an empty one |
| Http.HttpFrame.Serialise | shared/protocol/http_frame.cpp:25-35 | the buffer holds exactly the header and the packet |
| Tables.NetspaceTable.AddNode | shared/infrastructure/netspace_table.cpp:13-15 | the node is the new last entry |
| Tables.NetspaceTable.EraseNode | shared/infrastructure/netspace_table.cpp:17-20 | the entry is gone, the order of the others kept, and the end iterator erases nothing |
| Tables.FindHost | shared/infrastructure/netspace_table.cpp:32-36 | the position of the first entry with the hostname, or the end |
| Tables.FindSuid | shared/infrastructure/netspace_table.cpp:77-81 | the position of the first entry with the suid, or the end |
| Tables.FindAddress | shared/infrastructure/netspace_table.cpp:22-30 | the position of the first entry with the address, or the end |
| RootNode.ProtocolHandler.ProcessPacket | nodes/root/protocol_handler.cpp:19-39 | the table and the answer after a packet are those of the specification, for every packet and table |
| RootNode.ProtocolHandler.RegisterHost | nodes/root/protocol_handler.cpp:41-72 | checks, duplicates, new node and answer code of a registration |
| RootNode.ProtocolHandler.UnregisterHost | nodes/root/protocol_handler.cpp:74-86 | the first entry of the sender is erased, or an error answered |
| RootNode.ProtocolHandler.ResolveGsn | nodes/root/protocol_handler.cpp:88-145 | the last label is dropped and the answer, the error or the onward request returned |
| RootNode.ProtocolHandler.SelectNodes | nodes/root/protocol_handler.cpp:176-183 | the loop gives the nodes of the type in table order |
| RootNode.ProtocolHandler.NetworkText | shared/include/protocol/protocol_common.hpp:119-132 | the loop gives the listing of the nodes |
| RootNode.ProtocolHandler.HostnameOf | nodes/root/protocol_handler.cpp:185-196 | the frame with the name of the first entry at the address, or an error |
| RootNode.ProtocolHandler.Exchange | nodes/root/protocol_handler.cpp:267-282 | the payload of an ok response to a framed packet sent to a node, nothing for other answers |
| RootNode.ProtocolHandler.AskAll | nodes/root/protocol_handler.cpp:253-287 | the loop with its flag gives the payloads of the answering http nodes, each sent the query addressed to it, joined by double colons; undefined behaviour without a query |
| RootNode.ProtocolHandler.AskOne | nodes/root/protocol_handler.cpp:227-251 | the payload of the node with the suid, sent the query with the destination it came with; empty text without such a node, undefined behaviour without a query |
| RootNode.ProtocolHandler.QueryPacket | nodes/root/protocol_handler.cpp:209-225 | one node or all are asked, depending on the first label, and the answer packed, for every request |
| Resolution.OnwardUrl | nodes/root/protocol_handler.cpp:138-143 | the next node reads from the onward request exactly the URL without its last label |
| Resolution.MultiHop | nodes/root/protocol_handler.cpp:88-145 | a URL with n >= 2 labels takes at most n - 1 handler calls, each with one label less and all else unchanged, and ends with the address or error of a right-to-left lookup through the tables |
| Resolution.BrokenExactly | nodes/root/protocol_handler.cpp:92-115 | the back of an empty route is read exactly for a first request with one label and no geosub query, never at a later hop |
| Resolution.FailsExactly | nodes/root/protocol_handler.cpp:88-115 | which exception ends a resolution: no content, a text that does not go on behind the scheme, or a failing metaspace search, and no other case |
| Resolution.HeaderKept | nodes/root/protocol_handler.cpp:101-143 | an address answer has the request's header but for type and size; a request passed on keeps origin and part and goes to a node of the table; an error has a blank header |
| Resolution.AskerKept | nodes/root/protocol_handler.cpp:88-145 | over any number of hops every request and the address answer have the origin and part of the first request |
| Resolution.BrokenSample | nodes/root/protocol_handler.cpp:92-115 | the request for "spring://a" reads the back of an empty route at the first node |
| Resolution.GeosubQuery | nodes/root/protocol_handler.cpp:96-108 | a single label with a geosub query is answered at the first node with the host that the metaspace names |
| Registry.NameSplits | nodes/root/protocol_handler.cpp:54-58 | a registered text falls apart at its first bar; without a bar it is both names |
| Registry.RegisterExactly | nodes/root/protocol_handler.cpp:54-71 | a readable registration is accepted exactly when both names are free, and then its node is added at the end |
| Registry.RegistrationOutcomes | nodes/root/protocol_handler.cpp:41-72 | for every content, byte by byte, which registrations are malformed, throw, read outside the frame, are duplicates or add exactly the node asked for, and the code that is answered |
| Registry.OtherAnswers | nodes/root/protocol_handler.cpp:36-86 | the codes that unregistrations and packets of unknown type are answered with; the latter change nothing |
| Registry.ProcessRefines | nodes/root/protocol_handler.cpp:19-86 | every packet changes the table as a queue-like reference registry does, and ok answers exactly the changes |
| Registry.RunUnique | nodes/root/protocol_handler.cpp:61-71 | every run of the reference registry keeps hostnames and suids distinct and each node within what one registration can hold |
| Registry.RegistryUnique | nodes/root/protocol_handler.cpp:61-71 | in every run hostnames and suids are distinct, each node is one that a registration can hold, and each first match is the only one |
| Registry.TablesReached | nodes/root/protocol_handler.cpp:41-72 | a table is reached by some run exactly when its hostnames and its suids are distinct and each node fits a registration |
| Registry.HostnameFits | nodes/root/protocol_handler.cpp:185-196 | in every run a hostname query is answered exactly when it holds an address |
| Registry.HostnameAnswers | nodes/root/protocol_handler.cpp:185-196 | in every run a hostname query is answered with name and protocol of the oldest entry at the address, received whole, or with an error when there is none |
| Registry.UnregisterOldest | nodes/root/protocol_handler.cpp:80-85 | unregistering takes the sender's oldest entry and leaves all other entries and their order |
| Registry.RunIsQueue | nodes/root/protocol_handler.cpp:41-86 | in every run of the reference registry each address has a first-in first-out queue |
| Registry.RegistryIsQueue | nodes/root/protocol_handler.cpp:41-86 | in every run the entries of an address are its accepted registrations in order without as many of the first as it unregistered |
| Registry.RegistrationAccepted | nodes/root/protocol_handler.cpp:41-72 | a client's frame, sent and read, is accepted exactly when its type is known and its names are free |
| Registry.RegistrationEndToEnd | nodes/root/protocol_handler.cpp:185-196 | after an accepted registration of up to 125 bytes from a new address, a hostname query for it reads as the text before the first bar |
| Listings.ListingReadable | shared/include/protocol/protocol_common.hpp:119-132 | a listing of nodes without bars in hostnames and semicolons in suids is read back exactly, whatever else the hostnames hold |
| Listings.ListingInjective | shared/include/protocol/protocol_common.hpp:119-132 | two such lists of nodes with the same listing have the same hostnames, suids and addresses in the same order |
| Listings.VectorAmbiguousExactly | shared/include/protocol/protocol_common.hpp:119-132 | for vectors of arbitrary nodes, with suids of any length, the text is that of other nodes exactly for two nodes or more, or one with a blended suid; it says nothing about runs |
| Listings.RunListing | nodes/root/protocol_handler.cpp:152-183 | in every run the answer for the local area or the root nodes is the listing of exactly the organisations or roots in the table, is received whole exactly between 1 and 2^32 - 1 bytes, and is read back as them if their suids have no semicolon |
| Listings.RunsToldApart | nodes/root/protocol_handler.cpp:152-183 | two runs with the same answer to such a request have the same names and addresses listed, when the listed suids have no semicolon |
| Listings.AmbiguousExactly | nodes/root/protocol_handler.cpp:152-183 | after any run the answer is also that of a run with other names or addresses listed exactly when its text is the listing of other nodes that a table can hold together |
| Listings.MergeAmbiguous | nodes/root/protocol_handler.cpp:41-72 | two entries that fit one registration make the answer ambiguous, whatever the suids are, if the suid blended of them is free |
| Listings.PlainAmbiguousExactly | nodes/root/protocol_handler.cpp:41-183 | when no listed suid has a semicolon, the answer after a run is ambiguous exactly when two entries next to each other fit the 125 bytes of one registration |
| Listings.SplitAmbiguous | nodes/root/protocol_handler.cpp:41-72 | in any table, a blended suid of two nodes with free names makes the answer that of the run that registers these two instead |
| Listings.SingleAmbiguousExactly | nodes/root/protocol_handler.cpp:41-183 | with one node listed, whatever its suid, the answer after a run is ambiguous exactly when the suid divides between two nodes with different names |
| Listings.AmbiguousSample | nodes/root/protocol_handler.cpp:152-162 | a run with one node and a run with two for which the local area request has the same answer |
| Listings.ShiftedSample | nodes/root/protocol_handler.cpp:152-162 | a run with an ambiguous answer in which no two entries fit one registration and no suid is blended |
| Queries.AskExactly | nodes/root/protocol_handler.cpp:264-282 | asking a node sends the request for its hostname to its address, and gives the bytes behind the frame exactly for a response of code 200 that has the bytes it counts, nothing for other codes and types, and else a failure |
| Queries.FanOut | nodes/root/protocol_handler.cpp:258-285 | the payloads are those of exactly the http nodes whose responses have code 200 and all their bytes, in table order, or there is the failure of the first exchange that fails |
| Queries.AnswerFromAll | nodes/root/protocol_handler.cpp:209-225 | a request whose first label is "esusx" is answered with nothing from an empty table, is undefined without a query, else is answered with the payloads of exactly the nodes that count with double colons between, or ends with the first failure |
| Queries.AnswerFromOne | nodes/root/protocol_handler.cpp:209-251 | in every run any other request is answered with nothing without a node for the suid; otherwise that node is the only one, and the answer is the payload of its response of code 200 to the request with its old destination, or undefined without a query |
| Queries.NoUrl | nodes/root/protocol_handler.cpp:209-212 | a request that carries no URL asks no node and ends in the exception for no content or for a malformed URL |
| Queries.RequestUndefined | nodes/root/protocol_handler.cpp:209-287 | among nodes whose responses are whole, a request is undefined exactly when its size field exceeds its content or its URL has no query and there is a node to ask |
| Queries.AskedPacket | nodes/root/protocol_handler.cpp:258-267 | when all are asked, each node whose name a request can carry reads exactly the query, addressed to it |
| Queries.OneAskedPacket | nodes/root/protocol_handler.cpp:236-240 | when one is asked, it reads exactly the query with the destination of the request that came in, so addressed to it if and only if that one was |
| Queries.MisaddressedSample | nodes/root/protocol_handler.cpp:236-240 | a request for which the node reads a packet that is not addressed to it |

## Left out

- SHA-512, the SQLite and regular expression code of the metaspace, sockets, sessions and console output: foreign code or input and output; where their results matter they are parameters.
- ActivityLogs.LogTransaction.Move: `operator=(log_transaction&&)` is not modelled, since it copies log contents through references instead of rebinding the handle.
- Resolution.Deliver: no part of the repository sends an onward request to its destination; the model delivers it to the table at that address, with tables that do not change meanwhile.
- Packets.DvspPacket: the bytes of the content buffer are a value, and a freed buffer is a state in which no method may be called; reads beyond the content are undefined.
- Tables.NetspaceTable: iterators are positions, so their invalidation is not modelled.
- Listings.AmbiguousExactly: for two or more listed nodes with semicolons in their suids the condition is another reading of the whole text, not one about entries: entries can be divided at shifted places (`Listings.ShiftedSample`), and names have to be distinct over the whole table; `Listings.MergeAmbiguous` and `Listings.SplitAmbiguous` go one way there.
- Registry.Defined: runs in which a packet leads to undefined behaviour are excluded, since the code promises nothing after it.
- Replication.ReplicationKept: the leader's hashes have to stay distinct; `Replication.ReplicationOrCollision` says what a repetition would mean.
- The copy constructor of `netspace_url` copies the text but not the parts; the model takes `auto url = netspace_url(...)` to be constructed in place, as compilers do.
- The URL parser counts positions in 32 bits and would not end on longer texts; the model reads texts of any length.
- `nodes_from_string`, `netspace_node(std::string)` and `http_to_bin` do not invert what the node writes; listings are read by a reference reader instead.
- `construct_frame_service` assigns in the wrong direction and no handler uses it.
- `query_gsn` has no caller, the `find_type` searches none outside the tests, and setters, getters and the iterators of logs have no behaviour of their own.
