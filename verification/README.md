# Network programming lessons: a Dafny model

A model, with proofs, of the stateful parts of a collection of C++ network
programs: the LRU list, the fragment reassembly and the IPv6/IPv4 header code of
the packet library used by the sniffer, the connection handling of the multi-threaded file server, the
login session of the TLS client and server, the serverless UDP chat, and the hex
dump of the packet printer.

`dafny verify dfyconfig.toml` checks everything.

| file | what it models |
|---|---|
| `Basics.dfy`, `Sequences.dfy`, `QtText.dfy` | shared definitions; `QString::section` and number prefixes |
| `LruList.dfy` | the LRU list: a doubly linked list and a map of nodes, against a recency sequence |
| `ChatNetwork.dfy` | the chat codec and one chat participant, its loops as written |
| `Burst.dfy` | several datagrams read at once: what is lost |
| `Discovery.dfy` | the chat as a network of participants; what holds in every run |
| `Convergence.dfy` | what discovery achieves without losses, with and without departures, for the loops as meant and as written |
| `Ipv6Chain.dfy` | parsing, adding and removing IPv6 extension headers: object list against wire bytes |
| `IpReassembly.dfy` | putting IP fragments together, a bounded number of packets at a time |
| `IpFragments.dfy` | what the IPv4 and IPv6 layers hand to the reassembly, and when that works |
| `Transceiver.dfy` | partial sends, file chunking, request framing |
| `TaskList.dfy` | the accept loop and its clean-up pass |
| `TlsSession.dfy` | the login request text, the server alone, the client and the server together |
| `Ipv4Option.dfy` | decoding IPv4 options, building them, and building and decoding one after the other |
| `HexDump.dfy` | the payload dump |

## How runs are modelled

A run is a list of events, and `Exec` gives the state after them; an event that
cannot happen leaves the state as it is, so a statement about `Exec` is about
every run. What the system decides (how many bytes a `send` takes, when a read is
interrupted, which datagram arrives next, what the user types) is an input of the
model. Where a call may not have returned yet, its result says so.

## Where the code differs from what it is meant to do

The methods follow the code. For the differences that bear on a result, the lemma
named with it gives the exact condition under which the code still does what it is
meant to.

* `AddUser` appends while it scans: a newcomer met by n contacts is stored n
  times, and the scan then returns before the signal and the reply. It is right
  exactly when the list is empty or its first entry is the sender
  (`Chat.AddAsMeantIff`). As a protocol it brings everybody together exactly when
  at most two peers take part (`Convergence.LiteralConvergesIffAtMostTwo`); with
  one entry per newcomer and a reply to each it always does
  (`Convergence.DiscoveryConverges`). A list without repetitions stays so exactly
  when the sender is its first entry or it has one entry at most
  (`Discovery.HandleUniqueIff`), and in a run exactly when every delivery is such a
  one (`Discovery.ExecUniqueIff`). The scan appends to the vector it walks
  over; it is read by index here.
  Since the return comes before the signal, a newcomer is not announced unless the
  list was empty (`Chat.NewUserSignals`).
* `slotDisconnected` goes on after `erase`: the entry behind a removed one is
  skipped, and removing the last one leaves the cursor behind the end
  (`Chat.DisconnectAsMeantIff`).
* `slotReadMessages` keeps only the last datagram of a burst. For different senders
  that leaves the peer as if all had been handled exactly when each earlier one
  finds nothing to do: our own text or discovery packet, a goodbye of somebody
  unlisted, or a discovery packet of a listed contact, with the scan as written of
  the first one (`Burst.LastOnlyIff`). In the protocol this is a loss of the others.
* A datagram is turned into a string from a C pointer and so ends at its first
  NUL; together with the separator this gives the condition of
  `ChatCodec.RoundTripIff`.
* The kind of a datagram is a number cut to 8 bits, so `258/...` is a chat text
  (`ChatCodec.KindWraps`).
* A contact who left stays listed if something of it arrives behind its goodbye
  (`Convergence.DepartedListedIff`).
* `get_request` compares the search result with the end of the buffer instead of
  the end of the fragment and stops after the first fragment
  (`Transceiver.FirstFragmentFramesIff`). The loop with the comparison that was
  meant is the same method with the reading `Intended`.
* `send_file` pads a large file to whole blocks, and sends one block of zeros for
  any file of at most 4096 bytes because it never returns to the start of the
  file (`Transceiver.FileArrivesIff`, `Transceiver.FileArrivesExactlyIff`). A large
  file that cannot be read to its end is followed by zeros for as long as the client
  takes them (`Transceiver.Transceiver.SendFile`).
* An exception of a client's job ends the whole server when its result is
  collected (`TaskList.Server.Reap`).
* `put` moves the victim out of the list and then uses the moved-from slot as the
  key to erase (`Recency.MoveKeepsAgreementIff`); for the 32-bit keys it is used
  with, nothing changes. The linked structure is modelled for values that a move
  leaves alone.
* The client connects its reading slot again after every refusal. The extra calls
  find no bytes, but they clear the request buffer and stop the reply timer, so
  after the answer to a repeated login no reply timeout is running
  (`BufferAndTimer` in `SessionPair`).
* The server handles the first line of whatever has arrived
  (`SessionServer.OnlyFirstRequestCounts`), and a second connection takes the
  place of the first for good (`SessionServer.SessionSafety`).
* Part of a request is answered as if it were all of it; with which code depends on
  where it was cut (`SessionPair.FirstPartIff`).
* `parseExtensions` asks for two bytes of a header only, so it takes any two bytes
  of payload for a header when the protocol number announces one
  (`Ipv6Wire.WireMatchesListIff`), and may count a header that reaches beyond the
  data; such a layer is not extended (`Ipv6Layer.IPv6Layer.AddExtension`).
* The IPv6 layer adds the extension headers to a payload length that counts them
  already, and so keeps bytes that follow the packet
  (`Ipv6Layer.TrailerCutIff`).
* An extension object longer than its 8-bit length field can tell is copied into a
  packet in part (`Ipv6Wire.CopiedWholeIff`).
* Reassembly keeps the whole frame of the first fragment, and takes for the payload
  of a fragment what the IP layer leaves behind its headers. Over IPv4 that is the
  fragment's own part, and a packet comes through in every order of arrival, with its
  own bytes exactly when nothing follows the first fragment in its frame
  (`Ipv4Fragments.AlwaysRightIff`).
* The IPv6 layer goes on parsing behind the fragment header. With nothing behind the
  fragments in their frames, a packet comes through exactly when the protocol the
  fragment headers name is no extension header
  (`Ipv6Fragments.NoExtensionIff`, with one further case in which a 16-bit offset
  comes round to its place); for such a protocol, exactly when nothing follows any
  fragment (`Ipv6Fragments.NoTrailersIff`). Where both fail it can still come through
  by chance (`Ipv6Fragments.BothCanCancel`): in general exactly when the pieces line
  up (`FragmentFrames.LinesUpIff`).
* A packet that is its own only fragment is never handed out
  (`Fragments.LoneFragment`); with room for no packet at all the first fragment is put
  in the place of itself (`FragmentStore.ExecAgrees`). The status for malformed
  fragments cannot occur (`Fragments.AcceptSound`).
* The IPv4 loops terminate for every option whose length field is at least 2;
  below that they depend on the memory behind the option
  (`Ipv4Option.DecodingEndsIff`). The documentation of `getTimestampOptionValue`
  speaks of the value type; the code takes the whole byte, overflow count
  included, as the type, and the model follows it.
* The timestamp option is built with timestamps in network order, and decoded as the
  words lie there (`Ipv4Option.TimestampReadBack`): timestamps come back turned round
  (`Ipv4Option.TimestampRoundTripIff`). The length of a long list of addresses is cut to
  8 bits (`Ipv4Option.IpListReadBack`).
* The text column of the hex dump moves on only behind a printable byte, so it shows
  dots from the first other one on (`HexDump.TextAsMeantIff`).

## Model

| member | source | states |
|---|---|---|
| Recency.RunBounded | lesson2/PcapPlPl_snifer/lib/header/LRUList.h:54-115 | after any calls the list has no duplicates and is within its maximum size, size 0 included |
| Recency.StackProperty | lesson2/PcapPlPl_snifer/lib/header/LRUList.h:54-115 | for the same calls, the smaller list is a prefix of the larger one |
| Recency.RunOrdered | lesson2/PcapPlPl_snifer/lib/header/LRUList.h:54-83 | after any calls the elements stand in the order of their last put, newest first |
| Recency.PutEvictsOldest | lesson2/PcapPlPl_snifer/lib/header/LRUList.h:66-80 | a put evicts at most one element, the one whose last put is older than every survivor's |
| Recency.PutOnlyHoldsMostRecent | lesson2/PcapPlPl_snifer/lib/header/LRUList.h:22-25 | with puts only, a missing element means the list is full of more recently put ones |
| Recency.ListedOnlyIfPut | lesson2/PcapPlPl_snifer/lib/header/LRUList.h:54-115 | after any calls a listed element was put by the last call that names it: erased ones are gone |
| Recency.ListedIffPutLast | lesson2/PcapPlPl_snifer/lib/header/LRUList.h:54-115 | with room for everything named, it is listed iff the last call that names it put it |
| Recency.MoveKeepsAgreementIff | lesson2/PcapPlPl_snifer/lib/header/LRUList.h:71-78 | list and map agree after the eviction iff the victim is not handed out or a move leaves it unchanged |
| LruCache.NodeList.PushFront | lesson2/PcapPlPl_snifer/lib/header/LRUList.h:56 | links a new node in front of the others, which keep their places |
| LruCache.NodeList.Remove | lesson2/PcapPlPl_snifer/lib/header/LRUList.h:62 | unlinks one node by its reference; all other nodes keep theirs |
| LruCache.PromoteAgrees | lesson2/PcapPlPl_snifer/lib/header/LRUList.h:56-64 | with the new node in front and the old one gone, every key maps to its own node again |
| LruCache.LruList.constructor | lesson2/PcapPlPl_snifer/lib/header/LRUList.h:39-42 | a new list is empty and consistent |
| LruCache.LruList.MoveToFront | lesson2/PcapPlPl_snifer/lib/header/LRUList.h:56-64 | pushes, removes the stale node if the key was present, and re-points the key |
| LruCache.LruList.Put | lesson2/PcapPlPl_snifer/lib/header/LRUList.h:54-83 | keeps list and map consistent, moves to front and drops the last; returns 1 iff it evicts, and hands out the victim |
| LruCache.LruList.EvictOldest | lesson2/PcapPlPl_snifer/lib/header/LRUList.h:66-80 | removes exactly the last element from both structures |
| LruCache.LruList.EraseElement | lesson2/PcapPlPl_snifer/lib/header/LRUList.h:107-115 | removes the element from both structures, or changes nothing |
| LruCache.LruList.GetMRUElement | lesson2/PcapPlPl_snifer/lib/header/LRUList.h:89-92 | the newest element |
| LruCache.LruList.GetLRUElement | lesson2/PcapPlPl_snifer/lib/header/LRUList.h:98-101 | the oldest element |
| LruCache.LruList.GetSize | lesson2/PcapPlPl_snifer/lib/header/LRUList.h:125 | the size of the map is the length of the list |
| LruCache.Replay | lesson2/PcapPlPl_snifer/lib/header/LRUList.h:54-115 | for every sequence of calls the linked list holds what the recency sequence predicts |
| ChatCodec.RoundTripIff | lesson8/f2f_chat/chatnetwork.cpp:132-135 | a printed datagram is read back field for field iff message, nickname and id hold neither separator nor NUL |
| ChatCodec.KindSurvives | lesson8/f2f_chat/chatnetwork.cpp:83-89 | the kind is read back whatever the other fields hold |
| ChatCodec.KindWraps | lesson8/f2f_chat/chatnetwork.cpp:132 | of a number in front of the first separator 8 bits are kept as a signed kind, none of a number beyond 32 bits |
| QtText.ToIntReads | lesson8/f2f_chat/chatnetwork.cpp:132 | a decimal number, signed or not, is read iff it fits into 32 bits, and 0 otherwise |
| QtText.ToIntTrims | lesson8/f2f_chat/chatnetwork.cpp:132 | white space in front of a number does not matter |
| QtText.ToIntJunk | lesson8/f2f_chat/chatnetwork.cpp:132 | a text with anything but digits, signs and white space is read as 0 |
| Chat.AddAsMeantIff | lesson8/f2f_chat/chatnetwork.cpp:48-74 | the scan as written does what was meant iff it is our own datagram, the list is empty, or its first entry is the sender |
| Chat.AddLists | lesson8/f2f_chat/chatnetwork.cpp:50-68 | under either reading the sender is listed afterwards and nobody else is added or lost |
| Chat.DisconnectAsMeantIff | lesson8/f2f_chat/chatnetwork.cpp:172-185 | the removal loop as written removes all matches and stays in bounds iff each match is followed by an entry that is none |
| Chat.TextShown | lesson8/f2f_chat/chatnetwork.cpp:132-158 | a datagram `2/text/nickname/id` of somebody else adds exactly two lines, nickname and id and then the text, and one signal |
| Chat.TextsTold | lesson8/f2f_chat/chatnetwork.cpp:155-156 | texts that differ are shown differently |
| Chat.NothingShown | lesson8/f2f_chat/chatnetwork.cpp:140-161 | our own texts and packets of no known kind show nothing and change nothing |
| Chat.NewUserSignals | lesson8/f2f_chat/chatnetwork.cpp:44-70 | when a newcomer is signalled: as meant, iff exactly one contact is added; as written, only into an empty list |
| Chat.GoodbyeReported | lesson8/f2f_chat/chatnetwork.cpp:172-185 | every row a goodbye takes off the contact list is reported, and no other, under either reading |
| Chat.ChatNetwork.AddUser | lesson8/f2f_chat/chatnetwork.cpp:44-74 | the loop as written, in closed form: copies appended, signal and reply |
| Chat.ChatNetwork.SlotDisconnected | lesson8/f2f_chat/chatnetwork.cpp:167-187 | the loop as written removes the same rows from both lists, reports each, and reports running past the end |
| Chat.ChatNetwork.SlotReadMessages | lesson8/f2f_chat/chatnetwork.cpp:120-135 | drains the socket and handles the last datagram; both lists stay parallel |
| Chat.ChatNetwork.Dispatch | lesson8/f2f_chat/chatnetwork.cpp:137-163 | one packet's effect on the lists, the messages and the network; a text of somebody else is shown in two lines |
| Burst.InertIff | lesson8/f2f_chat/chatnetwork.cpp:137-163 | a packet leaves the peer as it is iff it finds nothing to do, under either reading |
| Burst.LastOnlyIff | lesson8/f2f_chat/chatnetwork.cpp:120-163 | for a burst from different senders, handling only the last datagram gives the same peer, contacts, rows and messages, as handling all iff each earlier one finds nothing to do |
| Burst.LastOnlyEnough | lesson8/f2f_chat/chatnetwork.cpp:120-163 | whoever the senders are, nothing is lost if each earlier datagram finds nothing to do |
| Discovery.HandleSends | lesson8/f2f_chat/chatnetwork.cpp:70-73 | the only datagram a peer sends by itself is one greeting, to a sender it has just added |
| Discovery.HandleUsers | lesson8/f2f_chat/chatnetwork.cpp:137-150 | contacts come only from the fields of a discovery packet |
| Discovery.HandleRows | lesson8/f2f_chat/mainwindow.cpp:97-106 | whatever is received, row i of the contact list still names entry i of the contacts |
| Discovery.HandleUnique | lesson8/f2f_chat/chatnetwork.cpp:44-68 | with one entry per newcomer no id appears twice |
| Discovery.HandleUniqueIff | lesson8/f2f_chat/chatnetwork.cpp:44-68 | with the loop as written a received packet keeps ids unique iff it is no foreign discovery packet, there is one contact at most, or the sender is the first contact |
| Discovery.ExecUniqueIff | lesson8/f2f_chat/chatnetwork.cpp:25-187 | in a run of the code as written no peer ever lists an id twice iff every delivery meets that condition |
| Discovery.ExecSound | lesson8/f2f_chat/chatnetwork.cpp:25-187 | in every run, losses and departures included: rows match entries, nobody lists itself, every contact joined under that id, nickname and address, and no id is listed twice (intended) |
| Discovery.JoinTellsAll | lesson8/f2f_chat/chatnetwork.cpp:25-35 | who joins asks everybody present under its own name and id |
| Discovery.LeaveTellsAll | lesson8/f2f_chat/mainwindow.cpp:74-78 | who leaves is gone and a goodbye with its name and id is on its way to everybody else present |
| Discovery.DatagramsKept | lesson8/f2f_chat/chatnetwork.cpp:120-163 | only the datagram lost or delivered disappears, and a delivery leaves at most one behind |
| Discovery.SayAddresses | lesson8/f2f_chat/mainwindow.cpp:91-121 | a text typed goes to the one chosen, or to everybody present, and to nobody else |
| Discovery.SaidIsShown | lesson8/f2f_chat/chatnetwork.cpp:152-158 | delivered to somebody else it appears there, under the name and id of who typed it, and nowhere else |
| Convergence.DeliverLists | lesson8/f2f_chat/chatnetwork.cpp:44-68 | a delivery changes only the receiver's list, only by the sender, and always lists the sender |
| Convergence.DeliverFlights | lesson8/f2f_chat/chatnetwork.cpp:70-73 | which questions and greetings are in flight after a delivery |
| Convergence.ExecMet | lesson8/f2f_chat/chatnetwork.cpp:25-74 | without losses, departures included, a greeting in flight between two who are present means its sender lists the receiver, and every two of them have met or will |
| Convergence.ExecReturns | lesson8/f2f_chat/chatnetwork.cpp:44-74 | between two who are present, p lists q implies q lists p or a greeting from p to q is in flight |
| Convergence.PresentPeersConverge | lesson8/f2f_chat/chatnetwork.cpp:25-187 | with peers coming and going and nothing lost, once discovery is quiet those who are present list each other |
| Convergence.DiscoveryConverges | lesson8/f2f_chat/chatnetwork.cpp:25-74 | if nobody has left, every contact list is then exactly everybody else, once each |
| Convergence.ListedIffLastWord | lesson8/f2f_chat/chatnetwork.cpp:137-187 | in every run, losses included, an id is listed iff the last discovery datagram from it that arrived was no goodbye |
| Convergence.DepartedListedIff | lesson8/f2f_chat/chatnetwork.cpp:137-187 | with nothing lost and discovery quiet, somebody present lists somebody who left iff a discovery datagram of the latter arrived behind its goodbye |
| Convergence.GoodbyeLastTakesOff | lesson8/f2f_chat/chatnetwork.cpp:146-147 | in every run, whoever left is not listed once its goodbye has arrived and nothing of it behind it |
| Convergence.DeliveryUsesWeight | lesson8/f2f_chat/chatnetwork.cpp:70-73 | every delivery, answer included, brings the network closer to silence |
| Convergence.DeliveriesRunOut | lesson8/f2f_chat/chatnetwork.cpp:120-163 | after that many deliveries, in any order, nothing is in flight |
| Convergence.PresentPeersComplete | lesson8/f2f_chat/chatnetwork.cpp:25-187 | after any such run it is enough to deliver what is in flight, in any order |
| Convergence.DiscoveryCompletes | lesson8/f2f_chat/chatnetwork.cpp:25-163 | if nobody has left, every contact list is then complete |
| Convergence.ExecHeard | lesson8/f2f_chat/chatnetwork.cpp:50-61 | with the loop as written the first peer makes itself known to one other at most |
| Convergence.LiteralConvergesIffAtMostTwo | lesson8/f2f_chat/chatnetwork.cpp:50-73 | with the loop as written everybody lists everybody iff at most two took part |
| Convergence.ThirdPeerEndsConvergence | lesson8/f2f_chat/chatnetwork.cpp:50-73 | from the third join on somebody stays unknown to somebody, whatever happens |
| Ipv6Wire.BodyRetarget | lesson2/PcapPlPl_snifer/lib/header/IPv6Layer.h:273-274 | overwriting the last next-header byte turns the chain into the same chain with another successor |
| Ipv6Wire.RewireExtends | lesson2/PcapPlPl_snifer/lib/header/IPv6Layer.h:262-284 | the byte edits of one addition give the packet with the longer chain |
| Ipv6Wire.ParseBody | lesson2/PcapPlPl_snifer/lib/src/IPv6Layer.cpp:80-144 | following next-header bytes and lengths lists exactly the headers laid out, then goes on behind them |
| Ipv6Wire.ParsedIff | lesson2/PcapPlPl_snifer/lib/src/IPv6Layer.cpp:80-144 | in byte values, for all packets: which first header is listed (0, 43, 44, 51 or 60 in byte 6, two bytes left), which further ones, and how far apart they are |
| Ipv6Wire.WireMatchesListIff | lesson2/PcapPlPl_snifer/lib/src/IPv6Layer.cpp:80-144 | parsing gives the added headers, offsets, protocol and end iff the original protocol announces no header or the payload has fewer than two bytes |
| Ipv6Wire.PacketIsParsed | lesson2/PcapPlPl_snifer/lib/src/IPv6Layer.cpp:80-144 | any packet whose headers lie inside it is the parsed chain laid out again |
| Ipv6Wire.CopiedWholeIff | lesson2/PcapPlPl_snifer/lib/src/IPv6Extensions.cpp:21-30 | assigning an extension object copies all of it iff its length fits the length byte |
| Ipv6Wire.LenByteTellsIff | lesson2/PcapPlPl_snifer/lib/src/IPv6Extensions.cpp:255 | the length byte tells the size of a header iff it is at most 2048 bytes, 1024 for the authentication header |
| Ipv6Layer.IPv6Layer.constructor | lesson2/PcapPlPl_snifer/lib/src/IPv6Layer.cpp:29-41 | reads a packet: objects as parsed, bytes up to the announced length, and unless a header reaches beyond the data, both views consistent |
| Ipv6Layer.CopyOf | lesson2/PcapPlPl_snifer/lib/src/IPv6Layer.cpp:56-62 | a copy announces no more bytes than it has iff no parsed header reaches beyond the data; then it holds the header bytes only and lists the same headers, with no exception |
| Ipv6Layer.IPv6Layer.ParseExtensions | lesson2/PcapPlPl_snifer/lib/src/IPv6Layer.cpp:80-144 | links one object per header found, at its offset, and counts their lengths |
| Ipv6Layer.TrailerCutIff | lesson2/PcapPlPl_snifer/lib/src/IPv6Layer.cpp:38-40 | bytes behind the packet are cut off to the last one iff there are no extension headers or no such bytes |
| Ipv6Layer.IPv6Layer.ExtendLayer | lesson2/PcapPlPl_snifer/lib/src/Layer.cpp:49-75 | makes room at an offset inside the data, or changes nothing |
| Ipv6Layer.IPv6Layer.RemoveAllExtensions | lesson2/PcapPlPl_snifer/lib/src/IPv6Layer.cpp:177-185 | stays inside the data iff no parsed header reaches beyond it; then, after any parsing and additions, exactly the packet without extension headers is left |
| Ipv6Layer.IPv6Layer.AddExtension | lesson2/PcapPlPl_snifer/lib/header/IPv6Layer.h:259-289 | adds one header to both views and keeps them consistent, or changes nothing and returns null, which it does iff there is no room or a parsed header reaches beyond the data |
| Ipv6Layer.IPv6Layer.CopyInto | lesson2/PcapPlPl_snifer/lib/src/IPv6Extensions.cpp:21-30 | fills the room with as many bytes of the source as its length field says |
| Ipv6Layer.IPv6Layer.LinkLast | lesson2/PcapPlPl_snifer/lib/header/IPv6Layer.h:271-284 | threads the new header into the object list and the next-header bytes |
| Ipv6Layer.IPv6Layer.GetExtensionOfType | lesson2/PcapPlPl_snifer/lib/header/IPv6Layer.h:249-257 | the first header of a type, or null iff there is none |
| Ipv6Layer.IPv6Layer.ViewsAgreeIff | lesson2/PcapPlPl_snifer/lib/src/IPv6Layer.cpp:80-144 | object list and header length are what parsing the bytes anew gives, iff the original protocol is no extension in front of two bytes |
| Ipv6Layer.AddAll | lesson2/PcapPlPl_snifer/lib/header/IPv6Layer.h:259-289 | any run of additions leaves the headers there were and then exactly the accepted ones on the wire, in order, and the payload unchanged |
| Fragments.MatchTakes | lesson2/PcapPlPl_snifer/lib/src/IPReassembly.cpp:597-651 | the search takes exactly the fragments up to the first missing one, whatever their order in the list |
| Fragments.AcceptSound | lesson2/PcapPlPl_snifer/lib/src/IPReassembly.cpp:360-388 | no fragment is ever reported as malformed |
| Fragments.ReassembledIff | lesson2/PcapPlPl_snifer/lib/src/IPReassembly.cpp:335-476 | given the parts themselves, in every run of arrivals, in any order and with repetitions, the packet is handed out iff the last missing fragment arrives, always with the same bytes |
| Fragments.StatusIs | lesson2/PcapPlPl_snifer/lib/src/IPReassembly.cpp:335-424 | what is reported of each arrival: the packet, out of order iff a fragment in front is missing, the first fragment, or any |
| Fragments.LoneFragment | lesson2/PcapPlPl_snifer/lib/src/IPReassembly.cpp:335-360 | a packet that is its own only fragment is never handed out |
| FragmentStore.ExecAgrees | lesson2/PcapPlPl_snifer/lib/src/IPReassembly.cpp:545-595 | in every run the map holds exactly the packets the LRU list names, at most the maximum; the run goes wrong iff the maximum is 0 and a fragment arrives |
| FragmentStore.DroppedBehindMany | lesson2/PcapPlPl_snifer/lib/src/IPReassembly.cpp:565-590 | a packet is dropped only behind fragments of at least as many other packets as there is room for |
| FragmentStore.Undisturbed | lesson2/PcapPlPl_snifer/lib/src/IPReassembly.cpp:307-333 | with fewer others between two of its fragments, a packet is collected as if it were alone |
| FragmentStore.ReassembledAmidOthersIff | lesson2/PcapPlPl_snifer/lib/src/IPReassembly.cpp:275-476 | the same amid such traffic: handed out, and forgotten, iff the last missing fragment arrives |
| FragmentFrames.LinesUpIff | lesson2/PcapPlPl_snifer/lib/src/IPReassembly.cpp:335-419 | whatever the layer makes of the frames: a packet comes through with its own bytes in every order of arrival iff the pieces have the sizes of the parts and join to the packet |
| FragmentFrames.LinedUpAmidOthers | lesson2/PcapPlPl_snifer/lib/src/IPReassembly.cpp:275-476 | such a packet also comes through amid other traffic |
| Ipv4Fragments.FieldsRead | lesson2/PcapPlPl_snifer/lib/src/IPv4Layer.cpp:382-395 | header size, offset in units of 8 bytes and more-fragments bit are read back from the bytes sent |
| Ipv4Fragments.FrameOfBytes | lesson2/PcapPlPl_snifer/lib/src/IPv4Layer.cpp:180-193 | the payload for all bytes: up to the total length, unless that is 0 or beyond the data |
| Ipv4Fragments.ReadsNoneIff | lesson2/PcapPlPl_snifer/lib/src/IPv4Layer.cpp:372-375 | a packet is no fragment iff the 13 offset bits and the more-fragments bit are 0 |
| Ipv4Fragments.ReadIs | lesson2/PcapPlPl_snifer/lib/src/IPv4Layer.cpp:180-193 | the IPv4 layer hands over a fragment as it was sent, its own part whatever follows it |
| Ipv4Fragments.AlwaysRightIff | lesson2/PcapPlPl_snifer/lib/src/IPReassembly.cpp:335-476 | over IPv4 a packet comes through with its own bytes in every order iff nothing follows the first fragment in its frame |
| Ipv6Fragments.FieldsRead | lesson2/PcapPlPl_snifer/lib/src/IPReassembly.cpp:139-216 | offset and more-fragments bit are read back from the fragment header sent |
| Ipv6Fragments.ReadIs | lesson2/PcapPlPl_snifer/lib/src/IPReassembly.cpp:139-216 | the fragment header found, its fields, and the payload the IPv6 layer leaves are what the reassembly is given |
| Ipv6Fragments.PartIff | lesson2/PcapPlPl_snifer/lib/header/Layer.h:107-112 | with nothing behind it a part is handed over iff it shows no further header; showing none, iff nothing is behind it |
| Ipv6Fragments.NoTrailersIff | lesson2/PcapPlPl_snifer/lib/src/IPv6Layer.cpp:29-41 | over IPv6, for a protocol that is no extension header, a packet comes through in every order iff nothing follows any of its fragments |
| Ipv6Fragments.NoExtensionIff | lesson2/PcapPlPl_snifer/lib/src/IPv6Layer.cpp:80-144 | over IPv6, with nothing behind the fragments, iff the protocol is no extension header, or the one case in which the offset comes round |
| Ipv6Fragments.BothCanCancel | lesson2/PcapPlPl_snifer/lib/src/IPReassembly.cpp:335-419 | a packet with an extension header and a trailer that comes through all the same |
| Reassembly.IPFragmentData.WalkOnce | lesson2/PcapPlPl_snifer/lib/src/IPReassembly.cpp:605-640 | one walk over the list with its erasures does what the recursive walk does |
| Reassembly.IPFragmentData.MatchOutOfOrderFragments | lesson2/PcapPlPl_snifer/lib/src/IPReassembly.cpp:597-651 | the nested loops append and erase as the recursive search does |
| Reassembly.IPFragmentData.AddFragment | lesson2/PcapPlPl_snifer/lib/src/IPReassembly.cpp:335-424 | the effect of one fragment on the packet it belongs to, and its status |
| Reassembly.IPReassembly.AddNewFragment | lesson2/PcapPlPl_snifer/lib/src/IPReassembly.cpp:565-595 | a new packet enters map and list, and the victim of the list leaves the map |
| Reassembly.IPReassembly.ProcessPacket | lesson2/PcapPlPl_snifer/lib/src/IPReassembly.cpp:275-476 | one fragment's effect on map, list and packet; map and list stay in step; fails iff the maximum is 0; a finished packet had its entry before |
| Reassembly.IPReassembly.RemovePacket | lesson2/PcapPlPl_snifer/lib/src/IPReassembly.cpp:545-563 | the packet leaves map and list, all others stay |
| Reassembly.Replay | lesson2/PcapPlPl_snifer/lib/src/IPReassembly.cpp:275-595 | for every sequence of calls the objects hold what the store as a value predicts |
| Transceiver.Transceiver.SendBuffer | lesson4/mt_server/main.cpp:145-163 | through any short sends and retries the wire holds the bytes taken, in order; true iff all of them, false iff a real error |
| Transceiver.Transceiver.SendFile | lesson4/mt_server/main.cpp:165-210 | true iff the whole padded file is on the wire, otherwise a strict prefix of it; a large file that breaks off is followed by zeros and never reported as sent |
| Transceiver.Transceiver.SendBlocks | lesson4/mt_server/main.cpp:178-196 | the large-file loop puts the file, as far as it can be read, and zeros on the wire; it ends by itself iff the file can be read to its end |
| Transceiver.Transceiver.SendFromEnd | lesson4/mt_server/main.cpp:197-207 | the small-file loop puts one block of zeros on the wire |
| Transceiver.BlockOfFile | lesson4/mt_server/main.cpp:184-193 | what a read leaves in the cleared buffer is the next block of the readable file and the zeros behind it |
| Transceiver.FileStream.Read | lesson4/mt_server/main.cpp:184 | reads as far as the file can be read, leaves the rest of the buffer, and notices the end only by falling short; a broken file never shows its end |
| Transceiver.FileArrivesIff | lesson4/mt_server/main.cpp:174-207 | the file is the start of what is sent iff it exceeds one block or is all zeros |
| Transceiver.FileArrivesExactlyIff | lesson4/mt_server/main.cpp:174-207 | what is sent is the file iff the file is one block of zeros |
| Transceiver.FileOnWireBytes | lesson4/mt_server/main.cpp:174-207 | a file of more than 4096 bytes is followed by zeros up to the next multiple of 4096; any other is 4096 zeros |
| Transceiver.Transceiver.GetRequest | lesson4/mt_server/main.cpp:212-250 | intended: the longest start of the first 256 bytes without a byte 10 or 13, for every fragmentation; literal: the same of the first fragment; never outside the buffer |
| Transceiver.Transceiver.Recv | lesson4/mt_server/main.cpp:221-229 | one report of the system: bytes, retry, error or end |
| Transceiver.TakeIn | lesson4/mt_server/main.cpp:231-241 | after a fragment the request is complete, or there is room and no newline yet |
| Transceiver.Scan | lesson4/mt_server/main.cpp:231-239 | cuts the buffer at the first newline of the fragment, inside the buffer |
| Transceiver.UpToNewlineIff | lesson4/mt_server/main.cpp:231-239 | the line is the longest start of the text without the bytes 10 and 13 |
| Transceiver.FirstFragmentFramesIff | lesson4/mt_server/main.cpp:234-241 | stopping after the first fragment is right iff it holds a newline, fills the buffer, or a newline or the end follows |
| TaskList.Server.Reap | lesson4/mt_server/main.cpp:455-466 | exactly the finished jobs are reported and dropped, in order, unless one raised, which ends the server |
| TaskList.Server.Turn | lesson4/mt_server/main.cpp:434-466 | one accept keeps every client accounted for; it ends the server iff a job found finished had raised |
| TaskList.Server.Serve | lesson4/mt_server/main.cpp:432-467 | over any number of turns nobody is lost or reported twice, and nothing that raised is reported |
| TaskList.Partition | lesson4/mt_server/main.cpp:455-466 | the finished and the unfinished together are all of them |
| RequestCodec.LoginTask | lesson6/qssl_client/main.cpp:115 | whatever the login, the server sees a request for authorisation |
| RequestCodec.MessageTask | lesson6/qssl_client/main.cpp:178 | whatever the message, the server sees a message |
| RequestCodec.LoginBytes | lesson6/qssl_client/main.cpp:115-119 | the login request, character by character |
| RequestCodec.MessageBytes | lesson6/qssl_client/main.cpp:178-182 | the message request, character by character |
| RequestCodec.AnyGap | lesson6/qssl_server/main.cpp:150-158 | the second word is found behind any number of blanks |
| RequestCodec.LoginRoundTripIff | lesson6/qssl_server/main.cpp:148-166 | login and hash are read back iff the login is free of separators, slash, equals sign and ampersand |
| RequestCodec.MessageRoundTripIff | lesson6/qssl_server/main.cpp:157-158 | a message arrives as typed iff it holds no slash |
| RequestCodec.CutTaskIff | lesson6/qssl_server/main.cpp:143-158 | the first bytes of a request ask for what all of it asks for iff they contain its whole task word |
| SessionServer.OnlyFirstRequestCounts | lesson6/qssl_server/main.cpp:143-150 | a second request in the same read changes nothing |
| SessionServer.ReplyToTask | lesson6/qssl_server/main.cpp:156-189 | 200 for a message of an authorised client; 400 for anything else of it, a second login too, and for anything but a login before |
| SessionServer.ReplyToLogin | lesson6/qssl_server/main.cpp:161-176 | a login with a plain name is answered 200 iff name and hash are listed, otherwise 401, and is remembered |
| SessionServer.ReplyToOther | lesson6/qssl_server/main.cpp:150-157 | no reply to a first word other than GET; the bare word GET is read past its end |
| SessionServer.PiecesReadTogether | lesson6/qssl_server/main.cpp:143-148 | what arrives in pieces is read as one text, once, whichever socket announces it |
| SessionServer.TaskLogged | lesson6/qssl_server/main.cpp:177-188 | one read gives one entry: the message as it was sent, or the refusal |
| SessionServer.LoginLogged | lesson6/qssl_server/main.cpp:161-176 | a login is recorded with its name and hash iff they are listed |
| SessionServer.ThisServer.IncomingConnection | lesson6/qssl_server/main.cpp:45-50 | a new connection starts unauthorised |
| SessionServer.ThisServer.SlotReadyRequest | lesson6/qssl_server/main.cpp:141-192 | the session record and the reply code for every request, the out-of-range token included |
| SessionServer.ThisServer.Authorise | lesson6/qssl_server/main.cpp:162-176 | authorises iff the parsed pair is in the user list |
| SessionServer.SessionSafety | lesson6/qssl_server/main.cpp:45-192 | in every run a message is accepted only after a listed login on the same connection, and nothing is answered for an older connection |
| SessionServer.AuthorisationLasts | lesson6/qssl_server/main.cpp:161-189 | authorisation is never lost within a connection |
| SessionPair.ClientObject.ReadyRead | lesson6/qssl_client/main.cpp:122-157 | one signal runs the slot once per connection made |
| SessionPair.ReadyReadWrites | lesson6/qssl_client/main.cpp:128-187 | one response makes the client write exactly one request, however many connections there are |
| SessionPair.RespondToClient | lesson6/qssl_server/main.cpp:156-190 | an honest request in the right phase is answered 200 or 401 |
| SessionPair.FirstPartIff | lesson6/qssl_server/main.cpp:141-192 | if a request arrives in two reads, the first part is answered 200 or 401 iff the cut is behind its task word |
| SessionPair.HonestPairInStep | lesson6/qssl_client/main.cpp:101-187 | in every run of both sides 400 is never sent, phases match, each write is one request, and when the reply timer runs |
| SessionPair.StartsIff | lesson6/qssl_client/main.cpp:105-110 | the client writes iff the login has at least four characters, the message one, and neither a blank |
| SessionPair.AnsweredIff | lesson6/qssl_server/main.cpp:156-190 | in every run what is sent is answered once: 200 for a message, and for a plain login iff it is listed |
| SessionPair.GoesOnTalking | lesson6/qssl_client/main.cpp:128-187 | in every run each response is followed by one request, a message after 200 and a login after 401 |
| SessionPair.ClosedByTimeoutIff | lesson6/qssl_client/main.cpp:159-166 | in every run only a timeout closes the connection, and only with that timer running |
| SessionPair.ClosedForGood | lesson6/qssl_client/main.cpp:190-195 | after that nothing more is sent or read |
| SessionPair.OtherCodes | lesson6/qssl_client/main.cpp:128-155 | any other code stops the timer and empties the buffer, and 400 closes |
| Ipv4Option.StopsIff | lesson2/PcapPlPl_snifer/lib/header/IPv4Layer.h:255-267 | the loop with its 8-bit position ever ends iff the value is short enough or a zero word is in reach |
| Ipv4Option.DecodingEndsIff | lesson2/PcapPlPl_snifer/lib/header/IPv4Layer.h:345-354 | for options with data, decoding ends iff the length field is at least 2 or a zero word is in reach |
| Ipv4Option.WordsMaximal | lesson2/PcapPlPl_snifer/lib/header/IPv4Layer.h:257-267 | the words are consecutive, non-zero, and as many as possible |
| Ipv4Option.ReadsInsideIff | lesson2/PcapPlPl_snifer/lib/header/IPv4Layer.h:257-262 | no read leaves the value iff it is made of whole words or a zero word inside it stops the loop |
| Ipv4Option.GetValueAsIpList | lesson2/PcapPlPl_snifer/lib/header/IPv4Layer.h:244-270 | the words up to the first zero or the end, without wrapping the position |
| Ipv4Option.GetTimestampOptionValue | lesson2/PcapPlPl_snifer/lib/header/IPv4Layer.h:279-318 | the two lists interleave to the words, lengths differing by one at most; otherwise all are timestamps |
| Ipv4Option.HoldsValueIff | lesson2/PcapPlPl_snifer/lib/header/IPv4Layer.h:345-354 | there is a value to decode except for types 0 and 1 and lengths 2 and 3 |
| Ipv4Option.BuildIpList | lesson2/PcapPlPl_snifer/lib/src/IPv4Layer.cpp:29-54 | the record of a list of addresses, built in place; none iff the type is 0 or 1 |
| Ipv4Option.PointsBehind | lesson2/PcapPlPl_snifer/lib/src/IPv4Layer.cpp:43-47 | its pointer stands behind the first zero address, or behind the last one |
| Ipv4Option.IpListReadBack | lesson2/PcapPlPl_snifer/lib/src/IPv4Layer.cpp:29-54 | decoding such a record gives the addresses up to the first zero, of as many as the 8-bit length tells; it always ends |
| Ipv4Option.IpListRoundTripIff | lesson2/PcapPlPl_snifer/lib/src/IPv4Layer.cpp:29-54 | the addresses come back as given iff they are fewer than 64 and none is zero |
| Ipv4Option.BuildTimestamp | lesson2/PcapPlPl_snifer/lib/src/IPv4Layer.cpp:56-127 | the timestamp record, built in place; none iff the type is 2 or 3, or 1 with unequal numbers |
| Ipv4Option.PointsAtSlot | lesson2/PcapPlPl_snifer/lib/src/IPv4Layer.cpp:116-124 | its pointer is where the slot of the first zero timestamp begins, or 1 |
| Ipv4Option.TimestampReadBack | lesson2/PcapPlPl_snifer/lib/src/IPv4Layer.cpp:56-127 | decoding a record that fits its length byte and has no zero word gives type and addresses back, and the timestamps in network order |
| Ipv4Option.TimestampRoundTripIff | lesson2/PcapPlPl_snifer/lib/src/IPv4Layer.cpp:99 | so the timestamps come back as given iff each reads the same in either byte order |
| HexDump.PrintHexAsciiLine | lesson2/pcap_sniffer/packet_printer.cpp:89-122 | the hex region is 52 columns wide and every byte stands in its column; the text column |
| HexDump.PrintAscii | lesson2/pcap_sniffer/packet_printer.cpp:124-132 | the text column: the bytes up to the first one that is not printable, then dots |
| HexDump.TextAsMeantIff | lesson2/pcap_sniffer/packet_printer.cpp:124-132 | it is one character per printable byte and a dot per other one iff behind the first other one all printable bytes are dots |
| HexDump.PrintLine | lesson2/pcap_sniffer/packet_printer.cpp:158-166 | line k covers bytes 16k up to the next 16 or the end |
| HexDump.PrintPayload | lesson2/pcap_sniffer/packet_printer.cpp:138-175 | the dump ends, its lines follow each other and together are the payload |

## Left out

- Sockets, TLS handshakes, certificates, name resolution, console and file-system calls: they are inputs or reports of the system.
- Text encodings: strings are sequences of characters, and a text survives its trip as UTF-8.
- Identical chat ids (two peers started in the same second), and nicknames or ids with a separator or NUL, in the protocol: joining requires new ids and clean names. What a bad name does to a datagram is in `ChatCodec.RoundTripIff`.
- Datagrams that arrive more than once.
- Convergence.DiscoveryConverges: assumes that no datagram is lost and nobody leaves, because a lost greeting is never repeated and a departed peer can stay listed; `Convergence.PresentPeersConverge` and `Convergence.DepartedListedIff` cover departures, `Convergence.ListedIffLastWord` and `Discovery.ExecSound` cover both.
- Joining from the address of somebody who has left, in `Convergence.PresentPeersConverge` and `Convergence.DepartedListedIff`: datagrams still under way to the one who left would reach the newcomer.
- Iterator invalidation in `AddUser` and `slotDisconnected`: the loops are read by index, and running past the end is reported, not followed.
- `std::list` and `std::map` themselves: the list is a linked structure of its own, the map is a map value.
- SessionPair.HonestPairInStep: assumes that a request is never split between two reads of the server; what the server makes of the first part of one is in `SessionPair.FirstPartIff`.
- `computeCalculateFields`, and how `Packet` moves the other layers when one is extended: for a layer inside a packet, whether there is room is an input.
- What follows a copy or a removal that `Ipv6Layer.CopyOf` or `Ipv6Layer.IPv6Layer.RemoveAllExtensions` reports to leave the data, and adding to such a layer inside a packet.
- Reassembly: the header fields that are fixed up at the end (and for IPv6 the removal of all extension headers, for which see `Ipv6Layer.IPv6Layer.RemoveAllExtensions`), `getCurrentPacket`, packets that are no fragments, and the hash itself: packets with equal hashes are one packet.
- TLV options inside IPv6 headers, and fields of the single header types.
- Path handling in `recv_file_path`, and the thread each client runs in; what a job returns is an input of `TaskList`.
- The content of the server's response pages; a response is its status code.
- The choice of characters in the hex column of the dump.
- The remaining programs of the lessons (UDP echo, broadcast, asio, curl, HTTP and Qt socket examples): they add no further state machine.
- The other layers and the devices of the packet library: their parsers and setters are independent of what is modelled and would mostly repeat the header code here.
