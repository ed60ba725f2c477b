# plotnetcfg, verified

plotnetcfg scans the network namespaces of a machine, builds a graph of pointers between their
interfaces, and draws it. This project models that program in Dafny and proves what its passes,
its netlink layer and its frontends achieve. `dafny verify dfyconfig.toml` checks everything.

## How the model is built

**The interface graph.** `IntrusiveList.dfy` is `list.h`: nodes with `next` and `prev`, lists with
two sentinels. `Topology.dfy` holds the heap structures: an interface entry has three embedded
nodes and two lists of its own, and sits on the list of its namespace and on the reverse lists of
its master and its link. `Model.dfy` is the same graph as a value, entries numbered in order of
creation. The class `Topology` keeps the two in step: every method that changes the heap states
the value afterwards as a function of the value before. Theorems about passes are then lemmas
about values, and hold for the pointer graph because the methods follow the functions.

**The passes.** `Match.dfy` and `Search.dfy` give the search of `match.c` its meaning for any
scoring callback and for the callbacks the program has; `Matcher.dfy` is the search itself.
`Resolution.dfy`/`Master.dfy` are `master_resolve`, `NetnsLookup.dfy`/`Netnsid.dfy` are
`match_all_netnsid`. `Ovs.dfy` and `OpenVSwitch.dfy` are `link_ifaces`, with its theory in
`OvsInvariant.dfy`, `OvsTheory.dfy`, `OvsDevices.dfy` and `OvsSearch.dfy` (which devices are found),
`OvsExact.dfy` (where it stops) and `OvsWarnings.dfy` (what it reports). `Veth.dfy` is the veth handler, `Tunnel.dfy` the tunnel lookup, `PostPass.dfy`/`Handlers.dfy`
the pass over the handlers that change relations. `History.dfy` is about arbitrary runs of the setters.
`Loading.dfy` puts what the dumps and the driver handlers report on the graph, `Passes.dfy` runs the
passes in the order of `netns_fill_list`, and `FromMessages.dfy` follows a link message from its bytes to
the relations of its entry.

**Netlink** (RFC 3549, sections 2.2, 2.3 and 2.3.2). `NlMsg.dfy` is the growing message buffer and
its cursor, `Attrs.dfy` the attribute iteration, tables and round trip, `Exchange.dfy` the
send/receive/retry protocol fed an arbitrary trace of events, `IfAddrs.dfy` its client in `if.c`, and
`Reading.dfy` reads link, address and route messages back as what was laid out in them.

**Snapshots and frontends.** `Routes.dfy`, `Netns.dfy`, `Ident.dfy`, `Edges.dfy` (dot), `Json.dfy`
and `Frontend.dfy` (output options).

Functions such as `Resolve`, `LinkIfaces` or `Recv` say what a method computes; the lemmas about
them say what that means without referring to how it is computed.

## Where code and documentation differ

- `match.h` says that the best match is returned if exactly one interface has the highest priority.
  The code returns the first of several (`ResultIsFirst`), and `process` links it after its warning
  (`MasterResolveMeaning`). The model follows the code.
- `MM_FIRST` leaves only the loop over one namespace. The search still finds the first match over all
  namespaces exactly when no later namespace holds a higher score (`FirstExactly`). The program's only
  first-match search (`handlers/iov.c:101`) has a yes/no callback, for which that is always so
  (`FirstMeaning`).
- A netlink error message with code zero (an acknowledgement) ends a receive with success and no
  messages; `DumpMeaning` states exactly when a dump succeeds, `CompleteExactly` when it is complete, and
  `AckLosesReplies` gives the case.
- An attribute with more than 65531 bytes of payload is written with a truncated length field;
  `RoundTrip` holds exactly without such attributes.
- Peers found by identifier agree with the lookup exactly when the reports are consistent
  (`PeersExact`).
- The process id shown for a namespace is independent of the directory order exactly when the namespace
  was listed before, no process can open it, or some lowest process showing it can
  (`OrderIrrelevantExactly`).
- An ambiguous interface of a port ends `link_ifaces` with `ERANGE`, which `ovs_global_post` turns into
  success (`GlobalPost`). A bridge is completed if and only if its main interface is found without doubt
  and neither it nor a bridge before it has an interface in doubt, which the configuration and the graph
  before the pass decide (`StopsExactly`). `LaterBridgeLeftOut` is an input on which a clear bridge is
  left out; `PlacedFromStart` says what holds for the others.
- After the run directory the program may be in another namespace than the root's, and it scans the root's
  entry from there. Every entry is scanned from its own namespace if and only if the last directory entry
  entered was listed or names the root's namespace, or none was entered (`ScannedAtHomeExactly`,
  `SecondName`).

## Model

| member | source | states |
|---|---|---|
| IntrusiveList.List.constructor | list.h:69-74 | an initialised list is well formed and empty between its two sentinels |
| IntrusiveList.List.InsertAfter | list.h:83-91 | the node goes directly behind the given one; the list stays well formed and everything else keeps its place |
| IntrusiveList.List.InsertBefore | list.h:100-108 | the node goes directly in front of the given one; the list stays well formed and everything else keeps its place |
| IntrusiveList.List.Append | list.h:110-113 | the node becomes the last one |
| IntrusiveList.List.Prepend | list.h:115-118 | the node becomes the first one |
| IntrusiveList.NodeRemove | list.h:123-134 | the node leaves its list, is on none, and the others keep their order |
| IntrusiveList.List.Pop | list.h:136-139 | the last node is taken off, or nothing if the list is empty |
| IntrusiveList.ListStore.Append | list.h:110-113 | appending to one list leaves every other list of the program as it was |
| IntrusiveList.ListStore.Remove | list.h:123-134 | removing from one list leaves every other list of the program as it was |
| Model.SetUpKeepsMirror | master.c:27-50 | for every target (none, itself, another, the same again) the reverse lists stay duplicate-free and hold exactly the entries pointing to their owner, and only the one pointer changes |
| Model.SetPeerEffect | master.c:52-66 | for all arguments the peer relation stays an involution: the two become each other's peer, their former partners become single, nobody else changes |
| Topology.Topology.MasterSet | master.c:27-36 | on the heap, the pointer and both reverse lists change as the relation does, and the whole graph stays valid |
| Topology.Topology.LinkSet | master.c:38-50 | likewise for the link; without an entry nothing happens |
| Topology.Topology.PeerSet | master.c:52-66 | on the heap, peers change as the relation does |
| Topology.Topology.AddWarning | if.c:337-352 | one more warning on the entry and one in its namespace, nothing else |
| Model.WarnEffect | if.c:337-352 | one more warning on that entry and one in its namespace; every other entry, namespace and relation stays |
| Topology.Topology.AddIface | handlers/openvswitch.c:692-712 | a new entry is last on its namespace's list, related to nobody; all others keep everything |
| Topology.Topology.Walk | list.h:55 | a walk over a namespace meets exactly its interfaces, in order, and ends at the second sentinel |
| Topology.Topology.WalkRev | list.h:61-67 | a walk over an embedded reverse list meets exactly the entries pointing to its owner, in order |
| History.LastCallWins | master.c:27-50 | after any sequence of calls each pointer is what the last call about the entry asked for |
| History.ListsInCallOrder | master.c:27-50 | after any sequence of calls every reverse list is in the order of the last calls about its members, untouched members first |
| History.FamiliesAreApart | master.c:27-66 | in any mixture of master_set, link_set and peer_set calls the two reverse indexes evolve as if each family had been called alone |
| Match.HeuristicMeaning | match.c:23-63 | over all namespaces the first candidate with the maximal positive score is found; ambiguity is reported exactly when another one attains it; nothing is found exactly when no score is positive |
| Match.HeuristicError | match.c:31-33 | the first negative score ends the search and is the error code |
| Match.FirstExactly | match.c:38-39 | first-match mode finds the first match over all namespaces if and only if no namespace behind that match holds a candidate with a higher score |
| Match.FirstMeaning | handlers/iov.c:78-101 | with a yes/no callback, as in the program's only first-match search, it always does |
| Match.FirstIsPerNamespace | match.c:38-39 | an instance with finer scores on which a later namespace wins; not an input of this program |
| Search.ResultMeaning | match.h:60-61 | on the graph, the result has the best score of all eligible entries, and the search is ambiguous exactly when another entry shares it |
| Search.ResultIsFirst | match.c:34-41 | among entries with the best score the first in list order is the result |
| Search.SearchSame | match.c:47-63 | the result depends only on scores and list order |
| Search.VisitMarks | handlers/openvswitch.c:636-647 | a search for a netdev bridge writes the sub-driver of exactly the entries it accepts, chosen or not; no other search writes anything |
| Matcher.MatchIfNs | match.c:23-45 | the walk over one namespace leaves the descriptor and the graph as the search function says, callback side effects included |
| Matcher.MatchIf | match.c:47-63 | likewise for one namespace or all of them |
| Matcher.LinkIfaceScore | handlers/openvswitch.c:602-660 | the Open vSwitch callback on the heap gives the score `OvsSearch.DeviceFound` is about and writes only the sub-driver it should |
| Matcher.HasAddress | tunnel.c:30-35 | the loop finds an address exactly when the interface holds it |
| Resolution.IndexTarget | master.c:68-88 | the search for an index gives the first interface of the same namespace carrying it, else the first elsewhere in list order, else nothing; never the entry itself |
| Resolution.UniqueTarget | master.c:90-97 | with indexes unique per namespace a local carrier is found without a warning; otherwise there is a warning exactly when not exactly one interface elsewhere carries the index |
| Resolution.ResolveMeaning | master.c:99-145 | each entry ends with the results of its own two searches in the original graph and one warning per doubtful search; relations already set and everything else are untouched |
| Resolution.MasterResolveMeaning | master.c:131-145 | the whole pass in terms of indexes and list order |
| Resolution.ResolveAnyOrder | master.c:137-143 | the outcome does not depend on the order in which entries are processed |
| Master.ResolveMaster | master.c:104-115 | the master half of process on the heap |
| Master.ResolveLink | master.c:116-127 | the link half of process on the heap |
| Master.MasterResolve | master.c:131-145 | the pass on the heap does to the graph what the resolution function says |
| NetnsLookup.LinksMeaning | match.c:100-107 | every entry with a link identifier and index has exactly the link the per-namespace lookup gives; one with only an identifier points to the namespace; no other mark and no master changes |
| NetnsLookup.LookupsMean | match.c:65-91 | what these lookups give: the first interface with the index in the first namespace listed under the identifier, and nothing exactly when there is no such interface |
| NetnsLookup.FoundLinksSurvive | match.c:100-104 | master_resolve later overrides no link found this way |
| NetnsLookup.PeersExact | match.c:108-111 | in whatever order entries are visited, starting without peers, every reported peer is the one the lookup names if and only if the reports are symmetric and name nobody twice |
| Netnsid.MatchNetnsid | match.c:65-74 | the first namespace listed under the identifier |
| Netnsid.MatchIfNetnsid | match.c:76-91 | the first interface of that namespace with the index |
| Netnsid.MatchAllNetnsid | match.c:93-114 | the pass on the heap does to the graph what the lookup function says |
| Veth.PostEffect | handlers/veth.c:69-91 | one call keeps all pairs, pairs only two free ends that name each other, and pairs or warns unless it fails |
| Veth.PassOnlyPairs | handler.c:98-112 | the pass never breaks or changes a pair; each pair it adds joins two veth ends with mutual indexes that were free |
| Veth.PassStops | handlers/veth.c:76-77 | with device indexes starting at one, the pass fails exactly when it meets a veth device without peer and without peer index; nothing done before can rescue one |
| PostPass.StoppedForGood | handler.c:108-109 | an error ends the whole pass |
| PostPass.VethPartAlone | handler.c:98-112 | for peers, warnings and the outcome the pass with the tunnel handlers is the one with the veth handler alone |
| PostPass.TunnelsLinked | handlers/vxlan.c:138-154 | a kernel tunnel the pass gets to is linked, weakly, to the one interface that is up with its local address in the namespace it leaves through; all other links stay |
| PostPass.NamedTunnelsLinked | handlers/gre.c:159-176 | the same driver by driver, without the functions of the model: after the pass exactly the visited devices of the twelve tunnel drivers whose local address one interface alone holds are linked to it, weakly; the others have link and mark as before |
| Veth.PairedOrWarned | handlers/veth.c:85-89 | after success every visited veth device has a peer or a new warning |
| Veth.TruePairsMeet | handlers/veth.c:54-67 | two free ends naming each other without a rival become peers, whichever is visited first |
| Veth.LocalPairsMeet | handlers/veth.c:54-67 | with indexes unique per namespace the free ends of a pair in one namespace become peers although devices elsewhere name the same indexes, if each free one of these has a free other end in its own namespace |
| Handlers.VethPost | handlers/veth.c:69-91 | the callback on the heap |
| Handlers.TunnelPost | handlers/gre.c:159-176 | the callback of the kernel tunnels on the heap |
| Handlers.IfHandlerPost | handler.c:98-112 | the loop over all namespaces and interfaces on the heap, with its early end |
| Tunnel.HolderMeaning | tunnel.c:57-67 | an interface is returned exactly when it alone is up in the namespace and holds the address |
| Tunnel.TunnelFindAddr | tunnel.c:57-67 | the search on the heap returns that interface and changes nothing |
| OvsInvariant.LinkIfaceEffect | handlers/openvswitch.c:662-690 | link_iface sets at most the one link, to an entry of the interface's name, and changes otherwise only sub-drivers and root warnings; success with `required` means a link |
| OvsSearch.DeviceFound | handlers/openvswitch.c:602-660 | which entry is taken for an interface, in terms of names, drivers, masters, marks and ports: the first that can be its device in the namespace of the main device (in the root's while that is not known), else the first elsewhere; there is doubt exactly when several can be where the search ends |
| OvsSearch.ReachedMeans | handlers/openvswitch.c:794-861 | a bridge is treated to the end exactly when its main interface has such a device without doubt and no listed interface up to it, on a bridge with such a device, is in doubt |
| OvsSearch.DevicesFromStart | handlers/openvswitch.c:794-861 | every interface of such a bridge ends with the device so found before the pass, or with a new internal entry that carries its name and the bridge's, under the main device or the port's new entry there |
| OvsInvariant.DistinctEntries | handlers/openvswitch.c:812-855 | wherever the pass stops, also after an error, distinct names mean distinct entries for interfaces and ports |
| OvsInvariant.SearchKeeps | handlers/openvswitch.c:662-690 | a search, successful or not, disturbs nothing that is done: placed interfaces and ports, paired patch ports, links |
| Ovs.OnlyDoubtStops | handlers/openvswitch.c:812-859 | the only error the pass ends with is ERANGE |
| OvsExact.StopsExactly | handlers/openvswitch.c:794-861 | the pass ends without error if and only if no bridge whose main interface is found without doubt has an interface in doubt, and it completes exactly the bridges with such a main interface before the first one that has; configuration and graph before the pass decide |
| OvsExact.DoubtEndsIt | handlers/openvswitch.c:836-837 | a bridge with a doubtful interface and all bridges behind it are left out |
| OvsWarnings.LinkIfaceReports | handlers/openvswitch.c:662-690 | link_iface reports exactly its errors, each once and in the root's namespace: ERANGE when the search is in doubt, ENOENT when a required device is not there |
| OvsWarnings.LeftOutReported | handlers/openvswitch.c:794-861 | every bridge the pass begins and does not complete has a warning of its own in the root's namespace, whether it was passed over or ended the pass |
| OvsExact.LaterBridgeLeftOut | handlers/openvswitch.c:836-837 | an input on which a bridge that is clear by itself is left out |
| OvsTheory.LinkIfacesSettles | handlers/openvswitch.c:794-861 | whether or not an error ends the pass, the invariant holds and the bridges treated to the end are done |
| OvsTheory.EveryIfacePlaced | handlers/openvswitch.c:794-861 | after any pass every interface of a bridge treated to the end has an entry of its own and of its name, hanging under the bridge's entry or under a new entry for its port which hangs under the bridge's; new entries are internal and bear the bridge's name as internal namespace |
| OvsTheory.EveryIfaceMatched | handlers/openvswitch.c:602-690 | which entry such an interface gets is decided by the graph before the pass: a new one exactly if no entry there qualifies under its bridge's main entry, else the one scoring higher than all others |
| OvsDevices.LinkedAsAtStart | handlers/openvswitch.c:602-861 | wherever the pass ends and in whatever order bridges, ports and interfaces come, every link of a completed bridge, the main one included, is what undoubted searches of the graph before the pass find, or new if they find nothing |
| OvsExact.PlacedFromStart | handlers/openvswitch.c:794-861 | if a bridge and those before it are clear, its interfaces get entries of their own: the device found in the graph before the pass or a new one, under the device of the main interface or under a new entry for the port which hangs there |
| OvsExact.LinksFromStart | handlers/openvswitch.c:851-852 | link and weak mark of every interface of such a bridge: a tunnel with a local address is linked weakly to an interface if and only if that one alone is up with the address in the namespace of its entry, a malformed address leaves no link but the mark, and without an address, as for any other kind, link and mark are as before the pass |
| OvsExact.PatchPortsMeetFromStart | handlers/openvswitch.c:763-792 | patch ports of such bridges naming each other are peers |
| OvsExact.GrowthFromStart | handlers/openvswitch.c:825-836 | without doubt the root namespace gains exactly one entry per multi-interface port and per interface without a device of bridges with a main interface |
| OvsTheory.OthersKeepRelations | handlers/openvswitch.c:838-853 | after any pass entries no interface is linked to keep their master, entries no tunnel interface is linked to keep their link and weak mark, and peers stay together unless one is an end of a patch cable; all keep their namespace pointer |
| OvsTheory.RootGrowth | handlers/openvswitch.c:825-836 | after any pass the root namespace has gained exactly one entry per port given one and per interface linked to a new one, after success exactly one per multi-interface port and per interface without a kernel device; other namespaces gain none |
| OvsTheory.PatchPortsMeet | handlers/openvswitch.c:763-792 | two patch ports naming each other, with no device of either name and no third port naming them, are peers after any pass that completes their bridges, whichever comes first |
| OvsTheory.PatchLink | handlers/openvswitch.c:774-792 | a patch port is paired with the internal interface its peer option names if there is one; several give a warning and no pair, none gives nothing |
| OvsTheory.TunnelLink | handlers/openvswitch.c:755-761 | one call of link_tunnel: linked to an interface exactly when that alone is up in its namespace with the local address; a malformed address unlinks, a missing one changes nothing |
| OpenVSwitch.LinkTunnel | handlers/openvswitch.c:755-761 | on the heap: no address, nothing; otherwise the link becomes the holder of the address or none, and is marked weak |
| OpenVSwitch.LinkPatch | handlers/openvswitch.c:774-792 | on the heap: a doubtful search warns, a found port is paired, nothing found changes nothing |
| OpenVSwitch.Switch.LinkIface | handlers/openvswitch.c:662-690 | on the heap, with the error codes and root warnings |
| OpenVSwitch.Switch.CreateIface | handlers/openvswitch.c:692-718 | a new internal entry in the root namespace |
| OpenVSwitch.Switch.DoIface | handlers/openvswitch.c:835-855 | one interface of a port: found or created, re-parented, tunnel or patch handled |
| OpenVSwitch.Switch.DoPort | handlers/openvswitch.c:824-856 | one port, with its own entry if it has several interfaces |
| OpenVSwitch.Switch.LinkIfaces | handlers/openvswitch.c:794-861 | the whole pass on the heap, skipped bridges and early errors included |
| OpenVSwitch.Switch.GlobalPost | handlers/openvswitch.c:886-915 | from the parsed bridges on: the pass, with its error turned into success |
| Passes.FillList | netns.c:387-394 | the passes in their order on the heap; the handlers' pass runs whatever the Open vSwitch pass met |
| Passes.WholeRun | netns.c:387-394 | after any run each earlier entry has the master its index names unless an Open vSwitch interface is linked to it, the link its identifier and else its index name unless an Open vSwitch tunnel is linked to it or it is a kernel tunnel whose local address has a sole holder, the peer found by identifier unless a patch port is involved, and the peers made before the handlers' pass; if that pass succeeds such a kernel tunnel is linked to that holder and every veth device has a peer or a warning |
| Passes.FromScan | netns.c:355-390 | on entries as the scan leaves them masters and links are what the numbers alone name, and no peer is known |
| Passes.ReportedPeersStay | netns.c:387-394 | with consistent reports every reported peer is in the final graph the one its identifier and index name, unless a patch port is linked to either end |
| Passes.PlacedInTheEnd | netns.c:389-394 | in the final graph the Open vSwitch interfaces of bridges that are clear, like those before them, are their devices or new and hang where they belong |
| Passes.PatchPortsInTheEnd | netns.c:389-394 | and their patch ports naming each other are peers |
| Passes.LinksInTheEnd | netns.c:387-394 | links and weak marks of the interfaces of such bridges in the final graph: what their tunnel options ask for, unless the entry is the device of a kernel tunnel whose local address has a sole holder, which it is then linked to |
| FromMessages.VethHasNoLink | handlers/veth.c:41-52 | the entry loaded for a veth device gets no link from identifiers or indexes; what its link message reports is its peer, and without a report the probed index is |
| FromMessages.MessageToRelations | if.c:96-130 | from bytes to pointers: what the attributes of a link message say about master, link and namespace identifier is what the entry loaded for it hangs under and is linked to after match_all_netnsid and master_resolve |
| NlMsg.FitIsLeast | netlink.c:94-109 | the size reached by doubling is the least that suffices |
| NlMsg.DoubleUntil | netlink.c:101-102 | the doubling loop ends, without wrapping around in 32 bits, at that size |
| NlMsg.AddedAllMeaning | netlink.c:123-162 | over any run of puts bytes already written stay, each piece starts at the next multiple of four, gaps and padding are zero, and the length field holds the length |
| NlMsg.Message.Realloc | netlink.c:94-109 | the content is kept and the size becomes the least doubling |
| NlMsg.Message.PutRaw | netlink.c:123-140 | the content grows by gap, data and padding |
| NlMsg.Message.Put | netlink.c:142-162 | nlmsg_put and nlmsg_put_padded: content, length field, and the buffer is the least doubling of 16384 that holds the message |
| NlMsg.New | netlink.c:182-196 | a new message is exactly its header, with the request flag |
| NlMsg.Message.Get | netlink.c:164-173 | the bytes are handed out if so many are left, and the cursor moves by the aligned length |
| NlMsg.Message.Unget | netlink.c:175-180 | the cursor moves back by the aligned length |
| NlMsg.CursorInBounds | netlink.c:164-180 | under any sequence of get and unget the cursor is a multiple of four and at most the aligned length |
| NlMsg.ForthAndBack | netlink.c:164-180 | a successful get is undone by unget |
| Attrs.ParseMeaning | netlink.h:137-152 | on every byte string the iteration visits the one maximal chain of attributes that fit, and reads only inside the string |
| Attrs.LastOfMeaning | netlink.c:203-229 | the last attribute of a type |
| Attrs.AttrTable | netlink.c:203-229 | nlmsg_attrs and nla_nested_attrs map each type up to the maximum to the position of its last occurrence, or to nothing |
| Attrs.NlaPut | netlink.c:231-240 | nla_put appends the attribute's header and payload |
| Attrs.EncodingParses | netlink.c:231-240 | an encoded list of attributes reads back as itself exactly when no payload exceeds 65531 bytes |
| Attrs.RoundTrip | netlink.c:123-173 | after any header and fixed part, of any size, attributes written with nla_put are found again by nlmsg_get and the iteration, exactly under that condition |
| Exchange.RecvIsFlat | netlink.c:283-338 | how messages are packed into datagrams does not matter |
| Exchange.DumpMeaning | netlink.c:261-343 | the first message or event that ends a dump decides it: with DONE it succeeds with all matching messages before, in order; with an error it fails with nothing, except that code zero is success with nothing |
| Exchange.SingleMeaning | netlink.c:335-336 | a request that is not a dump gets the first matching message, or nothing |
| Exchange.RecvMeaning | netlink.c:283-343 | the outcome in terms of ports, sequence numbers and types of the messages the kernel sent, up to the first event that is no datagram: what the first DONE, error message or (outside dumps) answer bearing the handle's port and number makes it, with all earlier answers to that number, in order; without one that event's error |
| Exchange.RecvUses | netlink.c:275-338 | a receive reads up to and including the first event that ends it, and no further |
| Exchange.WalkPacked | netlink.c:308 | the messages packed into a datagram, each padded to four bytes, are the ones the loop sees |
| Exchange.FieldsRead | netlink.c:309-314 | type, flags, number and port of a message are read from where RFC 3549 lays them out, and an error message's number from behind its header |
| Exchange.CompleteExactly | netlink.c:305-318 | a successful dump holds all replies before its end exactly when a DONE ended it or there were none |
| Exchange.AckLosesReplies | netlink.c:313-318 | on every trace that starts with a datagram holding a reply and an acknowledgement, a dump succeeds empty |
| Exchange.RunSucceeds | netlink.c:353-385 | a successful exchange is the last of at most sixteen attempts, with its sequence number, none of its messages flagged as interrupted |
| Exchange.RunHistory | netlink.c:353-385 | the course of an exchange: each attempt has the next sequence number and reads on where the last one stopped; an attempt is repeated exactly as long as it timed out, met nothing to read or was interrupted, and fewer than sixteen were made; the last one is the result |
| Exchange.DumpExchange | netlink.c:353-385 | for every trace without acknowledgements a successful dump returns, after at most sixteen requests, exactly the messages from the kernel that bear the port and the last sequence number, before the first such DONE, in order, none of them an error or flagged as interrupted |
| Exchange.SingleExchange | netlink.c:335-336 | any other successful request returns the first message bearing the port and the last sequence number |
| Exchange.NlSend | netlink.c:242-259 | the sequence number advances in 32 bits and is stored in the request's header |
| Exchange.NlRecv | netlink.c:261-343 | the receive loop returns what the receive function says, consumes exactly the events it says, and so meets `RecvMeaning` |
| Exchange.CheckInterrupted | netlink.c:345-351 | tells whether some message has the flag |
| Exchange.NlExchange | netlink.c:353-385 | the retry loop returns what the exchange function says |
| Exchange.MakeEntry | netlink.c:319-333 | a received message is copied whole, its cursor behind the header |
| IfAddrs.JudgeMeaning | if.c:196-217 | a message counts for an interface exactly when it is a long enough IPv4 or IPv6 address message with its index and a local or interface address |
| IfAddrs.AddressIsPayload | if.c:227-238 | the address is the payload of the last local address, else of the last interface address |
| IfAddrs.FillMeaning | if.c:189-247 | success means no message was too short, and then exactly the supported address messages bearing the index were taken, in dump order |
| IfAddrs.HoldingInOrder | if.c:189-247 | their order is that of the dump, and none is left out |
| IfAddrs.ListErrMeaning | if.c:286-301 | the list succeeds exactly when every link message is usable, its handlers report no error and no address message is too short; otherwise the first link message for which that is not so decides the error |
| IfAddrs.FillIfAddr | if.c:189-247 | the loop appends that list and restores every cursor of the shared dump, also on an error |
| IfAddrs.FillIfLink | if.c:96-187 | the entry on the heap shows what `Reading.LinkReadsBack` is about; wrong type, short message or missing name is an error |
| IfAddrs.IfList | if.c:286-301 | after success there is one record per link message, in order, each with exactly its own addresses |
| Reading.LinkReadsBack | if.c:96-130 | a link message laid out with index, flags and attributes in any order reads back as that index, up flag, name, master, link and namespace identifier |
| Reading.AddressReadsBack | if.c:196-238 | an address message laid out with family, prefix length, index and attributes gives the interface its local address, else its interface address, and a differing interface address as the peer's |
| Reading.RouteReadsBack | handlers/route.c:64-136 | a route message laid out likewise reads back field by field, the table id of the attribute going before that of the fixed part |
| Loading.LoadedExactly | if.c:286-301 | exactly these entries are added, in dump order at the end of their namespace's list, nothing elsewhere, and without relations |
| Loading.EntrySays | if.c:96-187 | what each entry says: a bridge from sysfs and a tunnel's lower device come in as the source has it, and the link of a veth device is its peer |
| Loading.LoadIfaces | if.c:267-311 | from the two dumps of a namespace: on success the graph gains exactly the entries the link messages, the addresses and the driver handlers describe, veth_scan's change included; on an error none |
| Routes.RouteCreate | handlers/route.c:64-136 | on the message object, the route is the one `Reading.RouteReadsBack` is about; wrong type or a short message is an error |
| Routes.FindByIndex | handlers/route.c:153-161 | the first interface with the index, or nothing |
| Routes.TablesPartition | handlers/route.c:195-213 | tables are non-empty with strictly decreasing ids, each holds the routes of its id in dump order, and together they hold every route exactly once |
| Routes.OfTableInOrder | handlers/route.c:195-213 | the routes of a table are those with its id at increasing positions of the dump, none left out |
| Routes.DumpedSays | handlers/route.c:195-205 | each route leaves through the first interface with its outgoing index and comes in through the first with its incoming index |
| Routes.RouteScan | handlers/route.c:164-225 | success gives that partition with first-match interfaces; any error leaves the namespace without tables |
| Netns.AddVarMeaning | netns.c:91-131 | entries of the run directory have distinct kernel ids, no process id, and every readable namespace is listed from which the way back to the root's was open |
| Netns.AddVarNames | netns.c:91-131 | each entry added bears kernel id and name of a file of the run directory, and an error is that of such a file |
| Netns.ProcsMeaning | netns.c:161-200 | kernel ids stay distinct, earlier entries are untouched, every namespace some process opened is listed once with the lowest process id from its first opener on and the name of such a process |
| Netns.AtolReadsDecimal | netns.c:176 | the decimal text of a number, whatever follows it unless that is a digit, is read as the number |
| Netns.NameTellsPid | netns.c:133-159 | the name of a process's entry has the id it is sorted by behind its first four characters |
| Netns.OrderIrrelevantExactly | netns.c:161-281 | whether a kernel id is listed and with which process id is the same for every order of the directory if and only if the id was listed before, no process can open it, or a process with the lowest id showing it can |
| Netns.OrderIrrelevant | netns.c:252-281 | in particular if all namespaces can be opened |
| Netns.OrderMatters | netns.c:193-197 | an instance: the lowest process cannot open the namespace, another one can |
| Netns.WholeList | netns.c:202-281 | the whole list, root first, then run directory, then processes: distinct kernel ids, and every namespace listed that a readable file or an opened process shows |
| Netns.BackExactly | netns.c:91-131 | after the run directory the program is in the root's namespace if and only if no entry was entered, the last one entered was listed, or it names the root's namespace |
| Netns.ScannedAtHomeExactly | netns.c:345-377 | under exactly that condition every namespace is scanned from inside itself |
| Netns.SecondName | netns.c:121-125 | an input on which the root is scanned from elsewhere: two names of one namespace |
| Netns.CheckDuplicate | netns.c:65-74 | the first entry with the kernel id |
| Netns.GetProcEntry | netns.c:161-200 | one process: a new entry, a lower process id and its name, or nothing |
| Netns.AddProcList | netns.c:252-281 | the loop over /proc on the list of entries |
| Netns.AddVarList | netns.c:223-250 | the loop over the run directory on the list of entries and the namespace the program is in; an entry is passed over if the root namespace could not be entered again |
| Frontend.OutputsAreRecords | frontend.c:36-112 | the list of outputs is exactly the records the command line describes: format, file and restriction of each segment |
| Frontend.AcceptedExactly | frontend.c:57-65 | a command line is accepted exactly when it starts with a format or has none |
| Frontend.EveryOutputOnce | frontend.c:80-99 | every output option yields exactly one record with its file in the most recent format, and no other record has a file |
| Frontend.OnlyNewest | frontend.c:101-112 | no option touches a record that is not the newest; config-only changes only its mask |
| Frontend.DefaultStays | frontend.c:67-78 | once the default format was used every record stays in it and every format option is rejected |
| Frontend.Options.AddFormat | frontend.c:57-65 | the callback, with its rejection |
| Frontend.Options.SetOutput | frontend.c:80-99 | the callback, cloning the format if the newest record has a file |
| Frontend.Options.SetNoState | frontend.c:101-112 | the callback |
| Ident.NsIdInjective | utils.c:65-74 | namespace ids tell namespaces apart, for names that fit and are not empty |
| Ident.IfIdInjective | utils.c:37-50 | interface ids tell apart namespace, internal namespace and name, for slash-free interface and internal names, when the identifier as a whole fits its buffer |
| Ident.SameIdExactly | utils.c:37-50 | an uncut id, whatever its parts contain, equals that of a fitting interface if and only if that interface is what the last two slashes of the id separate |
| Ident.CollidesExactly | utils.c:37-50 | an uncut id is that of some fitting interface if and only if what stands before its last two slashes is short enough for a namespace name |
| Ident.ConditionsNeeded | utils.c:37-74 | instances: an empty namespace name, a slash in an internal name, and names too long for the buffer |
| Edges.DotEdges | frontends/dot.c:110-152 | exactly one undirected edge per pair of distinct peers, none for an entry that is its own peer, one edge per master, link and remote namespace |
| Edges.DotLines | frontends/dot.c:110-152 | in the whole output, for entries that identifiers tell apart: from x to y exactly one master arrow if y is the master of x and none otherwise, exactly one link arrow, dashed exactly if weak, if x is what y is linked to, and exactly one undirected line in one of two directions per pair of distinct peers; one line per pointer to a remote namespace; no other line |
| Edges.WriteEntry | frontends/dot.c:115-150 | the lines written for one entry on the heap are the drawings of its edges |
| Edges.DotOutput | frontends/dot.c:197-198 | the lines written for the whole graph, namespace by namespace, are the drawings of its edges, and so meet `DotLines` |
| Json.KeyedExact | frontends/json.c:168-190 | an object filled key by key has exactly the given keys, as many as there are when they differ |
| Json.ParentsExact | frontends/json.c:168-180 | the parents of an interface without a master are exactly the interfaces linked to it, none overwritten; with a master, the master alone |
| Json.ChildrenExact | frontends/json.c:182-193 | the children of an interface without a link are exactly the interfaces it is master of; with a link, what it links to |
| Json.ShownAtBothEnds | frontends/json.c:168-193 | a master relation shows at both ends exactly when the master has no link or links back |
| Json.ObjectSays | frontends/json.c:128-201 | the object of an interface identifies it and its namespace, shows exactly its peer as peer, the namespace it points to exactly if it has no link index, its kind, and a warning exactly if there was one |
| Json.InterfacesExact | frontends/json.c:128-201 | no interface of a namespace overwrites another |
| Json.Connections | frontends/json.c:174-190 | the loop over a reverse list sets exactly its members' keys |
| Json.InterfacesToArray | frontends/json.c:128-201 | the loop over a namespace builds exactly those objects |

## Left out

- The environment: sockets, `poll`, `sendmsg`, `recvmsg`, `setns`, mounts, sysfs, ethtool and directory reading. What they deliver is an input: a trace of events, directory entries, results of handlers.
- Memory exhaustion and `free`: allocation succeeds, and popping and freeing lists at the end is not modelled beyond `list_pop`.
- Jansson, the Open vSwitch database query and its parsing, and the teamd exchange: Open vSwitch starts from parsed bridges, ports and interfaces; the kernel's answer to `check_vport` is a set of namespace and name.
- The other post callbacks (bond, team and physical functions), which set no master, link or peer, and label text: `if_handler_post` is modelled with veth and the kernel tunnels (vxlan, gre, vti, ipxipy). What netlink and scan callbacks find out (drivers, a tunnel's local address and lower device, a bridge from sysfs, a probed peer) is an input of `Loading`.
- `connect_ovs`, reading and parsing: a query that fails or comes back empty leaves the graph as a configuration without bridges does, since `ovs_global_post` hides the error. Open vSwitch labels and edge labels.
- Address text: `inet_pton` is one of absent, malformed or an address; `inet_ntop` and MAC formatting are not modelled.
- Byte order: a little-endian host, as in the netlink layer's plain loads and stores.
- A driver name is absent for entries made by the Open vSwitch pass; comparing an absent name counts as different, where the source assumes a name.
- Reads beyond the end of a message (an error message or attribute too short for its value) give zero bytes.
- Matcher.MatchIfNs: states success only, for the same reason as `MatchIf`.
- Matcher.MatchIf: states success only, because no callback of the program returns a negative score; the error branch of the search itself is `Match.HeuristicError`.
- Exchange.NlRecv: returns received messages as byte strings; `MakeEntries` turns them into separate message objects, and the `next` pointers between these are a sequence.
- Exchange.NlExchange: leaves an empty list where a failing first `sendmsg` leaves the caller's variable as it was.
- NlMsg.Message.PutRaw: is stated for messages below 2^31 bytes, the range of the source's `int` fields.
- IfAddrs.IfList: the results of the netlink and scan callbacks are numbers; what they write to the entry is in `Loading.InfoOf`.
- Handlers.IfHandlerPost: knows the veth and tunnel handlers only.
- `netns_entry` is modelled twice: with its interfaces and relations in `Topology`, with what finding it records in `Netns`.
- IfAddrs.FillIfLink: models index, name, up flag, master, link and namespace identifier; MTU, hardware address, XDP and the driver name are left out, and the handlers run at its end are one result code.
- Routes.RouteCreate: does not model route metrics; the request and its exchange are represented by their error code and messages.
- Netns.AddProcList: process ids are unbounded, and the command name read from `/proc` is an opaque string.
- `netns_get_all_ids`: which identifiers a namespace knows is an input of the graph.
- `Topology.table` and `IntrusiveList.ListStore`: stand for the address space, so that an embedded node leads back to its entry and an operation on one list is known to leave the others alone; the source has pointer arithmetic in their place.
- OpenVSwitch.Switch.constructor: bridges, ports and interfaces refer to each other by number, where the source has pointers.
- Edges.WriteEntry: does not model line styles other than weak links, edge labels and physical functions.
- Json.Describe: models identifiers, relations, remote namespace, kind and warning; properties, addresses and state are left out.
- `arg_parse` and option registration, the frontend lookup and the opening of output files.
