# A verified model of the virtual router

The router answers pings to its own addresses, forwards everything else by exact match on the
destination, asks ARP for every next hop, queues packets until the answer comes, and gives up after
five unanswered requests. This project models that state machine together with the code it rests on
-- the Internet checksum, the frame builders, the address table, and the SHA-1 used for
authentication -- and proves what the code keeps, when it ends, and what it computes.

## How it is organised

| file | content |
|---|---|
| `Bytes`, `Checksum`, `Packets` | octets, `cksum` against RFC 1071, every frame the router reads or builds |
| `FrameBuffers` | the code that writes those frames in place, on arrays |
| `Routing`, `Interfaces` | lookups, routing table check; the linked interface list |
| `ArpTable` | the 100-slot table and a chronological log it agrees with |
| `RouterModel` | the specification: each function of `sr_router.c` and `sr_arpcache.c` on one state value |
| `RequestList`, `RouterProgram` | the program: pointer-linked request list, arrays, updates in place; every method refines its function in `RouterModel` |
| `RequestQueue`, `ReturnGraph`, `Cascade`, `Activation`, `Reentrancy`, `Termination`, `Sweep` | what activations do, when give-ups end, what they destroy, how a sweep ends |
| `Invariants`, `Preservation`, `Events`, `Disposition`, `Runs`, `Resolution`, `Timing`, `Wire`, `Notices` | invariants and theorems over every run |
| `FailingRuns` | runs from the start into the ways a timer pass can fail, and which routing tables allow them |
| `BlockHashing`, `Fips180`, `Sha1` | FIPS PUB 180-1 as a pure definition, and the streaming class that refines it |

**Runs.** A run starts in the initial state with clock 1; an event is a received frame or a timer
pass, at a time that never goes back. Histories of accepted, transmitted, attempted and abandoned
packets are kept beside the state and never read. `Runs.NextIsFunctional` shows that events are
deterministic.

**Re-entrancy.** Giving up on a request sends errors, an error is routed and queued, and queueing
handles the request it joins, which may be given up in turn -- while the first one is still on the
list. An activation therefore has three outcomes: it ends in a state, it reads a request that was
freed, or it needs more nested give-ups than it was granted (`fuel`). Fuel bounds nothing in the
results: they quantify over all fuel, more fuel never changes an outcome, and the theorems say
exactly when some fuel suffices. The condition is a graph on the addresses of exhausted requests,
with an edge from R to R' when the error for some packet on R would wait on R'. For every routing
table no activation destroys a request that is being given up, an activation ends only if no cycle can
be reached, and it destroys whatever can be reached. If no route leads to one of the router's own
addresses, it ends whenever no cycle can be reached and destroys nothing else; a sweep then never ends
if and only if it comes to a request from which a cycle can be reached, and reads a freed request if
and only if it first comes to one that takes its successor down. With such a route the graph changes
under an activation, and absence of cycles does not suffice (`FailingRuns.SelfRouteHangs`).

All of this happens in runs from the start. `FailingRuns.CanHangIff` says which routing tables can
bring the router to hang; `SharedNextHopHangs`, `ReturnThroughSilentHopFaults` and `SelfRouteHangs` are
families of runs, with one concrete run each. "Never ends" means unbounded recursion: the program
itself would exhaust its stack.

**Where prose and code differ.** Generated packets have TTL 255 (`sr_router.h:30`), not 64
(`README.md:55`). Routes match exactly (`sr_router.c:429-438`); there is no longest prefix match.
`cksum` never returns 0 (`sr_utils.c:19`), so a header whose checksum field is 0 is refused even if
it sums to 0xffff. `sr_arpcache_lookup` returns the last matching slot, which is the newest
binding exactly if no slot after the one it went to holds its address (`ArpTable.NewestIsFoundIff`,
`ArpTable.LookupMayBeStale`).

**Assumptions.** Each event reads the clock once. A received frame and a timer pass are atomic,
including the unlocked call at `sr_router.c:424`. Allocation succeeds. That no route
leads to one of the router's own addresses (`Routing.NoSelfRoute`) is assumed only where the text above
says so and in `FailingRuns.ReturnThroughSilentHopFaults`. The methods of
`RouterProgram.Router` require that the activation ends according to `RouterModel`; when it does is
what `Resolution.ReceiveEndsIff` and `Resolution.TimerOutcomeIff` settle.

## Model

| member | source | states |
|---|---|---|
| Runs.FrameInOnePlace | sr_router.c:144-166 | in every reachable state each frame `route_and_send` accepted is pending on one request, or was delivered once, or was abandoned once, and never two of these |
| Runs.AbandonedOnceAnswered | sr_router.c:462-473 | along every run the packets abandoned are exactly those for which one Host Unreachable was attempted |
| Runs.QueuedRequestFacts | sr_router.c:453-483 | in every reachable state a queued request was sent one to five times, as often as ARP requests were emitted, a second apart, last at `sent`; its packets are nonempty, newest first, and resolve to its address and to their interface |
| Runs.QueuedAddressesDistinct | sr_arpcache.c:71-84 | queued requests have distinct addresses and stand newest first |
| Runs.PacketsShareInterface | sr_router.c:475-480 | if equal next hops imply equal interfaces, all packets on a request share one interface |
| Runs.EmissionsAreLimited | sr_router.c:457-482 | at most five ARP requests per request over its whole life, consecutive ones at least a second apart |
| Runs.SendNeverRefused | sr_vns_comm.c:517-551 | every frame given to `sr_send_packet` in a run is long enough and carries the address of the interface its name looks up |
| Runs.DeliveryFacts | sr_router.c:149-165 | a delivered frame is an accepted one, byte for byte past the link addresses, sent to a hardware address that a reply for its next hop supplied |
| Runs.ForwardedIntact | sr_router.c:287-296 | a forwarded frame finally transmitted equals the received one except for the two link addresses, a TTL one lower and at least 1, and a header checksum that verifies |
| Runs.ReplyDrainsNewestFirst | sr_router.c:144-166 | in every run a reply sends every packet that waits for its address once, in reverse queueing order, takes their request off the list, and sends nothing else |
| Runs.ReplyDelivers | sr_router.c:153-163 | the frame sent for each of these packets: as queued, from the address of its interface, to the hardware address in octets 22 to 27 of the reply |
| Runs.QueryIsResolved | sr_router.c:169-224 | a query received by the router that owns the address is answered once, and that answer makes the asker learn the binding and drain its request |
| Runs.LookupAlongRun | sr_arpcache.c:33-55 | in every reachable state a lookup succeeds iff a learned and unexpired binding remains |
| Runs.NextIsFunctional | sr_router.c:94-116 | an event that completes has exactly one outcome, given the octets (`Config.beyond`) that follow a buffer too short for the quotation |
| Runs.RoutesIffListed | sr_router.c:395-438 | after verification, and with interfaces appended, routing a frame fails iff no route names its destination |
| Resolution.GoneAfterSixSweeps | sr_router.c:453-483 | no request survives six timer passes a second apart, however many packets join it |
| Resolution.AfterTimer | sr_arpcache.c:232-249 | after a pass at time T every request queued before and still queued has `sent` == T and was sent at least once |
| Resolution.RouteEndsIff | sr_router.c:395-426 | for every routing table, routing a frame never touches freed memory and ends only if no cycle of exhausted requests is reachable from the request it joins; without a route to an own address that suffices |
| Resolution.ReceiveEndsIff | sr_router.c:94-116 | for every routing table, a received frame never makes the router touch freed memory, and its handling ends only if it gives rise to no frame that joins a request from which a cycle is reachable; without a route to an own address that suffices |
| Resolution.TimerOutcomeIff | sr_arpcache.c:228-252 | a timer pass ends, reads a freed request, or never ends, exactly as the fate computed from the state before its sweep says |
| FailingRuns.CanHangIff | sr_router.c:462-473 | for every routing table: some run from the start leads to an event that never completes iff some destination is routed over an interface that has an address |
| FailingRuns.UnnumberedCompletes | sr_router.c:336-356 | if none is, every event completes from every state |
| FailingRuns.SharedNextHopHangs | sr_router.c:462-473 | for every routing table: a packet whose source and destination lie behind one silent next hop leads, by a run from the start, to a sixth second that never ends |
| FailingRuns.HangingRun | sr_router.c:462-473 | a concrete run of that family: one interface and two hosts behind a gateway that never answers |
| FailingRuns.ReturnThroughSilentHopFaults | sr_arpcache.c:21-26 | the other failing family: a packet that cannot be answered, then one to another hop whose sender lies behind the first hop, lead by a run from the start to a sweep that reads a request it has freed |
| FailingRuns.FaultingRun | sr_arpcache.c:21-26 | a concrete run of that family |
| FailingRuns.TickAsksAll | sr_arpcache.c:19-27 | a pass over requests that are all due and have attempts left notes one more attempt at that time on each of them and changes nothing else on the list |
| FailingRuns.SelfRouteDefeatsGraph | sr_router.c:336-390 | with a route to an own address: states in which an activation never ends although no cycle is reachable in the return graph |
| FailingRuns.SelfRouteHangs | sr_router.c:336-390 | a family of runs from the start into such a state and a timer pass that never ends |
| FailingRuns.SelfRoutedRun | sr_router.c:336-390 | a concrete run of that family |
| Timing.QueriesApart | sr_router.c:457-482 | two ARP requests for one address, for whatever requests they were made, are at least a second apart unless a reply for it came in between |
| Timing.SettledAfterSixSweeps | sr_router.c:453-483 | every frame accepted before the first of six passes a second apart has, after the sixth, been delivered once or abandoned once |
| Timing.ReplyIsFoundIff | sr_arpcache.c:131-142 | in every run, what a lookup finds after a reply: the last binding for the address after the filled slot, or else what the reply brought; if time has passed since the event before, the reply is found iff there was a free slot and no slot after the first free one held the address |
| Timing.TimerLeavesFresh | sr_arpcache.c:237-244 | in every run a timer pass leaves exactly the bindings that were there and are at most 15 seconds old, each brought by a reply |
| Wire.ArpAnswerIff | sr_router.c:118-194 | in every run an event sends an ARP answer iff it is a query, for Ethernet and IPv4, for the address of the interface it came in on, and then sends one and does nothing else; replies send deliveries only, timer passes and IPv4 packets queries only, and anything else changes nothing but the clock |
| Wire.QueriesFollowPackets | sr_router.c:475-482 | in every run each query follows a frame accepted for its target, the newest such frame by then, and goes out on that frame's interface as a broadcast from the addresses of that interface, all 42 octets given |
| Wire.QueriesAreDated | sr_router.c:475-482 | the time and the number of accepted frames that a query carries are those of the event that sent it |
| Wire.AskedOnRightInterface | sr_router.c:475-480 | if equal next hops imply equal interfaces, every destination behind the target of a query is routed over the interface the query goes out on |
| Wire.ArrivalAsks | sr_router.c:422-424 | in every run a packet that has a frame accepted leaves the request for its next hop, new or old, asked for at that very time, or gives it up if five queries had gone out and the last is a second old |
| Wire.RequestEnds | sr_router.c:453-473 | in every run a request leaves the list only by a reply from its address or after exactly five queries, the last at least a second before |
| Wire.TableFollowsEvents | sr_arpcache.c:108-147 | in every run the table is what replies and timer passes made it, in this order, and no other event touches it |
| Notices.AbandonedSendersTold | sr_router.c:462-473 | in every run, for every frame: as many Host Unreachables about it were originated as packets with its octets were abandoned, if a route leads back to its sender over an interface with an address, and none if not; no packet is abandoned twice |
| Notices.UnreachableContent | sr_router.c:336-390 | in every run each Host Unreachable goes to the sender of the packet it is about, from the interface on the route there, and quotes 28 octets of it |
| Activation.HandleAdvances | sr_router.c:453-483 | whatever the routing table: an activation that ends destroys the handled request if it was exhausted and else leaves it not due, touches other requests only as allowed, moves no packet to another request, sends nothing but queries, and keeps them paced and on the interface of the newest packet |
| Reentrancy.HandleNeverFaults | sr_router.c:453-473 | for every routing table, handling a queued request never touches freed memory, however give-ups nest |
| Reentrancy.HandleSpares | sr_router.c:462-473 | no finished give-up destroys a request that is itself being given up |
| Reentrancy.EndsOnlyIfAcyclic | sr_router.c:462-473 | for every routing table, an activation that ends could reach no cycle, and left no reachable node of the return graph |
| Reentrancy.EdgeFreeHandle | sr_router.c:453-473 | without edges, whatever the routing table, an activation ends, destroys at most its own request and adds no edge |
| Termination.HandleEndsIff | sr_router.c:453-473 | for every routing table, handling a request never touches freed memory and ends only if no cycle is reachable in the return graph; without a route to an own address it ends whenever none is |
| Termination.HandleDestroysReachable | sr_router.c:462-473 | for every routing table, a finished activation destroyed every exhausted request reachable from the one handled; without a route to an own address it destroyed no other |
| Termination.HandleMoreFuel | sr_router.c:453-483 | the nesting bound is not part of the behaviour: a finished activation is the same under any larger one |
| Sweep.SweepOutcomeIff | sr_arpcache.c:19-27 | decided on the state before it, a sweep ends, or reads a freed request, or never ends: three conditions, each exact |
| Sweep.EdgeFreeSweep | sr_arpcache.c:19-27 | without edges, whatever the routing table, the sweep ends and handles every request queued at its start exactly once, and no prepended one |
| Sweep.SweepVisits | sr_arpcache.c:19-27 | any finished sweep visits requests at most once, newest first, only ones queued at its start; those it did not visit are gone |
| Sweep.SweepLeavesNoneDue | sr_arpcache.c:19-27 | no request queued at the start of a finished sweep is due after it |
| Sweep.FateAround | sr_arpcache.c:21-26 | one iteration: the fate before it is the fate after it if the saved successor is still queued, and a read of a freed request if not |
| Disposition.TransitDisposition | sr_router.c:279-302 | in octets: a packet in transit is passed on, TTL one lower, iff TTL > 1 and a route exists; otherwise Time Exceeded or Network Unreachable goes to its sender, from the address of the receiving interface or, if it has none, of the interface on the route back, iff there is such an address and a route back; otherwise nothing changes; nothing else is originated but Host Unreachables |
| Disposition.OwnDisposition | sr_router.c:226-277 | in octets: a packet to the router is answered by an echo reply iff its header is good, its protocol is 1, at least 8 ICMP octets follow, their type is 8, their sum is 0xffff and their checksum not 0, and a route leads back; all else changes nothing |
| Disposition.TimerDisposition | sr_arpcache.c:228-252 | a timer pass only extends the histories and originates Host Unreachables only |
| Disposition.ArpDisposition | sr_router.c:94-167 | in octets: a query for the address of the receiving interface is answered once, with all 42 octets given; a reply is learned and drained; every other frame that is not IPv4 changes nothing |
| Events.StepInv | sr_router.c:94-116 | every completed event keeps the whole invariant |
| Events.DrainIs | sr_router.c:149-165 | the drain loop sends each packet once, in list order |
| Preservation.HandleInv | sr_router.c:453-483 | handling a request keeps the invariant, through any nesting |
| Preservation.HandleBalanced | sr_router.c:462-473 | the packets it abandons are, counted with multiplicity, the packets it attempts errors for |
| Notices.HandleMatched | sr_router.c:453-473 | handling a request keeps notices and attempts in step, through any nesting |
| Invariants.EnqueueInv | sr_arpcache.c:63-102 | queueing a correctly built and resolved frame keeps the whole invariant |
| RequestQueue.EnqueueView | sr_arpcache.c:63-102 | on the map of requests, queueing replaces or adds exactly the one for the next hop |
| RequestQueue.DestroyView | sr_arpcache.c:151-187 | destroying removes exactly that request from the map |
| RequestList.ArpQueue.QueueReq | sr_arpcache.c:63-102 | on the linked list: joins the first request for the address or prepends a new one; list stays acyclic |
| RequestList.ArpQueue.Detach | sr_arpcache.c:108-129 | unlinks the request for the address and no other, or nothing |
| RequestList.ArpQueue.Destroy | sr_arpcache.c:151-183 | unlinks exactly the given node; leaves the list alone if that node was already detached, whatever its address |
| RequestList.ArpQueue.MarkSent | sr_router.c:481-482 | notes time and count on that request only |
| RequestList.ArpQueue.NodeIsQueued | sr_arpcache.c:154-170 | a node on the list is the only one under its name |
| RouterProgram.Router.HandlePacket | sr_router.c:94-116 | refines the received-frame event; the lent packet is left as it was |
| RouterProgram.Router.TimerPass | sr_arpcache.c:228-252 | refines the timer event |
| RouterProgram.Router.HandleArpReq | sr_router.c:453-483 | refines retry and give-up on the live list |
| RouterProgram.Router.NotifySenders | sr_router.c:462-470 | refines the give-up loop; the request is still on the list afterwards |
| RouterProgram.Router.Ask | sr_router.c:475-482 | refines one more ARP request |
| RouterProgram.Router.SendIcmpError | sr_router.c:336-390 | refines error generation, through the frame built in place |
| RouterProgram.Router.RouteAndSend | sr_router.c:395-426 | refines routing; fails exactly on unroutable frames |
| RouterProgram.Router.QueueAndHandle | sr_router.c:422-424 | refines queueing followed by handling |
| RouterProgram.Router.HandleArpPacket | sr_router.c:118-167 | refines ARP handling |
| RouterProgram.Router.HandleArpReply | sr_router.c:144-166 | refines insert, drain and destroy of the detached request |
| RouterProgram.Router.SendWaiting | sr_router.c:153-163 | the drain loop, frames rewritten in a buffer |
| RouterProgram.Router.HandleIpPacket | sr_router.c:226-303 | refines IP handling |
| RouterProgram.Router.CheckIp | sr_router.c:229-253 | the header tests, which zero and restore the checksum in the packet |
| RouterProgram.Router.HandleValid | sr_router.c:255-302 | refines the part past the header tests |
| RouterProgram.Router.CheckEcho | sr_router.c:258-272 | the echo tests, likewise |
| RouterProgram.Router.SendEchoReply | sr_router.c:305-334 | refines the echo reply |
| RouterProgram.Router.ForwardPacket | sr_router.c:287-296 | refines forwarding of a private copy |
| RouterProgram.Router.ErrorSource | sr_router.c:346-356 | the source address of an error |
| RouterProgram.Router.HandleTransit | sr_router.c:279-302 | refines the part for packets in transit |
| RouterProgram.Router.HandleOwn | sr_router.c:255-277 | refines the part for packets to the router |
| RouterProgram.Router.Learn | sr_arpcache.c:108-147 | the binding goes into the first free slot and the request for the address leaves the list, with its packets |
| RouterProgram.Router.AcceptFrame | sr_router.c:422-423 | the frame is copied onto the request for its next hop |
| RouterProgram.Router.ResolveHop | sr_router.c:402-416 | the next hop and interface a destination resolves to |
| RouterProgram.Router.SendArpRequest | sr_router.c:196-224 | one query on the named interface, or nothing if there is none |
| RouterProgram.Router.SendArpReply | sr_router.c:169-194 | one answer to the asker |
| RouterProgram.Router.SweepReqs | sr_arpcache.c:19-27 | refines the sweep; every pointer it follows is on the list |
| RouterProgram.Router.SweepOne | sr_arpcache.c:21-26 | one iteration; the saved successor is on the list when the sweep reaches it |
| FrameBuffers.BuildEchoReply | sr_router.c:305-330 | the buffer written step by step is the specified echo reply |
| FrameBuffers.BuildIcmpError | sr_router.c:358-386 | the buffer written step by step is the specified error |
| FrameBuffers.BuildArp | sr_router.c:169-224 | the buffer written step by step is the specified ARP frame |
| FrameBuffers.ForwardCopy | sr_router.c:287-294 | the forwarded copy |
| FrameBuffers.Verify | sr_router.c:246-253 | the checksum test in place leaves the packet unchanged |
| FrameBuffers.StampInPlace | sr_router.c:418-420 | the link header written before queueing |
| FrameBuffers.AddressInPlace | sr_router.c:156-161 | the link header written before sending |
| Interfaces.IfList.Add | sr_if.c:65-93 | appends one interface at the end of the linked list |
| Interfaces.IfList.Get | sr_if.c:37-55 | finds the first interface of that name |
| Interfaces.IfList.SetEtherAddr | sr_if.c:103-117 | changes the hardware address of the last interface only |
| Interfaces.IfList.SetEtherIp | sr_if.c:127-141 | changes the address of the last interface only |
| Routing.FindRoute | sr_router.c:429-438 | the first route to exactly that destination |
| Routing.FindIfaceForIp | sr_router.c:440-449 | the first interface with that address |
| Routing.GetInterfaceIsFirst | sr_if.c:37-55 | the lookup by name finds the first interface of that name |
| Routing.ExactMatchIsFirst | sr_router.c:429-438 | the route lookup finds the first route to exactly that destination |
| Routing.IfaceForIpIsFirst | sr_router.c:440-449 | the lookup by address finds the first interface with that address |
| Routing.ResolveIs | sr_router.c:402-416 | a destination resolves over the interface of the first route to it, to the gateway or, if that is 0.0.0.0, to itself, and not at all without such a route or interface |
| Routing.VerifyRoutingTable | sr_main.c:269-303 | 999 for an empty list, else the number of routes that name no existing interface; 0 iff both lists are nonempty and every route names an existing interface |
| Routing.MissingCounts | sr_main.c:280-302 | the count is the number of positions whose route names no existing interface, and 0 iff every route names one |
| Routing.VerifiedTableResolves | sr_main.c:269-303 | once verified, a destination resolves iff a route names it, and to the same hop after interfaces are appended |
| Checksum.Cksum | sr_utils.c:8-20 | the wrapping sum and fold loops compute the specified value |
| Checksum.Fold | sr_utils.c:16-17 | folding ends, keeps the residue mod 65535 and whether the sum is 0 |
| Checksum.CksumIsRfc1071 | sr_utils.c:8-20 | equals the RFC 1071 checksum with 0 replaced by 0xffff iff the 32-bit sum does not overflow, so always up to 131074 octets |
| Checksum.OverflowBoundIsTight | sr_utils.c:8-20 | for every greater length some buffer gets a wrong checksum |
| Checksum.ZeroPaddingIsInvisible | sr_utils.c:8-20 | appended zero octets never change the result |
| Checksum.AcceptsIffSumsToOnes | sr_router.c:246-253 | the receiver's test holds iff the ones' complement sum is 0xffff and the field is not 0 |
| Checksum.SealedIsAccepted | sr_router.c:293-294 | what the router fills in passes the test and verifies under RFC 1071 |
| Packets.IpValidIff | sr_router.c:229-253 | in octets: a packet is accepted iff it has at least 20 header octets, all that its first octet announces, a total length that covers them, a header that sums to 0xffff, and a checksum that is not 0 |
| Packets.EchoRequestIff | sr_router.c:258-272 | in octets: an echo request is accepted iff at least 8 ICMP octets follow the header, the first is 8, they sum to 0xffff and their checksum is not 0 |
| Packets.ForwardedFacts | sr_router.c:287-294 | only TTL and checksum change, and the result is acceptable again |
| Packets.EchoReplyLayout | sr_router.c:305-330 | an echo reply keeps length, identifier, sequence and payload, swaps the addresses, and has TTL 255, type 0 and code 0 |
| Packets.EchoReplySums | sr_router.c:315-330 | both its checksums verify |
| Packets.IcmpErrorAccepted | sr_router.c:358-386 | every error passes the router's own tests, and both checksums verify |
| Packets.IcmpErrorContent | sr_router.c:358-386 | all octets but the checksums: header of 20 octets, length 56, TTL 255, addresses, type, code, and the first 28 octets of the offending packet, followed by what lies after its buffer if it is shorter |
| Packets.ArpFrameRoundTrip | sr_router.c:169-224 | an emitted ARP frame parses back to what it was built from |
| Packets.ArpFormatIff | sr_router.c:118-136 | in octets: which frames are ARP frames for Ethernet and IPv4 with a given operation |
| ArpTable.TableAgreesWithLog | sr_arpcache.c:131-142 | after any inserts and passes the table has 100 slots, and the valid ones hold exactly the bindings of the log |
| ArpTable.LookupFindsLog | sr_arpcache.c:33-55 | a lookup succeeds iff the log has a binding for the address, and returns one of them |
| ArpTable.LookupAfterInsert | sr_arpcache.c:33-55 | what a lookup returns just after any insert: as before for a full table or another address; else the binding in the last slot after the filled one, or the new binding |
| ArpTable.NewestIsFoundIff | sr_arpcache.c:131-142 | a binding newer than all others is found iff there was a free slot and no slot after the first free one held its address |
| ArpTable.LearnedIsFoundIff | sr_arpcache.c:131-142 | the same after every history of inserts and passes |
| ArpTable.PassKeepsNewest | sr_arpcache.c:237-244 | a timer pass never makes a lookup that returns the newest binding return an older one |
| ArpTable.LookupMayBeStale | sr_arpcache.c:39-43 | where that condition fails: four operations after which a lookup returns the older of two bindings |
| ArpTable.LookupEntry | sr_arpcache.c:38-43 | the search loop returns the last matching slot |
| ArpTable.InsertEntry | sr_arpcache.c:131-142 | the first free slot is filled, or nothing happens |
| ArpTable.ExpireEntries | sr_arpcache.c:239-244 | exactly the expired slots are invalidated |
| Sha1Stream.HashPieces | sha1.c:71-185 | for every split of every message the result is the FIPS PUB 180-1 digest of the concatenation, and a result is given iff the message is shorter than 2^61 octets |
| Sha1Stream.SaltedHash | sr_vns_comm.c:273-276 | salt and key hash as one run of octets |
| Sha1Stream.Sha1Context.Input | sha1.c:143-185 | any octets at any time; corrupted exactly on overflow or use after the result |
| Sha1Stream.Sha1Context.InputOctet | sha1.c:155-184 | one octet keeps the digest equal to the whole blocks of the message so far |
| Sha1Stream.Sha1Context.CountOctet | sha1.c:160-173 | the split counter counts bits and notes its overflow |
| Sha1Stream.Sha1Context.ProcessMessageBlock | sha1.c:207-301 | applies the compression function of the standard |
| Sha1Stream.Sha1Context.PadMessage | sha1.c:326-371 | either branch completes the digest of the padded message |
| Sha1Stream.Sha1Context.Result | sha1.c:104-119 | the digest of the message, or failure exactly if corrupted |
| Sha1Stream.Sha1Context.Reset | sha1.c:71-85 | back to the empty message |
| Sha1Stream.Schedule | sha1.c:224-235 | the two loops compute the 80 words of the standard |
| Sha1Stream.RunRounds | sha1.c:243-287 | the four loops apply the 80 rounds in order |
| Sha1Stream.AddInto | sha1.c:289-298 | adds the round result to the digest in place |
| Sha1Stream.Sha1Context.StoreLength | sha1.c:361-368 | the last 8 octets of the block are the length in bits |
| BlockHashing.PadLong | sha1.c:334-348 | more than 55 octets left over: two blocks |
| BlockHashing.PadShort | sha1.c:349-356 | at most 55: one block |
| BlockHashing.AbsorbFull | sha1.c:178-181 | an octet that completes a block |
| BlockHashing.OctetsFromHalves | sha1.c:361-368 | the length octets from the two halves of the counter |

## Left out

- Sockets, the VNS session, authentication files and packet logging (`sr_vns_comm.c`, `sr_dumper.c`): input and output; sending only appends to a history.
- Command line and routing table parsing (`sr_main.c`, `sr_rt.c`): the routing table is a given sequence.
- All printing and dumping functions.
- Threads, mutexes, `malloc` failure, and the interleaving of the unlocked `handle_arpreq` call with the timer: events are atomic.
- Network and host byte order: fields are the octets on the wire, and `htons`/`ntohs` disappear.
- Interface names are compared as whole strings; the source compares and copies at most 32 characters, and `mInterfaceName` holds 16.
- Packet lists: the packets of a request are a sequence field of its list node, and a queued buffer is an immutable copy that the drain loop writes to in a fresh array; the pointers between packets are not modelled.
- Deallocation: freeing is modelled as leaving the list; a read of a request that left it is the outcome `Fault`.
- Interface list: `RouterProgram` takes the interfaces as a fixed sequence; only `Interfaces` has the pointers.
- Packets.IcmpErrorContent: for offending packets of 34 to 41 octets the source copies octets past the end of its buffer (`sr_router.c:385`); these are the parameter `Config.beyond`.
- Packets.EchoRequestIff: beyond 131074 ICMP octets the 32-bit sum may overflow, and the condition is the computed checksum itself; `Disposition.OwnDisposition` says the same.
- Packets.EchoReplySums: the ICMP sum verifies under RFC 1071 for messages of up to 131074 octets, beyond which the 32-bit sum may overflow.
- Termination.HandleEndsIff: that absence of cycles suffices is stated only without a route to an own address, because with one it is false (`FailingRuns.SelfRouteDefeatsGraph`) and what is reachable depends on the order of packets as well.
- Termination.HandleDestroysReachable: that nothing else is destroyed is stated only without a route to an own address, for the same reason.
- Resolution.RouteEndsIff: the same restriction on its last clause.
- Resolution.ReceiveEndsIff: the same restriction on its last clause.
- Sweep.SweepOutcomeIff: stated only without a route to an own address, because the graph at the start does not determine what a sweep destroys otherwise.
- Sweep.FateAround: the same restriction.
- Resolution.TimerOutcomeIff: the same restriction.
- RouterProgram.Router.HandlePacket: requires that the specified activation ends, because a method here must; `Resolution.ReceiveEndsIff` says when it does.
- RouterProgram.Router.TimerPass: requires that the specified activation ends regularly; `Resolution.TimerOutcomeIff` says when it does.
- RouterProgram.Router.HandleArpReq: requires that the specified activation ends, as HandlePacket does.
- RouterProgram.Router.NotifySenders: requires that the specified activation ends, as HandlePacket does.
- RouterProgram.Router.SendIcmpError: requires that the specified activation ends, as HandlePacket does.
- RouterProgram.Router.RouteAndSend: requires that the specified activation ends, as HandlePacket does.
- RouterProgram.Router.QueueAndHandle: requires that the specified activation ends, as HandlePacket does.
- RouterProgram.Router.HandleIpPacket: requires that the specified activation ends, as HandlePacket does.
- RouterProgram.Router.HandleValid: requires that the specified activation ends, as HandlePacket does.
- RouterProgram.Router.HandleTransit: requires that the specified activation ends, as HandlePacket does.
- RouterProgram.Router.HandleOwn: requires that the specified activation ends, as HandlePacket does.
- RouterProgram.Router.SendEchoReply: requires that the specified activation ends, as HandlePacket does.
- RouterProgram.Router.ForwardPacket: requires that the specified activation ends, as HandlePacket does.
- RouterProgram.Router.SweepReqs: requires that the specified activation ends regularly, as TimerPass does.
- RouterProgram.Router.SweepOne: requires that the specified activation ends regularly, as TimerPass does.
- SHA-1 intermediate results on corrupted contexts: only the failure is stated.
- Longest prefix match and forwarding from cached bindings: the code does neither.
