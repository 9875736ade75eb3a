# olsrd in Dafny

This project models the hard parts of olsrd, a daemon for the OLSR routing protocol (RFC 3626) with link-quality
extensions, and proves what those parts promise. Each file follows one component of the daemon:

| file | component | main results |
|---|---|---|
| Spf.dfy | route calculation (Dijkstra on a re-keyed candidate tree) | least costs, path list, next hops, hop counts; the finite-cost test for deletion is sound |
| LqMpr.dfy | relay selection by link quality | who is left out is covered, who is chosen is needed |
| Mpr.dfy | relay selection of section 8.3.1 of RFC 3626 | what a choice does to every counter; the early exit is sound; sole connectors stay relays |
| DuplicateSet.dfy, Bits.dfy | duplicate window over 16-bit sequence numbers | refines an ideal window over unbounded numbers along every run |
| Forwarding.dfy | default forwarding of section 3.4.1 of RFC 3626 | what is sent where, how far a message can travel, and how often a node sends it on in any run |
| LinkSensing.dfy | link sensing of section 7.1 of RFC 3626 | a symmetric link was heard both ways by its two nodes, and a HELLO that says so makes it symmetric for its validity time, in every run of any network |
| NetBuffer.dfy, LqHello.dfy, LqTc.dfy | output buffer, LQ_HELLO and LQ_TC messages | fragments fit, nothing is lost, receivers read back every neighbour, TC fragments partition the address space, and exactly when they do on a little-endian host |
| LinkQuality.dfy | packet window, smoothing and cost of the etx_ff metric | quality is the received share of the packets sent, cost is that of the advertised pair, in every run |
| Gateway.dfy | tunnel name pool and ordered gateway list | slots and listed gateways correspond one to one in every run; what choosing, deleting and taking down leave behind |
| MidSet.dfy | multiple interface associations | forward and reverse index agree; one owner per alias; exactly which declared alias is found afterwards |
| Prelude.dfy | shared helpers | |
| TimeCode.dfy | eight-bit time code of section 18.3 of RFC 3626 | rounding, monotonicity, and exactly which codes survive |

Data that the daemon updates in place (labels and candidate tree, relay flags and counters, duplicate entries, link
tables, output buffers, window arrays, slots and lists, alias chains and buckets) are fields of classes whose methods
have the loops of the source; their contracts state the new state outright, or tie it to specification functions of
which lemmas do, and the other lemmas are about whole runs. Timers are ideal, AVL trees are sets and
maps, and answers of tables outside a component (a neighbour lookup, a validation, whether a tunnel came up, the
jitter of a timer) are parameters, so every result holds for all of them.

Widths are written out where they matter: 32-bit costs, 8-bit hop counts, TTL and coverage counters, 16-bit sequence
numbers, packet counters, relay counters and message sizes. Validity times in a HELLO are positive because no code
decodes to zero (`TimeCode.DecodeRange`).

Automatic induction is switched off throughout: every inductive step is written out.

Where the code falls short of what its comments suggest, the model follows the code:

- The hop count of a route has eight bits. It is the number of edges of the walk exactly while that is below 256, so
  always in networks of up to 256 vertices (`Spf.SmallNetworksCountHops`, `Spf.LineHops`).
- A duplicate entry starts with an empty bit array, so the message that creates it can pass a second time
  (`DuplicateSet.CreatorReturns` says exactly when); after that no number passes twice.
- LQ_TC borders are cut in network byte order. IPv6 addresses, and IPv4 addresses on a big-endian host, are compared
  in that order too, and there borders always separate. On a little-endian host `ip4cmp` compares IPv4 addresses in
  another order, both when the list is sorted and when a receiver tests an edge. There a border separates its two
  neighbours exactly when the first byte in which they differ ascends and the lower one has only zeros behind it
  (`Border.HostSeparatesExactly`, with a failing pair in `Border.HostOrderIsNotEnough`), and the intervals of a
  message hold its own neighbours exactly when this is so at all its borders (`HostIntervals.HostInsideExactly`). Its
  fragments still divide the address space exactly when their cuts ascend as host numbers
  (`HostIntervals.HostPartitionExactly`); `HostIntervals.HostOverlap` is a list whose fragments overlap.
- The interval of the last LQ_TC fragment stops short of the all-ones address (`TcIntervals.AllOnesUnclaimed`).
- A link entry outlives its symmetry under every jitter exactly when the validity time is below 380020 ms
  (`LinkSensing.LinkOutlastsSymmetry`).
- The penalty for missing hellos uses a product of 32 bits. It grows with the number of missed hellos while the
  product fits, which is so for the first 1082 with every interval that a HELLO can carry
  (`LinkQuality.PenaltyGrowsFor`). Beyond, it can shrink: with an interval of 448 seconds hello 9587 gives back 24
  seconds of the window (`LinkQuality.PenaltyWraps`).
- A gateway whose cost becomes unlimited is not re-sorted, so the list can leave its order
  (`Gateways.StepOrder` says exactly when), and a failed tunnel after an eviction can leave the current gateway
  pointing to a freed container (`GatewayPool.ChooseKeepsCurrent` says exactly when). The takedown limit can overflow
  64 bits, which C leaves undefined and the model computes in two's complement (`GatewayPool.BoundaryOverflows`).
  `GatewayPool.KeepsExactly` says when takedown still keeps every gateway below the scaled cost of the current one.
- `insert_mid_alias` on arbitrary arguments can give an alias two owners (`MidSet.TwoOwners`); the daemon's own
  callers never do (`MidSet.OneOwner`).
- A MID message can lose an alias it declares: when its originator is a neighbour, declares itself and is nobody's
  alias at that moment, all that was registered for it before is forgotten (`MidSet.InputRegisters` states exactly
  which aliases are found afterwards; `MidSet.SelfDeclarationForgets` and `MidSet.OwnerDeclarationForgets` are two
  such messages).
- Times below 66 ms are sent as 66 ms (`TimeCode.AtMostExactly`), and codes with exponent below 5 survive decoding and
  encoding only in the cases listed by `TimeCode.Survives`.

## Model

| member | source | states |
|---|---|---|
| `SpfRunner.CalculateRoutes` | src/olsr_spf.c:332-460 | every cost is the least total over all walks of usable edges from ourselves and ROUTE_COST_BROKEN exactly without one; the path list holds each reachable vertex once, nearest first; with preset neighbours each next hop is the preset link of the first vertex of a least-cost walk with fewer edges than vertices, whose number is the hop count exactly while it is below 256, so always with up to 256 vertices; no vertex of our own means an empty list |
| `SpfRunner.SpfRun.constructor` | src/olsr_spf.c:372-451 | the initial labels, the queued root and the presets establish the invariant |
| `Spf.PresetMeans` | src/olsr_spf.c:403-451 | a vertex has the link of its last assignment, and none exactly without one |
| `SpfRunner.SpfRun.RunFull` | src/olsr_spf.c:291-309 | the loop ends with an empty tree and no edge of a settled vertex offering an improvement |
| `SpfRunner.SpfRun.Relax` | src/olsr_spf.c:192-277 | exploring a cheapest candidate relaxes all its usable edges and keeps the invariant |
| `SpfRunner.SpfRun.RelaxEdge` | src/olsr_spf.c:244-266 | an improving edge re-keys its head, any other changes nothing |
| `SpfRunner.SpfRun.DeleteCandidate` | src/olsr_spf.c:132-146 | called only for a vertex on the tree, and takes off just that one |
| `SpfRunner.SpfRun.AddCandidate` | src/olsr_spf.c:110-125 | called only for a vertex off the tree |
| `SpfRunner.SpfRun.SetLabel` | src/olsr_spf.c:259-266 | labels change only while the vertex is off the tree, so keys never move |
| `SpfRunner.SpfRun.ExtractBest` | src/olsr_spf.c:177-183 | a cheapest candidate, or none exactly when the tree is empty |
| `Spf.ImprovedVertexIsOpen` | src/olsr_spf.c:251-256 | a vertex that an edge improves is not settled, and its cost is finite exactly when it is on the tree: the deletion test is sound |
| `Spf.EdgeCases` | src/olsr_spf.c:210-276 | no sum wraps, and each outcome of the edge test keeps the relaxation invariant |
| `Spf.SettleKeepsInv` | src/olsr_spf.c:298-308 | moving the explored vertex to the path list restores the main invariant: it never comes back and costs ascend |
| `Spf.WalksAreNoCheaper` | src/olsr_spf.c:291-309 | when nothing improves, no walk is cheaper than the label of its end |
| `Spf.FinalLabel` | src/olsr_spf.c:291-309 | settled means reachable, the label is the distance, and broken means no walk |
| `Spf.FinalTable` | src/olsr_spf.c:291-309 | the final invariant gives the results of the calculation for any graph: distances, path list, and next hops along a least-cost walk shorter than the number of vertices |
| `Spf.SmallNetworksCountHops` | src/olsr_spf.c:263-266 | with up to 256 vertices the hop count is the number of edges of such a walk |
| `Spf.LineHops` | src/olsr_spf.c:266 | on a two-way line of any length the hop count is right exactly for vertices less than 256 away |
| `Spf.SmallNetworksDoNotWrap` | src/olsr_spf.c:238-244 | up to 1024 vertices the no-wrap condition holds whatever the edge costs |
| `LqMpr.Selection.Calculate` | src/lq_mpr.c:54-173 | each two-hop neighbour not skipped has its cheapest eligible connectors selected, a neighbour is relay for that reason or WILL_ALWAYS only, and the TC signal is raised exactly for a new relay |
| `LqMpr.Selection.Reset` | src/lq_mpr.c:64-87 | relays start over as the symmetric WILL_ALWAYS neighbours, the old flags are remembered |
| `LqMpr.Selection.HasBetterPath` | src/lq_mpr.c:114-127 | found exactly when a connector beats the direct link |
| `LqMpr.Selection.Select` | src/lq_mpr.c:130-167 | the selected connectors are the cheapest eligible ones, up to the coverage |
| `LqMpr.Selection.SelectOne` | src/lq_mpr.c:138-167 | one round adds a cheapest connector left, or shows that no eligible one is left |
| `LqMpr.Selection.FindBest` | src/lq_mpr.c:142-149 | the least path cost among the symmetric connectors not selected |
| `LqMpr.LeftOutMeansCovered` | src/lq_mpr.c:130-167 | an eligible connector is no relay only if at least mpr_coverage connectors of no greater cost are |
| `LqMpr.RelaysAreNeeded` | src/lq_mpr.c:64-169 | every other relay is among the mpr_coverage cheapest symmetric connectors of some two-hop neighbour |
| `Mpr.Selection.Calculate` | src/mpr.c:393-456 | with two-hop lists of symmetric neighbours only and a total below 2^16, every strict two-hop node with a single connector of willingness above 0 keeps it as relay; WILL_ALWAYS neighbours are relays; a change is a lost relay |
| `Mpr.Selection.CountTwoHopNeighbors` | src/mpr.c:314-356 | the cumulative counts in 16 bits: distinct strict nodes for the total, entries for the counters |
| `Mpr.Selection.ChosenMpr` | src/mpr.c:144-200 | each strict two-hop node of the chosen neighbour is covered once more in 8 bits; each symmetric neighbour loses one for every link that a node covered often enough afterwards has to it, which with links listed once is the number of such nodes; the covered count grows by the number of those nodes modulo 2^16; nothing else changes |
| `Mpr.Selection.FindMaximumCovered` | src/mpr.c:210-235 | the first neighbour of the level that is no relay with the largest positive counter, or none exactly when no such neighbour has a positive counter |
| `Mpr.Selection.ClearMprs` | src/mpr.c:240-262 | no relays, former ones remembered, coverage of every listed two-hop node zero |
| `Mpr.Selection.AddWillAlways` | src/mpr.c:361-387 | the relays are exactly the symmetric WILL_ALWAYS neighbours and the counters are sound |
| `Mpr.Selection.ChooseSoleConnectors` | src/mpr.c:410-422 | afterwards every sole symmetric connector of the level is a relay |
| `Mpr.Selection.ChooseGreedily` | src/mpr.c:430-439 | no relay is lost; it ends when no neighbour of the level that is no relay has a positive counter, or with the covered count at the total |
| `Mpr.Selection.ChooseByWillingness` | src/mpr.c:406-440 | whether it ends early or not, every sole symmetric connector is a relay |
| `Mpr.Selection.Removable` | src/mpr.c:486-504 | exactly when all strict nodes of the relay are covered more often than needed |
| `Mpr.Selection.Optimize` | src/mpr.c:467-512 | drops exactly the removable relays of willingness 1 to 6, by the counters before the pass |
| `Mpr.Selection.CheckChanges` | src/mpr.c:269-290 | reports exactly whether a former relay is none any more |
| `MprCounting.TotalCoversReach` | src/mpr.c:314-356 | the total behind the early exit is at least the reach of all neighbours together |
| `MprCounting.SeenMeans` | src/mpr.c:314-356 | a two-hop node is counted by the first k neighbours exactly when a symmetric one of them reaches it and it is no symmetric neighbour itself |
| `MprCounting.ChooseMeans` | src/mpr.c:144-200 | coverage, counters and covered count after a choice, from the coverage it ends with, for every table |
| `MprCounting.ChooseLowers` | src/mpr.c:182-190 | when links name nobody twice, a symmetric neighbour loses exactly the number of covered strict nodes it is a link of |
| `MprCounting.ChooseKeepsSound` | src/mpr.c:144-200 | the covered count never exceeds the reach of the relays, and a node with one connector is covered once or not at all |
| `MprCounting.EarlyExitSound` | src/mpr.c:424-437 | when the covered count reaches the total, whoever reaches a strict node is a relay |
| `Mpr.ExitMeansAll` | src/mpr.c:424-437 | so an early exit misses no sole connector |
| `Mpr.SolesStay` | src/mpr.c:467-512 | the optimisation removes no sole connector |
| `DuplicateSet.SeqnoDiff` | src/duplicate_set.c:106-117 | congruent to the difference and within half a circle |
| `DuplicateSet.SeqnoDiffExact` | src/duplicate_set.c:106-117 | equals the difference of the unbounded numbers exactly when they are less than 2^15 apart, or exactly half a circle apart on the right side |
| `DuplicateSet.ReceiveRefines` | src/duplicate_set.c:162-197 | one step of the bit window is one step of the ideal window, with the same verdict, across wrap-around and shift |
| `DuplicateSet.RunRefines` | src/duplicate_set.c:119-197 | along every run within reach, bit i says whether head minus i was accepted |
| `DuplicateSet.NoNumberTwice` | src/duplicate_set.c:162-197 | between restarts no number passes twice |
| `DuplicateSet.NoFalseDuplicate` | src/duplicate_set.c:177-187 | a number called duplicate did pass before |
| `DuplicateSet.FirstArrival` | src/duplicate_set.c:162-197 | in any run, a number that has not arrived since the window started passes exactly when it is not more than 31 below the head, or when the window restarts with it |
| `DuplicateSet.CreatorReturns` | src/duplicate_set.c:77-90 | so does, in any run, the first repeat of the number that created the entry |
| `DuplicateSet.CreatorRepeats` | src/duplicate_set.c:77-90 | repeated at once the creating number passes, and not again |
| `DuplicateSet.ProcessedAtMostTwice` | src/duplicate_set.c:145-197 | after first contact no number passes twice, so two times is the most for the creating one |
| `DuplicateSet.TooLowRunsAreShort` | src/duplicate_set.c:163-175 | at most 16 too-low messages in a row are blocked before the window follows |
| `DuplicateSet.RestartsExactly` | src/duplicate_set.c:163-175 | a new entry follows a restarted sender exactly with a message more than 31 below the head that comes right behind 16 such messages, or right behind two of them after a cleanup |
| `DuplicateSet.HeadIsNewest` | src/duplicate_set.c:188-197 | along every run the head is the largest number let through, or the number the window started from |
| `DuplicateSet.DuplicateTable.IsDuplicate` | src/duplicate_set.c:119-197 | the step for the originator's entry, created when missing; its end is never earlier than before nor than 120 s from now, and is one of the two; other entries and ends are unchanged |
| `DuplicateSet.DuplicateTable.Window` | src/duplicate_set.c:162-197 | the branches of the window step compute the refined step |
| `DuplicateSet.DuplicateTable.Expire` | src/duplicate_set.c:92-104 | exactly the entries whose validity is over go |
| `DuplicateSet.DuplicateTable.Cleanup` | src/duplicate_set.c:68-75 | sets the too-low count of that originator alone to 14 |
| `Forwarding.Node.Forward` | src/olsr.c:318-418 | forwards exactly for symmetric selectors and messages that are no duplicates; then a mesh interface, also the incoming one, takes the message exactly with TTL at least 2 and hop count plus TTL at most 255, an ether interface exactly when it did not come in there, a silent one never; taking means that it is appended to the stream if it can ever fit, behind the queued messages when there is room and after sending them when there is not; hop count and TTL move by one on a message that is not overdue |
| `Forwarding.EnqueueConserves` | src/olsr.c:391-414 | piggybacking or flushing first, the message is appended to the stream of the interface unless it can never fit; packets stay within bounds |
| `Forwarding.EnqueuePutsOut` | src/olsr.c:391-414 | a packet goes out exactly when messages are queued and the new one does not fit behind them |
| `Forwarding.ForwardedMeans` | src/olsr.c:381-416 | the interface rules for every list of interfaces, by stream and packets |
| `Flooding.StreamIsLog` | src/olsr.c:318-418 | along every run of forwards and cleanups an interface carries what it did before and the messages sent on, in order, within its packet size, and nothing else |
| `Flooding.RepeatNeedsFirstContact` | src/olsr.c:340-363 | of two forwards of one message, the first was the first contact with its originator |
| `Flooding.SentOnAtMostTwice` | src/olsr.c:340-363 | in every run of forwards and cleanups within reach of the window and without restart a node sends each message of a new originator on at most twice, and twice only the first it ever saw |
| `Forwarding.ChainHeader` | src/olsr.c:331-377 | along every chain of mesh forwards hop count plus TTL is constant and at most 255, and the TTL stays at least 1 |
| `Forwarding.ChainLength` | src/olsr.c:331-377 | a message sent with TTL T passes at most T - 1 forwarders |
| `Forwarding.LongestChain` | src/olsr.c:331-377 | and that many are possible |
| `LinkSensing.CheckLinkStatus` | src/link_set.c:784-808 | the last listing of our interface with a type, but SYM as soon as one says so |
| `LinkSensing.Listed` | src/link_set.c:784-808 | SYM exactly when listed SYM, UNSPEC exactly when never listed with a type, otherwise the type of the last listing that has one |
| `LinkSensing.LinkSet.Lookup` | src/link_set.c:659-682 | the first entry of the interface pair |
| `LinkSensing.LinkSet.UpdateLinkEntry` | src/link_set.c:695-742 | a listing as SYM or ASYM starts the SYM timer for the validity time, LOST stops it, no listing leaves it; validity and ASYM time are those of the HELLO; the link timer lasts the validity time less jitter at least and the hold time longer at most; the entry is the first of the pair or a new last one, and every other entry is unchanged |
| `LinkSensing.UpdateTakesUp` | src/link_set.c:695-742 | the same, for every link set and HELLO |
| `LinkSensing.LinkOutlastsSymmetry` | src/link_set.c:718-732 | the entry survives its symmetry whatever the jitter exactly when the validity time is below 380020 ms |
| `LinkSensing.CreateHello` | src/lq_packet.c:109-164 | lists every known neighbour interface once, with the truth about its link to the outgoing interface |
| `LinkNetwork.NextKeepsInv` | src/link_set.c:695-742 | time, emission, reception and removal keep every symmetric link and every advertised listing backed by a valid reception |
| `LinkNetwork.RunKeepsInv` | src/link_set.c:123-173 | so do all runs over a channel that loses, delays and repeats |
| `LinkNetwork.SymmetricMeansHeardBothWays` | src/link_set.c:123-173 | a node that treats a link as symmetric holds a valid HELLO listing its interface as heard, sent while the sending node itself, on that interface, held a valid HELLO that this node had sent |
| `LinkNetwork.ReceptionDecidesStatus` | src/link_set.c:708-742 | in every run, a HELLO that lists the interface it reaches as heard makes the link symmetric; LOST makes it asymmetric, and no listing leaves it symmetric exactly when it was |
| `LinkNetwork.SymmetricForValidity` | src/link_set.c:446-461 | in every run, until something else happens to the entry, the link is then symmetric exactly for the validity time and lost after it |
| `LinkNetwork.ExchangeGivesSymmetry` | src/link_set.c:695-742 | an exchange of HELLOs does make a link symmetric |
| `NetBuffer.OutBuffer.constructor` | src/net_olsr.c:122-145 | empty, with room for the MTU less the packet header |
| `NetBuffer.OutBuffer.BytesLeft` | src/net_olsr.c:260-273 | never promises more than fits, nor more than the maximal message |
| `NetBuffer.OutBuffer.Push` | src/net_olsr.c:219-229 | all of the message or nothing, accepted exactly when it fits; packets and pending bytes stay the pushed bytes in order |
| `NetBuffer.OutBuffer.Output` | src/net_olsr.c:336-421 | pending bytes become one packet within the size bound, an empty buffer sends none |
| `HelloFormat.GroupTest` | src/lq_packet.c:424-433 | the two tests of the loops pick exactly the neighbours of the group |
| `HelloFormat.CodeTellsTypes` | src/olsr_protocol.h:201-205 | the link code of a group gives back both types of its neighbours |
| `HelloFormat.BlocksRoundTrip` | src/lq_packet.c:424-503 | walking the info headers by their sizes gives back all entries with their codes |
| `HelloFormat.MessageRoundTrip` | src/lq_packet.c:354-514 | the entries of a written LQ_HELLO stand behind its headers as its size field says |
| `HelloFormat.MessageParts` | src/lq_packet.c:322-352 | type, validity, size, originator, TTL 1, hop count 0, sequence number, interval and willingness stand where the format says |
| `HelloReading.PassFilters` | src/process_package.c:359-400 | the pass for a link type finds exactly the entries of that type, in order |
| `HelloReading.DeserializeShows` | src/process_package.c:318-430 | the four passes and the removal keep every entry as often as it was sent, except that UNSPEC ones whose address is also listed with a type are gone |
| `HelloReading.NothingCulled` | src/process_package.c:402-427 | nothing is removed exactly when no address is listed both ways |
| `HelloWriting.PatchCloses` | src/lq_packet.c:457-460 | filling in the size completes the open block |
| `HelloWriting.EstimateCovers` | src/lq_packet.c:396-413 | the size computed in advance covers the message |
| `HelloWriting.ExpectedSize` | src/lq_packet.c:396-413 | the loop computes that size |
| `HelloWriting.HelloWriter.Add` | src/lq_packet.c:431-495 | the neighbour joins the open block if there is room; otherwise the message, which had none left for a neighbour with an info header, is sent and a new one starts with it; nothing already written changes |
| `HelloWriting.HelloWriter.Break` | src/lq_packet.c:450-476 | the completed message is pushed without refusal and the next starts empty |
| `HelloWriting.HelloWriter.PatchInfo` | src/lq_packet.c:497-501 | completes the last block, also when it was complete already |
| `HelloWriting.HelloWriter.PushMessage` | src/lq_packet.c:505-513 | the message is accepted with the next sequence number |
| `HelloWriting.OverflowHasHeader` | src/lq_packet.c:457-460 | the assertion on the info header holds whenever a message overflows |
| `LqHello.Prepare` | src/lq_packet.c:387-418 | pending bytes are flushed when the message does not fit behind them, and stay when its estimated size does |
| `LqHello.WriteGroup` | src/lq_packet.c:427-501 | one group is written completely, its header completed |
| `LqHello.Serialize` | src/lq_packet.c:354-514 | for any list and any pending bytes all fragments are accepted, and hold the groups in order; one message suffices when it fits an empty buffer, every message but the last is full, and nothing is sent out when the estimated size fits behind the pending bytes |
| `LqHello.FragmentReadsBack` | src/lq_packet.c:354-514 | every pushed fragment holds its own entries |
| `LqHello.EveryNeighborOnce` | src/lq_packet.c:424-503 | grouping drops and repeats no neighbour whose types are in the order |
| `LqHello.ReceiversSeeEveryNeighbor` | src/process_package.c:318-430 | reading all messages of a list shows each neighbour whose types are in the order once, with its link code and quality, when no address is listed both with and without a link type |
| `LqHello.DistinctMeansNoClash` | src/lq_packet.c:109-164 | a list with every address once, as create_lq_hello builds it, lists none both with and without a link type |
| `Border.CalculateBorderFlag` | src/lq_packet.c:516-543 | the loops find the first differing byte and its highest differing bit: the flag of `Border.FlagMeans`, zero for equal addresses |
| `Border.FlagMeans` | src/lq_packet.c:516-543 | with addresses as numbers, the flag is the least count of low bits above which the two agree |
| `Border.CutMeans` | src/tc_set.c:735-760 | as a number, the rebuilt border keeps the bits above the flag, sets the highest one below and clears the rest |
| `Border.RebuildBorder` | src/tc_set.c:735-760 | the address rebuilt in place from a flag and an address next to the border, or the end of the address space |
| `Border.CalculateTcBorder` | src/tc_set.c:728-762 | both borders rebuilt, or none when both flags are zero |
| `Border.CutSeparates` | src/lq_packet.c:516-543 | both sides rebuild the same address, strictly above the lower neighbour and not above the higher |
| `Border.CutSeparatesExactly` | src/lq_packet.c:516-543 | in byte order separation holds exactly for neighbours that ascend |
| `Border.HostSeparatesExactly` | src/ipcalc.h:71-75 | on a little-endian host the border separates two IPv4 addresses exactly when their first differing byte ascends and only zeros follow it in the lower one |
| `Border.HostOrderIsNotEnough` | src/ipcalc.h:71-75 | two addresses that ascend in both orders and whose border lies below both on such a host |
| `LqTc.SortedInsert` | src/lq_packet.c:277-292 | the neighbour goes in at one place and the list stays sorted in the host's order, whatever total order that is |
| `LqTc.OrdersAreTotal` | src/common/avl.c:63-73 | byte order and little-endian host order are total orders of the addresses |
| `LqTc.MessageLayout` | src/lq_packet.c:322-352 | type, validity, size, originator, TTL, hop count 0, sequence number, ANSN and borders stand where the format says, the entries behind them |
| `LqTc.FragmentRoundTrip` | src/tc_set.c:810-897 | a receiver reads back the borders and, up to the size the message states, the neighbours |
| `LqTc.MessagesReadBack` | src/tc_set.c:810-897 | so it is for every message of a serialized list |
| `LqTc.Prepare` | src/lq_packet.c:579-597 | everything fits behind the pending bytes, and then they stay, or the buffer is empty |
| `LqTc.Break` | src/lq_packet.c:605-627 | the fragment is sent with the flag between its last neighbour and the next one |
| `LqTc.Send` | src/lq_packet.c:323-352 | the message is accepted as a whole |
| `LqTc.Serialize` | src/lq_packet.c:545-649 | all neighbours in order, open ends, equal flags on both sides of every cut, all messages accepted with consecutive numbers; one message if it fits, every message but the last is full, and nothing is sent out when all fits behind the pending bytes |
| `TcIntervals.FragmentsTile` | src/tc_set.c:728-762 | the intervals that receivers rebuild follow each other without gap and hold their own neighbours |
| `TcIntervals.FragmentsPartition` | src/tc_set.c:565-598 | every address but the all-ones one is claimed by exactly one fragment |
| `TcIntervals.AllOnesUnclaimed` | src/tc_set.c:565-598 | the all-ones address is claimed by none |
| `HostIntervals.HostInsideExactly` | src/tc_set.c:565-598 | on a little-endian host every neighbour lies in the interval of its own fragment exactly when all borders stand between aligned addresses |
| `HostIntervals.HostPartitionExactly` | src/tc_set.c:565-598 | for every list sorted on a little-endian host, every address but the all-ones one is claimed by exactly one fragment exactly when no fragment has its lower cut above its upper one |
| `HostIntervals.HostOverlap` | src/tc_set.c:565-598 | a sorted list whose three fragments claim an address twice |
| `HostIntervals.HostPartition` | src/tc_set.c:565-598 | aligned borders make the cuts ascend, so there too every address but the all-ones one is claimed by exactly one fragment |
| `LinkQuality.CostRange` | src/lq_plugin_default_ff.c:283-300 | broken exactly below the threshold, otherwise between 1024 and 106536, and symmetric |
| `LinkQuality.CostExact` | src/lq_plugin_default_ff.c:283-300 | a cost that is not broken is 255 * 255 * 1024 divided by the product of the qualities, rounded down |
| `LinkQuality.CostMonotone` | src/lq_plugin_default_ff.c:283-300 | better quality never costs more |
| `LinkQuality.QualityIsShare` | src/lq_plugin_default_ff.c:243-264 | the fixed-point quality is the received share in 255ths, at most one too low |
| `LinkQuality.QualityScaled` | src/lq_plugin_default_ff.c:243-264 | with any multiplier up to the neutral one it is that part of the share, less than two below |
| `LinkQuality.PenaltyRange` | src/lq_plugin_default_ff.c:246-257 | missing hellos never add packets; all count exactly when the whole window is left or none came, and none exactly when less than one is left |
| `LinkQuality.PenaltyExact` | src/lq_plugin_default_ff.c:246-257 | the packets that count are the received ones times the rest of the window over 32, rounded down |
| `LinkQuality.RestMeans` | src/lq_plugin_default_ff.c:246-257 | while the product fits 32 bits the rest of the window is 32 less the whole seconds without hellos, and nothing from 32 seconds on |
| `LinkQuality.PenaltyOrder` | src/lq_plugin_default_ff.c:246-257 | one number of missed hellos counts for no more packets than another, whatever was received, exactly when it leaves no more of the window |
| `LinkQuality.PenaltyGrows` | src/lq_plugin_default_ff.c:246-257 | more missed hellos leave no more of the window while the product fits 32 bits |
| `LinkQuality.PenaltyGrowsFor` | src/lq_plugin_default_ff.c:246-257 | that holds for the first 1082 missed hellos with every interval that a HELLO can carry |
| `LinkQuality.PenaltyWraps` | src/lq_plugin_default_ff.c:250 | with an interval of 448 seconds, which a HELLO can carry, 9586 missed hellos leave nothing of the window and 9587 leave 24 seconds |
| `LinkQuality.SmoothOk` | src/lq_plugin_default_ff.c:110-170 | after a change the cost belongs to the smoothed pair, which is within a tenth of the raw one |
| `LinkQuality.SeqStepsMeans` | src/lq_plugin_default_ff.c:199-208 | with unbounded packet numbers less than 65536 ahead or 65280 behind, the steps from the 16-bit ones are the packets sent since the last, and one for a jump of more than 256 or a late packet; 16-bit numbers are equal exactly when the true ones are |
| `LinkQuality.EveryNumberFollows` | src/lq_plugin_default_ff.c:199-208 | every 16-bit number belongs to such a packet, so the runs below cover them all |
| `LqWindow.PacketTracks` | src/lq_plugin_default_ff.c:191-214 | counting a packet by its 16-bit number keeps the circular arrays in step with the history by true numbers; a repeated number changes nothing, any other clears the missed hellos |
| `LqWindow.TickTracks` | src/lq_plugin_default_ff.c:222-271 | so does recycling a slot |
| `LqWindow.WindowSums` | src/lq_plugin_default_ff.c:222-238 | the sums are the packets of the last 32 seconds, and their steps plus 3 for each slot not recycled yet |
| `LqWindow.TickQuality` | src/lq_plugin_default_ff.c:222-271 | received never exceeds total, and the quality is their share |
| `LqWindow.TickQualityScaled` | src/lq_plugin_default_ff.c:222-271 | with any multiplier up to the neutral one and after any penalty the quality is that part of the share, less than two below |
| `LqWindow.TickTouches` | src/lq_plugin_default_ff.c:222-271 | a tick leaves the smoothed pair, the cost, the foreign quality, the counts of missed hellos and all other slots alone |
| `LqWindow.StepsArePackets` | src/lq_plugin_default_ff.c:199-213 | over seconds without a jump the steps are the last packet number of the last one less the last before the first |
| `LqTable.LinkTable.TickOne` | src/lq_plugin_default_ff.c:222-271 | the pass over one link, slot by slot |
| `LqTable.LinkTable.HandleChange` | src/lq_plugin_default_ff.c:110-170 | nothing moves while every raw value is within a tenth of the smoothed one and none newly reaches 255; otherwise every link takes its raw pair and the cost of it, except those within bounds that advertise 255 twice |
| `LqTable.SmoothAllMeans` | src/lq_plugin_default_ff.c:110-170 | the same for every table of links |
| `LqTable.LinkTable.Tick` | src/lq_plugin_default_ff.c:217-274 | all links tick, then changes are handled once |
| `LqTable.RunKeepsInv` | src/lq_plugin_default_ff.c:172-274 | costs, pairs and window arrays stay right along every run of links, packets, foreign values, losses and ticks |
| `LqTable.CostFollowsAdvertisedPair` | src/lq_plugin_default_ff.c:110-170 | in every reachable state the link cost is the cost of the advertised pair |
| `LqTable.CloseAfterTick` | src/lq_plugin_default_ff.c:110-170 | right after each tick both raw values are within a tenth of the smoothed ones |
| `LqTable.TickSumsLastSeconds` | src/lq_plugin_default_ff.c:222-238 | at every tick of every run the sums are those of the last seconds while the counters fit |
| `LqTable.TickMeasuresShare` | src/lq_plugin_default_ff.c:222-271 | with the neutral multiplier and no hello missed, each tick leaves the received share, exact to one unit |
| `LqTable.TickMeasuresSent` | src/lq_plugin_default_ff.c:199-271 | without a jump in the last 32 seconds that is the received share of the packets the neighbour sent in them, counted by their true numbers |
| `GatewayPool.AddKeepsOrder` | src/gateway_list.c:120-147 | adding keeps an ordered list ordered |
| `GatewayPool.UpdateKeepsOrder` | src/gateway_list.c:156-168 | re-sorting one entry orders the list if the others are in order |
| `GatewayPool.WorstIsLast` | src/gateway.c:1558-1564 | the entry that gives way in an ordered list costs most |
| `GatewayPool.FreeSlotExists` | src/gateway.c:271-292 | a list shorter than the pool leaves a free slot |
| `GatewayPool.RemoveKeepsInv` | src/gateway.c:727-739 | removing an entry frees exactly its slot |
| `GatewayPool.AcquireReleaseIsNothing` | src/gateway.c:301-346 | a tunnel that does not come up leaves no trace in the pool |
| `GatewayPool.ChooseKeepsInv` | src/gateway.c:1535-1588 | choosing keeps slots and list in correspondence, and the name comes from the pool |
| `GatewayPool.ChooseKeepsCurrent` | src/gateway.c:1541-1586 | the current gateway stays on the list unless, exactly, it gave way to a newcomer whose tunnel failed; then its container is freed |
| `GatewayPool.ChooseMeans` | src/gateway.c:1535-1588 | a choice by its outcome, in every consistent pool |
| `GatewayPool.RemoveMeans` | src/gateway.c:727-739 | the entry and its slot are gone, all else is as it was, and a current gateway that was removed is left dangling |
| `GatewayPool.DeleteMeans` | src/gateway.c:1416-1437 | deletion removes that entry and slot alone, and leaves no current gateway if it was the one |
| `GatewayPool.NewCostMeans` | src/gateway.c:1264-1315 | a new cost changes the cost of that gateway alone and moves its entry alone, to its place by the new costs unless the cost is unlimited |
| `GatewayPool.DeleteKeepsInv` | src/gateway.c:1416-1437 | deletion keeps the correspondence and the gateway is gone |
| `GatewayPool.TakeDownLoopResult` | src/gateway.c:749-797 | takedown removes a tail of entries at or above the limit, never the current gateway nor the last entry, and stops at the first that may stay |
| `GatewayPool.BoundaryCovers` | src/gateway.c:760-769 | without overflow the limit is not below the current cost scaled by the percentage |
| `GatewayPool.BoundaryTight` | src/gateway.c:760-769 | and it is above the scaled cost by at most 99, by nothing for costs up to a hundredth of the range |
| `GatewayPool.TakeDownExactly` | src/gateway.c:749-797 | in ordered pools exactly the entries behind the current one that cost at least the limit are taken down |
| `GatewayPool.KeepsExactly` | src/gateway.c:749-797 | in ordered pools takedown keeps every gateway below the scaled cost of the current one exactly when the limit computed in 64 bits is not below it, or it is not above the current cost; so always without overflow |
| `GatewayPool.BoundaryOverflows` | src/gateway.c:767 | an unlimited cost and 25 percent overflow to a limit of 67, below the scaled cost |
| `Gateways.GatewayTable.FindInterfaceName` | src/gateway.c:271-292 | the first slot in that use |
| `Gateways.GatewayTable.GetUnusedName` | src/gateway.c:301-325 | takes the first free slot, or tells that there is none |
| `Gateways.GatewayTable.SetUnusedName` | src/gateway.c:332-346 | frees the slot of the gateway and no other |
| `Gateways.GatewayTable.AddToList` | src/gateway_list.c:120-147 | the entry goes before the first one that is not cheaper |
| `Gateways.GatewayTable.FindInList` | src/gateway_list.c:93-107 | the position of the gateway |
| `Gateways.GatewayTable.RemoveFromList` | src/gateway.c:727-739 | entry and slot are gone, the rest keeps its order |
| `Gateways.GatewayTable.SetInetGateway` | src/gateway.c:1520-1588 | keeps the correspondence; a gateway that is not usable or is the current one changes nothing, a listed one becomes the current one and nothing else, a newcomer makes the last entry of a full list give way and, with its tunnel up, is listed behind what costs less and becomes the current one; with its tunnel down only the evicted entry is missing; all other entries keep their order and slots |
| `Gateways.GatewayTable.DeleteEntry` | src/gateway.c:1416-1437 | keeps the correspondence; that entry is gone, the others keep their order, and there is no current gateway if it was the one |
| `Gateways.GatewayTable.TakeDownExpensive` | src/gateway.c:749-797 | keeps the correspondence; the effect of takedown |
| `Gateways.RunKeepsPool` | src/gateway.c:1535-1588 | in every run of choices, deletions, takedowns and cost updates slots and listed gateways correspond, the list fits the pool, and a newcomer always gets a pooled name |
| `Gateways.StepOrder` | src/gateway.c:1264-1315 | a step breaks the cost order exactly when a listed gateway's cost becomes unlimited in front of a cheaper one |
| `MidIndex.InBucketIffOnChain` | src/mid_set.c:155-205 | an alias object is in a bucket exactly when it is on a chain, and then in the right ones |
| `MidIndex.LookupMeans` | src/mid_set.c:329-344 | the lookup fails exactly when no object has the address, and otherwise answers for one that has |
| `MidIndex.AddKeepsConsistent` | src/mid_set.c:184-205 | linking a new object keeps both indexes in agreement |
| `MidIndex.DropKeepsConsistent` | src/mid_set.c:464-479 | so does unlinking one |
| `MidSet.Delete` | src/mid_set.c:497-528 | exactly the objects of that main address are freed |
| `MidSet.Prune` | src/mid_set.c:415-490 | of that main address exactly the declared and the still valid objects stay, declared ones renewed, and none stays valid when nothing is declared; others are untouched |
| `MidSet.InsertAliasUnique` | src/mid_set.c:262-320 | an insertion keeps each alias with one owner exactly when the lookup before it finds no owner, the same one, or the entry it is about to forget |
| `MidSet.TwoOwners` | src/mid_set.c:262-320 | two insertions that give one alias two owners |
| `MidSet.IndexAgrees` | src/mid_set.c:155-528 | after any calls with any arguments the two indexes agree |
| `MidSet.InputRegisters` | src/mid_set.c:600-625 | a valid alias that nobody had is found under the originator afterwards exactly unless a self-declaration runs into the forgetting branch and the alias, another one, is not declared again behind it |
| `MidSet.SelfDeclarationForgets` | src/mid_set.c:297-308 | a message that loses the alias it declares first |
| `MidSet.OwnerDeclarationForgets` | src/mid_set.c:297-308 | another one, whose originator was an alias of a neighbour it declares before itself |
| `MidSet.ForgetsFirst` | src/mid_set.c:286-309 | an originator that is nobody's alias runs into that branch exactly with its first valid declaration of itself, as a neighbour |
| `MidSet.NeverForgets` | src/mid_set.c:286-309 | one that is its own alias, or an alias of somebody not declared as a neighbour, never does |
| `MidSet.ForgettingStep` | src/mid_set.c:286-313 | in that branch the originator keeps only itself as alias |
| `MidSet.KeepingStep` | src/mid_set.c:616-622 | in every other branch it keeps all its aliases and gains at most the declared one |
| `MidSet.OneOwner` | src/mid_set.c:567-630 | in every run of HELLOs, MID messages and expiries an alias belongs to at most one main address, and the lookup returns it |
| `MidSet.HelloRegisters` | src/process_package.c:477-488 | a HELLO from another address than the main one registers it as alias unless somebody else owns it, and nothing but an entry of that address is lost |
| `MidSet.InsertAliasRegisters` | src/mid_set.c:262-320 | after an insertion the alias is registered and no object is lost but those of the alias as a main address, when it is a neighbour |
| `MidSet.MidTable.LookupMainAddr` | src/mid_set.c:329-344 | the loop over the bucket answers as the lookup does |
| `MidSet.MidTable.InsertMidTuple` | src/mid_set.c:155-205 | linked at the front of its chain, with validity zero, unless the lookup already answers with that main address; nothing else changes |
| `MidSet.MidTable.InsertMidAlias` | src/mid_set.c:262-320 | invalid addresses change nothing; a neighbouring alias forgets its own entry first |
| `MidSet.MidTable.DeleteEntry` | src/mid_set.c:497-528 | unlinks the chain object by object, then the entry |
| `MidSet.MidTable.PruneAliases` | src/mid_set.c:415-490 | of that main address, undeclared objects go exactly when their validity is over or nothing is declared, declared ones get the new validity; all others are as they were |
| `MidSet.MidTable.InputMid` | src/mid_set.c:567-630 | accepted exactly from a valid originator over a symmetric link, with the effect of inserting and pruning, and no effect otherwise |
| `TimeCode.ReltimeToMe` | src/mantissa.c:62-133 | the loop and the byte arithmetic compute the code, without carry |
| `TimeCode.MantissaIs` | src/mantissa.c:121-128 | both branches count the whole units of the octave beyond sixteen, always below sixteen |
| `TimeCode.ValueIs` | src/mantissa.c:170-180 | both branches of the decoder are the same expression |
| `TimeCode.RoundsDown` | src/mantissa.c:62-133 | from 125 ms up to 4096 s the value sent is at most the time and short of it by less than a sixteenth plus 1 ms |
| `TimeCode.AtMostExactly` | src/mantissa.c:62-133 | the value sent does not exceed the time exactly from 66 ms on |
| `TimeCode.Monotone` | src/mantissa.c:62-133 | longer times are never sent as shorter ones, and none beyond 3968000 ms |
| `TimeCode.Saturates` | src/mantissa.c:84-91 | the largest value is sent exactly from 3968000 ms on |
| `TimeCode.DecodeRange` | src/mantissa.c:170-180 | every decoded value lies between 62 ms and 3968000 ms |
| `TimeCode.Survives` | src/mantissa.c:170-180 | a code survives decoding and encoding exactly when its exponent is at least 5, or its mantissa makes the value a whole number of milliseconds, or it is the code of short times |

## Left out

- Border.CalculateTcBorder: a zero flag beside a set one, and flags beyond the address, for the same reason as below.
- Border.RebuildBorder: flags that name no bit of the address are not covered; the source then writes outside the address, which C leaves undefined, and no sender produces them.
- LinkSensing.LinkSet.Lookup: the match by interface name and the update of the main address of a found entry.
- LinkSensing.LinkSet.UpdateLinkEntry: the status update of the neighbour table, hysteresis and link-loss timers.
- LinkSensing.CreateHello: neighbour types and link qualities of the listings.
- LqHello.ReceiversSeeEveryNeighbor: lists in which an address stands both with and without a link type; there `HelloReading.DeserializeShows` says what is removed. create_lq_hello lists each address once (`LinkSensing.CreateHello`, `LqHello.DistinctMeansNoClash`).
- GatewayPool.TakeDown: with a freed current container the source reads freed memory; the model claims nothing of that step.
- DuplicateSet.DuplicateTable.Expire: expired entries restart the window; the run results are between expiries. Clocks do not wrap.
- LinkQuality.PenaltyGrows: only while the product of missed hellos and hello interval fits 32 bits.
- Full two-hop coverage for src/mpr.c: its counters are lowered more than once per two-hop node and the optimisation does not lower coverage counts, so the code does not keep it.
- The duplicate detection of one's own messages.
- The TTL-1 exception of ether interfaces is in `Forwarding.Node.Forward`; chains of forwards are over mesh interfaces only.
- Forwarding.dfy counts messages in the output buffers, NetBuffer.dfy their bytes; forwarded bytes are not modelled.
- Where the presets of SPF come from (neighbour and link tables), the routing table update after the path list, and the maintenance of edges and inverses in src/tc_set.c.
- The sequence number windows and timers of olsr_input_tc, the "empty TC" timer, the other fields of create_lq_tc, and forwarding of received TC messages.
- Reset of all links at shutdown, and multipliers above the neutral one.
- IPv6 and combined tunnels of the smart gateway, tunnel creation itself, the gateway plugins that choose, and the egress side.
- Effects of MID operations on the neighbour, two-hop and routing tables, and the timer of an entry (its firing is the End event).
- The hash table mid_set is a dictionary by main address; the reverse hash keeps its buckets, for any hash function.
- Non-LQ serialisers in src/build_msg.c (the same fragmentation), floating-point plugins, sockets, kernel routes, configuration, printing and IPC.
- The scheduler, AVL trees and list primitives, which are ideal here.
