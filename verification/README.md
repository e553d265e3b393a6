# AWDS in Dafny

AWDS is a link-state routing daemon for layer-2 meshes. Nodes announce
themselves in beacons, flood topology packets, compute shortest paths over the
links they have heard of, and forward unicast packets hop by hop; a kernel
module can take the forwarding over. The repository also carries an AES-CCM
implementation for signing packets. This project models the logic of these
parts and proves what the daemon relies on.

`dafny verify dfyconfig.toml` checks everything.

| module | subject |
|---|---|
| `Bytes`, `TopoPackets`, `Bits`, `Words`, `Sets` | wire format, packet layout, C's bit operations, set sizes |
| `Graphs` | walks, distances, shortest-path trees, next hops: the reference the routing code is measured by |
| `Topology` | `RTopology` on the heap: merging packets, expiry, Dijkstra, next hops, observers |
| `RoutingTables`, `KernelPath` | the table handed to the kernel and the kernel's fast path |
| `Unicast`, `Forwarding`, `Traces` | one node's handling of a unicast packet, a network of converged nodes, and the path a traced packet records |
| `FloodHistories`, `Flooding` | the duplicate ring and the flooding protocol as a state machine |
| `CcmSpec`, `Ccm`, `CcmReference` | RFC 3610, the in-place implementation, the straight-line implementation |
| `Aes` | the round of FIPS 197 and its table-driven form |
| `BeaconHistories`, `Beacons`, `Neighbours`, `Announcing` | the neighbour side: history bits, link weights, the sorted table, 2-hop counts, beacons and topology packets |
| `StaleRoutes` | a run after which stored routes no longer fit the stored graph |
| `Exchange` | from neighbour tables over beacons and topology packets into another node's database |
| `Convergence` | from the databases of single nodes to delivery through the network |
| `Periods`, `DebugRings` | integer square root and adaptive period; the debug ring buffer |

Code that works in place is modelled in place: `RTopology` and `LinkQuality` are
classes with mutual `counterpart` pointers, the CCM context, the neighbour table,
the rings and the packets are classes or arrays, and each such method is tied to
a function of the old state about which the properties are proved.

## What is proved

* **Routing.** Every run of packets, expiries and resets, which can only be cut
  short by the code's own assertions, keeps the link
  structure: lists strictly sorted, each link's counterpart exactly the stored
  opposite link or null, paired links of equal positive weight, edges no longer
  valid than their node, observers' logs replaying to the stored graph. After
  `calcRoutes` the distances are the minimal walk lengths, infinity stands for
  unreachable, and each next hop starts a shortest path; a repeated announcement
  leaves them exact if and only if the weights it changes fit, an expiry if and only
  if the tree of shortest paths outlives it. In a converged network
  a packet comes strictly closer to its destination with each hop, visits no
  node twice and is handed up exactly when its path has at most 31 hops; a traced
  packet goes the same way and names the nodes of its path in order, as many as there
  is room for.
* **Flooding.** In every interleaving no node hands up or repeats a flood twice,
  and once nothing is in flight every node of a connected network has handed up
  every flood exactly once.
* **CCM and AES.** The in-place CCM computes RFC 3610 for every block function,
  agrees with the straight-line one, and decryption undoes encryption; the
  table-driven AES computes the cipher of FIPS 197 for every S-box and key
  schedule.
* **Kernel fast path.** The binary search over the dumped bytes is lookup in the
  user-space map, and the exact condition under which the fast path and the
  daemon put the same bytes on the air.
* **Neighbours and arithmetic.** History bits, popcounts and ETX weights are
  exact; the search in a beacon is described for every pair of bounds, its end
  included; the neighbour table stays sorted and its 2-hop counts sufficient; a
  neighbour becomes and stays active exactly when it should; from the two ends'
  histories to a third node's database the weight of a link is 2^21 over the product
  of the beacons counted; what
  is written into beacons and topology packets is what their readers find; the
  square root and the adaptive period keep their bounds; the debug ring dumps
  the tail of everything written.

## Where the code does not do what its text suggests

* A topology packet shorter than its announced links is rejected only after the
  sender's list has been replaced by default entries; the link invariant then
  does not hold (`Topology.RTopology.RejectShort`). `Topology.RTopology.Feed`
  keeps it exactly for packets that hold their links.
* The kernel module also forwards to destinations that are known but
  unreachable: their next hop is the node itself, so the frame goes back to the
  node that sent it (`KernelPath.UnreachableBounces`). `KernelPath.FastPathExact`
  gives the exact condition for agreement.
* `last12received` asks for the last twelve beacons and one of the twenty before
  them (`BeaconHistories.ActivationExact`), so a new neighbour heard without loss
  becomes active with its thirteenth beacon (`BeaconHistories.ActiveFromThirteenth`,
  `BeaconHistories.TwelveDoNotActivate`).
* A repeated announcement may change link weights but does not have the routes
  computed again: a node that withdraws its link leaves the weight of the opposite
  link as it was, and the next unchanged packet of the other node raises it to the
  maximum (`StaleRoutes.StaleRun`). Routes stay exact if and only if the new
  weights fit them (`Topology.RTopology.Feed`, `Topology.RepeatedRoutes`).
* The ETX metric divides by zero for received qualities from 65504 on
  (`BeaconHistories.EtxDefinedExactly`); the sender never produces them.
* The 2-hop counters are `short` and are not reduced when a neighbour expires.
  They stay sufficient exactly as long as none passes 32767
  (`Neighbours.RefreshKeepsCounts`). Neighbours that are heard once and expire
  get a counter there (`Neighbours.CounterOverflows`); without expiry, and until
  expired neighbours have listed a node more than 22353 times, no counter can
  (`Neighbours.EnoughRoom`).
* List counts of 128 and more in a beacon read as negative, and `hasNeighBinsearch`
  then gets bounds for which it need not end or stay inside the packet.
  `Beacons.SearchFate` tells for any bounds, list and identifier whether it hits,
  misses, leaves the packet or runs for ever; `Beacons.SearchEnds` proves this
  exact. With counts below 128 both searches end inside the list
  (`Beacons.CountsOkEnds`). `hasMpr` with a negative count, and `hasNoMpr` with a
  negative count after no MPRs or a negative number of them, are decided by at
  most three probes before the list (`Beacons.NegativeMprCount`,
  `Beacons.NegativeNoMprCount`); a negative second count behind MPRs, as
  `recv_flood` may meet it, leaves a search that never ends with a miss and, among
  sorted entries, hits exactly one identifier and runs for ever for all others
  (`Beacons.NegativeNoMprCount`, `Beacons.OnlyHits`).
* When two links lapse before the same call of `checkLinkFailure`, only the first is
  marked inactive, because `topoChanged ||` skips the others, and the assertion
  behind it fails. It holds if and only if no two links lapse together
  (`Neighbours.NeighbourTable.CheckLinks`).
* Expiry does not ask for new routes. Exact routes survive it if and only if the own
  node stays and every remaining node that was reached keeps its predecessor and the
  predecessor's links (`Topology.RTopology.RemoveOldNodes`, `Topology.ExpiredRoutes`).
* The 32-bit block guard of CCM is right exactly up to messages of 2^32 - 16
  octets (`Ccm.BlockGuardExact`). A sealed length from 2^31 on returns as a negative
  number, and the last five lengths as error codes (`Ccm.CcmMode`,
  `Ccm.LongestMessage`); opening has no such ambiguity.
* The limit meant to slow down growth of the topology period compares the new
  period with itself plus a fifth, so the period depends on the number of nodes
  alone (`Periods.AdaptivePeriod`). From one node to two it goes from 200 to 640
  milliseconds (`Periods.FirstGrowth`), and one node more raises it by more than a
  fifth exactly for 1 to 6 and for 9 nodes (`Periods.GrowthExact`).
* The period is kept in an `int`, which it fits exactly below 48658 nodes
  (`Periods.PeriodFitsExactly`).
* When the device refuses a frame that the kernel module has rewritten, the daemon
  is left the rewritten frame with its Ethernet header in front
  (`KernelPath.PacketRcv`).

## Model

| member | source | states |
|---|---|---|
| `Bytes.StoreBytes` | src/awds/toArray.h:10-17 | the loop writes the big-endian bytes of the value and nothing else |
| `Bytes.LoadBytes` | src/awds/toArray.h:19-27 | the loop reads the big-endian value |
| `Bytes.ValueOfBigEndian` | src/awds/toArray.h:10-27 | writing then reading restores every value that fits |
| `Bytes.IdRoundTrip` | src/awds/AbstractId.h:128-142 | an address written by toArray is read back by fromArray |
| `Bytes.MemcmpIsNumeric` | src/awds/AbstractId.h:145-157 | memcmp on big-endian strings of one length orders as the numbers do |
| `Graphs.DistancesExact` | src/Topology.cc:667-729 | a tree in which no edge can be relaxed gives minimal walk lengths, infinity exactly where no walk exists |
| `Graphs.FirstHopCorrect` | src/Topology.cc:637-665 | following predecessors back yields a direct neighbour that starts a shortest path |
| `Graphs.TreeSurvives` | src/Topology.cc:387-415 | after new weights on some links the old distances are exact if and only if the reweighed links fit them |
| `Graphs.PrunedRoutes` | src/Topology.cc:852-955 | exact routes outlive the loss of nodes and rows of links if and only if every tree link to a remaining node remains |
| `Topology.LinkQuality.SetCounterpart` | src/awds/Topology.h:100-104 | both ends point to each other, or the pointer is null |
| `Topology.LinkQuality.RemoveReference` | src/awds/Topology.h:93-98 | the opposite link loses its pointer to this one |
| `Topology.LinkQuality.SetMetricWeight` | src/awds/Topology.h:114-119 | both ends get the weight |
| `Topology.LinkQuality.Calculate` | src/awds/Metric.h:80-91 | the clamped weight of both qualities is stored at both ends; `Topology.PairWeights` says of which qualities |
| `Topology.FindLinkQuality` | src/Topology.cc:265-274 | on a sorted list lower_bound finds the link to a node exactly when there is one |
| `Topology.NoOverflow` | src/Topology.cc:720 | with weights up to floor((2^32-1)/1024) and at most 1024 nodes the 32-bit sum neither wraps nor reaches infinity |
| `Topology.RelaxedAll` | src/Topology.cc:691-729 | extracting the nearest open node and relaxing its links keeps the loop invariant of Dijkstra |
| `Topology.ProgressComplete` | src/Topology.cc:691-729 | once every node is extracted the distances form a tree no edge can relax |
| `Topology.RTopology.ExtractNearest` | src/Topology.cc:691-729 | the loop ends with every node settled and the links unchanged |
| `Topology.RTopology.CalcNextHop` | src/Topology.cc:637-665 | the recursion terminates by falling distance and stores the first hop of the tree path, memoised entries included |
| `Topology.FinalCorrect` | src/Topology.cc:637-665 | next hop self exactly for self and unreachable nodes, otherwise a neighbour that starts a shortest path |
| `Topology.RTopology.CalcRoutes` | src/Topology.cc:667-736 | distances, predecessors and next hops are those of the stored graph, which is unchanged |
| `Topology.RTopology.ExactAt` | src/Topology.cc:667-736 | each distance is the least length of a walk, or infinity exactly for unreachable nodes; the next hop is the node itself exactly for itself and unreachable nodes, else it starts a shortest path |
| `Topology.RTopology.UpdateTopology` | src/Topology.cc:738-775 | expiry, exact routes, and the dumped bytes describe the next hops in ascending order |
| `Topology.RTopology.GetNextHop` | src/Topology.cc:777-793 | found exactly for known nodes with a next hop other than self; routes are exact when they had to be recomputed |
| `Topology.RTopology.constructor` | src/Topology.cc:144-168 | the database starts valid with the own node alone |
| `Topology.RTopology.GetNodeEntry` | src/Topology.cc:177-208 | an unknown node is added without links and announced to the observers |
| `Topology.RTopology.KeepLink` | src/Topology.cc:387-415 | the merge invariant moves past a link present in both lists; dirty exactly when its quality changed |
| `Topology.RTopology.AddLink` | src/Topology.cc:416-445 | the merge invariant moves past a new link, which is joined with its opposite and announced |
| `Topology.RTopology.DropLink` | src/Topology.cc:446-477 | the merge invariant moves past a vanished link, whose opposite loses its counterpart |
| `Topology.RTopology.MergeLinks` | src/Topology.cc:373-479 | the two-pointer loop leaves all pointers and notifications right; dirty exactly when the lists differ |
| `Topology.MergedGraph` | src/Topology.cc:380-479 | the graph after a merge: announced links and their opposites are priced from both qualities, every other weight stays |
| `Topology.PairWeights` | src/awds/Metric.h:80-91 | after a packet an announced link weighs the metric of its quality and that of the stored link back, at most 0x3FFFFF, in both directions; without a link back 0x3FFFFF |
| `Topology.RTopology.MergePacket` | src/Topology.cc:289-530 | the sender's links are those of the packet, other nodes keep theirs, the graph is reweighed accordingly, the invariant holds |
| `Topology.RepeatedRoutes` | src/Topology.cc:387-415 | a repeated announcement keeps exact routes exact if and only if its neighbours are known and the new weights fit the distances in both directions, whatever distance a new entry starts with, as long as no node is called 0 |
| `Topology.RTopology.RejectShort` | src/Topology.cc:322-343 | after a packet shorter than its links the invariant does not hold |
| `Topology.RTopology.Feed` | src/Topology.cc:289-536 | the invariant survives exactly the packets that hold their links; the sender then has the packet's links and name, unexpired nodes keep theirs, sender and announced nodes are valid until the later of their former validity (100 ms for new ones) and the packet's, the graph is reweighed; routes are exact when links changed, and otherwise stay exact if and only if the new weights fit; the own node is needed only where routes are computed |
| `Topology.SelfPresentExact` | src/Topology.cc:674 | the own node is there when routes are computed exactly if it sent the packet, is announced in it, was still valid, or is looked up for a link that is gone |
| `Topology.RTopology.FeedAnyway` | src/Topology.cc:289-536 | with any number of nodes the invariant holds, and the assertion on the own node fails exactly when routes are to be computed and the own node is not there |
| `StaleRoutes.StaleRun` | src/Topology.cc:446-459 | two announcements, a withdrawal and a repeated announcement end in a valid, clean database whose routes are not those of its graph |
| `Topology.RTopology.RemoveOldNodes` | src/Topology.cc:852-955 | exactly the expired edges and nodes disappear, no counterpart dangles, the next timeout is the earliest remaining one, and exact routes stay exact if and only if the tree outlives the expiry |
| `Topology.ExpiredRoutes` | src/Topology.cc:852-955 | routes are exact after an expiry if and only if the own node stays and every remaining node that was reached keeps its predecessor with its links |
| `Topology.RTopology.Reset` | src/Topology.cc:831-850 | with a clock not ahead of the event only the own node is left, if it is still valid, with its links while their validity lasts; with a clock ahead every other node stays and is valid until the clock; a locked database keeps its nodes |
| `Topology.RTopology.ResetThenExpire` | src/Topology.cc:831-955 | the next expiry from the reset's clock on leaves at most the own node |
| `Topology.RTopology.Run` | src/Topology.cc:289-536 | any run of packets, cleanups, resets and locking, of any network size, keeps the invariant, and replaying the notifications from a snapshot gives the final nodes and links; it ends early only where the code asserts, at a packet with routes to compute and the own node missing, or at the expiry of an empty list |
| `Topology.MirrorUnique` | src/Topology.cc:1030-1069 | an observer's knowledge is determined by the stored graph |
| `RoutingTables.DumpTable` | src/Topology.cc:745-762 | the dump lists every node with its next hop in ascending order |
| `Unicast.RecvUnicast` | src/AwdsRouting.cc:561-608 | action and buffer after `recv_unicast`, in place, for every packet; what they mean is stated by `Forwarding.Delivery`, `Traces.TracedDelivery` and `KernelPath.FastPathExact` |
| `Unicast.NewUnicastPacket` | src/AwdsRouting.cc:544-557 | a fresh packet has TTL 32, is untraced and carries source and destination |
| `Forwarding.StepCloser` | src/AwdsRouting.cc:592-608 | in a converged network each hop strictly lowers the distance to the destination |
| `Forwarding.HopPathSimple` | src/AwdsRouting.cc:561-608 | a hop path visits no node twice |
| `Forwarding.TravelFollowsPath` | src/AwdsRouting.cc:561-608 | a packet under way follows the hop path until its end or until the TTL is used up |
| `Forwarding.Delivery` | src/AwdsRouting.cc:544-608 | a new packet visits its hop path in order, no node twice, and is handed up exactly when the path has at most 31 hops |
| `Traces.TraceAppended` | src/awds/TraceUcPacket.h:26-37 | appendNode puts the identifier at the pointer and moves the pointer behind it, or does nothing without room |
| `Traces.TwinsReceived` | src/AwdsRouting.cc:561-608 | a node does with a traced packet what it does with the same packet untraced |
| `Traces.LaunchTraced` | src/awds/TraceUcPacket.h:26-37 | on any tables and with any TTL a traced packet goes where it would go untraced, and the identifiers up to the final pointer are the nodes visited, in order, cut only by the room in the packet and by a last node that drops it first |
| `Traces.TracedDelivery` | src/pinger.cc:188-210 | in a converged network: delivery as without trace, and the trace is the path travelled, all of it where there is room, never more than 32 nodes |
| `Traces.PrintedPath` | src/pinger.cc:261-271 | the printing loop reads back the recorded identifiers and their number |
| `Convergence.TablesConverged` | src/Topology.cc:667-736 | databases of one graph that have just computed their routes form a converged network |
| `Convergence.DeliveredByDatabases` | src/AwdsRouting.cc:544-608 | delivery without loops, exactly within 31 hops, over the nodes' own databases |
| `KernelPath.CheckRouting` | linux-module/awds_module.c:506-545 | the memcmp binary search finds an entry exactly when there is one |
| `KernelPath.LookUp` | linux-module/awds_module.c:506-545 | on the dumped table the search gives the map's next hop, exactly for nodes in the map |
| `KernelPath.Retransmit` | linux-module/awds_module.c:565-599 | the frame is rewritten for the next hop with one TTL less, whether or not the device takes it, or left alone when the TTL is used up |
| `KernelPath.PacketRcv` | linux-module/awds_module.c:804-863 | the unicast branch sends the rewritten frame, leaves the daemon the untouched packet, or, when the device refuses, the rewritten frame with its Ethernet header |
| `KernelPath.UserSpaceForwards` | src/AwdsRouting.cc:561-608 | when the daemon forwards a transit frame and the bytes it then sends |
| `KernelPath.FastPathExact` | linux-module/awds_module.c:804-863 | fast path and daemon agree byte for byte for every TTL if and only if a condition on table, TTL, source and next hop holds |
| `KernelPath.UnreachableBounces` | linux-module/awds_module.c:804-863 | a known unreachable destination is dropped by the daemon and bounced by the module |
| `FloodHistories.FloodHistory.Insert` | src/awds/FloodHistory.h:39-44 | the ring remembers the last 128 insertions |
| `FloodHistories.FloodHistory.Contains` | src/FloodHistory.cc:6-19 | true exactly for the pairs among the last 128 insertions |
| `FloodHistories.DuplicateWindow` | src/AwdsRouting.cc:441-451 | a flood twice in a log of acceptances has 128 pairwise distinct other ones before the second |
| `Flooding.ReceivedAccepted` | src/AwdsRouting.cc:441-451 | `recv_flood` enters only floods that its ring does not remember |
| `Flooding.FloodReceiver.ReceiveAll` | src/AwdsRouting.cc:434-521 | after any packets, between two acceptances of a flood the receiver has accepted 128 pairwise distinct others |
| `Flooding.FloodReceiver.Receive` | src/AwdsRouting.cc:434-521 | the in-place receiver on the ring does what the protocol step says |
| `Flooding.ChainBounded` | src/AwdsRouting.cc:497-520 | a flood is repeated fewer times than its TTL says, each copy with one less and its sender as last hop, and never by a node its last hop lists as no MPR |
| `Flooding.NoOtherNeighbours` | src/beacon.cc:164-167 | beacons built after calcMpr list no neighbour that is not an MPR |
| `Flooding.BeaconLists` | src/AwdsRouting.cc:181-191 | a beacon lists exactly the good neighbours, all of them as MPRs |
| `Flooding.StepKeepsInv` | src/AwdsRouting.cc:434-540 | every origination, delivery and beacon keeps the protocol invariant |
| `Flooding.RunInv` | src/AwdsRouting.cc:386-393 | the invariant holds in every state of every run with at most 33 nodes and 128 floods |
| `Flooding.NoDuplicates` | src/AwdsRouting.cc:434-521 | no node hands up or rebroadcasts a flood twice, and the MPR test never suppresses one |
| `Flooding.Coverage` | src/AwdsRouting.cc:434-540 | once nothing is in flight on a connected network every node has handed up every flood exactly once |
| `CcmSpec.RoundTrip` | src/crypto/gladman/ccm.c:415-429 | section 2.5 of RFC 3610 undoes sections 2.2 to 2.4, for every block function |
| `CcmSpec.CountersDistinct` | src/crypto/gladman/ccm.c:51-66 | all counter blocks of one message are pairwise distinct |
| `CcmSpec.RunningFinish` | src/crypto/gladman/ccm.c:283-287 | enciphering the partial last block equals zero padding |
| `Ccm.CcmCtx.IncCtr` | src/crypto/gladman/ccm.c:60-66 | increment with carry over the counter octets only |
| `Ccm.WordXored` | src/crypto/gladman/ccm.c:246-249 | one word operation equals four octet operations, in either byte order |
| `Ccm.CcmCtx.Init` | src/crypto/gladman/ccm.c:123-190 | the error code, or a context holding counter 1 and the CBC value of first block and header |
| `Ccm.CcmCtx.Encrypt` | src/crypto/gladman/ccm.c:206-300 | the buffer becomes ciphertext and tag of RFC 3610, for word and octet loops alike |
| `Ccm.CcmCtx.Decrypt` | src/crypto/gladman/ccm.c:322-407 | success exactly when the tag fits the recovered message; otherwise message and tag area are zero |
| `Ccm.CcmMode` | src/crypto/gladman/ccm.c:415-429 | -1, -2 and -3 exactly for bad key lengths, bad tag lengths and 65280 or more octets of associated data, in this order; every other call seals or opens the buffer as RFC 3610 says; a sealing result is negative exactly from 2^31 octets on and an error code exactly for the last five lengths, an opening result never is |
| `Ccm.SealThenOpen` | src/crypto/gladman/ccm.c:415-429 | encrypting and decrypting in place restores every message and returns its length |
| `Ccm.BlockGuardExact` | src/crypto/gladman/ccm.c:226-254 | the 32-bit block guard is right at every block boundary exactly up to 2^32 - 16 octets |
| `Ccm.LongestMessage` | src/crypto/gladman/ccm.c:298-299 | 2^32 - 17 octets sealed with a 16-octet tag return the code for a bad key |
| `CcmReference.MacStep` | src/crypto/gladman/test.c:222-238 | one octet of the single authentication pass, with encipherment at full blocks and at both pad boundaries |
| `CcmReference.Packet.CbcMac` | src/crypto/gladman/test.c:214-238 | the pass computes the CBC value over first block, padded header and padded message |
| `CcmReference.Packet.Ctr` | src/crypto/gladman/test.c:246-262 | the message is encrypted in place under the key stream of section 2.3 of RFC 3610 |
| `CcmReference.Packet.Generate` | src/crypto/gladman/test.c:178-276 | the packet becomes header, ciphertext and truncated encrypted tag |
| `CcmReference.BothForms` | src/crypto/gladman/test.c:178-276 | both implementations leave the same bytes behind the header |
| `Aes.FieldProducts` | src/crypto/gladman/aesopt.h:706-710 | f2 and f3 multiply by {02} and {03} and stay within an octet |
| `Aes.TableRound` | src/crypto/gladman/aescrypt.c:83-92 | the four-table round is SubBytes, ShiftRows, MixColumns and AddRoundKey |
| `Aes.TableLastRound` | src/crypto/gladman/aescrypt.c:99-105 | the last round is SubBytes, ShiftRows and AddRoundKey |
| `Aes.StateRoundTrip` | src/crypto/gladman/aescrypt.c:57-58 | blocks and states of section 3.4 of FIPS 197 determine each other |
| `Aes.EncryptUnrolled` | src/crypto/gladman/aescrypt.c:107-142 | the fall-through switch leaves the octets of the cipher for 10, 12 and 14 rounds and only adds the first key otherwise |
| `Aes.EncryptPaired` | src/crypto/gladman/aescrypt.c:145-166 | the loop of two rounds per turn leaves the octets of the cipher |
| `Aes.EncryptLooped` | src/crypto/gladman/aescrypt.c:157-167 | the loop that exchanges the state arrays leaves the octets of the cipher |
| `Periods.Isqrt` | src/sqrt_int.c:6-35 | root^2 <= x < (root+1)^2 for every positive long of any even width, 0 otherwise |
| `Periods.AdaptivePeriod` | src/AwdsRouting.cc:124-133 | the period is that of the node count alone, stored in an `int` exactly below 48658 nodes; the validity field is three periods without overflow exactly below 23382 nodes and never zero below 48658 |
| `Periods.PeriodBounds` | src/AwdsRouting.cc:124-127 | 40000 n^3 < (p+1)^2 and p^2 < 62500 n^3, p at least 200 |
| `Periods.GrowthExact` | src/AwdsRouting.cc:127-130 | one node more raises the period by more than a fifth exactly for 1 to 6 and for 9 nodes |
| `Periods.FirstGrowth` | src/AwdsRouting.cc:127-130 | from one node to two the period goes from 200 to 640 |
| `Periods.PeriodFitsExactly` | src/awds/AwdsRouting.h:44 | the period fits an `int` exactly below 48658 nodes |
| `Periods.ValidityFitsExactly` | src/AwdsRouting.cc:133 | three periods fit an `int` exactly below 23382 nodes |
| `BeaconHistories.NextRecorded` | src/AwdsRouting.cc:254-259 | shift and set keep the history the record of received beacons |
| `BeaconHistories.HistoryRecords` | src/AwdsRouting.cc:251-267 | after any beacons with gaps up to 31, bit 31-k is set exactly when the beacon k before the last was received |
| `BeaconHistories.ActivationExact` | src/awds/NodeDescr.h:42-56 | the activation test holds exactly when the last 12 beacons and one of the 20 before were received |
| `BeaconHistories.ActiveFromThirteenth` | src/awds/NodeDescr.h:42-56 | a new neighbour heard without loss passes the test exactly from its thirteenth beacon on |
| `BeaconHistories.TwelveDoNotActivate` | src/awds/NodeDescr.h:45 | after its first twelve beacons its history is 0xFFF00000 and does not pass |
| `BeaconHistories.Quality` | src/awds/NodeDescr.h:122-138 | the bit-clearing loop counts the set bits |
| `BeaconHistories.QualityCounts` | src/awds/NodeDescr.h:119-138 | the quality is the number of beacons received among the last 32 |
| `BeaconHistories.EtxExact` | src/EtxMetric.cc:16-36 | for counts a and b the weight is floor(2^21/(a b)), within 2048..2^21, nothing clamped, wire values non-zero |
| `BeaconHistories.EtxOfBeacons` | src/EtxMetric.cc:16-36 | for any beacons received at both ends the weight is 2^21 over the product of the numbers received among the last 32 |
| `BeaconHistories.EtxDefinedExactly` | src/EtxMetric.cc:27-36 | the divisor is zero exactly for a quality from 65504 on |
| `Beacons.HasNeighBinsearch` | src/beacon.cc:73-88 | wherever the search ends inside the packet the loop returns whether it hits, for any bounds |
| `Beacons.SearchExact` | src/beacon.cc:73-88 | a hit is always listed; in a sorted range every listed node is hit |
| `Beacons.HasNeighExact` | src/beacon.cc:91-121 | hasNeigh is membership for beacons with sorted parts |
| `Beacons.SearchEnds` | src/beacon.cc:73-88 | for any bounds, list and identifier the loop comes to an end after some number of turns if and only if its fate is not `Forever` |
| `Beacons.CountsOkEnds` | src/beacon.cc:91-121 | with counts below 128 both searches end inside the list, with the result of the plain search |
| `Beacons.NegativeMprCount` | src/beacon.cc:91-95 | for every negative MPR count, which identifiers hasMpr finds, misses, runs for ever on, or leaves the packet for |
| `Beacons.NegativeNoMprCount` | src/beacon.cc:97-102 | for every negative count of other neighbours: the same for no or a negative number of MPRs; behind MPRs hasNoMpr never ends with a miss |
| `Beacons.OnlyHits` | src/beacon.cc:97-102 | with a negative second count and a sum that is not negative hasNoMpr ends only with a hit, among sorted entries for one identifier, with a count of -1 for the last MPR |
| `Beacons.NegativeStart` | src/beacon.cc:97-102 | with a negative MPR count and a positive sum hasNoMpr ends for identifiers not below the three keys around the list's start |
| `Neighbours.KnownExact` | src/awds/AwdsRouting.h:151-168 | the place of an identifier holds it exactly when the table does |
| `Neighbours.NeighbourTable.FindNeigh` | src/awds/AwdsRouting.h:151-168 | the index of a known identifier, or the place to insert an unknown one |
| `Neighbours.NeighbourTable.Add2Hop` | src/beacon.cc:123-140 | every listed node is counted, in 16-bit arithmetic |
| `Neighbours.NeighbourTable.Remove2Hop` | src/beacon.cc:142-162 | every listed node is found and counted down, erased at zero |
| `Neighbours.RemoveAllCounts` | src/beacon.cc:142-162 | a list that is counted can be taken out again, whatever its repetitions |
| `Neighbours.RefreshedSorted` | src/AwdsRouting.cc:225-243 | inserting or updating keeps the array strictly sorted |
| `Neighbours.RefreshKeepsCounts` | src/AwdsRouting.cc:228-249 | remove2Hop finds every entry, and counters stay sufficient exactly when none overflows |
| `Neighbours.RefreshKeepsAccount` | src/AwdsRouting.cc:228-249 | a beacon keeps each counter the current listings plus those lost with expired neighbours |
| `Neighbours.EnoughRoom` | src/awds/AwdsRouting.h:113-118 | no counter can overflow while expired neighbours have listed no node more than 22353 times, and none without expiry |
| `Neighbours.ExpiryKeepsAccount` | src/AwdsRouting.cc:347-366 | expiry moves exactly the listings of the expired neighbours to the lost ones |
| `Neighbours.LeakRounds` | src/AwdsRouting.cc:347-366 | nodes heard once and expired, with a clock that only goes forward, leave a counter that grows by one each round |
| `Neighbours.CounterOverflows` | src/beacon.cc:137 | after 32767 such rounds one more beacon ends in a valid table that lists the node once while its counter is -32768 |
| `Neighbours.NeighbourTable.RefreshNeigh` | src/AwdsRouting.cc:212-284 | table and counters after a beacon of a known, new or surplus neighbour |
| `Neighbours.UpdatedRecords` | src/AwdsRouting.cc:251-267 | the stored history stays exact, and a neighbour is active if and only if it was or its last twelve beacons and one of the twenty before came |
| `Neighbours.NeighbourTable.HearAll` | src/AwdsRouting.cc:212-284 | after any beacons of a new neighbour with gaps up to 31 its entry holds exactly their history, and it is active if and only if at some time the last twelve and one of the twenty before had come |
| `Neighbours.NeighbourTable.HearWithoutLoss` | src/awds/NodeDescr.h:42-56 | a new neighbour heard without loss is active in the table exactly from its thirteenth beacon on |
| `Neighbours.NeighbourTable.HearThenCheck` | src/awds/NodeDescr.h:68-83 | after a beacon and a later check an active link is active exactly while less than eight announced periods have passed |
| `Neighbours.HeardOnceStays` | src/awds/NodeDescr.h:103-106 | a neighbour heard once is in the table up to 32 announced periods later and no longer |
| `Neighbours.NeighbourTable.RemoveOldNeigh` | src/AwdsRouting.cc:347-366 | the compaction loop keeps the neighbours that are not expired, in order |
| `Neighbours.UnexpiredExact` | src/AwdsRouting.cc:347-366 | exactly the unexpired neighbours remain, sorted |
| `Neighbours.NeighbourTable.CheckLinks` | src/AwdsRouting.cc:296-305 | the assertion in the loop holds if and only if no two links lapse together; then exactly the lapsed link becomes inactive |
| `Neighbours.NeighbourTable.CheckLinkFailure` | src/AwdsRouting.cc:286-323 | lapsed links become inactive, then expired neighbours go |
| `Neighbours.LapseKeepsAccount` | src/AwdsRouting.cc:296-305 | a link that lapses stays counted |
| `Neighbours.NeighbourTable.Run` | src/AwdsRouting.cc:212-366 | any run of beacons, link checks and expiries keeps the table sorted and each counter the current listings plus those lost with expired neighbours; it ends early only at the full-table assertion, a gap above 31, two links that lapse together, or after such losses of more than 22353 |
| `Neighbours.ReadableEnds` | src/beacon.cc:119-121 | in a table whose beacons have counts below 128, as `Run` keeps it, every search ends inside its packet |
| `Announcing.SetBeaconNeigh` | src/beacon.cc:28-70 | hasNeigh on the beacon written is true exactly for good neighbours |
| `Announcing.SendBeacon` | src/AwdsRouting.cc:185-191 | readers of the beacon find sender, sequence number, period and exactly the good neighbours |
| `Announcing.BeaconAgrees` | src/beacon.cc:40-61 | the lists in the packet are the beacon of the flooding model |
| `Announcing.AnnouncedExact` | src/TopoPacket.cc:31-47 | the announced links are exactly the good bidirectional neighbours, sorted, with non-zero 16-bit qualities |
| `Announcing.AnnouncedListed` | src/awds/NodeDescr.h:93-102 | with sorted lists a link is announced if and only if the neighbour is active and its last beacon lists this node, with the metric's quality limited to 1 .. 65535 |
| `Announcing.MutuallyGood` | src/TopoPacket.cc:31-47 | a neighbour whose last beacon came from setNeigh is announced if and only if each end holds the other as a good neighbour |
| `Announcing.SetTopoNeigh` | src/TopoPacket.cc:18-59 | the links and the name written are those `feed` reads |
| `Announcing.SendTopo` | src/AwdsRouting.cc:116-133 | the packet sent never trips the ordering, non-zero or validity checks of `feed` |
| `Exchange.AnnounceAndFeed` | src/TopoPacket.cc:18-59 | the receiver accepts the packet and stores exactly the sender's good bidirectional neighbours, their qualities and the name |
| `Exchange.BeaconThenLink` | src/beacon.cc:28-70 | a beacon written from one table and stored in another: the link is announced if and only if each end holds the other as a good neighbour |
| `Exchange.AnnounceBack` | src/EtxMetric.cc:16-36 | with the opposite link stored, an announcement under the ETX metric gives both directions the weight 2^21 over the product of the beacons counted at both ends |
| `Exchange.BothAnnounce` | src/EtxMetric.cc:16-36 | both ends announce their link to a third node: in its database both directions weigh 2^21 over the product of the beacons counted |
| `DebugRings.StoredHolds` | src/debug_cmd.cc:69-91 | storing keeps the ring the record of the last bytes |
| `DebugRings.OutputRedirector.StoreInHistory` | src/debug_cmd.cc:69-91 | writes of any length, larger than the ring included, are recorded |
| `DebugRings.OutputRedirector.DumpHistory` | src/debug_cmd.cc:48-67 | the last min(s, size, total) bytes in order |
| `DebugRings.WritesThenDump` | src/debug_cmd.cc:48-91 | after any writes a dump is the tail of all of them put together |

## Modelling choices

* Time, sequence counters, the link metric and the block cipher are parameters:
  any positive metric function, any 16-octet block function, any S-box.
* The neighbour and quality of a `LinkQuality` are set when the link is created.
  `feed` swaps the old vector out and fills a new one, so no list is resized
  while a counterpart points into it.
* `calcRoutes` sorts the open nodes and takes the last; the model takes any open
  node of least distance. Nodes are otherwise visited in any order.
* `feed` demands by assertion that neighbours ascend strictly, that qualities and
  validity are positive; these are preconditions. That the own node is present is
  asserted only where routes are computed, and is a precondition only there. A link
  to oneself is covered.
* The constructor of a node entry leaves its distance uninitialised; the model gives
  it any value. Predecessor and next hop start as the identifier 0, so a node called
  0 could make an entry that was never computed look right.
* Up to 1024 nodes the 32-bit distances cannot overflow; this bound is a
  precondition of the route computation.
* Coverage of floods needs at most 33 nodes (a packet starts with TTL 33 at its
  originator) and at most 128 floods (the size of the duplicate ring).
* `calcRoutes` on more than 1024 nodes is covered for links and notifications, with
  whatever routes it leaves, but not for its distances.
* Beacon gaps of 32 and more would shift a 32-bit word by its width or more and
  are outside the model; so is `refreshNeigh` for a known neighbour of a full
  table, where its assertion fails.
* `char` is signed, so list counts of 128 and more in a beacon read as negative.
  The specification of hasNeigh is total; methods that search need the search to end
  inside the packet, which holds for counts below 128, as every beacon written by
  `setNeigh` has (`Neighbours.NeighbourTable.Run` keeps tables so), and for others as
  far as `Beacons.Ends` says.
* Words are bit-vectors for AES, whose tables work on bits, and numbers for CCM,
  whose octets are those of packets; only xor is needed there.
* CCM is one call of `CCM_mode` on an aligned context with 4-octet words and a
  32-bit `long`; messages up to 2^32 - 17 octets.

## Left out

- Sockets, TAP device, TCP shell, event loop, object repository, daemonising: input and output.
- XML, dot and debug text, name quoting and command parsing: string formatting.
- Timers: when `checkLinkFailure` and the other callbacks are called is left open.
- The pruning body behind the early return of `tryRemoveFromMpr` (src/beacon.cc:169-205): unreachable.
- RTT, packet-pair and TT metrics, traffic and ping modules: probing and floating point.
- AES decryption, key expansion, one-table and no-table rounds, generated tables, assembler: not used by the configuration in aesopt.h.
- Multi-call CCM, `LONG_MESSAGES` and the unaligned prologue of the loops.
- Packet signing and key files: the crypto unit's implementation is not part of this model.
- Kernel instances, local delivery, locking and the length word in front of the dumped table.
- Reference counts of packets: beacons are immutable values once received.
- Neighbours.NeighbourTable.RefreshNeigh: does not model gaps of 32 and more, because the shift is then undefined.
- Announcing.SetTopoNeigh: does not model tables with a stored beacon on which the search does not return, because the call then has no result.
- Announcing.SendTopo: the same.
- Exchange.AnnounceAndFeed: the same.
- Traces.LaunchTraced: a trace pointer into the header is outside, because appendNode then overwrites the fields it goes by; the pinger sets it behind its own header.
- Beacons.NegativeStart: gives one direction; with a negative MPR count before a longer second list the exact answer is `Beacons.SearchFate`, which depends on every key probed.
- Beacons.NegativeNoMprCount: which identifiers hit behind MPRs in an unsorted list is given by `Beacons.SearchFate` alone.
- KernelPath.PacketRcv: after a refused send the module goes on with a buffer it has given away; the model keeps its bytes.
- Aes.EncryptPaired: only even round counts, the ones AES has.
- Aes.EncryptLooped: only even round counts; with an odd count the last round would read the wrong array.
- CcmReference.BothForms: only even tag lengths, the ones `CCM_init` accepts.
