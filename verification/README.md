# Network timing tool: verified models

The repository is a tool that measures network round trips from captured packets, together with the
googlemock sources that its tests are built with. This project models the algorithms in both that are
hard to get right and proves what they promise.

**Matching (BipartiteMatching, MatchMatrix, MaxBipartiteMatch, BacktrackingMatch, UnorderedElements).**
googlemock decides `UnorderedElementsAre`, `IsSubsetOf` and `IsSupersetOf` with an augmenting-path search
that starts from every left node only once. It is proved to find a maximum matching in every graph. The
argument keeps the union `dead` of the marks of all failed searches: it stays closed under the edges of
its partners, no later search enters it or changes it, and any matching can be charged, pair by pair, to
distinct matched left nodes. The backtracking search of the tests, early exit included, is proved to reach
the maximum as well, so the comparison that the tests make on small graphs holds on all graphs. The flat
edge matrix counts in binary through all graphs of one size, each exactly once.

**Capture pipeline (CapturedPackets, CaptureProtocol, CaptureBounds, PcapWrapper, PcapTimingSocket, Timing).**
The capture callback and the search for a packet share two buffers of N slots, two indices and two one-bit
flags. CaptureProtocol is the state machine of the two threads with one step per shared access, down to the
single bytes of the copied payload. Every reachable state keeps an invariant from which it follows that the
packets examined are a prefix of the packets stored, that each call returns the time of the greedy in-order
match, and that the whole refines an unbounded FIFO queue. CaptureBounds adds the capacity (at least N
unread packets before the producer gives up, never more than 2N, and N is reached, by a run built for
every N) and the progress of the consumer: in every run, whatever the producer does in between, the consumer
takes at most eleven steps per unread packet, and ten more, until all calls have returned. PcapWrapper is
the same state as an object with arrays that are changed in place; its invariant is the queue half of the
state machine's, and its methods change the state as runs of the state machine's fine steps do.
PcapTimingSocket is its client; Timing is the borrow arithmetic of the time differences.

**Decoders (PacketParser, PacketRoundTrip).** Ethernet, IPv4 (RFC 791 section 3.1), IPv6 with its extension
headers (RFC 8200 sections 3 and 4), TCP (RFC 9293 section 3.1) and UDP (RFC 768). Encoding a well-formed
frame and decoding it gives back the ports, the addresses and the position and size of the payload,
whatever padding follows. For IPv6 this is false in general: the code demands 64 remaining bytes at each
extension header (its comment speaks of multiples of 64 bytes, while RFC 8200 counts in units of 8), so a
correct short packet is refused. `PacketRoundTrip.ShortPacketRefused` is such a packet, and `RoundTrip` says
exactly which packets are accepted: those with at least 64 bytes left at the last extension header.

**Expectations (Expectations, CallHistories, MockFramework).** The three worklist traversals of the
prerequisite graph, with the reason why each of them is right: the early return of `RetireAllPreRequisites`
rests on "retired expectations have retired prerequisites", the traversal without a visited set ends because
the unfolding of the graph gets smaller, and not looking behind expectations that have been called rests on
an invariant of all creations and calls. "Every called expectation has satisfied prerequisites" is not that
invariant: an excessive call to an expectation that allows no calls is counted without retiring anything, so
a prerequisite may later take one call too many. `CallHistories.CalledTooEarlyIffExposed` says exactly when
this can happen, from the parameters that the expectations are created with: some history ends with b called
and its prerequisite x unsatisfied iff b allows no calls, x does not retire by itself, and nothing between
the two has to be called. `MockFramework.CalledIsNotEnough` carries out such a history. What the
traversal needs holds in every state: what has been called and allows calls has only retired, satisfied
prerequisites.

**Text (TimingProxy, GoogleMockInit).** The control lines of the proxy: all ways to cut a stream into reads
lead to the same target if, and only if, neither of the first two lines holds a NUL or there are no two
lines. Otherwise reading the stream in one piece keeps the proxy waiting while reading it character by
character gives a target. And the in-place removal of framework flags from argv.

Where the source changes fields or arrays in place, the model is a class or an array method, proved
against functions on values; a ghost `state` or `Valid()` ties the two. `hide` statements keep definitions
that a proof does not need away from the solver.

## Model

| member | source | states |
|---|---|---|
| MaxBipartiteMatch.MaxBipartiteMatchState.TryAugment | tests/googletest-src/googlemock/src/gmock-matchers.cc:276-316 | terminates; on success both vectors are mutually referent again, ilhs is the only left node that can go from unused to used, only newly seen right nodes change and no known dead end does; on failure nothing changes and everything newly seen is matched and leads only to seen nodes; a search that starts into a dead end fails |
| MaxBipartiteMatch.MaxBipartiteMatchState.Compute | tests/googletest-src/googlemock/src/gmock-matchers.cc:240-271 | the result is a matching of maximum size, in increasing order of the left node, although each left node is searched from once |
| MaxBipartiteMatch.MaxBipartiteMatchState.CollectPairs | tests/googletest-src/googlemock/src/gmock-matchers.cc:264-270 | exactly one pair for each matched left node, in order |
| MaxBipartiteMatch.LinkTaken | tests/googletest-src/googlemock/src/gmock-matchers.cc:308-312 | linking ilhs behind a successful search from the partner of irhs is again a successful search |
| MaxBipartiteMatch.StillStuck | tests/googletest-src/googlemock/src/gmock-matchers.cc:297-315 | one more failed branch keeps what earlier failed branches established |
| MaxBipartiteMatch.DeadEndGrows | tests/googletest-src/googlemock/src/gmock-matchers.cc:243-254 | the marks of a failed search from the root extend the dead end |
| MaxBipartiteMatch.NoLargerMatching | tests/googletest-src/googlemock/src/gmock-matchers.cc:243-254 | when every unmatched left node leads only into the dead end, no matching has more pairs than there are matched left nodes |
| MaxBipartiteMatch.FindMaxBipartiteMatching | tests/googletest-src/googlemock/src/gmock-matchers.cc:338-340 | maximum matching for every matrix |
| BacktrackingMatch.BacktrackingMaxBPMState.PushMatch | tests/googletest-src/googlemock/test/gmock-matchers_test.cc:6008-6015 | adds one pair to the matching that the three vectors hold together; the best one is the new matching if that is larger, and otherwise unchanged |
| BacktrackingMatch.BacktrackingMaxBPMState.PopMatch | tests/googletest-src/googlemock/test/gmock-matchers_test.cc:6017-6022 | removes the last pair from all three vectors |
| BacktrackingMatch.PopUndoesPush | tests/googletest-src/googlemock/test/gmock-matchers_test.cc:6008-6022 | a pop after a push restores all three vectors |
| BacktrackingMatch.BacktrackingMaxBPMState.RecurseInto | tests/googletest-src/googlemock/test/gmock-matchers_test.cc:6024-6045 | if it returns true, the vectors are as before and no matching that extends the decisions so far and matches irhs beats the best one; it returns false exactly when all right nodes are matched |
| BacktrackingMatch.BacktrackingMaxBPMState.TryPartner | tests/googletest-src/googlemock/test/gmock-matchers_test.cc:6035-6042 | the same for one partner of irhs |
| BacktrackingMatch.FirstLater | tests/googletest-src/googlemock/test/gmock-matchers_test.cc:6039-6041 | a matching that extends the current one stops there or goes on at a right node that was explored |
| BacktrackingMatch.PartnerDone | tests/googletest-src/googlemock/test/gmock-matchers_test.cc:6028-6043 | exploring everything after a pushed pair covers every matching with that pair |
| BacktrackingMatch.ToAssignment | tests/googletest-src/googlemock/test/gmock-matchers_test.cc:6047-6051 | every matching is a vector of partners of the same size, so the search over vectors leaves none out |
| BacktrackingMatch.BacktrackingMaxBPMState.Compute | tests/googletest-src/googlemock/test/gmock-matchers_test.cc:5990-6003 | the result is a matching of maximum size, early exit included |
| BacktrackingMatch.FindBacktrackingMaxBPM | tests/googletest-src/googlemock/test/gmock-matchers_test.cc:6061-6065 | maximum matching for every matrix |
| MatchMatrices.MatchMatrix.SpaceIndex | tests/googletest-src/googlemock/include/gmock/gmock-matchers.h:3654-3656 | stays inside the vector |
| MatchMatrices.SpaceIndexInjective | tests/googletest-src/googlemock/include/gmock/gmock-matchers.h:3661-3664 | different coordinates have different offsets |
| MatchMatrices.MatchMatrix.SetEdge | tests/googletest-src/googlemock/include/gmock/gmock-matchers.h:3640-3642 | adds or removes exactly one edge of the graph |
| MatchMatrices.MatchMatrix.NextGraph | tests/googletest-src/googlemock/src/gmock-matchers.cc:357-369 | adds one to the matrix as a binary number, and returns false exactly on the wrap-around to the empty graph |
| MatchMatrices.IncrementStops | tests/googletest-src/googlemock/src/gmock-matchers.cc:360-365 | clearing the leading ones and setting the next zero adds one |
| MatchMatrices.ValueInjective | tests/googletest-src/googlemock/include/gmock/gmock-matchers.h:3644-3647 | the number determines the matrix |
| UnorderedElements.UnorderedElementsAreMatcherImplBase.MarkMatched | tests/googletest-src/googlemock/src/gmock-matchers.cc:484-493 | each side's flags tell exactly which nodes take part in an edge |
| UnorderedElements.UnorderedElementsAreMatcherImplBase.VerifyMatchMatrix | tests/googletest-src/googlemock/src/gmock-matchers.cc:480-528 | true iff every node of every required side takes part in an edge |
| UnorderedElements.UnorderedElementsAreMatcherImplBase.FindPairing | tests/googletest-src/googlemock/src/gmock-matchers.cc:530-569 | true iff the required injection or bijection exists |
| UnorderedElements.UnorderedElementsAreMatcherImplBase.MatchAndExplain | tests/googletest-src/googlemock/include/gmock/gmock-matchers.h:3766-3782 | true iff the required pairing exists: the empty case, the size test and the quick check never change the verdict |
| UnorderedElements.PairingIffSizes | tests/googletest-src/googlemock/src/gmock-matchers.cc:532-556 | the required pairing exists iff a maximum matching is as large as each required side |
| UnorderedElements.PairingTouches | tests/googletest-src/googlemock/src/gmock-matchers.cc:495-527 | whenever the quick check or the size test says no, no required pairing exists |
| UnorderedElements.FlagsMean | tests/googletest-src/googlemock/include/gmock/gmock-matchers.h:3675-3681 | a matcher without an element fails exactly Superset, an element without a matcher exactly Subset |
| UnorderedElements.Exhaustive | tests/googletest-src/googlemock/test/gmock-matchers_test.cc:6074-6097 | the loop ends, visits the graphs 0, 1, ..., 2^(n*m) - 1 in this order, and on each the two algorithms agree on the size |
| UnorderedElements.EveryGraphVisitedOnce | tests/googletest-src/googlemock/test/gmock-matchers_test.cc:6073-6097 | that order leaves no graph of the size out and visits none twice |
| CapturedPackets.SlotMatchesPacket | src/PcapWrapper/PcapWrapper.cpp:170-174 | the test on a slot is equality of the direction and of all bytes with the packet that the slot holds |
| CapturedPackets.ScanEmbeds | src/PcapWrapper/PcapWrapper.cpp:146-185 | the positions found by the calls in a row are strictly increasing and each answers its request |
| CapturedPackets.ScanSkipsNothing | src/PcapWrapper/PcapWrapper.cpp:146-185 | between two hits, before the first and after the last, nothing answers the request looked for |
| CapturedPackets.ScanIsEarliest | src/PcapWrapper/PcapWrapper.cpp:146-185 | if the requests embed in the trace at all, all are found, each no later than in any other embedding |
| CapturedPackets.ScanGrows | src/PcapWrapper/PcapWrapper.cpp:151-183 | packets that arrive later never change what was found |
| CaptureProtocol.InitInv | src/PcapWrapper/PcapWrapper.cpp:198-205 | the state after startLoop satisfies the invariant |
| CaptureProtocol.FillKeepsQueue | src/PcapWrapper/PcapLoopCallback.cpp:106-112 | writing one byte or field of the open slot disturbs nothing that was published |
| CaptureProtocol.PublishKeepsQueue | src/PcapWrapper/PcapLoopCallback.cpp:113-113 | the index increment publishes a completely written slot as the next packet |
| CaptureProtocol.ProducerKeepsInv | src/PcapWrapper/PcapLoopCallback.cpp:95-113 | every step of the callback keeps the invariant |
| CaptureProtocol.NextInOrder | src/PcapWrapper/PcapWrapper.cpp:166-167 | the slot about to be read lies inside the buffer and holds the next packet in order |
| CaptureProtocol.ExamineKeepsInv | src/PcapWrapper/PcapWrapper.cpp:166-178 | comparing the slot advances the greedy search by exactly one packet |
| CaptureProtocol.ConsumerKeepsInv | src/PcapWrapper/PcapWrapper.cpp:151-185 | every step of the search keeps the invariant |
| CaptureProtocol.RunInv | src/PcapWrapper/PcapWrapper.cpp:146-205 | the invariant holds in every state of every run |
| CaptureProtocol.RunIsSafe | src/PcapWrapper/PcapWrapper.cpp:146-185 | in every interleaving the examined packets are a prefix of the stored ones, and the returned times are those of the greedy search of the whole trace |
| CaptureProtocol.RefinesQueue | src/PcapWrapper/PcapLoopCallback.cpp:95-113 | every step of either thread is an enqueue, a dequeue of the oldest packet, or nothing, on an unbounded FIFO queue |
| CaptureProtocol.HeldSlotIsStable | src/PcapWrapper/PcapWrapper.cpp:166-184 | no producer step writes to the slot that is being compared or whose time is still to be read through the kept pointer |
| CaptureProtocol.FillUp | src/PcapWrapper/PcapLoopCallback.cpp:106-112 | copying byte by byte and field by field from any point on ends with the slot that is copied at once |
| CaptureProtocol.StoreIsRun | src/PcapWrapper/PcapLoopCallback.cpp:95-114 | unless the buffers overrun, a whole call of the callback is a run of the fine steps: switch if due, copy, publish exactly this packet |
| CaptureProtocol.LeaveIsRun | src/PcapWrapper/PcapWrapper.cpp:158-165 | a round of the search at the end of a buffer is a run of the fine steps that loses and repeats nothing |
| CaptureProtocol.PassIsRun | src/PcapWrapper/PcapWrapper.cpp:153-182 | a round that compares a packet is a run of the fine steps that passes exactly the next packet and goes on to return iff it answers the request |
| CaptureProtocol.HalfSwitch | src/PcapWrapper/PcapLoopCallback.cpp:99-100 | if the two assignments were separate steps, a consumer that does its tests between them would read behind its buffer exactly when it had caught up; one past its tests would not |
| CaptureBounds.HalfSwitchHappens | src/PcapWrapper/PcapLoopCallback.cpp:98-100 | for every N a run reaches such a switch with the consumer caught up and about to do its tests, and the half switch makes it read behind its buffer |
| CaptureProtocol.RunEpochs | src/PcapWrapper/PcapLoopCallback.h:48-51 | in every run equal flags mean equally many buffer switches, different flags mean the producer is exactly one ahead |
| CaptureBounds.RunCapacity | src/PcapWrapper/PcapLoopCallback.cpp:95-104 | the producer fails only with at least N unread packets, and there are never more than 2N |
| CaptureBounds.OverrunAtExactlyN | src/PcapWrapper/PcapLoopCallback.cpp:98-103 | for every N there is a run that fails with exactly N unread packets |
| CaptureBounds.RankDrops | src/PcapWrapper/PcapWrapper.cpp:153-164 | with a packet waiting, the consumer never goes round in vain |
| CaptureBounds.RankStays | src/PcapWrapper/PcapLoopCallback.cpp:95-113 | no step of the producer, not even its switch, sets the consumer back |
| CaptureBounds.EverythingFound | src/PcapWrapper/PcapWrapper.cpp:151-183 | with the requests embedded in a trace, a consumer that has seen all of it has nothing left to look for |
| CaptureBounds.AllCallsReturn | src/PcapWrapper/PcapWrapper.cpp:146-185 | if the requests embed in the packets stored so far, then in every run from a reachable state, with any producer steps in between, the consumer takes at most eleven steps per unread packet and ten more, is never blocked before all calls have returned unless the producer fails, and they return the times of the greedy positions |
| CaptureBounds.ConsumerAlone | src/PcapWrapper/PcapWrapper.cpp:146-185 | the consumer alone brings all calls to their return |
| Timing.TimevalDeltaToNs | src/PcapWrapper/PcapLoopCallback.cpp:19-52 | for all 64-bit stamps: fails iff the precision is unknown or the later stamp is lexicographically earlier, and otherwise returns the difference in nanoseconds modulo 2^64 |
| Timing.BorrowedDelta | src/PcapWrapper/PcapLoopCallback.cpp:35-48 | a borrowed second and wrapped intermediate results do not change the difference |
| Timing.TimespecDiff | src/Socket/ClientSocket/TimingSocket/KernelTimingSocket/KernelTimingSocket.cpp:16-27 | the same for the kernel's time stamps, where its signed arithmetic is defined |
| Timing.DeltaOfNormal | src/PcapWrapper/PcapLoopCallback.cpp:28-48 | for valid stamps it fails iff time went backwards, and is exact iff the true difference fits in 64 bits |
| PcapWrapper.Judge | src/PcapWrapper/PcapLoopCallback.cpp:60-93 | the part in front of the buffers computes the verdict that CaptureByNumber and FrameBecomesPacket are about; what it keeps can be stored |
| PcapWrapper.CaptureByNumber | src/PcapWrapper/PcapLoopCallback.cpp:60-93 | for any bytes: which frames are dropped (link type other than 1, invalid arguments, no payload), which end the process (other protocols and versions, payloads over 1500 bytes), and what is kept of the others |
| PcapWrapper.FrameBecomesPacket | src/PcapWrapper/PcapLoopCallback.cpp:60-93 | a well-formed TCP frame becomes a packet with exactly the segment's data and the direction of its addresses, is dropped if empty, and ends the process if too long or refused by the IPv6 decoder |
| PcapWrapper.UserData.constructor | src/PcapWrapper/PcapWrapper.cpp:198-205 | the initial state satisfies the invariant, with nothing stored or examined |
| PcapWrapper.UserData.HandleFrame | src/PcapWrapper/PcapLoopCallback.cpp:54-115 | each outcome of the callback, the stop flag, truncated captures and the overrun included, and the whole state after it |
| PcapWrapper.UserData.HandlePacket | src/PcapWrapper/PcapLoopCallback.cpp:77-115 | stores exactly the packet, with the effect of StoreIsRun, unless it is empty, too long or the buffers overrun, which needs at least N unread packets |
| PcapWrapper.UserData.WriteSlot | src/PcapWrapper/PcapLoopCallback.cpp:106-113 | fills and publishes the current slot with the effect of StoreIsRun |
| PcapWrapper.UserData.LeaveOldBuffer | src/PcapWrapper/PcapWrapper.cpp:158-165 | the consumer's switch, with the effect of LeaveIsRun |
| PcapWrapper.UserData.Examine | src/PcapWrapper/PcapWrapper.cpp:166-182 | looks at the next packet in order, with the effect of PassIsRun, and reports a match iff it answers the request |
| PcapWrapper.UserData.Look | src/PcapWrapper/PcapWrapper.cpp:151-183 | one round passes at most one packet and is idle only when everything has been examined |
| PcapWrapper.UserData.TimingForPacket | src/PcapWrapper/PcapWrapper.cpp:146-185 | for every schedule of arrivals the search terminates and returns the time of the first match behind the packets examined before, or everything has arrived and nothing matches, or the overrun happened with at least N unread packets |
| PcapTimingSocket.PCAPTimingSocket.Write | src/Socket/ClientSocket/TimingSocket/PCAPTimingSocket/PCAPTimingSocket.cpp:56-59 | notes the time of the first packet behind those examined before that has exactly the written bytes and goes to the remote |
| PcapTimingSocket.PCAPTimingSocket.Read | src/Socket/ClientSocket/TimingSocket/PCAPTimingSocket/PCAPTimingSocket.cpp:61-67 | with data, notes the time of the first packet behind those examined before that has exactly the received bytes and comes from the remote; without, touches nothing |
| PcapTimingSocket.PCAPTimingSocket.GetLastMeasurement | src/Socket/ClientSocket/TimingSocket/PCAPTimingSocket/PCAPTimingSocket.cpp:69-72 | the nanoseconds between the noted stamps for all stamps, or the failure; after a write and a later successful read, on a trace with valid, nondecreasing times, it cannot fail and is the time between the two packets |
| PcapTimingSocket.Exchange | src/Socket/ClientSocket/TimingSocket/PCAPTimingSocket/PCAPTimingSocket.cpp:56-72 | write, read and measure in a row: the first packet with the bytes of the request to the remote, the first one behind it with the bytes of the answer from the remote, and the time between them |
| PacketParser.TcpParser.ParseHeader | src/PacketParser/Tcp/TcpParser.cpp:10-24 | every field that the source sets, or the failure |
| PacketParser.TcpParser.DecodeUntil | src/PacketParser/Tcp/TcpParser.cpp:26-37 | computes the decoding function that the round trip is proved about |
| PacketParser.UdpParser.ParseHeader | src/PacketParser/Udp/UdpParser.cpp:10-25 | every field that the source sets, or the failure |
| PacketParser.UdpParser.DecodeUntil | src/PacketParser/Udp/UdpParser.cpp:27-38 | computes the decoding function that the round trip is proved about |
| PacketParser.Ipv4Parser.ParseHeader | src/PacketParser/Ipv4/Ipv4Parser.cpp:12-36 | every field that the source sets, or the failure, with raw addresses |
| PacketParser.Ipv4Parser.DecodeUntil | src/PacketParser/Ipv4/Ipv4Parser.cpp:38-60 | computes the decoding function that the round trip is proved about |
| PacketParser.Ipv6Parser.ParseHeader | src/PacketParser/Ipv6/Ipv6Parser.cpp:18-71 | the loop terminates and ends as the recursive walk does, with offset plus remaining payload constant; every field that the source sets, with raw addresses |
| PacketParser.Ipv6Parser.DecodeUntil | src/PacketParser/Ipv6/Ipv6Parser.cpp:73-95 | computes the decoding function that the round trip is proved about |
| PacketParser.EthernetParser.ParseHeader | src/PacketParser/Ethernet/EthernetParser.cpp:10-22 | every field that the source sets, or the failure |
| PacketParser.EthernetParser.DecodeUntil | src/PacketParser/Ethernet/EthernetParser.cpp:24-43 | computes the decoding function that the round trip is proved about, for any length on the wire |
| PacketRoundTrip.DecodeEncoded | src/PacketParser/Ethernet/EthernetParser.cpp:24-43 | running the decoders on an encoded frame with padding returns its content, or the failure that RoundTrip states |
| PacketParser.WalkByNumber | src/PacketParser/Ipv6/Ipv6Parser.h:30-69 | for each of the 256 next-header numbers: the eleven extension headers are stepped over by (length + 1) * 8 bytes if 64 bytes are left, TCP, UDP and "no next header" end the walk, and every other number ends it with an exception |
| PacketParser.Ipv4ByNumber | src/PacketParser/Ipv4/Ipv4Parser.cpp:12-60 | for any bytes with EtherType 08 00 and any layer: the exact result or failure, read off the bytes |
| PacketParser.Ipv6ByNumber | src/PacketParser/Ipv6/Ipv6Parser.cpp:18-95 | the same with EtherType 86 dd, up to the walk |
| PacketParser.OtherByNumber | src/PacketParser/Ethernet/EthernetParser.cpp:10-43 | short frames are invalid arguments, and any other EtherType is a terminating failure |
| PacketParser.TransportByNumber | src/PacketParser/Tcp/TcpParser.cpp:10-37 | protocols 6 and 17 are decoded when asked for, with ports, position and size read off the bytes, and nothing else is |
| PacketParser.WalkStaysInside | src/PacketParser/Ipv6/Ipv6Parser.cpp:47-62 | for any bytes the extension walk reads only inside the packet, and where it stops offset and size still add up |
| PacketParser.Ipv6NeverOutside | src/PacketParser/Ipv6/Ipv6Parser.cpp:18-95 | for any bytes the IPv6 decoder and the transport decoder behind it stay inside the frame, and a returned payload ends where the length field says |
| PacketRoundTrip.TcpRoundTrip | src/PacketParser/Tcp/TcpParser.cpp:10-24 | a well-formed segment with any options decodes to its ports and data |
| PacketRoundTrip.UdpRoundTrip | src/PacketParser/Udp/UdpParser.cpp:10-25 | a well-formed datagram decodes to its ports and data |
| PacketRoundTrip.Ipv4RoundTrip | src/PacketParser/Ipv4/Ipv4Parser.cpp:12-36 | a well-formed header with any legal options decodes to its protocol, addresses and payload |
| PacketRoundTrip.WalkRoundTrip | src/PacketParser/Ipv6/Ipv6Parser.cpp:47-62 | the walk over any chain of well-formed extension headers reaches the transport header iff 64 bytes are left at the last of them |
| PacketRoundTrip.Ipv6RoundTrip | src/PacketParser/Ipv6/Ipv6Parser.cpp:18-71 | the same for the whole header |
| PacketRoundTrip.RoundTrip | src/PacketParser/Ethernet/EthernetParser.cpp:24-43 | for every well-formed frame and layer and any padding, captured or not: exactly the encoded ports, addresses, payload position and size, and failure exactly where stated |
| PacketRoundTrip.DecodedBytes | src/PacketParser/Ethernet/EthernetParser.cpp:24-43 | the bytes at the returned position are the transport data, and padding changes nothing |
| PacketRoundTrip.ShortPacketRefused | src/PacketParser/Ipv6/Ipv6Parser.cpp:50-53 | a correct IPv6 packet that the decoder refuses |
| Expectations.NeedsOlder | tests/googletest-src/googlemock/src/gmock-spec-builders.cc:847-855 | all transitive prerequisites are older, so the relation has no cycle |
| Expectations.ClosedHoldsNeeds | tests/googletest-src/googlemock/src/gmock-spec-builders.cc:105-109 | a set closed under immediate prerequisites holds all transitive ones |
| Expectations.ExpectationBase.RetireAllPreRequisites | tests/googletest-src/googlemock/src/gmock-spec-builders.cc:103-126 | retires exactly the transitive prerequisites in addition, keeps closure, terminates, and the early return is right |
| Expectations.ExpectationBase.AllPrerequisitesAreSatisfied | tests/googletest-src/googlemock/src/gmock-spec-builders.cc:130-147 | terminates without a visited set, and true iff every transitive prerequisite is satisfied |
| Expectations.ExpectationBase.FindUnsatisfiedPrerequisites | tests/googletest-src/googlemock/src/gmock-spec-builders.cc:150-177 | adds exactly the unsatisfied prerequisites reachable through satisfied, never-called expectations |
| Expectations.ExpectationBase.SortPrerequisites | tests/googletest-src/googlemock/src/gmock-spec-builders.cc:158-175 | the inner loop: what is found, what is pushed, and that the pushed part unfolds to no more than what was looked at |
| Expectations.UnfoldedConcat | tests/googletest-src/googlemock/src/gmock-spec-builders.cc:133-144 | the size of the unfolded graph, the measure of both traversals, is additive over worklists |
| Expectations.SweepStep | tests/googletest-src/googlemock/src/gmock-spec-builders.cc:116-124 | one prerequisite more keeps the invariant of the retiring loop |
| Expectations.SearchNext | tests/googletest-src/googlemock/src/gmock-spec-builders.cc:134-145 | replacing an expectation on the worklist by its prerequisites loses no unsatisfied one |
| Expectations.CollectNext | tests/googletest-src/googlemock/src/gmock-spec-builders.cc:154-176 | one round of the worklist keeps "found or behind something that waits", and shrinks the unfolded worklist |
| Expectations.BlocksIsNeeded | tests/googletest-src/googlemock/src/gmock-spec-builders.cc:149-176 | whatever is reported is an unsatisfied transitive prerequisite |
| Expectations.SomethingBlocks | tests/googletest-src/googlemock/src/gmock-spec-builders.cc:163-168 | an unsatisfied prerequisite is reported whenever there is one, given the invariant of the comment |
| CallHistories.CallKeepsOk | tests/googletest-src/googlemock/include/gmock/gmock-spec-builders.h:1199-1229 | every call that an active expectation with satisfied prerequisites takes keeps the invariant |
| CallHistories.HistoryKeepsOk | tests/googletest-src/googlemock/include/gmock/gmock-spec-builders.h:1199-1229 | the invariant holds after every history of calls |
| CallHistories.NewestKeepsOk | tests/googletest-src/googlemock/src/gmock-spec-builders.cc:847-855 | a new expectation that waits for older ones keeps the invariant |
| CallHistories.OnlyExposed | tests/googletest-src/googlemock/include/gmock/gmock-spec-builders.h:1206-1224 | in every state with the invariant, a called expectation has an unsatisfied prerequisite only if the pair is exposed |
| CallHistories.ExposedFails | tests/googletest-src/googlemock/include/gmock/gmock-spec-builders.h:1206-1224 | for every exposed pair, a history from the creation on after which it does |
| CallHistories.CalledTooEarlyIffExposed | tests/googletest-src/googlemock/src/gmock-spec-builders.cc:163-168 | for any expectations: some history ends with b called and its prerequisite x unsatisfied iff b allows no calls, x does not retire by itself, and nothing between them has to be called |
| MockFramework.Replay | tests/googletest-src/googlemock/include/gmock/gmock-spec-builders.h:1199-1229 | every history of calls can be carried out by the expectation objects and leaves exactly its counts and retired expectations |
| MockFramework.WhatHolds | tests/googletest-src/googlemock/src/gmock-spec-builders.cc:163-168 | in every state with the invariant, what has been called has prerequisites that were called often enough and, if it allows calls, are retired and satisfied |
| MockFramework.CalledTooEarlyOnlyIfExposed | tests/googletest-src/googlemock/include/gmock/gmock-spec-builders.h:1206-1224 | the same as OnlyExposed, of the expectation objects in any state with the invariant, whenever they were created |
| MockFramework.NothingHidden | tests/googletest-src/googlemock/src/gmock-spec-builders.cc:163-168 | in every state with the invariant, nothing is reported iff all prerequisites are satisfied |
| MockFramework.ExplainPrerequisites | tests/googletest-src/googlemock/include/gmock/gmock-spec-builders.h:1139-1151 | the list is empty iff all prerequisites are satisfied, and names only unsatisfied prerequisites |
| MockFramework.CalledIsNotEnough | tests/googletest-src/googlemock/include/gmock/gmock-spec-builders.h:1206-1217 | three calls after which an expectation that has been called has an unsatisfied prerequisite, in a state with the invariant |
| MockFramework.GetActionForArguments | tests/googletest-src/googlemock/include/gmock/gmock-spec-builders.h:1199-1229 | counts the call, retires exactly the prerequisites unless the call is excessive, retires on saturation, and keeps the invariant |
| MockFramework.FunctionMocker.FindMatchingExpectation | tests/googletest-src/googlemock/include/gmock/gmock-spec-builders.h:1728-1744 | the newest expectation that is active, matches and has satisfied prerequisites; null iff there is none |
| MockFramework.FunctionMocker.Invoke | tests/googletest-src/googlemock/include/gmock/gmock-spec-builders.h:1693-1716 | the newest handling expectation takes the call, with the whole effect on counts and retirement, and the invariant is kept |
| MockFramework.Sequence.AddExpectation | tests/googletest-src/googlemock/src/gmock-spec-builders.cc:847-855 | inserts the previous last expectation of the sequence, if there is another one, and becomes the last |
| MockFramework.InSequence | tests/googletest-src/googlemock/include/gmock/gmock-spec-builders.h:946-972 | the prerequisites are exactly the previous last expectations of the sequences, repeated sequences included |
| MockFramework.After | tests/googletest-src/googlemock/include/gmock/gmock-spec-builders.h:974-986 | adds exactly the given expectations |
| MockFramework.ExpectCall | tests/googletest-src/googlemock/include/gmock/gmock-spec-builders.h:1619-1638 | a new expectation with its clauses keeps the invariant, so the graph stays acyclic |
| MockFramework.NewestKeepsSystem | tests/googletest-src/googlemock/src/gmock-spec-builders.cc:847-855 | edges from a newest expectation to older ones keep the invariant for all |
| TimingProxy.Find | src/TimingProxy/TimingProxy.cpp:90-90 | the first newline, or none |
| TimingProxy.GetLine | src/TimingProxy/TimingProxy.cpp:83-101 | prepend plus what was read is head, newline and tail, with no newline in head; nothing is read once a newline is there; it waits only while there is none |
| TimingProxy.GetProxyTarget | src/TimingProxy/TimingProxy.cpp:103-107 | the two lines, and with them the converted port, depend on the chunks only through the text that they add up to |
| TimingProxy.FirstLineFound | src/TimingProxy/TimingProxy.cpp:104-106 | what is read after a complete line does not change it, and ends up in the tail |
| TimingProxy.TextIsStream | src/TimingProxy/TimingProxy.cpp:95-97 | the text equals the stream iff the stream holds no NUL |
| TimingProxy.TextKeeps | src/TimingProxy/TimingProxy.cpp:95-97 | what stands in front of the first NUL of the stream is kept, however it is cut |
| TimingProxy.CutsDoNotMatter | src/TimingProxy/TimingProxy.cpp:83-107 | any two ways to cut a stream without a NUL in its first two lines, or without two lines, give the same target |
| TimingProxy.CutsThatMatter | src/TimingProxy/TimingProxy.cpp:95-97 | every other stream keeps the proxy waiting when read in one piece and gives a target when read character by character |
| TimingProxy.CutsMatterExactly | src/TimingProxy/TimingProxy.cpp:83-107 | for every stream: all ways to cut it give the same target iff neither of the first two lines holds a NUL or there are no two lines |
| TimingProxy.ReadsMatterExactly | src/TimingProxy/TimingProxy.cpp:87-97 | the same for reads of 1 to 1024 bytes, for every stream that fits one read |
| TimingProxy.NulInOneChunk | src/TimingProxy/TimingProxy.cpp:96-97 | a stream with a NUL that, read in one piece, keeps the proxy waiting |
| TimingProxy.NulInTwoChunks | src/TimingProxy/TimingProxy.cpp:96-97 | the same stream, read in two pieces, gives a target |
| GoogleMockInit.Shift | tests/googletest-src/googlemock/src/gmock.cc:163-169 | removes one element in place and keeps the order and the trailing NULL |
| GoogleMockInit.InitGoogleMockImpl | tests/googletest-src/googlemock/src/gmock.cc:147-179 | argv ends as the name, the kept arguments and NULL, argc counts them, and the flags are those of the removed arguments in order; it terminates |
| GoogleMockInit.VerboseSets | tests/googletest-src/googlemock/src/gmock.cc:64-127 | --gmock_verbose=v sets verbose to v, for every v |
| GoogleMockInit.CatchLeakedMocksSets | tests/googletest-src/googlemock/src/gmock.cc:64-108 | --gmock_catch_leaked_mocks means true, and with =v false iff v begins with 0, f or F |
| GoogleMockInit.DefaultMockBehaviorSets | tests/googletest-src/googlemock/src/gmock.cc:129-140 | --gmock_default_mock_behavior=v sets what ParseInt32 makes of v, and is no flag if it refuses |
| GoogleMockInit.DefaultMockBehaviorAlone | tests/googletest-src/googlemock/src/gmock.cc:129-140 | without a value, the same for the empty value |
| GoogleMockInit.NothingElseIsFlag | tests/googletest-src/googlemock/src/gmock.cc:64-90 | no other argument is a flag |
| GoogleMockInit.KeptInOrder | tests/googletest-src/googlemock/src/gmock.cc:153-178 | the kept arguments are exactly the non-flags, in their original order |
| GoogleMockInit.KeptIsStable | tests/googletest-src/googlemock/src/gmock.cc:147-178 | a second initialisation removes nothing and changes no flag |

## Left out

- The finer interleavings inside the producer's switch and the effects of a weak memory model: the switch is one step and memory is sequentially consistent. `HalfSwitchHappens` shows that the first assumption is needed.
- TimingForPacket: the capture thread runs between two rounds of the search, following an arrival schedule of finitely many packets; the interleavings inside a round are those of CaptureProtocol. Its loop body is split into Yield, Look, LeaveOldBuffer and Examine, that of RecurseInto into TryPartner, and the inner loop of FindUnsatisfiedPrerequisites into SortPrerequisites.
- FrameBecomesPacket: stated for TCP over Ethernet, the only layer and link type that the callback accepts.
- CaptureByNumber: when the captured bytes end inside a header or the payload, the outcome is Wild and nothing more is claimed.
- `throw;` without an active exception and exceptions that leave the callback are outcomes (None, Terminate, Crash, Terminated); the end of the process itself is not modelled.
- Malformed IPv4 and TCP length fields: the code does not check them, so they lead to the outcome OutsideFrame or to a wrapped size, and nothing is claimed about such packets.
- TimevalDeltaToNs: the signed subtraction of the seconds is taken to be exact where C++ leaves an overflow undefined.
- TimespecDiff: likewise for the seconds, and for the signed addition and subtraction of the nanosecond fields.
- Ipv4Parser.ParseHeader, Ipv6Parser.ParseHeader: addresses are raw bytes, so the failure branches of inet_ntop, which the fixed address family and buffer size never take, are not part of the model.
- RoundTrip: fragment, authentication and encapsulating security headers are outside the encoding, since the code applies one length formula to all extension headers; addresses are their raw bytes instead of the text of inet_ntop, and fields that the decoders do not return (sequence numbers, checksums, hop limit) are arbitrary.
- Cardinalities are pairs of a least and a greatest call count; argument matchers are the set of expectations that accept the arguments. Actions, action counts, mock registration and messages are not part of the model.
- GetProxyTarget: std::stoi is a parameter, and the connection itself is not part of the model. A read is an arbitrary chunk; for the source's limit of 1024 bytes the condition of CutsMatterExactly is still sufficient for every stream, and ReadsMatterExactly proves it necessary for streams of at most that size. On a longer stream more of the text may survive a NUL than the condition promises.
- CalledTooEarlyIffExposed: all expectations exist before the first call, as the framework asks of its users.
- InitGoogleMockImpl: InitGoogleTest, which runs first, is not part of the model, and ParseInt32 is a parameter; arguments are strings without NUL.
- MatchMatrix::Randomize and DebugString, the explanations written to listeners, and AnalyzeElements, which fills the matrix.
- Sockets, epoll, libpcap setup, hardware and kernel time stamps, thread start and stop, CPU time sources, benchmark code, the client and server programs and the Python scripts: input/output or easy members.
