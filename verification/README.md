# Verified model of the bonded tunnel

A Dafny model of the parts of the tunnel (client core and server) whose correctness is not visible from one function,
with proofs about all inputs, all runs and all interleavings.

* **Bond transport** (`BondCodec`, `BondReceiver`, `BondSender`, `BondSystem`, `BondLoops`, `BondLanes`, `BondClient`,
  `BondServer`, `RoundRobin`). One TCP stream is cut into numbered chunks that are written to several lanes. A write may fail after any
  prefix of a frame, and the chunk is then placed on another lane. `BondSystem` is the whole of one direction as a
  step system; the imperative client and server loops are proved to be runs of it: their contracts say that the mutable
  lanes are in a state the abstract sender reaches (`Tracks`), and `BondLoops` puts the contracts of sending loop, lane
  readers and receiving loop together into one run.
* **Aggregated UDP downlink** (`UdpSelector`, `UdpSession`, `UdpLifecycle`). `UdpSelector` specifies one scheduling
  decision, with writers draining lanes between its reads, and proves its whole-run consequences; `UdpSession` is the
  mutable session with lanes, bounded queues and recycled packets; `UdpLifecycle` interleaves attach, detach,
  cancellation and the four steps of close. A session records its history and shows itself as a lifecycle state
  (`LifeView`): its methods are proved to be decisions of the one and runs of the other.
* **Admission gate** (`GateSystem`, `ConnectionGate`). Every atomic update is a step of its own, and the two calls on a
  lease may interleave in any order; the class methods are paths of those steps.
* **WRAP packets** (`WrapCodec`, `WrapNonces`). In-place encoder and decoder over an AEAD of which only the laws of
  section 2.8 of RFC 8439 are assumed (as a precondition, `Lawful`); the RTP header follows section 5.1 of RFC 3550.
* **Slider tiles** (`TileGeometry`, `TileMapping`, `TileRendering`, `TileScore`, `Sums`). Grid partition, swap-built
  permutation, rendering, and the score that is computed without rendering.
* **UDP listener** (`ListenerSystem`, `UdpListener`). Connection table, accept queue and counted socket shutdown; every
  method of the class is a run of the step system on its `View`.

`Runs` holds what all step systems share: runs, reachability and what every step keeps. `Bytes`, `Contexts` and `Options`
hold big-endian integers, flattening of chunk lists, cancellation and the option type.

## Where the code falls short of its promise

* `writeBondFrameToNextLane` and the server's `writeToNextLane` reduce a wrapping 64-bit cursor modulo the lane count. In
  the one call during which the cursor wraps, and unless the lane count divides 2^64, the client skips a lane
  (`RoundRobin.VisitsAllIffSeamless`) and a pass of the server, which marks no lane dead, can come back to a lane whose
  write has failed and put a frame behind the cut one (`RoundRobin.RepeatsNoneIffSeamless`,
  `RoundRobin.RepeatedLaneExample`).
* Both copy loops send the FIN after any read error, so the peer half-closes a truncated stream as if it were whole
  (`BondSystem.HalfCloseIsWholeStreamIff`, `BondSystem.ReadErrorTruncates`).
* Frames above 4 MiB do not survive the codec (`BondCodec.FrameRoundTrip`); the 16 KiB chunk limit keeps them away.
* A downlink packet can be dropped although a lane has room: the selector looks for a lane of exactly the least depth it
  measured, and a writer may have drained that lane in between (`UdpSelector.RefusedWithRoomIff`,
  `UdpSelector.RefusedWithRoomExample`).
* The listener's Accept takes a connection out of the queue before it counts it. If Close lets the count fall to zero in
  between, the shared socket closes under a connection that Accept then returns (`ListenerSystem.SocketCanBeLostIff`,
  `ListenerSystem.LateAcceptIsReachable`).
* With a grid of at least two by two, scoring divides by zero exactly when the image is smaller than the grid, which the
  scorer does not check (`TileScore.ScoreSliderCandidate`, `TileScore.DivisorsNonzeroIff`).

The admission gate itself does not order `markEstablished` and `done`; that the accept loop makes both calls in one
goroutine, in this order, is a hypothesis the counters need (`GateSystem.CountersOrdered`), and
`GateSystem.DriftIsTheMisread` says exactly what its absence would cost.

## Model

| member | source | states |
|---|---|---|
| BondCodec.FrameRoundTrip | pkg/clientcore/main.go:2121-2156 | reading back an encoded frame, whatever follows it, gives that frame and the rest if and only if its data is at most 4 MiB |
| BondCodec.FrameLayout | pkg/clientcore/main.go:2121-2134 | byte by byte: type at 0, sequence number big-endian at 1, length at 9, data from 13 on; DATA is type 1, FIN type 2, a chunk at most 16 KiB |
| BondCodec.FrameCanonical | server/main.go:410-430 | any bytes the reader accepts are the encoding of the frame it returns, followed by the rest |
| BondCodec.TruncatedIsShort | server/main.go:410-430 | a strict prefix of a frame is never read as a frame |
| BondCodec.ParseEncodeAll | server/main.go:395-430 | reading the concatenation of any list of encoded frames returns exactly that list and stops at what follows |
| BondCodec.ParseCanonical | server/main.go:410-430 | every byte string is the encoding of the frames read from it plus a rest that starts with no frame |
| BondCodec.EncodeAllInjective | server/main.go:395-408 | two lists of frames with the same bytes are the same list |
| BondCodec.HelloRoundTrip | server/main.go:378-393 | the server parses a hello if and only if the bytes are the client encoding of that hello |
| BondCodec.HelloLayout | pkg/clientcore/main.go:2110-2119 | byte by byte: "VLB1", version 1, then connection id, lane index and lane count, big-endian |
| BondCodec.WriteBondHello | pkg/clientcore/main.go:2110-2119 | filling the header array field by field yields the encoding of the hello |
| BondReceiver.CursorIsLeastMissing | server/main.go:650-697 | for any frames in any order, the cursor is the least sequence number not received |
| BondReceiver.CursorBounded | server/main.go:650-697 | the cursor never passes the number of frames consumed, so below 2^64 frames it does not wrap |
| BondReceiver.NextStatus | pkg/clientcore/main.go:2347-2373 | for any frames in any order: a type other than 1 and 2 stops the loop, and it half-closes exactly when the smallest FIN number is the least number not received |
| BondReceiver.FinIsLeast | pkg/clientcore/main.go:2365-2369 | for any frames in any order, while the loop goes on: of several FINs the smallest number counts, and the cursor has not reached it |
| BondReceiver.PendingIsLatest | pkg/clientcore/main.go:2363-2364 | for any frames in any order, a number still pending holds the data that arrived for it last |
| BondReceiver.GenuineInvariant | server/main.go:650-697 | for frames of one stream, output, cursor and half-close are determined by the set of frames received |
| BondReceiver.OrderIrrelevant | pkg/clientcore/main.go:2342-2390 | two arrivals of the same set of frames, reordered or duplicated, leave the same output, cursor and half-close |
| BondReceiver.PrematureFinDependsOnOrder | pkg/clientcore/main.go:2366-2369 | a concrete run showing that a FIN below data in flight makes the output depend on the order |
| BondReceiver.CopyBondToTcp | pkg/clientcore/main.go:2342-2390 | the loop over map, cursor and FIN variables writes what the receiver function gives for the frames taken, takes no frame after the receiver ended, and half-closes exactly when it finishes; it gives up only when its context is done or a write has failed, and otherwise ends as the arrivals have it: half-closed, stopped by an unknown type, or out of frames |
| BondReceiver.DrainPending | server/main.go:679-694 | the inner loop hands over all consecutive chunks, or a prefix of them when a write fails |
| BondSender.SenderStepKeepsInv | pkg/clientcore/main.go:2274-2340 | each read, successful write, failed write after any prefix, attach or stop keeps: lanes hold whole genuine frames plus at most one cut tail, and every placed chunk was accepted by some lane |
| BondSender.WireAfterCut | pkg/clientcore/main.go:2121-2134 | a write that fails after any number of bytes leaves whole frames and one cut-off tail |
| BondSender.WireAfterPut | pkg/clientcore/main.go:2121-2134 | a successful write adds exactly that frame to the whole frames of the lane |
| BondSender.ReachesKeepsInv | server/main.go:699-763 | every state a sender reaches satisfies that invariant |
| BondSystem.StepKeepsInv | server/main.go:581-763 | every step of sender, lanes, readers, queue and receiver keeps the joint invariant |
| BondSystem.RunKeepsInv | server/main.go:581-763 | every reachable state satisfies the joint invariant |
| BondSystem.OutputIsPrefixOfInput | server/main.go:581-763 | in every reachable state the bytes written to the receiving endpoint are a prefix of the bytes read from the sending endpoint, and those of its whole input |
| BondSystem.HalfCloseMeansComplete | server/main.go:656-660 | the half-close happens only after the sender's read loop ended, every chunk was placed and all of it was written out |
| BondSystem.HalfCloseIsWholeStreamIff | server/main.go:714-727 | a half-close follows a true end of file if and only if the sender's read loop ended by one, and else by a read error; the endpoint then holds the whole input if and only if the sender had read all of it, as it has at end of file |
| BondSystem.ReadErrorTruncates | pkg/clientcore/main.go:2291-2307 | for every non-empty input a run in which a read error sends the FIN and the peer half-closes without the whole input |
| BondSystem.UnplacedChunkNeverHalfCloses | pkg/clientcore/main.go:2283-2287 | a sender that gave up on a chunk never causes a half-close, then or later |
| BondSystem.HalfCloseIsFinal | pkg/clientcore/main.go:2348-2352 | after the half-close the output never changes and stays the whole input |
| BondSystem.CursorExactInRun | server/main.go:650-697 | in every run the cursor is the least number not received and the output is the chunks below it |
| BondSystem.CompleteAtQuiescence | server/main.go:650-763 | without cancellation, once a lane accepted the FIN and every accepted frame was consumed, the output is the whole input and the half-close has happened, whatever writes failed on the way |
| BondSystem.ReaderDecodesNext | pkg/clientcore/main.go:2229-2254 | the next frame a lane reader decodes is the next whole frame written, and past the last one it decodes nothing |
| BondSystem.LaneCarriesWholeFrames | server/main.go:739-763 | in every run a lane is whole genuine frames, plus one cut tail only after a failed write, and its reader has decoded a prefix of them |
| BondSystem.FailedLaneFrozen | pkg/clientcore/main.go:2317-2340 | after a failed write no byte is ever added to that lane |
| BondSystem.DuplexSafety | server/main.go:636-647 | prefix safety and complete half-close in both directions of one connection at once |
| BondLoops.SenderRunsEmbed | server/main.go:699-763 | every state that the imperative sending loops are proved to reach is the sender of some run of the whole system, its readers and receiver still to begin |
| BondLoops.ReceivingLoopsEmbed | server/main.go:581-697 | from there, what the lane readers pass on in any interleaving, each a prefix of the whole frames its lane delivered, and what the receiving loop then takes and writes, in whichever way it ends, is the rest of a run |
| BondLoops.LoopsTransfer | pkg/clientcore/main.go:2229-2390 | the contracts of sending loop, lane readers and receiving loop together: whatever the lanes lose, the bytes written are a prefix of the bytes read, and a half-close means that all bytes read were written, the whole input if the sender met its end |
| BondLoops.LoopsDeliver | pkg/clientcore/main.go:2229-2390 | when every frame that a lane accepted arrives, the FIN among them, and nothing interferes, the receiving loop writes all that the sending loop read, the whole input if that met its end, and half-closes |
| BondLanes.WriteBondFrame | pkg/clientcore/main.go:2121-2134 | two writes, each of which may fail part-way, put the whole frame on the lane or exactly a prefix of it |
| BondLanes.LaneReader.ReadBondFrame | server/main.go:410-430 | header then data by full reads returns what the codec function returns, and advances past the frame |
| BondLanes.LaneReader.ReadLane | server/main.go:581-604 | the read loop passes on exactly the whole frames of the stream in order, or a prefix when its context is done |
| BondLanes.WriteStep | pkg/clientcore/main.go:2121-2134 | one frame write on a lane is one step of the abstract sender |
| BondClient.TryLane | pkg/clientcore/main.go:2318-2335 | one attempt skips a dead lane, or writes the frame and marks the lane dead on failure, as one step of the abstract sender; a lane is dead only because its reader ended or a write to it failed |
| BondClient.WriteBondFrameToNextLane | pkg/clientcore/main.go:2317-2340 | the lanes are tried in turn from the cursor, which advances once per try, and all tried in vain are dead; on success exactly the returned lane gained the complete frame; it stops early only when the context is done, and reports no live lane only after trying as many as there are, all of them dead when the cursor does not jump at its wrap-around |
| BondClient.CopyTcpToBond | pkg/clientcore/main.go:2274-2315 | the upload loop is a run of the abstract sender whose chunks are the bytes read; it gives up only when cancelled or, a cursor jump aside, when every lane lost its reader or had a failed write; otherwise it offers the FIN to every live lane; uncancelled, with an unbroken source and one lane that lasts, the whole input is read and the FIN accepted on every lane that lasts |
| BondClient.SendFins | pkg/clientcore/main.go:2295-2305 | every lane took the FIN, once, or no frame: then it had lost its reader or its write failed, after end of file as after a read error |
| BondServer.BondServerConn.AddLane | server/main.go:519-527 | the lane is appended and the wanted count is the maximum announced |
| BondServer.BondServerConn.RemoveLane | server/main.go:547-557 | the list without that lane, order kept, and how many are left |
| BondServer.BondServerConn.TryLane | server/main.go:745-752 | one write on one lane: it accepted the frame, once, or it failed and is no longer listed, the order of the others kept; the run of the abstract sender goes on unless the write went behind an earlier failed one |
| BondServer.BondServerConn.Attempt | server/main.go:742-756 | one attempt of a pass tries the lane at the wrapping cursor; without a cursor jump so far it is one no write has failed on, and so stay the lanes still to be tried |
| BondServer.BondServerConn.Pass | server/main.go:741-756 | a pass over a snapshot, while lanes come and go, places the frame, finds no lane left, or takes more lanes off the list; without a cursor jump, all that were listed at its start; when none comes or goes, the frame is on the lane at the cursor |
| BondServer.BondServerConn.WriteToNextLane | server/main.go:739-763 | places the frame on one lane while lanes come and go, also in mid-pass; the wrapping cursor advances once per attempt, which is once for the frame and once for each lane whose write newly failed, unless it passes 2^64, and till then no attempt writes behind a failed write; gives up only when the context is done or no lane is left |
| BondServer.BondServerConn.SendFins | server/main.go:719-727 | every lane listed at the start, while others attach and leave, took the FIN, once, or its write failed; so every lane that attached before has it unless it lost its reader or had a failed write |
| BondServer.BondServerConn.CopyBackendToBond | server/main.go:699-737 | as long as bytes and lanes together are at most 2^64, the download loop is a run of the abstract sender whose chunks are the bytes read; it gives up only when cancelled or when every lane lost its reader or had a failed write; otherwise every lane that attached before the end and is still in use took the FIN; uncancelled, with an unbroken source and one lane that lasts, the whole input is read |
| RoundRobin.VisitsAllIffSeamless | pkg/clientcore/main.go:2318-2321 | one call tries every lane if and only if its 64-bit cursor does not wrap in mid-call or the lane count divides 2^64 |
| RoundRobin.WrapSkipsLane | pkg/clientcore/main.go:2318-2321 | otherwise a lane, given explicitly, is never tried |
| RoundRobin.RepeatsNoneIffSeamless | server/main.go:742-744 | a pass over n lanes tries no lane twice if and only if its 64-bit cursor does not wrap in mid-pass or n divides 2^64 |
| RoundRobin.WrapRepeatsLane | server/main.go:742-744 | otherwise two attempts, given explicitly, try the same lane |
| RoundRobin.RepeatedLaneExample | server/main.go:742-744 | with three lanes and the last cursor value the second attempt tries the lane of the first again |
| RoundRobin.CleanVisitsDistinct | server/main.go:742-744 | distinct attempts of a pass try distinct lanes as long as the later one comes before any cursor jump |
| UdpSelector.ChooseRefusesExactly | server/session_udp.go:195-280 | on one snapshot, a packet is refused exactly when the pinned lane is full, or nothing is pinned and every live lane is full |
| UdpSelector.ChosenHasRoom | server/session_udp.go:195-280 | on one snapshot, a chosen lane is live with room in its queue and is the one remembered |
| UdpSelector.AtOnce | server/session_udp.go:195-280 | with no writer in between, the decision on four successive reads of the lanes is the decision on one snapshot |
| UdpSelector.RefusedIff | server/session_udp.go:195-280 | while writers drain and stop lanes between the reads, a packet is refused exactly when no lane lived, the pinned lane is full, all measured are full, or the scan meets no lane of the kind sought |
| UdpSelector.RefusedWithRoomIff | server/session_udp.go:256-277 | a fresh striped pick is refused although a lane had room if and only if the least depth measured is below 128 and no live lane has that depth any more when scanned |
| UdpSelector.RefusedWithRoomExample | server/session_udp.go:256-277 | one lane, one packet drained between the two scans: refused although it has room |
| UdpSelector.RefusalForgets | server/session_udp.go:205-280 | after a refusal a full pinned lane stays pinned, and else no lane is current; only a packet that found reorder-capable lanes is timed |
| UdpSelector.RacingChosenHasRoom | server/session_udp.go:378-398 | whatever drains in between, a chosen lane was live with room when it was chosen and still has room at the send |
| UdpSelector.FreshPickRotates | server/session_udp.go:226-277 | a packet that is neither pinned nor continuing goes to the first lane from the cursor that has room, or has the least depth when all can reorder; the cursor moves past it and a stripe gets 15 more picks |
| UdpSelector.PinHolds | server/session_udp.go:214-225 | while a live lane without reorder support was counted, a current lane still live when it is looked at takes the packet if it has fewer than 128 queued, and else the packet is refused; the selector stays as it is |
| UdpSelector.SelectionChangesOnlyAfterPinLost | server/session_udp.go:210-240 | over any arrivals that, after the first, each find a live lane without reorder support, two packets go to different lane objects only if the first lane was closed, removed or replaced in between |
| UdpSelector.BurstFillsEvenly | server/session_udp.go:242-280 | in a burst over k reorder-capable lanes starting empty, exactly the first 128k packets are accepted and no depth exceeds max(16, least + 1) |
| UdpSelector.BurstGoesInStripes | server/session_udp.go:242-277 | in a burst over k reorder-capable lanes starting empty, with no gap over 2 ms, packet n below 16k goes to the lane of packet n - n mod 16 |
| UdpSelector.StripeRule | server/session_udp.go:242-277 | among reorder-capable lanes a packet stays on the current lane if picks are left, it comes within 2 ms and the lane looks live with fewer than 16 queued, and uses up a pick; else it is a fresh pick of a lane of the least depth, with 15 more to follow |
| UdpSelector.StripeGoesOn | server/session_udp.go:242-254 | over any arrivals, the 15 packets after a fresh pick go to the same lane, as long as each finds reorder-capable lanes, comes within 2 ms of the one before and sees that lane live with fewer than 16 queued |
| UdpSelector.StripesAreShort | server/session_udp.go:248-254 | over any arrivals, whatever becomes of lanes and queues in between: a packet that finds reorder-capable lanes and all that continue after it are at most 16, on one lane, with no gap over 2 ms inside |
| UdpSelector.ContinuedStep | server/session_udp.go:242-254 | over any arrivals, a packet that continues a stripe goes to the lane of the packet before it, if that one found reorder-capable lanes too, within the gap, and uses up one of the remaining picks |
| UdpSession.UdpLaneSelector.ScanAndSettle | server/session_udp.go:226-239 | the round-robin scan settles on the first eligible lane from the cursor, or on none |
| UdpSession.CountLanes | server/session_udp.go:196-204 | the first scan finds whether any lane lives and whether all live ones can reorder |
| UdpSession.MinimumDepth | server/session_udp.go:256-261 | the second scan finds the least depth of a live lane |
| UdpSession.AggregatedUdpSession.SnapshotLanesLocked | server/session_udp.go:368-376 | slot by slot the listed lane or none |
| UdpSession.DeliveredInOrder | server/session_udp.go:378-398 | what one lane was given is an in-order subsequence of the backend packets |
| UdpSession.AggregatedUdpSession.PinPeriodIsOneStream | server/session_udp.go:210-240 | in every history of backend packets, those of one pin period go to one lane object or are dropped, and those not dropped are, in order and without a gap, one stretch of what that lane was given |
| UdpSession.AggregatedUdpSession.StripeIsOnOneLane | server/session_udp.go:242-254 | in every history of backend packets, those of one unbroken stripe go to one lane object |
| UdpSession.AggregatedUdpSession.AcquirePacket | server/session_udp.go:135-146 | an object from the pool, which other sessions use at the same time, or a new one: it holds the payload, its buffer grown if too short, and is in no queue and no write |
| UdpSession.AggregatedUdpSession.ReleasePacket | server/session_udp.go:148-154 | an object that is in no queue and no write goes back to the pool, its whole buffer in use again |
| UdpSession.AggregatedUdpSession.EnqueueDownlink | server/session_udp.go:378-398 | while the lanes' writers run on between its reads, each backend packet is put on exactly the chosen lane or counted as one drop, the selector moves as specified, and the history goes on, by what the lanes really looked like; a packet of a stripe under way goes to its lane; no lane stops but those that fail by themselves, and a session in service stays so |
| UdpSession.AggregatedUdpSession.SendOrRelease | server/session_udp.go:387-397 | a send that does not wait: queued when there is room, else released and counted |
| UdpSession.AggregatedUdpSession.TakePacket | server/session_udp.go:434 | the writer takes the oldest packet; every queue, write and pool entry stays in its one place |
| UdpSession.AggregatedUdpSession.FinishWrite | server/session_udp.go:435-443 | the payload is written once, the packet released, and a failed write, which only a failing lane meets, stops the lane and its writer |
| UdpSession.AggregatedUdpSession.DrainQueue | server/session_udp.go:425-433 | a stopped lane gives all its queued packets back to the pool |
| UdpSession.AggregatedUdpSession.OnePlaceEach | server/session_udp.go:135-154 | no packet object is twice in the queues, or in two of: queued, in flight, pooled, held by another session |
| UdpSession.AggregatedUdpSession.WritesFifo | server/session_udp.go:422-446 | despite buffer reuse the queue writer of a lane has written exactly the first payloads queued on it, in order, the rest being in flight and queued |
| UdpSession.AggregatedUdpSession.WriteReply | server/session_udp.go:476-482 | a probe reply goes out on the same connection and leaves what the queue writer has written as it was |
| UdpSession.AggregatedUdpSession.AddLane | server/session_udp.go:301-324 | refused when the context is done; else a fresh lane takes the stream id and stops its predecessor, and no other lane is stopped; an attach of the lifecycle |
| UdpSession.AggregatedUdpSession.RemoveLane | server/session_udp.go:326-338 | stops that lane and counts the rest; as long as one is left, every other lane stays listed and goes on, a successor under its stream id among them, unless a newly attached one replaces it; if none is left the session closes, and with it whatever attached after the count; a run of the lifecycle |
| UdpSession.AggregatedUdpSession.LeaveTo | server/session_udp.go:334-338 | what follows the count: lanes that others attach replace only lanes under their own stream ids, and the session closes exactly when the count was zero |
| UdpSession.AggregatedUdpSession.Detach | server/session_udp.go:326-333 | stops the lane and takes exactly it off the list, which is a detach of the lifecycle |
| UdpSession.AggregatedUdpSession.Close | server/session_udp.go:340-356 | once: ends the context, closes the backend, stops every lane ever attached, empties the lane map and frees the key unless a successor has it; a run of the lifecycle's close |
| UdpSession.AggregatedUdpSession.LifeViewInv | server/session_udp.go:301-356 | a valid session in service satisfies the invariant of the lifecycle |
| UdpSession.AggregatedUdpSession.StaysInService | server/session_udp.go:177-185 | stopping lanes, as writers and readers do without the lock, leaves the session in service |
| UdpSession.UdpSessionRegistry.GetOrCreate | server/session_udp.go:89-115 | a session whose context is not done is found again; else, exactly when its backend can be dialled, a fresh one, valid, in service and with its history begun, takes the key, and nothing changes if not |
| UdpSession.AggregatedUdpSession.Stop | server/session_udp.go:177-185 | the lane is stopped; queues, writes and pool are as before |
| UdpLifecycle.StepKeepsInv | server/session_udp.go:89-123 | each micro-step of create, attach, detach, cancel and close keeps the lane, session and registry invariant |
| UdpLifecycle.RunKeepsInv | server/session_udp.go:89-123 | every reachable state satisfies that invariant |
| UdpLifecycle.ClosedForGood | server/session_udp.go:340-356 | from the end of close on, every lane ever attached is stopped, no attach succeeds, and no key maps to the session, under any interleaving |
| UdpLifecycle.SuccessorsKept | server/session_udp.go:117-123 | a session not yet done is the registered one, and a lane not stopped is the listed one: retiring never evicts a successor |
| GateSystem.EffectiveLimitIsTighter | server/drain.go:18-24 | the effective limit is reached exactly when the configured or, on a canary, the canary limit is |
| GateSystem.StepKeepsInv | server/drain.go:72-104 | each single atomic update of admission, establishing, releasing and draining, in any order, keeps the counter invariant |
| GateSystem.RunKeepsInv | server/drain.go:72-127 | every reachable state satisfies the counter invariant |
| GateSystem.LimitsHold | server/drain.go:50-84 | whatever the order of the calls on a lease, the limits hold, 0 <= active <= wait count, and handshakes + established <= active |
| GateSystem.CountersOrdered | server/main.go:166-192 | when each lease is marked, if at all, before it is given back, as the accept loop does, no counter is negative between any two updates, handshakes + established <= active <= wait count, and no lease is misread |
| GateSystem.DrainedForGood | server/drain.go:106-127 | after draining began and the wait returned, nothing is active ever again, and with leases marked before they are given back all counters stay zero |
| GateSystem.DriftIsTheMisread | server/drain.go:86-104 | in every run, with no call under way, handshakes are too few and established sessions too many by exactly the number of misread leases, those whose done read the flag before markEstablished set it |
| GateSystem.MisreadExactly | server/drain.go:86-104 | a step makes a lease misread exactly when it sets the flag of a lease whose done has read it, and a misread lease stays one |
| GateSystem.ZeroAfterDrainIff | server/drain.go:86-127 | after a drain and with no call under way, the counters are back at zero if and only if no lease was misread |
| GateSystem.NegativeOnlyIfOvertaken | server/drain.go:86-104 | in every run a counter is negative only while done has overtaken an unfinished or misread marking |
| GateSystem.LateMarkDrifts | server/drain.go:86-104 | under every configuration, a run that marks a lease after it was given back leaves a drained gate with -1 handshakes and one established session |
| GateSystem.EarlyDoneDips | server/drain.go:86-104 | under every configuration, a run that gives a lease back in mid-marking drives established to -1, and back to zero |
| GateSystem.AdmissionReaches | server/drain.go:72-84 | a whole admission is a path of atomic steps |
| GateSystem.MarkReaches | server/drain.go:86-92 | markEstablished is a path of atomic steps |
| GateSystem.DoneReaches | server/drain.go:94-104 | done is a path of atomic steps |
| ConnectionGate.FirstReasonIsGiven | server/drain.go:50-70 | in numbers: each reason is given exactly when its limit stands against the admission and no earlier one does, in the order drain, sessions, handshakes, goroutines, file descriptors |
| ConnectionGate.Gate.Admit | server/drain.go:50-84 | the first reason that applies rejects without a trace; otherwise a fresh lease and three counters up by one |
| ConnectionGate.Gate.MarkEstablished | server/drain.go:86-92 | moves one session from handshakes to established, once, also when its lease was given back before |
| ConnectionGate.Gate.Done | server/drain.go:94-104 | gives back exactly what the lease holds, once |
| ConnectionGate.Gate.BeginDrain | server/drain.go:106-114 | draining is set, nothing else changes, and the active count is returned |
| ConnectionGate.Gate.Readiness | server/drain.go:141-148 | ready if and only if the gate is not draining, each limit is off or above its count, and files are unlimited, unknown or left in number, and then a whole admission can follow; the reason is the one an admission would give |
| WrapCodec.OpensExactlySealed | pkg/clientcore/wrap.go:124-141 | the decoder returns a payload if and only if it fits and the packet is some header with that payload sealed under it |
| WrapCodec.OpenInvertsSeal | pkg/clientcore/wrap.go:96-141 | a sealed packet opens to its payload, or is refused when the destination is too small |
| WrapCodec.LawsAreConsistent | pkg/clientcore/wrap.go:119 | the AEAD laws assumed have a model |
| WrapCodec.HeaderLayout | pkg/clientcore/wrap.go:102-113 | byte by byte: 0x80, payload type 111, the low half of the sequence number, timestamp and SSRC, then session id and counter as nonce |
| WrapCodec.PacketLayout | pkg/clientcore/wrap.go:114-121 | 24 header bytes, then the payload and 16 bytes of tag, sealed under session id and counter with the whole header authenticated |
| WrapCodec.WrapConn.constructor | pkg/clientcore/wrap.go:58-90 | both identifiers are the random bytes with the direction bit of their first byte set or cleared; the counters come from the random bytes |
| WrapCodec.FillHeader | pkg/clientcore/wrap.go:102-113 | writing the header field by field yields the header bytes and touches nothing behind them |
| WrapCodec.FillPacket | pkg/clientcore/wrap.go:102-119 | sealing the payload where it lies yields the packet and touches nothing behind it |
| WrapCodec.WrapConn.NextCounters | pkg/clientcore/wrap.go:104-112 | each of the three counters returns its old value and advances with wrap-around |
| WrapCodec.WrapConn.WrapInto | pkg/clientcore/wrap.go:96-122 | writes the sealed packet into the front of the buffer and nothing behind it, advancing the three counters; a refused packet uses up none |
| WrapCodec.WrapConn.UnwrapPacket | pkg/clientcore/wrap.go:124-141 | decrypts in place and copies out exactly the payload; on any error the destination is untouched |
| WrapCodec.WrapPacketConn.constructor | server/wrap.go:77-101 | both identifiers are the random bytes with the direction bit of their first byte set; the counters come from the random bytes |
| WrapCodec.WrapPacketConn.WriteTo | server/wrap.go:152-190 | sends the sealed packet whatever the pooled buffer held |
| WrapCodec.WrapPacketConn.ReadFrom | server/wrap.go:116-150 | returns what the decoder gives for the datagram cut to the buffer; on any error the destination is untouched |
| WrapCodec.ClientToServer | server/wrap.go:116-150 | a packet wrapped by the client is read back by the server whenever it fits |
| WrapCodec.ServerToClient | server/wrap.go:152-190 | a packet sent by the server is unwrapped by the client whenever it fits |
| WrapNonces.NoncesDistinct | pkg/clientcore/wrap.go:104-113 | under any interleaving of the three fetch-and-adds, two packets of one connection never share a nonce, up to 2^64 packets |
| WrapNonces.RunKeepsInv | pkg/clientcore/wrap.go:104-113 | in every interleaving the counter is its start plus the fetches, and the calls hold distinct earlier values |
| WrapNonces.DirectionsDisjoint | server/wrap.go:88-91 | a client nonce never equals a server nonce |
| WrapNonces.PacketsStep | pkg/clientcore/wrap.go:104-112 | from one packet of a sequential sender to the next the timestamp grows by 960 and each counter by one, modulo 2^32, 2^32 and 2^64 |
| WrapNonces.TimestampsRepeatEvery2To26 | pkg/clientcore/wrap.go:106-107 | for one sequential sender packets i and j share a timestamp if and only if 2^26 divides j - i |
| WrapNonces.SequenceNumbersRepeatEvery2To16 | pkg/clientcore/wrap.go:104-105 | their 16-bit sequence numbers agree if and only if 2^16 divides j - i |
| TileGeometry.TilesPartition | pkg/clientcore/slider_captcha.go:901-911 | for every size and grid a pixel lies in tile i if and only if it lies in the rectangle and i is its computed index |
| TileGeometry.EdgeRoundsDown | pkg/clientcore/slider_captcha.go:905-908 | slot k of g begins k g-ths along the side, rounded down |
| TileGeometry.QuoTowardZero | pkg/clientcore/slider_captcha.go:902-903 | row and column of any index, also a negative one, by division toward zero |
| TileGeometry.SlotsNonemptyIff | pkg/clientcore/slider_captcha.go:901-911 | with at least as many points as slots no slot is empty; with fewer the first one is |
| TileGeometry.TilesAreCanonical | pkg/clientcore/slider_captcha.go:901-911 | for any index, also one that is no tile, the corners are already in order, and no tile is empty when the image is at least as large as the grid |
| TileGeometry.SliderTileIsTile | pkg/clientcore/slider_captcha.go:901-911 | for an index that is a tile, division toward zero and the swapping of corners give the tile of the partition |
| TileMapping.BuildSliderTileMapping | pkg/clientcore/slider_captcha.go:751-775 | fails exactly for no tiles, an odd list or an entry out of range; otherwise the identity with all swaps applied |
| TileMapping.ApplySwaps | pkg/clientcore/slider_captcha.go:763-772 | the swapping loop applies the whole list, or stops at a pair out of range |
| TileMapping.ReverseUndoes | pkg/clientcore/slider_captcha.go:763-772 | applying a swap list and then its reverse changes nothing |
| TileMapping.MappingIsPermutation | pkg/clientcore/slider_captcha.go:751-775 | the mapping of any list is a permutation, inverse on both sides to that of the reversed list |
| TileMapping.CandidatesAccumulate | pkg/clientcore/slider_captcha.go:738-749 | the first candidate is the identity, and each later one is its predecessor with the two entries named by the next pair exchanged and no other changed |
| TileRendering.CopyScaledTile | pkg/clientcore/slider_captcha.go:913-930 | every pixel of the target tile gets its scaled source colour and no other pixel changes; an empty tile copies nothing |
| TileRendering.RenderSliderCandidate | pkg/clientcore/slider_captcha.go:880-899 | fails exactly for a grid without tiles or a mapping of another length; otherwise every pixel is as specified, whatever the entries |
| TileRendering.IdentityReproduces | pkg/clientcore/slider_captcha.go:880-930 | rendering the identity mapping reproduces the image, for every size and every grid |
| TileRendering.ScaleStaysInside | pkg/clientcore/slider_captcha.go:913-930 | scaling never reads outside the source tile |
| TileRendering.ScaleIsProportional | pkg/clientcore/slider_captcha.go:924-926 | between tiles of any sizes an offset keeps its proportion, rounded down |
| TileRendering.ReversedSwapsUnscramble | pkg/clientcore/slider_captcha.go:751-899 | when the grid divides the picture, rendering a swap list and then its reverse gives the picture back |
| TileScore.ScoreSliderCandidate | pkg/clientcore/slider_captcha.go:813-878 | scoring runs to its end if and only if there is no seam or the mapping is long enough and the image at least as large as the grid; the score read through the mapping is then the seam total of the picture that rendering would paint |
| TileScore.ScoreAcross | pkg/clientcore/slider_captcha.go:820-844 | one seam between columns: the jumps that the rendered picture shows there; no result exactly when the left tile has no width to divide by |
| TileScore.ScoreDown | pkg/clientcore/slider_captcha.go:850-874 | one seam between rows: the jumps that the rendered picture shows there; no result exactly when the upper tile has no height to divide by |
| TileScore.ScoreColumns | pkg/clientcore/slider_captcha.go:817-845 | all seams between columns, row by row; cut short exactly when there is a seam and the mapping is too short or the image narrower than the grid |
| TileScore.ScoreRows | pkg/clientcore/slider_captcha.go:847-875 | all seams between rows, row by row; cut short exactly when there is a seam and the mapping is too short or the image lower than the grid |
| TileScore.ScoreEqualsScoreOfRendering | pkg/clientcore/slider_captcha.go:813-899 | scoring a mapping, whatever its entries, equals scoring the rendered image under the identity, for every image at least as large as the grid |
| TileScore.SeamTotalIsBorderTotal | pkg/clientcore/slider_captcha.go:817-875 | the tile-by-tile total equals the sum of colour jumps along whole inner grid lines |
| TileScore.ZeroIffSmooth | pkg/clientcore/slider_captcha.go:813-944 | the total is never negative, and zero if and only if red, green and blue go on unchanged across every inner grid line |
| TileScore.StepTotalX | pkg/clientcore/slider_captcha.go:817-845 | a picture with one jump of d in each channel, along one inner vertical grid line, has the total 3 d times its height |
| TileScore.StepTotalY | pkg/clientcore/slider_captcha.go:847-875 | likewise along one inner horizontal grid line, times its width |
| TileScore.DivisorsNonzeroIff | pkg/clientcore/slider_captcha.go:831 | no divisor of the scorer is zero if and only if the image is at least as large as the grid |
| TileScore.PixelDiff | pkg/clientcore/slider_captcha.go:932-944 | zero exactly for equal red, green and blue |
| TileScore.PixelDiffIsDistance | pkg/clientcore/slider_captcha.go:932-944 | symmetric, growing by k when a channel moves k further away, whatever the fourth channel: with the zero case, the sum of the three absolute differences |
| ListenerSystem.StepKeepsInv | server/udp_listener.go:74-113 | each micro-step of lookup, enqueue, accept, close and drain keeps table, queue and count exact |
| ListenerSystem.RunKeepsInv | server/udp_listener.go:143-170 | in every reachable state the table is exactly the queued and accepted connections not yet deleted, and the count is never negative |
| ListenerSystem.OnePerAddress | server/udp_listener.go:143-170 | two live connections never share a remote address |
| ListenerSystem.ClosingRemovesOnlyItself | server/udp_listener.go:197-210 | deleting by address removes the closed connection itself and leaves every other live one in the table |
| ListenerSystem.CountReachesZeroLast | server/udp_listener.go:89-113 | when the count falls to zero the listener is closed, its queue empty and no counted connection open |
| ListenerSystem.SocketClosesLast | server/udp_listener.go:62-70 | with no Accept in flight at that moment, the socket closes only after the listener and every accepted connection |
| ListenerSystem.SocketCanBeLostIff | server/udp_listener.go:74-78 | once the count has been zero, the socket can still be closed under an open connection if and only if an Accept has taken a connection and not yet counted it |
| ListenerSystem.LateAcceptIsReachable | server/udp_listener.go:74-78 | a concrete run in which that happens |
| UdpListener.UdpPacketListener.GetConn | server/udp_listener.go:143-170 | the existing connection of that address, or a fresh queued one exactly when accepting, filtered in and with room; a run of the listener system |
| UdpListener.UdpPacketListener.Accept | server/udp_listener.go:74-87 | the oldest queued connection, counted; or, when the read loop has failed or the listener is closed, that error; blocks exactly when none of these holds; a run of the listener system |
| UdpListener.UdpPacketListener.ReadFails | server/udp_listener.go:119-131 | the read loop ends: from then on Accept may return its error, and what is queued or accepted stays |
| UdpListener.UdpPacketListener.Close | server/udp_listener.go:89-113 | once: drops exactly the queued connections, keeps the entries of exactly the accepted ones, and gives back the listener's own count; a run of the listener system |
| UdpListener.UdpPacketListener.Drain | server/udp_listener.go:95-101 | the drain loop empties the queue, dropping only queued connections and their entries, one step of the listener system each |
| UdpListener.UdpPacketListener.DropHead | server/udp_listener.go:97-100 | the oldest queued connection leaves queue and table, and its done channel is closed for the first time |
| UdpListener.UdpPacketListener.CloseSocket | server/udp_listener.go:64-70 | the socket closes only when the listener and every accepted connection are closed |
| UdpListener.UdpPacketConn.Close | server/udp_listener.go:197-210 | removes its own entry and its count, once; a run of the listener system |
| UdpListener.UdpPacketListener.ZeroIffAllClosed | server/udp_listener.go:65-66 | the count is zero if and only if the listener and every accepted connection are closed |

## Left out

- BondSystem.CompleteAtQuiescence: speaks of states in which every accepted frame was consumed; a frame accepted by a lane that dies before delivering it stalls the receiver by design, so no liveness is claimed.
- BondClient.WriteBondFrameToNextLane: a report of no live lanes is proved to mean that all lanes are dead except in the one call during which the cursor wraps, where it is false (`RoundRobin.VisitsAllIffSeamless`); at most 2^64 lanes.
- BondServer.BondServerConn.WriteToNextLane: finitely many lanes attach in all (`limit`); the lane whose reader ends last makes the context done in the same moment; once a write has gone behind a failed one, only the list of lanes is described.
- BondServer.BondServerConn.CopyBackendToBond: an input of fewer than 2^64 - 1 bytes, as in the client loop, which may end or, in a `broken` source, fail at any point, with finitely many reads that return nothing.
- BondReceiver.CopyBondToTcp: waiting for a frame is not modelled; the client's queue is closed behind the last one, while the server's loop would wait there for its context.
- UdpSession.AggregatedUdpSession.EnqueueDownlink: each of its scans reads all lanes at one moment; `UdpSelector` asks for order slot by slot only, and so also speaks of scans that writers interrupt.
- UdpSession.AggregatedUdpSession.DrainQueue: packets left behind a failed write are not released, as in the code; no claim is made that every packet returns to the pool.
- UdpSession.AggregatedUdpSession.Close: its four steps run without interference here; `UdpLifecycle` interleaves them.
- UdpSession.AggregatedUdpSession.AcquirePacket: what other sessions do with the shared pool is arbitrary, except that they touch only packets they hold.
- UdpSelector.StripesAreShort: time is an integer number of nanoseconds, and a packet stamped with the zero time starts no gap measurement, as in the code.
- WrapCodec.WrapConn.UnwrapPacket: the two buffers are distinct objects, and what a failed decryption leaves in the packet buffer behind the header is not specified.
- WrapNonces.NoncesDistinct: initial counters are arbitrary; nothing is claimed across connections that share a key.
- TileRendering.RenderSliderCandidate: colours are copied as they are; the conversion to 8-bit RGBA is not modelled.
- TileRendering.ReversedSwapsUnscramble: stated for grids that divide the picture; elsewhere tiles differ in size and scaling between them can lose pixels.
- TileScore.ScoreSliderCandidate: the sum is unbounded where the code uses 64 bits.
- UdpListener.UdpPacketListener.Accept: runs as one step, counting included; `ListenerSystem` splits it, and what a blocked call waits for is not modelled.
- UdpListener.UdpPacketListener.Close: runs without interference, and does not wait for the read loop; `ListenerSystem` interleaves it with lookups, accepts and closes.
- ConnectionGate.Gate.Admit: goroutine and file-descriptor counts are parameters; the wait group is its count.
- Lane hello and frames: the hello precedes the frames on a lane and is modelled by itself; the frame a lane reader holds while the queue is full is merged with its queueing.
- Cancellation, failing writes, ending readers: events of the environment that may happen at any time, but only to contexts, streams and lanes marked for it by a constant (`cancelled`, `sound`, `readerEnds`, `failing`), which is arbitrary; in the step systems, steps of their own.
- TCP, DTLS, TURN, KCP, smux and UDP sockets: byte streams and queues with arbitrary failures.
- ChaCha20-Poly1305 and the random source: laws and parameters.
- Bond registry, waiting for initial lanes, session pools, retries, deadlines, tickers: driven by time or settled by reading one branch.
- Candidate ranking, the second slider solver, captcha requests, credentials, HTML, browser and profiles: network clients and user interface.
- Metrics, logging, HTTP endpoints, packet-info system calls, scripts and containers: plumbing and deployment.
