# WARP17: a verified model of its hard parts

WARP17 is a stateful traffic generator with its own user-space TCP/IP stack on
DPDK. This Dafny project models the parts of it that are hard to get right and
proves what they promise, or, where a promise does not hold, exactly when it does.
`dafny verify dfyconfig.toml` checks everything.

| module | models |
|---|---|
| `SequenceNumbers` | 32-bit TCP sequence numbers, and when they agree with stream positions (section 3.4 of RFC 9293) |
| `MbufChains`, `MbufBuilding` | mbuf chains: trimming, joining, cloning and building them out of a pool that can run out |
| `Reassembly`, `TcpReceiver` | the receive side of TCP: first over unbounded positions, then the 32-bit code as a refinement of it (section 3.10.7.4 of RFC 9293) |
| `Transmission`, `TcpSender` | the send side and retransmission, again as positions and as the 32-bit code over mbufs |
| `Messaging` | inter-core messages as a transition system of cores that interleave in any order |
| `RateLimit`, `CoreRates` | spreading a rate over time slots, splitting the slots between cores, spending them |
| `Toeplitz` | the table-driven RSS hash against its bitwise definition |
| `SessionTable` | the bucketed session table against a list of control blocks |
| `PortMap`, `QueueMap` | assigning cores to ports and queues, the redirection table and its prediction |
| `Checksum` | the checksum over scattered mbufs against section 1 of RFC 1071 |
| `TxQueue` | the burst transmit queue |
| `Prelude`, `Arithmetic` | shared types, and facts about integer division |

Code that changes state in place is modelled by classes and loops (`TcpReceiver.Tcb`,
`TcpSender.Tcb`, `RateLimit.Config`, `CoreRates.CoreRate`, `Toeplitz.Rss`,
`SessionTable.Table`, `PortMap.Allocator`, `QueueMap.Port`, `TxQueue.Queue`,
`MbufBuilding.Mempool`). Their methods are proved against functions on values, and
the lemmas are about those functions. Calls into DPDK are parameters or outcomes: the
pool has some number of free mbufs, the lower layer takes or refuses each packet, a
ring has a capacity, the driver takes a prefix of a burst, an allocation succeeds or
not.

## What was found

Where the code does not keep what it is for, the model keeps the code and the lemmas
say which inputs are affected.

- **Reassembly loses its place.** When a segment ends strictly inside a buffered one,
  lines 373-379 of `src/tpg_tcp_data.c` cut the front of the buffered data and leave
  its sequence number where it was; lines 424-426 do the same after the application
  consumed part of a segment. `HandleKeepsGoodIff`: from a good state a call keeps the
  state good if and only if neither happens. `StraddlesCorruptStream`: five
  segments of one stream are enough to hand wrong bytes to the application, also on
  32-bit words (`ReceiveStraddling`).
  `PartialDeliveryWedges`, `InOrderStraddleWedges` and `WedgedForever`: after other inputs
  nothing is delivered any more, whatever arrives, as long as the list itself is
  intact (see the next item). A segment that is an exact front part of a buffered
  segment is affected too when the buffered segment before it ends where it starts
  (the `joins` argument of `Straddled`).
- **The same cuts can free a header that is in use.** The list header of a node lies
  inside the first mbuf of its chain (`inc/tpg_tcp.h:109-120`). When one of those cuts
  covers that mbuf and the chain has more, `data_adj_chain` frees it
  (`inc/tpg_data.h:248` and `258`), and the list still leads to it. `HeaderCanBeFreed`:
  three packets of one mbuf each are enough. What the list holds once that mbuf is
  used for something else, a received packet for example, is not described by the model;
  the results about bad runs are for runs in which this does not happen
  (`KeepsHeaders`), and `HarmlessRunKeepsHeaders` proves that it never happens in
  harmless runs.
- **A stale length after a trim.** `data_adj_chain` returns the second mbuf with
  whatever `pkt_len` it has when the cut ends exactly at the end of the first one
  (`inc/tpg_data.h:245-250`). `AdjKeepsPktLenIff` says when the length is right;
  arriving chains are assumed to carry right lengths in every mbuf, as single-mbuf
  packets do.
- **`data_chain_from_static_chain`** writes the requested length even when the static
  chain is shorter: `ChainFromStaticChain` says when the length is right.
- **A shrinking window.** The peer may take the window back below the bytes in flight
  (`src/tpg_tcp_sm.c:1379` stores any value). The subtraction at
  `src/tpg_tcp_data.c:240-242` then wraps and the next send is not limited at all:
  `SendFitsWindowIff` says that a send stays within the window if and only if the
  bytes in flight do or it has nothing to emit, and `ShrunkenWindowIsOverrun` shows a state.
  Which bytes are emitted is right under every window (`RunKeepsConsistent`).
- **Acknowledgements.** `tsm_cleanup_retrans_queu` by itself would accept one for bytes
  that are stored but were not sent (`AckKeepsInvIff`). That input does not reach it:
  every caller first tests SEG.ACK against SND.UNA and SND.NXT, and
  `PassedAckKeepsInv` proves from that test that only sent bytes are acknowledged.
- **A retransmission** can emit bytes behind SND.NXT without moving it
  (`RetransEndsBelowNxtIff` says when, `RetransPassesNxt` shows a state).
- **A NOBLOCK send that fails** leaves the message marked QUEUED, and if it was also a
  blocking one the TO_FREE flag is lost (`FailedSendReturnsMessage`).
- **The checksum** folds the carries of the fragments only once, and sums every fragment
  as if it began at an even offset. For fragments of any lengths the result is right if
  and only if the fold leaves no carry and the word sums of the fragments at odd offsets
  add up to a multiple of 257 (`GeneralCksumIsRightIff`, `UpdateCksumIsRightIff`). One
  mbuf is always right (`OneMbufIsRight`); `CarryIsWrong` and `OddFragmentsAreWrong` are
  packets that get a wrong checksum. A retransmission over two stored mbufs of odd
  length has such a fragment in the middle.
- **The Toeplitz table** is filled by reading up to four bytes behind the 40-byte key.
  `ShortKeyIsEnough`: the rows that are looked up do not depend on them. The comment at
  `3rdparty/toeplitz.c:41-47` describes a key that repeats two bytes, so that the hash
  is the same in both directions; the code uses 40 different bytes. The test for a
  missing key at line 157 looks at a local array and never fires.
- **The sequence comparison** agrees with the order of positions for distances below
  2^31 and not, as the comment at `inc/tpg_tcp.h:222` has it, up to 2^32
  (`SegLTAgreesWithOrderIff`).
- **Two queue maps for one port** can pass the command line, which compares the text of
  the port (`src/tpg_port.c:855-864`) where the parser reads a number: `0.` and `00.`
  are both port 0. Queues and cores still correspond one to one if and only if no core
  is given a queue twice (`QueuesAreCoresIff`).
- **A redirection table smaller than the number of queues** leaves queues without any
  packet (`QueueIsReachedIff`).

## Model

| member | source | states |
|---|---|---|
| `SequenceNumbers.SegLTIsForwardDistance` | inc/tpg_tcp.h:228-229 | SEG_LT(a, b) holds exactly when b is 1 to 2^31 ahead of a, modulo 2^32 |
| `SequenceNumbers.SegLTIsShiftInvariant` | inc/tpg_tcp.h:228-229 | adding the same offset to both words, with wrap-around, changes no comparison |
| `SequenceNumbers.SegLTAgreesWithOrderIff` | inc/tpg_tcp.h:214-229 | for positions less than 2^32 apart, comparing their words is comparing the positions if and only if they are not too far apart |
| `SequenceNumbers.WordsCompareAsPositions` | inc/tpg_tcp.h:224-231 | all comparisons and SEG_DIFF on the words of positions less than 2^31 apart are those of the positions |
| `SequenceNumbers.WordsEqualIff` | inc/tpg_tcp.h:224-231 | equal words mean equal positions, and SEG_DIFF is the distance, for positions less than 2^32 apart |
| `MbufChains.AdjDropsBytes` | inc/tpg_data.h:231-270 | trimming removes exactly the first len bytes of the flattened chain |
| `MbufChains.AdjKeepsPktLenIff` | inc/tpg_data.h:237-269 | the length field is right after a trim if and only if the cut does not end at the first mbuf boundary, or the second mbuf happens to hold the remaining length |
| `MbufChains.AdjLosesPktLen` | inc/tpg_data.h:245-250 | a chain of two mbufs that loses its length |
| `MbufChains.AdjKeepsWellFormed` | inc/tpg_data.h:231-270 | a trim inside the payload leaves no empty mbuf and a right length, under that condition |
| `MbufChains.AdjKeepsSuffixLengths` | inc/tpg_data.h:231-270 | a chain whose mbufs all know the length behind them stays one |
| `MbufChains.MergeJoins` | inc/tpg_data.h:526-531 | merging joins the bytes and adds the lengths |
| `MbufChains.AdjChain` | inc/tpg_data.h:231-270 | the fast path, the loop that frees mbufs and the last cut compute the trimmed chain |
| `MbufBuilding.CloneSeg` | inc/tpg_data.h:430-521 | the clone has exactly bytes off to off + len, matching lengths and segment count; NULL exactly for an empty request or a pool that is too small, and then every mbuf is back in the pool |
| `MbufBuilding.ChainFromStaticTemplate` | inc/tpg_data.h:290-364 | byte i of the chain is byte i modulo the template length of the template, lengths match, and NULL exactly for no data, an empty template or a pool that is too small, with every mbuf back in the pool |
| `MbufBuilding.ChainFromStaticChain` | inc/tpg_data.h:370-425 | the chain shares the bytes from the offset on as far as there are any; the length field is right if and only if there are enough; failure gives every mbuf back |
| `Reassembly.OrderedMeans` | src/tpg_tcp_data.c:303-388 | the invariant of the receive list: sorted, disjoint, no node before RCV.NXT, none empty, lengths right |
| `Reassembly.ConsumeKeeps` | src/tpg_tcp_data.c:369-387 | dropping the followers that a grown segment covers loses no position, unless one is straddled |
| `Reassembly.ConsumeCuts` | src/tpg_tcp_data.c:369-387 | for any followers: those that end within the grown segment go, the next one keeps its position, and of its bytes exactly those behind the segment |
| `Reassembly.InsertKeeps` | src/tpg_tcp_data.c:303-395 | filing a segment keeps the list sorted, disjoint and true to the stream, and adds exactly the positions of the segment; the list is never empty, so the assertion at 395 cannot fire |
| `Reassembly.InsertStraddled` | src/tpg_tcp_data.c:373-379 | filing a straddling segment always leaves two nodes that overlap |
| `Reassembly.DeliverKeeps` | src/tpg_tcp_data.c:406-428 | delivering whole segments hands over the stream up to the new RCV.NXT, keeps the list good and loses no position |
| `Reassembly.OneCallback` | src/tpg_tcp_data.c:406-428 | a callback that consumes n bytes of the head has the stream n bytes further, the head then holds exactly the bytes behind them under its old position, and delivery stops; one that takes all goes on to the next segment |
| `Reassembly.HandleKeepsGoodIff` | src/tpg_tcp_data.c:271-431 | from a good state a call keeps the state good if and only if the segment straddles no buffered one and the application stops inside no segment |
| `Reassembly.HandleReceivesSegment` | src/tpg_tcp_data.c:271-431 | delivered plus buffered positions grow by exactly the range of the segment, and with a fully consuming application RCV.NXT is not received yet |
| `Reassembly.RunDeliversStream` | src/tpg_tcp_data.c:271-431 | in every run of harmless segments, in any order, with duplicates and overlaps, the bytes delivered are the stream up to RCV.NXT |
| `Reassembly.RunStopsAtFirstMissing` | src/tpg_tcp_data.c:271-431 | and RCV.NXT is the first position that no segment has carried |
| `Reassembly.StraddlesCorruptStream` | src/tpg_tcp_data.c:373-379 | five segments of one stream after which the application has received a wrong byte |
| `Reassembly.StraddlingRunIsLegit` | src/tpg_tcp_data.c:271-431 | those five are cut from one stream with right length fields, and the start is good |
| `TcpReceiver.Tcb.ReceiveStraddling` | src/tpg_tcp_data.c:373-379 | and the 32-bit code hands over the wrong byte |
| `Reassembly.InOrderStraddleWedges` | src/tpg_tcp_data.c:373-379 | a segment that arrives in order and ends inside a buffered one leaves the head of the list behind RCV.NXT |
| `Reassembly.PartialDeliveryWedges` | src/tpg_tcp_data.c:424-426 | so does an application that consumes part of a segment |
| `Reassembly.WedgedForever` | src/tpg_tcp_data.c:271-431 | from then on nothing is delivered, whatever arrives, as long as no call frees a header that is linked in the list |
| `Reassembly.HeaderCanBeFreed` | inc/tpg_data.h:245-258 | after two packets of one mbuf each merge, a third one frees the header of the node that stays in the list |
| `Reassembly.HarmlessKeepsHeaders` | src/tpg_tcp_data.c:365-428 | a harmless call from a good state frees no header that stays linked |
| `Reassembly.HarmlessRunKeepsHeaders` | src/tpg_tcp_data.c:271-431 | nor does any call of a harmless run, so the results about those runs describe the code with its embedded headers |
| `Reassembly.SingleMbufsKeepHeaders` | src/tpg_tcp_data.c:365-428 | nor does any segment while all nodes are single mbufs and the application takes everything |
| `Reassembly.StraddlingRunKeepsHeaders` | src/tpg_tcp_data.c:271-431 | nor do the five segments that corrupt the stream |
| `TcpReceiver.HeadersCompare` | src/tpg_tcp_data.c:310-362 | every test of the insertion walk on words is the one on positions |
| `TcpReceiver.PlacesAgree` | src/tpg_tcp_data.c:310-348 | so the walk finds the same place for the segment on words as on positions |
| `TcpReceiver.ConsumeFollowers` | src/tpg_tcp_data.c:369-387 | the loop over words is the function on positions |
| `TcpReceiver.Tcb.InsertSegment` | src/tpg_tcp_data.c:301-388 | the walk over the list files the segment as the function on positions does |
| `TcpReceiver.Tcb.DeliverInOrder` | src/tpg_tcp_data.c:406-430 | the delivery loop does what the function does, and returns how far RCV.NXT moved |
| `TcpReceiver.Tcb.DataHandle` | src/tpg_tcp_data.c:271-431 | the whole call on 32-bit words refines the one on positions, for harmless and harmful segments, on a list whose headers are intact and as long as positions lie within half of the sequence space |
| `TcpReceiver.SpanIsKept` | src/tpg_tcp_data.c:271-431 | after a harmless call the list lies in the half of the space at the new RCV.NXT |
| `TcpReceiver.Tcb.ReceiveAll` | src/tpg_tcp_data.c:271-431 | in whole runs of the 32-bit code the application holds the stream up to the position of RCV.NXT, however often sequence numbers wrap |
| `Transmission.EmitIsSound` | src/tpg_tcp_data.c:163-205 | each emitted segment carries the stored bytes of its positions, and SND.NXT moves no further than what was offered |
| `Transmission.EmitIsContiguous` | src/tpg_tcp_data.c:171-202 | the segments of one call follow each other without gap or overlap, none is empty or too long, and only the last is shorter than the MTU |
| `Transmission.SendKeepsInv` | src/tpg_tcp_data.c:214-259 | under any window a send emits stored bytes and keeps bytes in flight within the stored size and this within the buffer, whatever fails on the way |
| `Transmission.RetransKeepsInv` | src/tpg_tcp_data.c:436-452 | so does a retransmission, which also stays within the window |
| `Transmission.SendFitsWindowIff` | src/tpg_tcp_data.c:236-251 | every segment of a send ends within the window if and only if the bytes in flight do, or nothing is stored, nothing gets through or less than a segment is unsent without a push; and the bytes in flight are within the window afterwards if and only if they were before |
| `Transmission.SendReaches` | src/tpg_tcp_data.c:65-259 | the data is appended whole, or refused when it is more than a segment or than the buffer has room for; SND.NXT moves to the end of what goes out, which is all that is unsent as far as the window and k segments reach, and nothing without a push while less than a segment is unsent |
| `Transmission.ShrunkenWindowIsOverrun` | src/tpg_tcp_data.c:240-242 | a state with a shrunken window whose send passes it |
| `Transmission.AckKeepsInvIff` | src/tpg_tcp_sm.c:261-315 | the cleanup alone keeps the bounds if and only if the acknowledgement covers sent bytes only, or too many to be accepted |
| `Transmission.PassedAckKeepsInv` | src/tpg_tcp_sm.c:1356-1360 | what passes the test of the callers, on words, covers sent bytes only or is refused, and keeps the bounds |
| `Transmission.AckReaches` | src/tpg_tcp_sm.c:1356-1360 | the word of a position n bytes ahead passes if and only if the position is not behind SND.NXT; then SND.UNA moves by n and n bytes leave the queue |
| `Transmission.EmissionEnd` | src/tpg_tcp_data.c:173-205 | an emission of k segments covers the smaller of what was offered and k times the MTU |
| `Transmission.RetransEndsBelowNxtIff` | src/tpg_tcp_data.c:436-452 | after a retransmission all it emitted lies below SND.NXT if and only if the window and the k segments reach no further than the bytes in flight or these are a whole number of segments |
| `Transmission.RetransPassesNxt` | src/tpg_tcp_data.c:183-184 | a state whose retransmission emits new bytes without moving SND.NXT |
| `Transmission.RetransReaches` | src/tpg_tcp_data.c:436-452 | a retransmission starts at SND.UNA and covers what is stored as far as the window and k segments reach; SND.NXT moves up to its end if and only if the bytes in flight are whole segments |
| `Transmission.RunKeepsConsistent` | src/tpg_tcp_data.c:65-259 | in every run of sends, retransmissions, acknowledgements that pass the test and window updates to any value, everything ever emitted is the accepted stream at its position |
| `Transmission.EmissionsAgree` | src/tpg_tcp_data.c:436-452 | two emissions agree wherever they overlap, whatever the boundaries were |
| `TcpSender.Tcb.StoreSend` | src/tpg_tcp_data.c:65-90 | data is appended whole if it fits the limits, otherwise nothing changes; the size field is the length of the chain |
| `TcpSender.Tcb.GetUnsent` | src/tpg_tcp_data.c:110-134 | finds the mbuf and the offset of the first unsent byte |
| `TcpSender.Tcb.SkipSent` | src/tpg_tcp_data.c:192-201 | moves the pointer over a sent segment across mbuf boundaries |
| `TcpSender.Tcb.SendSegments` | src/tpg_tcp_data.c:163-205 | the loop over mbufs emits the first k segments that the function cuts; any that are left out are left out because of the limit, a refusal of the lower layer or a pool too small for the clone |
| `TcpSender.Tcb.DataSend` | src/tpg_tcp_data.c:214-259 | the call emits the k segments and reaches the state of the function on positions; k falls short only by the limit, a refusal or the pool |
| `TcpSender.Tcb.DataRetrans` | src/tpg_tcp_data.c:436-452 | likewise for a retransmission |
| `TcpSender.Tcb.HandleAck` | src/tpg_tcp_sm.c:1356-1360 | for any acknowledgement word the state afterwards is that of the function on positions, with its bounds |
| `TcpSender.Tcb.CleanupRetransQueue` | src/tpg_tcp_sm.c:261-315 | for any word the acknowledged bytes leave the front of the queue and SND.UNA moves by as many, or nothing happens when there are not that many |
| `TcpSender.DropAcked` | src/tpg_tcp_sm.c:283-308 | exactly the acknowledged bytes are removed, across any boundaries |
| `Messaging.InitKeepsInv` | src/tpg_msg.c:347-355 | initialising a message keeps the invariant |
| `Messaging.SendKeepsInv` | src/tpg_msg.c:164-174 | so does starting a send |
| `Messaging.EnqueueKeepsInv` | src/tpg_msg.c:176-178 | so does an attempt to enqueue, successful or not |
| `Messaging.SpinKeepsInv` | src/tpg_msg.c:180-184 | so does looking at the state while waiting |
| `Messaging.FinishKeepsInv` | src/tpg_msg.c:186-191 | so does the end of a blocking send (what it does to the message: `BlockingSendOutcome`) |
| `Messaging.PollKeepsInv` | src/tpg_msg.c:416-439 | so does taking a message from a ring |
| `Messaging.StartKeepsInv` | src/tpg_msg.c:118-121 | so does the start of a handler, and the state is QUEUED there |
| `Messaging.HandlerKeepsInv` | src/tpg_msg.c:121-137 | so does its return, also when it asks for a repost |
| `Messaging.CompleteKeepsInv` | src/tpg_msg.c:139-150 | so does the end of handling (what it does to the message: `HandlingOutcome`) |
| `Messaging.RunIsSafe` | src/tpg_msg.c:96-197 | in every interleaving nothing is used after it was freed, and the assertion at 118 never fails |
| `Messaging.StartIsSafe` | src/tpg_msg.c:202-270 | the empty system satisfies the invariant |
| `Messaging.OnOneRingOnce` | src/tpg_msg.c:157-197 | a message is on at most one ring and at most once |
| `Messaging.OnRingIsQueued` | src/tpg_msg.c:116-118 | what is on a ring is allocated, QUEUED and addressed to the polling core |
| `Messaging.FreedIsOutOfReach` | src/tpg_msg.c:148-149 | a freed message is on no ring and no activation will use it |
| `Messaging.FreedStaysFreed` | src/tpg_msg.c:334-342 | no step touches or frees it again |
| `Messaging.BlockingSendEndsAfterHandler` | src/tpg_msg.c:176-191 | a blocking send ends only after a handler finished without -EAGAIN, the message is then on no ring and nobody else will touch it |
| `Messaging.FinishedByHandlerOnly` | src/tpg_msg.c:121-137 | that record is set by such a return of a handler and by nothing else |
| `Messaging.HeldStaysUntouched` | src/tpg_msg.c:181-191 | no run of the other cores touches a message that a finished blocking send holds, so it may live on the stack of the sender |
| `Messaging.OthersLeaveHeldAlone` | src/tpg_msg.c:181-191 | the same for one step |
| `Messaging.FailedSendReturnsMessage` | src/tpg_msg.c:164-179 | a failed NOBLOCK send gives the message back marked QUEUED and on no ring; TO_FREE survives if and only if the send was not blocking or the flag not set |
| `Messaging.BlockingSendOutcome` | src/tpg_msg.c:157-197 | from the send to the end of the wait, whatever the cores do meanwhile: the message is freed if and only if it was sent with TO_FREE, otherwise the sender has it back in state INIT |
| `Messaging.HandlingOutcome` | src/tpg_msg.c:96-174 | from the send to the end of handling: the message is freed if and only if it was sent with TO_FREE and without waiting and no handler asked for a repost, otherwise it is left DEQUEUED |
| `Messaging.FlagUnderWay` | src/tpg_msg.c:120-174 | while a message is under way nothing but a repost changes its TO_FREE flag |
| `Messaging.SendOutcome` | src/tpg_msg.c:157-174 | a send enters by the ring that destination and LOCAL flag name, and takes TO_FREE away from the receiver if and only if it waits |
| `Messaging.EnqueueOutcome` | src/tpg_msg.c:176-184 | enqueuing succeeds if and only if the ring has room, and a blocking send then waits; on a full ring NOBLOCK gives up and any other send tries again |
| `Messaging.SpinOutcome` | src/tpg_msg.c:180-184 | waiting ends exactly when the message is DEQUEUED |
| `Messaging.RepostOutcome` | src/tpg_msg.c:127-137 | a repost goes to the own ring of the handling core, without waiting and without TO_FREE |
| `Messaging.InitOutcome` | src/tpg_msg.c:347-357 | the header is the one asked for and the message may be sent |
| `Messaging.RingsAreFifo` | src/tpg_msg.c:176-178 | in any run the messages a core takes off a ring followed by those left on it are those that were there followed by those that came, and a ring never exceeds its capacity |
| `Messaging.SendCanComplete` | src/tpg_msg.c:96-197 | a blocking send to another core that is idle with an empty ring has a run to the end of its wait |
| `RateLimit.EvenSlotsSumToRate` | src/tpg_rate.c:84-130 | the slots of every finite rate add up to exactly the rate |
| `RateLimit.EvenSlotsAreEven` | src/tpg_rate.c:84-130 | no two slots differ by more than one |
| `RateLimit.ExtraSlotsAre` | src/tpg_rate.c:106-130 | with a remainder r, slot i has one more if and only if it is one of the first r multiples of count / r |
| `RateLimit.Config.InitFrom` | src/tpg_rate.c:69-131 | the table is the even one; missing and zero rates get a single slot |
| `RateLimit.Config.DivideRest` | src/tpg_rate.c:106-130 | the loop that hands out the remainder gives one more to each step-th slot and needs a single pass |
| `CoreRates.CoreRate.InitFrom` | src/tpg_rate.c:136-196 | a core gets exactly the desired amount, slot by slot out of the configuration, and the loop ends; the share starts with one unit of each displacement-th slot |
| `CoreRates.CoreRate.TakePass` | src/tpg_rate.c:169-179 | each pass takes one unit of each step-th slot that has some, from the first such slot to the end of the table or of the amount; it takes at least one and conserves every slot, also when a huge step wraps the index around |
| `CoreRates.CoresShareEverySlot` | src/tpg_rate.c:136-196 | after any number of cores the shares and the remainder add up to the original in every slot |
| `CoreRates.ScaledSharesFit` | src/tpg_tests.c:690-698 | the rates of all cores together never exceed the configured one |
| `CoreRates.ScaledSharesLoseLittle` | src/tpg_tests.c:690-698 | when the sessions of the cores are all there are, they fall short of it by less than one unit per core |
| `CoreRates.CoreRate.Available` | inc/tpg_rate.h:146-152 | a full burst or what is left of the interval, whichever is smaller |
| `CoreRates.CoreRate.AdvanceInterval` | inc/tpg_rate.h:137-141 | moves to the next slot, cyclically, and the whole of that slot is available, whatever was left before |
| `CoreRates.CoreRate.IntervalUs` | src/tpg_rate.c:211-235 | with a finite limit rl_count intervals of the returned length last at most a second and more than a second less rl_count microseconds |
| `CoreRates.CycleLastsASecond` | src/tpg_rate.c:234 | a full cycle lasts more than 1000000 - rl_count and at most 1000000 microseconds |
| `CoreRates.EachIntervalWithinSlot` | inc/tpg_rate.h:129-160 | in every run each interval spends at most the slot it falls on |
| `CoreRates.WindowWithinDesired` | inc/tpg_rate.h:129-160 | in every run any rl_count intervals in a row spend at most the sum of the slots of the core |
| `CoreRates.GrantedIsAsked` | inc/tpg_rate.h:129-160 | for any sequence of requests each interval grants exactly what is asked for in it, a request counting up to the burst, or its slot if that is less |
| `CoreRates.CoreRate.Serve` | inc/tpg_rate.h:129-160 | for any sequence of requests the code grants what the meter says, interval by interval |
| `CoreRates.CoreRate.LimitedRun` | src/tpg_rate.c:136-196 | from the split to the spending: each interval grants what is asked for up to its slot, the slots add up to the desired amount, and so any rl_count intervals in a row grant at most that |
| `Toeplitz.HashOfConcat` | 3rdparty/toeplitz2.h:40-61 | hashing in pieces, with the key moved on |
| `Toeplitz.HashIsLinear` | 3rdparty/toeplitz2.h:40-61 | the hash of an exclusive-or is the exclusive-or of the hashes |
| `Toeplitz.ByteIsBinary` | 3rdparty/toeplitz.c:98-117 | the bits of a byte, the most significant first, are its binary form |
| `Toeplitz.WireIsBigEndian` | 3rdparty/toeplitz2.h:82-105 | and those of a number on the wire are the binary form of the number |
| `Toeplitz.KeyWindow` | 3rdparty/toeplitz.c:93-105 | the 32 key bits from bit 8i + b on |
| `Toeplitz.Combine` | 3rdparty/toeplitz.c:111-120 | combining windows by the bits of a byte is the hash of the byte |
| `Toeplitz.CacheCreate` | 3rdparty/toeplitz.c:77-122 | entry v of row i is the hash of the byte v at position i |
| `Toeplitz.ShortKeyIsEnough` | 3rdparty/toeplitz.c:77-122 | the rows that are looked up depend on the first 16 key bytes only |
| `Toeplitz.Rss.Init` | 3rdparty/toeplitz.c:151-193 | whatever key comes in, the table is the one of the seeds, which are the key or stay when it is too short |
| `Toeplitz.RawHashIsToeplitz` | 3rdparty/toeplitz2.h:40-61 | for every key and tuple the twelve lookups are the bitwise hash of the bytes as stored |
| `Toeplitz.CpuHashIsToeplitz` | 3rdparty/toeplitz2.h:82-105 | and on host-order numbers the hash of the bytes on the wire |
| `Toeplitz.AddrHashIsToeplitz` | 3rdparty/toeplitz2.h:63-78 | the forms without ports are the hash of the two addresses |
| `Toeplitz.HostOrderHashIsPacketOrderHash` | src/tpg_lookup.c:125-151 | both forms agree on every tuple, which start-up checks for one |
| `SessionTable.PortsShareNoBucket` | inc/tpg_lookup.h:406-411 | different ports never share a bucket |
| `SessionTable.NewestInBucket` | src/tpg_lookup.c:159-183 | the newest match in the bucket is the newest match in the whole table |
| `SessionTable.NewestIsLastAdded` | src/tpg_lookup.c:159-224 | over every history of adds and deletes it is the most recently added block of the connection that is still there |
| `SessionTable.Table.Find` | src/tpg_lookup.c:159-183 | the search returns that block, or none if there is none |
| `SessionTable.Table.ReplayAndFind` | src/tpg_lookup.c:159-224 | after any history on an empty table the search returns the most recently added block that is still there |
| `SessionTable.Table.Insert` | src/tpg_lookup.c:188-206 | adding puts the block in front of all others and keeps every bucket |
| `SessionTable.Table.Remove` | src/tpg_lookup.c:211-224 | deleting removes that block and keeps the order of the rest |
| `SessionTable.Table.Walk` | inc/tpg_lookup.h:418-441 | a walk visits the port's blocks in order up to where the callback ends it, also when it unlinks the visited ones; those are gone and nothing else |
| `SessionTable.WalkMeetsEachOnce` | inc/tpg_lookup.h:418-441 | that order holds every block of the port once, and no other |
| `SessionTable.UpToMeans` | inc/tpg_lookup.h:425-440 | a walk that does not reach the end was ended by the callback at its last block and nowhere before |
| `PortMap.TurnsAreEven` | src/tpg_port.c:926-950 | the turns of the ports that are not KNI differ by at most one, in favour of the earlier ones |
| `PortMap.FinalCoresAreFair` | src/tpg_port.c:899-986 | every port has a core, a KNI port exactly one, both ports of a ring pair equally many, and numbers of ports that are not KNI differ by at most one after the adjustment, in favour of the earlier physical ports; with no more cores than ports it is one each |
| `PortMap.Allocator.MaxC` | src/tpg_port.c:899-986 | the allocator reaches exactly those numbers, with packet cores only; the ports are handled by independent cores, none shared, if and only if there are at least as many packet cores as ports; and no packet core stays idle, except at most one per ring pair, or when all ports are KNI |
| `PortMap.EachCoreOnce` | src/tpg_port.c:926-950 | with no more turns than cores every core that had its turn is in the mask of exactly one port |
| `PortMap.Allocator.TakeTurns` | src/tpg_port.c:926-950 | after the loop every packet core is in use, each port has as many different cores as it had turns, and with at least as many cores as ports exactly the cores of its turns |
| `PortMap.Allocator.NextPort` | src/tpg_port.c:934-945 | the search for the next port ends and finds the port that has the next turn |
| `PortMap.Allocator.AdjustRings` | src/tpg_port.c:968-985 | the abort is unreachable, both ports of each pair end with the same number, and each pair gives up at most one core |
| `PortMap.IdleAreRemoved` | src/tpg_port.c:968-985 | only the cores given up can be idle |
| `PortMap.Allocator.RemoveFirst` | src/tpg_port.c:978-983 | the core given up is the first one of the mask |
| `QueueMap.Port.AssignCores` | src/tpg_port.c:811-834 | the cores of the mask get the next queues in order, up to a core that processes no packets, also on a port that has queues already; it succeeds exactly when there is no such core and the port has a queue |
| `QueueMap.QueuesAreCoresIff` | src/tpg_port.c:811-826 | every queue has exactly one reader if and only if no core was given a queue twice, and then core number q reads queue q |
| `QueueMap.Port.OneMapIsOneToOne` | src/tpg_port.c:811-826 | with one queue map they correspond one to one and the default core reads queue 0 |
| `QueueMap.Port.SetupReta` | src/tpg_port.c:132-166 | every entry of the table is set, round-robin over the queues |
| `QueueMap.SoftwarePredictsPort` | src/tpg_lookup.c:103-109 | for every hash the predicted queue is the one in the table, also for a port without a table |
| `QueueMap.HashHasOneCore` | src/tpg_lookup.c:103-109 | every hash belongs to exactly one core |
| `QueueMap.QueuesTakeTurns` | src/tpg_lookup.c:103-109 | consecutive hashes go to consecutive queues, from queue 0 on and starting over with the table |
| `QueueMap.QueueIsReachedIff` | src/tpg_port.c:152-157 | a queue gets some hash if and only if the table has an entry for it |
| `Checksum.FinishIsRightIff` | inc/tpg_ipv4.h:144-149 | when the sum that is finished lacks 255 times some number, single fold, complement and zero rule give the right checksum if and only if the fold leaves no carry and the number is a multiple of 257 |
| `Checksum.ScatterSumQuotient` | inc/tpg_ipv4.h:115-138 | for fragments of any lengths the loop lacks 255 times the word sums of the fragments at odd offsets, modulo 65535 |
| `Checksum.EvenFragmentsAddNothing` | inc/tpg_ipv4.h:115-138 | when all fragments but the last are even there are none |
| `Checksum.GeneralCksumIsRightIff` | inc/tpg_ipv4.h:103-150 | for fragments of any lengths the result is the checksum of pseudo header and flattened bytes if and only if the fold leaves no carry and the fragments at odd offsets add up to a multiple of 257 |
| `Checksum.GeneralL4Cksum` | inc/tpg_ipv4.h:103-150 | the loop over fragments computes that result, under the same condition |
| `Checksum.OneMbufIsRight` | inc/tpg_ipv4.h:103-150 | with the data in one mbuf the checksum is right |
| `Checksum.UpdateCksumIsRightIff` | inc/tpg_ipv4.h:159-190 | updating the checksum of a header with data in fragments of any lengths is computing it over both, total length included, under the same condition |
| `Checksum.UpdateGeneralL4Cksum` | inc/tpg_ipv4.h:159-190 | the loop computes that update |
| `Checksum.CarryIsWrong` | inc/tpg_ipv4.h:144-149 | a packet of two fragments whose checksum is wrong because of a carry |
| `Checksum.OddFragmentsAreWrong` | inc/tpg_ipv4.h:115-138 | two fragments of one byte get a wrong checksum, unless the second byte is zero |
| `TxQueue.Queue.Send` | src/tpg_pktloop.c:339-370 | a full queue is flushed first; the queue never exceeds its size; every packet waits, was sent or was freed exactly once, in order |
| `TxQueue.Queue.Flush` | src/tpg_pktloop.c:258-331 | the driver takes a prefix, the rest is freed, and the counters of packets, failures and bytes agree with that |
| `TxQueue.Queue.BytesSent` | src/tpg_pktloop.c:285-319 | adding all lengths and subtracting the unsent ones gives the bytes sent |

## Left out

- The TCP state machine, its timers, the test engine and UDP: acknowledgements and window updates are environment steps.
- TcpReceiver.Tcb.DataHandle: arriving chains have right length fields in every mbuf, which holds for packets in one mbuf, and segments lie within half of the sequence space around RCV.NXT.
- TcpReceiver.Tcb: the receive list is a sequence that is reassigned and chains are values, so the linked-list pointers and what a freed list header turns into are not modelled (`Reassembly.FreesHeader` says when one is freed while it is linked); tcp_data_walk_segs is tracing only.
- Reassembly: node allocation cannot fail, as in the code, which keeps the header inside the mbuf.
- TcpSender.Tcb: tr_last_mbuf is not a field; appending goes to the end of the chain. The return value of tcp_data_send_segments, the notifications, the timers and the statistics are not modelled.
- Transmission.RunKeepsConsistent: the send buffer is smaller than 2^31 bytes; the management API limits it to 65535 (src/tpg_test_mgmt_api.c:543). The sequence numbers of SYN and FIN are not modelled, so the closing states, which exclude the FIN from the acknowledged bytes, are not.
- MbufChains.AdjDropsBytes: rte_pktmbuf_adj takes a 16-bit length; cuts are taken to be shorter than 65536 bytes, which window and buffer sizes guarantee.
- Checksum.UpdateGeneralL4Cksum: the checksum it starts from is that of a header of even length under the same addresses and protocol.
- Messaging: that a ring empties or a handler returns is not promised; `SendCanComplete` says only that a send to an idle core can end. Message ids are valid and have handlers, and the application sends, frees and initialises only messages it owns. What happens inside a handler, other than its result, is not modelled, nor are the statistics.
- CoreRates.CoreRate.InitFrom: the displacement is at least 1 and the amount at most what the configuration holds; with a displacement of 0 the loop need not end. That other cores work on other configurations at the same time is not modelled.
- Toeplitz: hash words are sequences of 32 bits and addresses are numbers; the machine is little-endian.
- SessionTable: which locks protect the table, the debug flags of control blocks, and IPv6 are not modelled; a callback of a walk may unlink only the block it is given.
- PortMap.Allocator: masks are sets of cores, in the order of core ids; the order of ports is physical, ring pairs, KNI. The max-q policy and the parsing of mask text are left out.
- QueueMap: a port without a redirection table delivers everything to queue 0, which is an assumption about the device.
- data_alloc_chain and data_copy_chain: the same loops as in the builders above, with uninitialised or copied bytes.
- Timestamp marks in mbufs, udata64 packing, tracing and the simulated drop rate.
- ARP and route tables, IPv4 options, the CLI, RPC, statistics and port set-up: small tables, parsing and glue.
