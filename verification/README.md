# A verified model of a TDMA sensor network on CC3200 boards

One sink leases addresses to sensor nodes over a raw 802.11 socket; every node derives a
transmission slot from its address and reports once per period. The project models both programs
down to the bytes of their frames and proves what the parts promise each other:

- the sink's address table with last-contact stamps, clean-ups and first-fit allocation
  (`Leases`, `LeaseTheorems`, `SinkSchedule`, `Translation`, `Ip`, `SinkApp`);
- the stop-and-wait MAC with acknowledgements and retries, as code with clock and radio (`Mac`,
  `Board`), as a protocol between any number of stations over a channel that loses, duplicates,
  delays and reorders frames but never invents one (`AckProtocol`), and the two connected: any
  interleaving of MAC calls is a run of the protocol (`MacRuns`); and what several sends and waits in a
  row leave in a station's radio log (`Exchanges`);
- the two-layer framing and the byte codecs (`Framing`, `Codec`, `Util`);
- the node's program and the TDMA schedule (`NodeApp`, `Tdma`), and what follows for the network as
  a whole (`Admission`, `Network`, `Delivery`).

The C globals of one file are the fields of one class; buffers and tables stay arrays written in
place. What the environment decides (clock advance, received bytes, send failures) is chosen
arbitrarily by `Board.Device`, within stated speed limits. Every lease operation is appended to a ghost
history, and each method is proved to leave the arrays exactly as the replay of that history says, so
the theorems about all histories are theorems about the running sink
(`SinkApp.Application.StateIsScheduledHistory`).

Main results:

1. A run of the sink gives all occupied addresses pairwise different slots at all times if and only
   if it never has more addresses out than slots (`LeaseTheorems.DistinctSlotsIffNotCrowded`). With the guard-time
   inequality, nodes that hold different addresses never report at the same time
   (`Network.LeasedNodesNeverCollide`). How far their clocks are apart is a matter of the program: every
   failed parameter request puts a node another 100 ms ahead of the sink, and every millisecond of the
   reply's transit puts it one behind. The inequality with these terms is exact
   (`Tdma.ToleratesRetriesIffGuarded`), and five attempts more than another node always break it
   (`Tdma.FiveRetriesAreTooMany`).
2. Reports do not drift (`Tdma.ReportsDoNotDrift`). A node reports exactly once per period in every run
   if and only if it polls its clock at least every two milliseconds, its slot is not slot 0 or a
   transmission takes at least two milliseconds, and its reports are done in time for the next period
   (`Tdma.OncePerPeriodIffPrompt`).
3. Leases are safe (`LeaseTheorems.EvictedOnlyWhenSilent`, `LeaseTheorems.ActiveStationKeepsAddress`),
   an address changes hands only after its holder was silent for a whole epoch
   (`LeaseTheorems.ReissuedOnlyAfterSilence`), and silent leases expire in bounded time
   (`SinkSchedule.SilentLeaseExpires`), with a bound on the length of a pass that is proved of the
   program itself, down to every receive call and console line
   (`SinkApp.Application.RunningSinkExpiresLeases`). Addresses are conserved; the two versions of
   the clean-up agree exactly on the runs in which no clean-up meets an entry recorded at time zero,
   and so on every run with a positive clock.
4. A successful unicast send means the receiver accepted some frame of the sender
   (`AckProtocol.AckCausality`, and for the MAC methods' own radio logs
   `MacRuns.SuccessfulCallsWereHeard`). It does not mean that this frame was delivered: it does if and
   only if, when the send began, no ack for it and no other acceptable frame was still travelling and
   the receiver was not still acknowledging an earlier frame (`AckProtocol.DeliveredIffQuiet`). A silent
   channel alone is not enough (`AckProtocol.SilentAirIsNotEnough`).
5. Frames survive both layers, frame kinds are never confused, and every frame a station can send means
   exactly one thing to the sink (`Admission.OperationOfFrame`, `Admission.CodeMeaning`) and to a joined
   node (`Network.AdmittedExactlyFromSink`). The address handshake closes until
   the lease is evicted, if and only if the node's answer was the sink's offer
   (`Network.AdmittedIffOffered`). A node whose reports are acknowledged over a quiet channel keeps its
   address for the whole run, and nobody else is issued it (`Delivery.AcknowledgedReportsKeepAddress`).

Modelling decisions. `char` is an unsigned byte. `IP_last_talked_to` is declared with 254 cells
(sink/ip.h:18) but indexed with any last address byte (sink/ip.c:74, sink/ip.c:261); the model gives it 256. The clock is positive
once `APP_test_systime` has passed. The guard at sink/ip.c:71 compares the retry counter with a
timeout constant, so a free address is recorded whether or not its holder answered; the model keeps
that. Shifts into the sign bit of the period are read as two's complement. Theorems over histories
assume that station MACs are neither all-zero nor broadcast; the methods do not.

Where the repository's README and its code differ, the code is followed: the sink is 255.255.255.1 and
not 10.10.10.1, at most 253 addresses (2 to 254) can be leased, and there is no CRC.

## Model

| member | source | states |
|---|---|---|
| Codec.ConvertIntTo4Bytes | sink/my_util.c:28-34 | writes the four low-order bytes, most significant first, and touches nothing else of the buffer |
| Codec.ConvertUllTo8Bytes | sink/my_util.c:16-26 | writes the eight low-order bytes, most significant first, and touches nothing else of the buffer |
| Codec.DecodeEncode | sink/my_util.c:16-59 | decoding an encoded number returns it modulo the width, at every width |
| Codec.EncodeDecode | sink/my_util.c:16-59 | encoding a decoded byte string returns the string, at every length |
| Codec.Decoder4IsPositional | sink/my_util.c:36-40 | shifting and or-ing four bytes together gives the two's-complement positional value of the field, whatever follows it |
| Codec.Decoder8IsPositional | sink/my_util.c:42-59 | shifting and or-ing eight bytes together gives the positional value of the field, whatever follows it |
| Codec.PeriodRoundTrip | sink/my_util.c:28-40 | every 32-bit period survives encoding and decoding |
| Codec.ClockRoundTrip | sink/my_util.c:16-59 | every 64-bit clock survives encoding and decoding, and every 8-byte field is an encoding |
| Util.Delay | sink/my_util.c:74-77 | waits at least the requested time and overshoots by less than two polls |
| Util.ClearPayload | sink/my_util.c:94-101 | the whole buffer is zero afterwards |
| Framing.SameStringIsPrefix | sink/mac.c:82-86 | strcmp recognises a string in a buffer exactly when the buffer starts with it and its terminator |
| Framing.MacRoundTrip | sink/mac.c:167-222 | parsing a delivered frame behind any radio prefix returns both MACs and the payload followed by zeros |
| Framing.TwoLayerRoundTrip | sink/ip.c:131-213 | MAC then IP parsing of a transmitted packet of up to 879 bytes returns both MACs, both IPs and the data followed by zeros |
| Framing.KindsAreExclusive | sink/ip.c:47-64 | for every body a station sends, a receiver takes it for an ack exactly when it is one and for an address request exactly when it is one |
| Mac.MacLayer.AddHeaderToSendPayload | sink/mac.c:195-211 | destination and own MAC become the first twelve bytes of the send buffer, the rest is untouched |
| Mac.MacLayer.AddDataToSendPayload | sink/mac.c:213-222 | the payload is written behind the header, the rest is untouched |
| Mac.MacLayer.ParseHeader | sink/mac.c:167-184 | reads both MACs at the receiver's offsets |
| Mac.MacLayer.RecvPayloadUsingSocket | sink/mac.c:224-258 | one receive call: the cleared buffer holds what arrived and is classified by its destination |
| Mac.MacLayer.RecvAck | sink/mac.c:133-165 | one window: succeeds exactly on the first matching ack, else lasts at least 50 ms and listens at least once; overruns by at most one receive call, one delay and their polls |
| Mac.MacLayer.SendAck | sink/mac.c:115-131 | one to eleven copies of the same ack frame to the sender, in bounded time; reports success exactly when fewer than eleven were needed |
| Mac.MacLayer.SendData | sink/mac.c:275-299 | all transmissions are the same frame; success exactly when a matching ack is heard, after 1 to 9 transmissions; failure after exactly 10 and at least 450 ms; bounded total time, and a success is over sooner than the longest failure by one transmission and the end of its last window |
| Mac.MacLayer.RecvData | sink/mac.c:301-314 | passes over unwanted frames, acknowledges the first wanted one to its sender, and leaves it intact in the receive buffer; gives up only after the timeout, and overruns it by a bounded time |
| Mac.TransmitAgain | sink/mac.c:285-288 | one more transmission and window either completes a successful exchange or extends an unanswered one |
| AckProtocol.GuardsAreReceiverTests | sink/mac.c:143-157 | the protocol's guards are exactly the tests the receiving code makes on its buffer |
| AckProtocol.StepKeepsHonest | sink/mac.c:275-314 | every step of any station or the channel keeps each owed ack tied to an acceptance, each ack in the air to such a debt, and each success to an ack |
| AckProtocol.AckCausality | sink/mac.c:275-314 | in every run, a successful unicast send means that very station accepted a frame this sender transmitted |
| AckProtocol.StaleAckMisleads | sink/mac.c:140-157 | a left-over ack yields a run in which the send succeeds and its frame is never accepted |
| AckProtocol.StaleDataMisleads | sink/mac.c:304-312 | a left-over frame the receiver still accepts yields such a run too, whatever the receiver is busy with |
| AckProtocol.OwedAckMisleads | sink/mac.c:115-131 | an ack the receiver has yet to send yields such a run even if nothing is travelling |
| AckProtocol.DeliveredIffQuiet | sink/mac.c:275-314 | success implies delivery of this frame in every continuation exactly when at the start no such left-over is travelling and no such ack is owed |
| AckProtocol.SilentAirIsNotEnough | sink/mac.c:115-131 | from power-up a state with nothing in the air is reachable in which a send can succeed undelivered |
| MacRuns.CallsAreProtocolRuns | sink/mac.c:275-314 | any interleaving of MAC calls with the logs the methods promise, over a channel that invents nothing, is a run of the protocol |
| MacRuns.SuccessfulCallsWereHeard | sink/mac.c:275-314 | when a unicast send returns success, a reception of that very station has taken a frame this sender sent |
| Translation.TranslationTable.InitTransTable | sink/translation_utility.c:13-34 | all entries free except 255, which is broadcast |
| Translation.TranslationTable.FindFreeIp | sink/translation_utility.c:53-66 | returns the first-fit index |
| Leases.FirstMatchIsLeast | sink/translation_utility.c:53-66 | the index found is the least match in the range, and none is reported only if there is none |
| Translation.TranslationTable.AddIpMacEntry | sink/translation_utility.c:68-75 | exactly one entry is overwritten |
| Translation.TranslationTable.RemoveIpMacEntry | sink/translation_utility.c:77-84 | exactly one entry becomes free |
| Translation.TranslationTable.ResolveIpToMac | sink/translation_utility.c:86-103 | the entry at the last byte, unless free |
| Translation.TranslationTable.ResolveMacToIp | sink/translation_utility.c:105-120 | the smallest index in 1 to 254 that holds the MAC |
| Leases.StepConsistent | sink/ip.c:53-82 | an issue, an accepted message and a clean-up each keep the table consistent with the stamps |
| Leases.AllocatorInvariant | sink/ip.c:20-45 | in every reachable state an address is occupied exactly when its stamp is set, stamps never exceed the clock, and the reserved entries are as initialised |
| Leases.StampIsLatestRecord | sink/ip.c:261 | the stamp of an occupied address is no earlier than anything ever recorded for it |
| Leases.RecordStep | sink/ip.c:222-282 | a step of the table extends the history that explains it |
| LeaseTheorems.FirstFitIsCompact | sink/translation_utility.c:53-66 | with at most N addresses ever occupied at once, every occupied address lies in 2 to N+1 |
| LeaseTheorems.DistinctSlotsIffNotCrowded | node/application.c:255-259 | all occupied addresses have pairwise distinct slots at all times exactly when never more are occupied than there are slots |
| LeaseTheorems.StepConserves | sink/ip.c:357-373 | one operation changes the number of occupied addresses by what it issues minus what it evicts |
| LeaseTheorems.AddressesAreConserved | sink/ip.c:53-82 | occupied addresses plus evictions equal successful issues, in every state |
| LeaseTheorems.EvictedOnlyWhenSilent | sink/ip.c:357-373 | an entry is evicted exactly when its stamp is below the cut-off, and then nothing was recorded for it in the last 20000 ms |
| LeaseTheorems.ActiveStationKeepsAddress | sink/application.c:305-310 | an address recorded at least once per 20000 ms is kept for the whole run |
| LeaseTheorems.ReissuedOnlyAfterSilence | sink/ip.c:53-82 | an address is issued again only when nothing was recorded for it in the last 20000 ms |
| LeaseTheorems.AdmissionIsByTableEntry | sink/ip.c:249-271 | a station's frame is admitted exactly when it is for the sink's IP and the entry at its source byte is the sender; only that stamp changes |
| LeaseTheorems.EvictedStationIsRefused | sink/ip.c:249-271 | a station without entries is refused in every later state until it is issued an address |
| LeaseTheorems.CleanUpVersionsAgreeIff | node/ip.c:357-367 | the node's and the sink's clean-up give the same MAC table in every state of a run exactly when no clean-up of it meets an entry recorded at time zero |
| LeaseTheorems.CleanUpVersionsAreEquivalent | node/ip.c:357-367 | under a positive clock they give the same MAC table in every reachable state |
| SinkSchedule.RunIsScheduledHistory | sink/application.c:300-363 | any run of the sink's loop is a timed history with scheduled clean-ups that explains its leases |
| SinkSchedule.SilentLeaseExpires | sink/application.c:302-363 | an address last recorded at T and silent since is free at every pass that starts after T + 40000 + 3L, if a pass takes at most L ms |
| SinkSchedule.PaceBoundsPasses | sink/application.c:302-363 | a loop whose passes work for a bounded time and are one poll apart meets the pass-length premise of the expiry theorem |
| SinkSchedule.GoneBySecondCleanUp | sink/application.c:305-310 | however long passes take, it is gone after the second clean-up |
| SinkSchedule.HoldsNoMoreThanRecorded | sink/ip.c:53-82 | a station never holds more addresses than requests of it were granted and messages of it accepted within 40000 ms and three passes |
| Ip.IpLayer.constructor | sink/ip.c:20-45 | fresh table and stamps; the sink takes its own address |
| Ip.IpLayer.AddHeaderToSendPayload | sink/ip.c:131-146 | both addresses at bytes 12 to 19, the twelve leading bytes untouched |
| Ip.IpLayer.AddDataToSendPayload | sink/ip.c:148-157 | data behind the header, the rest untouched |
| Ip.IpLayer.OfferAddress | sink/ip.c:62-70 | one exchange after another, each failing one followed by a delay, until the first acknowledged one or the tenth |
| Ip.IpLayer.IssueIp | sink/ip.c:53-82 | fails exactly when 2 to 254 are occupied; otherwise exactly the smallest free entry and its stamp change, after offers of it in rounds up to the first acknowledged one or the tenth |
| Ip.IpLayer.SendData | sink/ip.c:197-220 | one acknowledged exchange with the resolved station carrying the IP packet, or nothing if unresolved; time bounded from both sides |
| Ip.IpLayer.RecvDataAtSink | sink/ip.c:233-282 | the first wanted frame, which is acknowledged, decides result and lease operation: an address is leased to its sender exactly if it is a broadcast that begins with the request text and one is free; offers follow exactly then, and an application message is reported with its buffer intact |
| Ip.IpLayer.Dispatch | sink/ip.c:238-271 | the result, the lease operation, the table and the offers sent are those of the received frame, which an admitted message leaves in the buffer |
| Admission.OperationOfFrame | sink/ip.c:233-271 | of every frame a station can send, a frame to the sink is a message with its addresses, a broadcast an address request exactly when it carries the request text, and nothing else concerns the leases |
| Admission.CodeMeaning | sink/ip.c:233-271 | in terms of the received bytes and the table: when an address is issued, when issuing fails, and when a message is forwarded, each exactly |
| Ip.IpLayer.AdmitMessage | sink/ip.c:249-271 | application message exactly when admitted, and the history records it |
| Ip.IpLayer.RecvDataAtNode | sink/ip.c:283-343 | application message exactly when the frame passes all four checks |
| Ip.IpLayer.RequestIp | node/ip.c:84-129 | rounds of asking without an answer, then one whose answer, the first unicast frame after an acknowledged request, becomes the node's state; or twenty rounds without one, and the state stays |
| Ip.IpLayer.AskAddress | node/ip.c:98-107 | one round of asking: an answer is the first frame to this node heard after the acknowledged request; without one, nobody acknowledged or the whole wait passed |
| Exchanges.NoAnswerIsMissed | node/ip.c:98-107 | a round of asking cannot be read both as answered and as unanswered |
| Exchanges.TriedTransmits | node/ip.c:96-111 | every round of asking puts the question on the air |
| Exchanges.SentUntilAcknowledged | sink/ip.c:66-70 | offers go on until the first matching ack, which ends them, or until ten times ten are sent |
| Ip.IpLayer.CleanUp | sink/ip.c:357-373 | the tables make exactly the clean-up step, recorded in the history |
| Ip.IpLayer.RemoveExpired | sink/ip.c:357-373 | exactly the entries with a non-zero stamp below the cut-off lose MAC and stamp |
| Ip.IpLayer.CleanUpNodeVersion | node/ip.c:357-367 | exactly the entries with a stamp below the cut-off lose their MAC |
| SinkApp.Application.constructor | sink/application.c:288-300 | the program starts on schedule with an empty history |
| SinkApp.Application.StateIsScheduledHistory | sink/application.c:302-363 | the program's tables are those of a timed, scheduled history |
| SinkApp.Application.RunningSinkExpiresLeases | sink/application.c:302-363 | in the running program a silent address is free at every pass later than 40000 ms and three of the longest passes after its last record |
| SinkApp.Application.SendParameters | sink/application.c:321-331 | the requesting address is sent the period and the clock read when the call began, or nothing if it has no entry |
| SinkApp.Application.Reply | sink/application.c:314-339 | a parameter request in the receive buffer is answered to its sender with the period and the clock, any other message is not answered; bounded time |
| SinkApp.Application.ReceiveTurn | sink/application.c:312 | one reception: its log, its lease operation, its result and its effect on the table are exactly those of the frame heard |
| SinkApp.Application.ReceiveAndReply | sink/application.c:312-362 | and the log then holds one exchange with the parameters exactly if it was an admitted request for them |
| SinkApp.Application.Sweep | sink/application.c:305-310 | cleans up exactly when more than an epoch has passed, with the previous clean-up's time as cut-off, in bounded time |
| SinkApp.Application.OnePass | sink/application.c:302-363 | one pass keeps the program on schedule and on pace, and everything it sends and changes after the clean-up follows from the one frame it heard |
| SinkApp.Application.Loop | sink/application.c:302-363 | any number of passes does |
| Tdma.ReportsDoNotDrift | node/application.c:263-299 | report n starts in period k0+n, at its offset, at most the jitter late; jitter never accumulates |
| Tdma.FinePollingBoundsLateness | node/application.c:271-282 | with one poll per millisecond every report of any slot but 0, however far into the run, starts at most one millisecond and the latency late |
| Tdma.OncePerPeriodIffPrompt | node/application.c:294-297 | exactly one report per period in every run exactly when the board polls at least every two milliseconds, slot 0's transmissions outlast the tolerance, and reports are done before the next period |
| Tdma.NominalInstantsApart | node/application.c:255-259 | nominal report instants of different slots are at least one slot apart, across periods too |
| Tdma.ReportsNeverOverlap | node/application.c:268-299 | reports of different slots never overlap under the guard-time inequality |
| Tdma.ToleratesRetriesIffGuarded | node/application.c:242 | nodes up to a given number of attempts apart never overlap, in any pair of slots, exactly when the guard-time inequality with 100 ms per attempt and the variation of the transit holds |
| Tdma.FiveRetriesAreTooMany | node/application.c:242 | on any hardware, nodes five attempts apart can overlap |
| NodeApp.Node.SynchroniseParameters | node/application.c:229-253 | rounds of asking without an admitted answer, then one whose reply gives the period and the clock, set to the reply's plus 100 per failed attempt plus 75; or twenty rounds without one |
| NodeApp.Node.AskParameters | node/application.c:233-246 | one round of asking the gateway: answered exactly if the first frame heard after the acknowledged request is admitted; an unanswered round is cut short only by a frame that is no answer |
| NodeApp.Node.WaitForPeriod | node/application.c:263-266 | returns within the first two milliseconds of a period; a board that polls at least every two milliseconds always gets there and misses a start only by its first poll |
| NodeApp.Node.WaitForSlot | node/application.c:270-281 | the report is triggered no earlier than its offset and at most the jitter later |
| NodeApp.Node.SendReport | node/application.c:271-292 | the report starts in its slot, at most the jitter late, ends within the burst bound, and carries the measurement to the gateway in one exchange |
| NodeApp.Node.ReportLoop | node/application.c:268-299 | every run of the loop is a report run of its slot, the log is exactly one exchange with the gateway per report, and there are as many reports as asked for unless slow polls miss every period start |
| NodeApp.Node.Join | node/application.c:210-253 | how far the program gets, and the whole log of it: unjoined and unchanged after twenty rounds, unsynchronised after twenty more, else with the period of the admitted reply |
| NodeApp.Node.Run | node/application.c:210-301 | the same for the whole program; a node that joins and synchronises makes a report run with the period it was told and the slot its last address byte gives it |
| Network.NodeMessagesAreAdmitted | node/ip.c:113-124 | until its entry is evicted, every message of a node that took the sink's offer is admitted and refreshes its lease |
| Network.SinkRepliesAreAdmitted | node/ip.c:283-300 | until then every reply of the sink reaches that node and passes all its checks |
| Network.ParametersArrive | node/application.c:241-242 | from the frame the sink sends in reply a node reads exactly the system period and the clock value the sink read, through both layers |
| Network.RequestLeadsToJoin | sink/ip.c:238-247 | a request that reaches a sink with a free address leases the smallest one to the node, which joins under exactly that address when it hears the offer |
| Network.QuestionsAndReports | node/application.c:231-285 | what a joined node asks its gateway is a request for the parameters there, and its reports are not |
| Network.AdmittedExactlyFromSink | node/ip.c:283-300 | a joined node takes a frame exactly when it is a packet to it from the sink's radio and address to the address it was given |
| Network.AdmittedIffOffered | node/ip.c:98-124 | whatever frame the node took for its answer, its messages are admitted exactly when that frame was a packet from the sink's address to an address the sink holds for it |
| Network.ClockAfterSynchronising | node/application.c:241-242 | from the moment it sets its clock the node is ahead of the sink by 100 per failed attempt plus 75, less the reply's transit |
| Network.ReportingNodeKeepsAddress | node/application.c:268-299 | a node whose reports, one per period, reach the sink keeps its address for the whole run, and nobody else is issued it |
| Network.LeasedNodesNeverCollide | node/application.c:255-299 | synchronised nodes holding different addresses never report at the same time while the sink has no more addresses out than slots and the guard-time inequality holds for their numbers of attempts |
| Delivery.SuccessIsReception | sink/mac.c:275-314 | in any run, a send that began quietly and succeeded has a step at which the receiver took its frame |
| Delivery.AcknowledgedReportsKeepAddress | node/application.c:268-299 | a node whose reports are acknowledged, with nothing left over when they begin, keeps its address for the whole run, and nobody else is issued it |

## Left out

- Board, GPIO, timer, pinmux and SimpleLink set-up, UART formatting: hardware plumbing; console output counts only as time.
- The packet code of main.c that the running programs do not call, and the sink's unused copy of the node program (sink/application.c:210-287).
- The demonstration loops `APP_*_test_*`.
- Features only the repository's README describes: CRC, depth byte, multi-hop joining.
- Clock drift after synchronisation: clocks differ by what synchronisation leaves, for good; the transit time of the parameter reply is a parameter.
- 64-bit wrap-around of the clock: the counter is unbounded, the encoder sends its low 64 bits.
- Mac.MacLayer.RecvPayloadUsingSocket: does not model the fatal socket error (sink/mac.c:233-239), which ends the run; receive lengths and radio information bytes are not interpreted, as in the code.
- NodeApp.Node.Run: a decoded period below 1000 ms, on which the code divides by zero or by a negative slot count, ends the modelled run.
- NodeApp.Node.WaitForPeriod: on a board that polls less often than every two milliseconds the wait may never end; it is cut after any given number of periods.
- NodeApp.Node.ReportLoop: the endless loop is cut after any given number of reports.
- SinkApp.Application.Loop: the endless loop is cut after any given number of passes.
