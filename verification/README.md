# Properties of INET protocol and mobility models

INET is a library of network simulation models for OMNeT++. This project models eight parts of
it that keep state over long runs, and proves what holds in all of those runs.

| part | source | files |
|---|---|---|
| Ethernet MAC, half and full duplex | `EtherMAC.cc`, `EtherMACBase.cc` | EtherMacSpec, EtherMacRuns, EtherMacTransmitter, EtherMacReceiver, EtherMacSendings, EtherMacStall, EtherMacBurst, EtherMac |
| DHCP client, server and network | `DHCPClient.cc`, `DHCPServer.cc` | DhcpSpec, DhcpStray, DhcpProgress, Dhcp |
| Turtle script interpreter | `TurtleMobility.cc` | TurtleSpec, TurtleTheorems, TurtleBounded, Turtle |
| Radio channel control | `ChannelControl.cc` | ChannelControl |
| Datagram reassembly | `ReassemblyBuffer.cc` | Reassembly |
| Ethernet bus | `EtherBus.cc` | EtherBus |
| TraCI framing | `TraCIScenarioManager*`, `sumo-launchd.py` | TraCISpec, TraCI |
| Reflection at borders | `BasicMobility.cc`, `MassMobility.cc` | Mobility |

Each part has a specification in functions and datatypes, lemmas about all its runs, and a class
with the fields of the source whose methods are proved against the specification. Common and
Stepping hold what several parts use: optional values, coordinates, and runs of step-by-step machines.
`dafny verify dfyconfig.toml` covers the whole project.

## How the models read

**Simulation kernel.** A self-message is a field that is empty while the message is not
scheduled. Scheduling a scheduled message, or scheduling into the past, is a failed precondition,
so a verified handler never does it. Events arrive in time order; two events at the same time may
come in either order, which includes the order in which they were scheduled.

**Time and distance** are real numbers. **Random draws** (backoff slots, transaction ids, repeat
counts, durations) are parameters, universally quantified; so are the sizes of socket reads.
**`error()`** is a result `ok == false`; a failed `ASSERT` and a null pointer are failures of the model too.

**Environment.** What the MAC rejects because of the environment is one predicate,
`EtherMacSpec.Fault`: a frame that is too long, is addressed to the sender, or overfills the queue; an
autoconfiguration message out of season; a cable that is too long; a jam signal without a
transmission. `EtherMac.HandleMessage` fails for these and for nothing else.

## What was found

Where a natural property is false of the code, a run shows it, and the exact condition under which
it holds is proved.

* A PAUSE of no duration received during a pause cancels the timer and leaves the MAC in PAUSE
  state with nothing to end it, until a PAUSE of some duration arrives
  (`PauseTimerLostExactlyWhen`, `ZeroPauseStrands`). With positive durations it never happens
  (`PositivePausesKeepTimer`).
* A PAUSE frame from the upper layer is put before a frame that is being transmitted. At the end of
  that transmission the PAUSE frame is dropped unsent and the transmitted frame stays queued
  (`SentFrameLeavesExactlyWhen`, `PauseOvertakes`).
* For the same reason the MAC's count of collisions is not always that of the frame at the head. It
  is, at every moment of a run, exactly if no PAUSE frame is ever put before a frame that was
  transmitted already (`AlwaysRightExactlyWhen`). Then a frame is transmitted at most 17 times, once more
  than `MAX_ATTEMPTS` suggests (`DataSendings`). Otherwise there is no limit: for every n a run without
  any collision transmits one data frame n times (`SentAnyNumberOfTimes`).
* At the end of a pause the MAC does not look at the carrier. A gap begins on a busy shared line exactly then
  (`GapOnBusyLineExactlyWhen`), and the MAC sends into a reception that began before the gap
  (`CollidesAtOnceOnlyIf`, `PauseIgnoresCarrier`).
* Giving up a frame after too many collisions while the channel is free leaves the frames behind it
  waiting with no timer to start them; nothing else does (`StallsExactlyWhen`,
  `NeverStallsOtherwise`), and it does happen (`StallHappens`). In full duplex it cannot.
* The bytes of a burst are assigned, not added up: the counter holds the frame sent last
  (`CounterHoldsLastFrame`) and never reaches the limit of 8192. The end of a transmission begins the next
  frame of a burst exactly if bursts are configured, another frame is queued and no pause is pending
  (`BurstGoesOnExactlyWhen`). So there is no bound: for every number some run sends a burst of more bytes
  (`BurstLimitExceeded`).
* The header documents `shortestFrameDuration` as a duration (EtherMACBase.h, line 80); the code sets it
  to a number of bytes and compares it with seconds. The model does what the code does.
* The DHCP client accepts messages by transaction id alone and does not compare the hardware address. With
  any ids whatever, its lease is its own exactly if the OFFER it took last was made to it
  (`LeaseOwnExactlyWhen`), two interfaces share an address exactly if they were bound on OFFERs made to
  one client (`SharedExactlyWhen`), and a client follows a null pointer exactly if it takes an
  acknowledgement without ever having taken an OFFER (`CrashesExactlyWhen`). None of this happens as
  long as no two clients draw the same id and none draws 0 (`NoSharedAddress`); it does happen
  otherwise (`SharedIdSharesAddress`, `ZeroIdCrashes`).
* When the wait for an acknowledgement has been retried often enough, the log says "restarting", but the
  client only resets its counter and asks again. Nothing else resets the counter (`RetryCountsTimeouts`).
* A `<repeat>` without a body leaves its counter on the stack for good. The stack is as deep as the
  nesting exactly as long as none was executed; after that the script fails an assertion or never ends
  (`EmptyBodyNeverEnds`, `EmptyBodyExample`).
* Overlapping fragments can complete a datagram in one order and not in another. What was joined is the
  longest received prefix exactly if no fragment straddles its end, and it counts as complete exactly if a
  last fragment began where it ended when it was joined (`PrefixExactlyWhen`,
  `OverlapsCompleteExactlyWhen`). It fails in both ways (`StraddlingDependsOnOrder`,
  `SwallowingDependsOnOrder`, `SwallowedInEitherOrder`).
* The launch daemon reads file name and contents with one `recv` each. A document arrives exactly if the
  first read gives the whole name, the second the whole document, and that is shorter than 2^31 bytes
  (`LaunchReadExactlyWhen`). A short first read makes it refuse the name, a short second one silently cuts the
  document (`CutByShortRead`, `DocumentIsCut`). It reads the lengths of message and command but does not use
  them.

## Model

| member | source | states |
|---|---|---|
| EtherMacModule.EtherMac.HandleMessage | inet/src/linklayer/ethernet/EtherMAC.cc:202-267 | From any consistent state any message or timer either steps exactly as the state machine says, keeping exactly the timer of each state pending, or fails; it fails exactly for the environment's faults, so no wrong-state or empty-queue error is reachable and no timer is scheduled twice |
| EtherMacModule.EtherMac.constructor | inet/src/linklayer/ethernet/EtherMAC.cc:50-101 | A new MAC is consistent and in an initial state, with or without autoconfiguration |
| EtherMacModule.EtherMac.ProcessMsgFromNetwork | inet/src/linklayer/ethernet/EtherMAC.cc:282-391 | Frames and jams interrupt a transmission, begin, follow or spoil a reception; the error calls are reached exactly for faults of the environment |
| EtherMacModule.EtherMac.ProcessFrameFromUpperLayer | inet/src/linklayer/ethernet/EtherMACBase.cc:286-330 | Data goes to the end of the queue, PAUSE to its front; refused exactly for self-addressed or oversized frames and a full queue; an idle transmitter starts the gap |
| EtherMacModule.EtherMac.StartFrameTransmission | inet/src/linklayer/ethernet/EtherMAC.cc:412-463 | The head goes out; on a busy shared line it is followed at once by a jam and the reception is spoilt |
| EtherMacModule.EtherMac.HandleEndIFGPeriod | inet/src/linklayer/ethernet/EtherMAC.cc:394-410 | Fails exactly outside WAIT_IFG or with an empty queue, else extends and sends the head |
| EtherMacModule.EtherMac.HandleEndTxPeriod | inet/src/linklayer/ethernet/EtherMAC.cc:465-503 | Fails exactly outside TRANSMITTING, on a busy shared line or with an empty queue; else the head leaves, and a pause, the rest of the burst or the next gap follows |
| EtherMacModule.EtherMac.HandleEndRxPeriod | inet/src/linklayer/ethernet/EtherMAC.cc:505-529 | Completes a reception or a collision, counts its time once and wakes an idle transmitter |
| EtherMacModule.EtherMac.HandleEndBackoffPeriod | inet/src/linklayer/ethernet/EtherMAC.cc:531-548 | Fails exactly outside BACKOFF or with an empty queue; waits for the receiver if that is busy |
| EtherMacModule.EtherMac.HandleEndJammingPeriod | inet/src/linklayer/ethernet/EtherMAC.cc:550-556 | Fails exactly outside JAMMING or when there is nothing to give up, else backs off or gives up |
| EtherMacModule.EtherMac.HandleRetransmission | inet/src/linklayer/ethernet/EtherMAC.cc:575-598 | The head is given up when 16 collisions were counted before, else the slots drawn are waited; fails exactly if there is nothing to give up |
| EtherMacModule.EtherMac.HandleEndPausePeriod | inet/src/linklayer/ethernet/EtherMACBase.cc:477-483 | Fails exactly outside PAUSE, else sending resumes |
| EtherMacModule.EtherMac.ProcessPauseCommand | inet/src/linklayer/ethernet/EtherMACBase.cc:398-420 | A pause starts, is replaced, is cancelled or is noted for later, according to the transmit state |
| EtherMacModule.EtherMac.FrameReceptionComplete | inet/src/linklayer/ethernet/EtherMACBase.cc:349-396 | A received frame is passed on once; a PAUSE frame is obeyed |
| EtherMacModule.EtherMac.CheckAndScheduleEndPausePeriod | inet/src/linklayer/ethernet/EtherMACBase.cc:518-531 | A noted pause starts and is forgotten, or nothing changes |
| EtherMacModule.EtherMac.JamArrives | inet/src/linklayer/ethernet/EtherMAC.cc:345-390 | One transmission less is counted; with the last of them the end of the collision is set anew |
| EtherMacSpec.TimesIsProduct | inet/src/linklayer/ethernet/EtherMACBase.cc:498-516 | Durations are products of bits and bit time |
| EtherMacSpec.StepFromNow | inet/src/linklayer/ethernet/EtherMAC.cc:202-267 | A step depends on the time of its event, not on when the last event was |
| EtherMacRuns.StepCore | inet/src/linklayer/ethernet/EtherMAC.cc:202-598 | Every step keeps: half-duplex transmission means an idle receiver, full duplex never jams or backs off, the head's states have a head, no timer lies in the past, one frame is being received exactly with counter 1, at most 16 backoffs |
| EtherMacRuns.ReachableCore | inet/src/linklayer/ethernet/EtherMAC.cc:202-598 | So it holds in every reachable state |
| EtherMacRuns.StepReceiver | inet/src/linklayer/ethernet/EtherMAC.cc:282-391 | While the counter is positive the end of reception only moves later, and never before the end of an arriving frame |
| EtherMacRuns.StepCounter | inet/src/linklayer/ethernet/EtherMAC.cc:282-391 | The counter is conserved: each arrival adds one, each completion and each jam takes one away |
| EtherMacRuns.StepWaitsForAll | inet/src/linklayer/ethernet/EtherMAC.cc:282-391 | The receiver waits for the end of every frame that began since the counter was last 0 |
| EtherMacRuns.StepTransmits | inet/src/linklayer/ethernet/EtherMAC.cc:394-503 | A transmission begins only after a gap or within a burst, and is always of the head |
| EtherMacRuns.StepWire | inet/src/linklayer/ethernet/EtherMAC.cc:412-463 | The line gets a frame when a transmission begins and a jam exactly when jamming begins, in that order, and nothing else |
| EtherMacRuns.StepTries | inet/src/linklayer/ethernet/EtherMAC.cc:575-598 | Collisions counted and the transmission in progress grow by one with each transmission begun, and start over when a frame leaves the queue |
| EtherMacRuns.StepAttempts | inet/src/linklayer/ethernet/EtherMAC.cc:575-598 | The backoff counter is the number of collisions since a frame last left the queue |
| EtherMacRuns.StepQueue | inet/src/linklayer/ethernet/EtherMACBase.cc:286-330 | The queue changes only by arrivals, by carrier extension of the head, and by the head leaving at the end of a transmission or with the 17th collision counted |
| EtherMacRuns.StepReceive | inet/src/linklayer/ethernet/EtherMAC.cc:282-391 | Frames move only from arriving to current to received, or into a collision |
| EtherMacRuns.StepOnTheWire | inet/src/linklayer/ethernet/EtherMACBase.cc:318-330 | The frame being sent stands in the queue behind exactly the PAUSE frames put before it since |
| EtherMacTransmitter.TransmitterDiagram | inet/src/linklayer/ethernet/EtherMAC.cc:202-598 | In every run, which transmit state each event leads to from each: when a gap, a transmission, jamming, backoff or a pause begins and that nothing else ends them; a PAUSE during a pause replaces it, from now |
| EtherMacTransmitter.GapOnBusyLineExactlyWhen | inet/src/linklayer/ethernet/EtherMAC.cc:268-277 | Carrier sense: a gap begins on a busy shared line exactly if it begins at the end of a pause |
| EtherMacTransmitter.CollidesAtOnceOnlyIf | inet/src/linklayer/ethernet/EtherMAC.cc:432-452 | In every run, a transmission collides with a reception at its beginning only if a frame arrived in the gap before it, or that gap followed a pause during a reception |
| EtherMacTransmitter.JamsAtOnce | inet/src/linklayer/ethernet/EtherMAC.cc:432-452 | It does so exactly if the shared line is busy at the end of the gap |
| EtherMacTransmitter.PauseIgnoresCarrier | inet/src/linklayer/ethernet/EtherMACBase.cc:477-483 | A run in which a pause ends during a reception and the MAC sends into it |
| EtherMacTransmitter.BeginsExtended | inet/src/linklayer/ethernet/EtherMAC.cc:394-410 | The frame begun after a gap is the head, filled up to 512 bytes with carrier extension |
| EtherMacTransmitter.EnvironmentKept | inet/src/linklayer/ethernet/EtherMACBase.cc:286-330 | In every run frames from above have at most 1518 bytes and another destination, and messages on a shared line have less than the limit of propagation delay |
| EtherMacTransmitter.CableLengths | inet/src/linklayer/ethernet/EtherMACBase.cc:332-347 | Full duplex accepts any propagation delay, half duplex exactly those below the limit |
| EtherMacTransmitter.QueueLimited | inet/src/linklayer/ethernet/EtherMACBase.cc:300-318 | In every run at most one data frame more than the limit is queued |
| EtherMacTransmitter.LimitIsReached | inet/src/linklayer/ethernet/EtherMACBase.cc:300-318 | For every limit a run that queues that many, after which the next is refused |
| EtherMacReceiver.ReceiverDiagram | inet/src/linklayer/ethernet/EtherMAC.cc:280-391 | Which receive state each event leads to, and until when it lasts |
| EtherMacReceiver.ReceptionLasts | inet/src/linklayer/ethernet/EtherMAC.cc:280-391 | Whenever a reception or collision begins or its end moves, it ends with the frame that arrives now, or with the last jam |
| EtherMacReceiver.BusyUntilLastEnd | inet/src/linklayer/ethernet/EtherMAC.cc:280-391 | In every run, while transmissions are counted the receiver is busy exactly until the latest end of those begun since the counter was 0 |
| EtherMacReceiver.ReceivingExactlyWhen | inet/src/linklayer/ethernet/EtherMAC.cc:280-391 | In every run, a frame is being received exactly if it began on a clear line and no arrival, jam or own transmission has touched it |
| EtherMacReceiver.TotalsApart | inet/src/linklayer/ethernet/EtherMAC.cc:505-520 | In every run, each of the two totals is the channel activity that ended that way: in a success, or with a collision |
| EtherMacBurst.BurstGoesOnExactlyWhen | inet/src/linklayer/ethernet/EtherMAC.cc:465-503 | In every run, the end of a transmission begins the next queued frame at once exactly if bursts are configured, another frame is queued and no pause is pending |
| EtherMacBurst.CounterHoldsLastFrame | inet/src/linklayer/ethernet/EtherMAC.cc:412-430 | In every run, while a frame of a burst is transmitted the byte counter holds that frame alone |
| EtherMacBurst.BurstOfAnySize | inet/src/linklayer/ethernet/EtherMAC.cc:465-503 | For every n, a run that sends n frames of 1518 bytes with no gap between them |
| EtherMacBurst.BurstLimitExceeded | inet/src/linklayer/ethernet/EtherMAC.cc:465-503 | For every number, a run with a burst of more bytes, while the counter is below the limit |
| EtherMacRuns.StepSizes | inet/src/linklayer/ethernet/EtherMAC.cc:412-430 | Queued frames are at most 1518 bytes, and a burst counts at most 1526 |
| EtherMacRuns.StepInv | inet/src/linklayer/ethernet/EtherMAC.cc:202-598 | All of this together with the history is kept by every step |
| EtherMacRuns.ReachableInv | inet/src/linklayer/ethernet/EtherMAC.cc:202-598 | In every run: data frames leave in the order of arrival, none lost or doubled; every arrived frame was received once, collided, or is being received; the transmissions since a frame last left the queue are the collisions counted plus the one in progress |
| EtherMacRuns.DataOnlyFifo | inet/src/linklayer/ethernet/EtherMACBase.cc:286-330 | With data frames only, what was accepted is what has left followed by the queue |
| EtherMacSendings.WrongExactlyWhen | inet/src/linklayer/ethernet/EtherMACBase.cc:321-327 | From a state in which the MAC counts the transmissions of the head rightly, a step leads to one in which it does not exactly if it puts a PAUSE frame before a frame transmitted already |
| EtherMacSendings.AlwaysRightExactlyWhen | inet/src/linklayer/ethernet/EtherMAC.cc:575-598 | In every run with distinct frame ids, at every moment the head was sent as often as counted, those behind it never, and those that left 1 to 17 times, exactly if no such step occurs |
| EtherMacSendings.DataSendings | inet/src/linklayer/ethernet/EtherMAC.cc:575-598 | With data frames only, on the wire the head appears once for each collision it had and once for the transmission in progress, at most 17 times, those behind it not at all, each that left 1 to 17 times |
| EtherMacSendings.SentAnyNumberOfTimes | inet/src/linklayer/ethernet/EtherMACBase.cc:321-327 | For every n a run with PAUSE frames from above, without a collision, that transmits one data frame n times |
| EtherMacRuns.StateLasts | inet/src/linklayer/ethernet/EtherMACBase.cc:498-516 | Whenever a transmit state is entered its timer runs for 96 bits, the frame, 32 bits, the slots drawn below 2^min(n,10), or the pause asked for |
| EtherMacRuns.TotalsExact | inet/src/linklayer/ethernet/EtherMAC.cc:505-522 | The two time totals and the busy period in progress are exactly the time the channel was busy in the run |
| EtherMacRuns.BusySincePast | inet/src/linklayer/ethernet/EtherMAC.cc:455-463 | A busy period in progress began in the past |
| EtherMacRuns.IdleTimeNotNegative | inet/src/linklayer/ethernet/EtherMAC.cc:624-635 | The idle time reported at the end is never negative |
| EtherMacRuns.StallsExactlyWhen | inet/src/linklayer/ethernet/EtherMAC.cc:575-586 | Frames are left waiting on a free channel exactly when a head is given up while the receiver is idle |
| EtherMacRuns.NeverStallsOtherwise | inet/src/linklayer/ethernet/EtherMAC.cc:575-586 | A run without such a step never leaves frames waiting |
| EtherMacStall.StallHappens | inet/src/linklayer/ethernet/EtherMAC.cc:575-586 | A run of 17 collisions after which the second frame is left waiting on a free channel |
| EtherMacRuns.FullDuplexNeverStalls | inet/src/linklayer/ethernet/EtherMAC.cc:575-586 | In full duplex no frame is ever left waiting without a timer |
| EtherMacRuns.PauseTimerLostExactlyWhen | inet/src/linklayer/ethernet/EtherMACBase.cc:398-420 | PAUSE state has no timer exactly from a PAUSE of no duration until one of some duration |
| EtherMacRuns.StepPauseRequest | inet/src/linklayer/ethernet/EtherMACBase.cc:398-420 | A pause asked for while sending is noted, replaces an earlier one, and is obeyed once, at the end of the transmission |
| EtherMacRuns.PositivePausesKeepTimer | inet/src/linklayer/ethernet/EtherMACBase.cc:398-420 | With positive pause times PAUSE state always has its timer |
| EtherMacRuns.SentFrameLeavesExactlyWhen | inet/src/linklayer/ethernet/EtherMACBase.cc:450-475 | The data frame that was sent is the one taken off exactly when no PAUSE frame was put before it meanwhile; else a PAUSE frame goes unsent |
| EtherMacRuns.ZeroPauseStrands | inet/src/linklayer/ethernet/EtherMACBase.cc:404-412 | A run that loses the pause timer |
| EtherMacRuns.PauseOvertakes | inet/src/linklayer/ethernet/EtherMACBase.cc:321-327 | A run in which a sent frame stays queued |
| DhcpClientModule.DhcpClient.ChangeFSMState | inet/src/applications/dhcp/DHCPClient.cc:75-146 | Entering a state sends, binds and sets or cancels the three timers as specified |
| DhcpClientModule.DhcpClient.HandleTimeout | inet/src/applications/dhcp/DHCPClient.cc:163-206 | A response timeout retries or restarts as specified, in each state |
| DhcpClientModule.DhcpClient.HandleT1 | inet/src/applications/dhcp/DHCPClient.cc:196-199 | T1 starts renewing |
| DhcpClientModule.DhcpClient.HandleT2 | inet/src/applications/dhcp/DHCPClient.cc:201-204 | T2 starts rebinding if renewing got no answer |
| DhcpClientModule.DhcpClient.HandleDHCPMessage | inet/src/applications/dhcp/DHCPClient.cc:208-294 | Offers count only while selecting, acknowledgements always, both by transaction id |
| DhcpClientModule.DhcpClient.ReceiveChangeNotification | inet/src/applications/dhcp/DHCPClient.cc:296-314 | A new association starts over from any state |
| DhcpServerModule.DhcpServer.ProcessPacket | inet/src/applications/dhcp/DHCPServer.cc:82-159 | The lease table always holds the first addresses of the pool for the MACs served so far, and each message is answered as that list says |
| DhcpServerModule.DhcpServer.GetLeaseByMac | inet/src/applications/dhcp/DHCPServer.cc:243-254 | Finds a lease of the MAC exactly if there is one |
| DhcpServerModule.DhcpServer.GetAvailableLease | inet/src/applications/dhcp/DHCPServer.cc:256-285 | Finds the first free address of the pool, or none exactly when all are leased |
| DhcpServerModule.FoundAtIndex | inet/src/applications/dhcp/DHCPServer.cc:243-254 | A lease in the table belongs to a MAC served, at the address of its place in the list |
| DhcpServerModule.FoundExactlyWhen | inet/src/applications/dhcp/DHCPServer.cc:243-254 | A MAC has a lease in the table exactly if it was served |
| DhcpServerModule.FreeIsNext | inet/src/applications/dhcp/DHCPServer.cc:256-285 | The first free address is the one after those given out |
| DhcpServerModule.AssignKeepsTable | inet/src/applications/dhcp/DHCPServer.cc:92-114 | Leasing that address to a new MAC keeps the table |
| DhcpSpec.AddressesDiffer | inet/src/applications/dhcp/DHCPServer.cc:256-285 | Addresses of the pool differ even where 32 bits wrap around |
| DhcpSystem.ReactInv | inet/src/applications/dhcp/DHCPClient.cc:75-206 | The response timer runs exactly in SELECTING, for an offer, and in REQUESTING, RENEWING and REBINDING, for an acknowledgement; T1 exactly in BOUND; T2 only in BOUND and RENEWING; at most 10 retries |
| DhcpSystem.ReactFacts | inet/src/applications/dhcp/DHCPClient.cc:208-294 | A client's id is that of its last message, its lease that of an accepted offer, its address that of its lease |
| DhcpSystem.ServeKeeps | inet/src/applications/dhcp/DHCPServer.cc:82-159 | An address once given to a MAC stays given to it |
| DhcpSystem.ServeAnswers | inet/src/applications/dhcp/DHCPServer.cc:82-159 | An answer repeats id and MAC and carries the address given to that MAC |
| DhcpSystem.NoCrash | inet/src/applications/dhcp/DHCPClient.cc:244-290 | An acknowledgement, timer or timeout always finds a lease where one is used |
| DhcpSystem.DoInv | inet/src/applications/dhcp/DHCPClient.cc:208-294 | Every step of any client or the server keeps the agreement of clients, server and all messages ever sent |
| DhcpSystem.ReachableInv | inet/src/applications/dhcp/DHCPClient.cc:208-294 | So it holds after any run with ids not shared between clients |
| DhcpSystem.GivenOnce | inet/src/applications/dhcp/DHCPServer.cc:256-285 | An address is given to one MAC at most |
| DhcpSystem.NoSharedAddress | inet/src/applications/dhcp/DHCPClient.cc:208-294 | With messages lost, doubled, reordered and broadcast, no two clients have the same address, a bound client has the address the server leased to it, and none crashes |
| DhcpSystem.AckAnswersLatestRequest | inet/src/applications/dhcp/DHCPClient.cc:244-290 | With fresh ids an accepted acknowledgement answers the client's latest message, which was a request, and confirms the address of its lease |
| DhcpSystem.ReachableLatest | inet/src/applications/dhcp/DHCPClient.cc:316-396 | With fresh ids no id names both a DISCOVER and a REQUEST, and every acknowledgement has its request |
| DhcpSystem.ServerRun | inet/src/applications/dhcp/DHCPServer.cc:82-159 | Whatever messages come, the MACs served are distinct, fit the pool and are only ever added to |
| DhcpSystem.DiscoverUnansweredExactlyWhen | inet/src/applications/dhcp/DHCPServer.cc:92-114 | A DISCOVER is not answered exactly when the whole pool belongs to other MACs |
| DhcpProgress.ClientDiagram | inet/src/applications/dhcp/DHCPClient.cc:163-232 | Which phase each input leads to, exactly which inputs make the client send, that it is a DISCOVER or a REQUEST to the right server, and what becomes of the retry counter and T2 |
| DhcpProgress.RetryCountsTimeouts | inet/src/applications/dhcp/DHCPClient.cc:163-194 | In every run the retry counter is the number of timeouts modulo 11; a lease does not reset it |
| DhcpProgress.FirstAskersServed | inet/src/applications/dhcp/DHCPServer.cc:84-114 | After any messages, those served are the first MACs to have sent a DISCOVER, in that order, up to the size of the pool |
| DhcpProgress.RequestAnsweredExactlyWhen | inet/src/applications/dhcp/DHCPServer.cc:116-145 | After any messages, a REQUEST is acknowledged exactly if its sender is served, whichever server it names, with the address of the sender's place |
| DhcpProgress.RenewalCompletes | inet/src/applications/dhcp/DHCPClient.cc:196-199 | From every reachable state with a bound client, T1, its REQUEST and the answer lead back to BOUND with the same address and both timers |
| DhcpProgress.JoinCompletes | inet/src/applications/dhcp/DHCPClient.cc:208-300 | From every reachable state, if the server has or can give a non-zero address, the four messages of an association lead any client to BOUND with it |
| DhcpProgress.NeverWithoutServer | inet/src/applications/dhcp/DHCPClient.cc:208-300 | In every run a client that is not served holds no lease and no address |
| DhcpStray.ReachableClients | inet/src/applications/dhcp/DHCPClient.cc:75-206 | The timer invariants of a client hold in every run, whatever ids are drawn |
| DhcpStray.ReachableTaken | inet/src/applications/dhcp/DHCPClient.cc:208-294 | In every run, whatever ids are drawn, leases and addresses are those of the OFFERs taken, and every OFFER names the address of the MAC it was made to |
| DhcpStray.LeaseOwnExactlyWhen | inet/src/applications/dhcp/DHCPClient.cc:208-243 | In every such run a client's lease is the one the server has for it exactly if the OFFER it took last was made to it |
| DhcpStray.SharedExactlyWhen | inet/src/applications/dhcp/DHCPClient.cc:208-294 | Two configured interfaces have one address exactly if they were bound on OFFERs made to one MAC |
| DhcpStray.SharedOnlyAfterStray | inet/src/applications/dhcp/DHCPClient.cc:208-243 | Different clients share an address only after one took an OFFER made to another |
| DhcpStray.CrashesExactlyWhen | inet/src/applications/dhcp/DHCPClient.cc:244-290 | A client follows a null pointer exactly if it takes an acknowledgement and never took an OFFER |
| DhcpSystem.SharedIdSharesAddress | inet/src/applications/dhcp/DHCPClient.cc:208-294 | A run in which two clients with one id are bound to one address |
| DhcpSystem.ZeroIdCrashes | inet/src/applications/dhcp/DHCPClient.cc:244-290 | A run in which the id 0 leads to a null pointer |
| TurtleModule.TurtleMobility.ExecuteStatement | inet/src/mobility/TurtleMobility.cc:92-224 | A loop pushes its count, other statements add their time; negative ones are errors |
| TurtleModule.TurtleMobility.GotoNextStatement | inet/src/mobility/TurtleMobility.cc:256-299 | The pointer and the counter stack move as the machine does, and an assertion fails exactly where it does |
| TurtleModule.TurtleMobility.ResumeScript | inet/src/mobility/TurtleMobility.cc:74-90 | Each resumption continues the one run of the machine by at least one statement; all but its last take no time, and the target time moves by what the last took; it stops when that is positive, at the end of the script, or exactly where the machine fails or a time is negative |
| TurtleTheorems.LeaveSettles | inet/src/mobility/TurtleMobility.cc:266-299 | Leaving a statement through any number of ending loops leads to what is left to do in the unrolled script |
| TurtleTheorems.AdvanceSimulates | inet/src/mobility/TurtleMobility.cc:74-109 | One statement of the pointer machine is one statement of the unrolled script; the stack stays as deep as the nesting, and is empty at the end |
| Stepping.Simulates | inet/src/mobility/TurtleMobility.cc:74-90 | Two machines that do the same in every pair of related states, and stay related, do the same in every run and end alike |
| Stepping.Splits | inet/src/mobility/TurtleMobility.cc:74-90 | The parts of a run of any machine put together are the run |
| TurtleTheorems.StepsAlike | inet/src/mobility/TurtleMobility.cc:74-109 | Where pointer and stack stand for what is left to do, the machine and the todo list execute the same statement, refuse the same count, or both halt, and then stand at the same place again |
| TurtleTheorems.RunGood | inet/src/mobility/TurtleMobility.cc:256-299 | With non-empty loops and any counts the stack is at any time as deep as the nesting, and it is empty at the end; if no count is refused the run never fails |
| TurtleTheorems.TraceIsExec | inet/src/mobility/TurtleMobility.cc:74-90 | From any state, the statements executed are those of loop unrolling |
| TurtleTheorems.MachineUnrolls | inet/src/mobility/TurtleMobility.cc:74-90 | From the start, for every script with non-empty loops, every number of steps and all counts |
| TurtleTheorems.RunsAlike | inet/src/mobility/TurtleMobility.cc:74-109 | After any number of steps the machine and the todo list stand at the same place, or both have failed |
| TurtleBounded.BlockDoes | inet/src/mobility/TurtleMobility.cc:98-109 | The todo list of any block executes its structural unrolling, and then goes on after the block, or stands before a refused count, or its steps are used up |
| TurtleBounded.AnyScript | inet/src/mobility/TurtleMobility.cc:74-109 | Every script, with endless loops nested in any way and any counts, executes in any number of steps its structural unrolling; if that gets through it is at its end with an empty stack, and it fails exactly if that comes to a refused count |
| TurtleBounded.FiniteScript | inet/src/mobility/TurtleMobility.cc:74-109 | A script without endless loops executes exactly its whole unrolling, cut to the number of steps; it then is at its end with an empty stack, or fails exactly after a refused count |
| TurtleBounded.EndlessLoop | inet/src/mobility/TurtleMobility.cc:98-109 | An endless loop executes any number of rounds and is then where it was, unless a count is refused |
| TurtleBounded.EndlessScript | inet/src/mobility/TurtleMobility.cc:74-109 | A script that comes to an endless loop executes what is before it and then any number of rounds, up to a refused count |
| TurtleTheorems.TraceSplits | inet/src/mobility/TurtleMobility.cc:74-90 | A run may be split into resumptions anywhere |
| TurtleTheorems.AdvanceDepth | inet/src/mobility/TurtleMobility.cc:256-299 | For every script the stack is as deep as the nesting plus one for each loop with no body executed; an assertion fails only if there is one |
| TurtleTheorems.OrphansCounted | inet/src/mobility/TurtleMobility.cc:256-299 | The same over any run |
| TurtleTheorems.EmptyBodyNeverEnds | inet/src/mobility/TurtleMobility.cc:256-299 | The stack is as deep as the nesting exactly as long as no loop with no body was executed; an assertion fails only after one, and the end of the script is never reached after one |
| TurtleTheorems.EmptyBodyExample | inet/src/mobility/TurtleMobility.cc:256-299 | The shortest script that fails |
| ChannelControlModule.ChannelControl.RegisterHost | inet/src/world/ChannelControl.cc:139-156 | Fails exactly for a registered host; keeps all entries in agreement with the calls made so far |
| ChannelControlModule.ChannelControl.UnregisterHost | inet/src/world/ChannelControl.cc:158-179 | Fails exactly for an unknown host; nobody keeps it as a neighbour |
| ChannelControlModule.ChannelControl.UpdateConnections | inet/src/world/ChannelControl.cc:203-236 | Afterwards the host's neighbours are exactly the other hosts in range, and the others have it exactly if they are; no stale cache is left valid |
| ChannelControlModule.ChannelControl.UpdateHostPosition | inet/src/world/ChannelControl.cc:244-249 | The neighbour sets agree with the positions reported |
| ChannelControlModule.ChannelControl.UpdateHostChannel | inet/src/world/ChannelControl.cc:238-257 | Fails exactly for a channel that does not exist |
| ChannelControlModule.ChannelControl.GetNeighbors | inet/src/world/ChannelControl.cc:190-201 | The cached list, however old, names exactly the present neighbours, once each |
| ChannelControlModule.ChannelControl.SendToChannel | inet/src/world/ChannelControl.cc:313-338 | One copy goes to each present neighbour now tuned to the channel, and to nobody else; the frame joins the transmissions on the air |
| ChannelControlModule.Transmissions.GetOngoingTransmissions | inet/src/world/ChannelControl.cc:259-266 | With more than one channel, exactly the history of the channel filtered by age, in order, whenever purges happened |
| ChannelControlModule.Transmissions.AddOngoingTransmission | inet/src/world/ChannelControl.cc:268-292 | The frame joins the history with the present time; only frames that are too old are ever missing |
| ChannelControlModule.Transmissions.PurgeChannel | inet/src/world/ChannelControl.cc:294-311 | Removing while iterating leaves exactly the frames not too old, in order |
| ChannelControlSpec.RegisteredExactlyWhen | inet/src/world/ChannelControl.cc:139-179 | A host is known exactly when it was registered and not unregistered since |
| ChannelControlSpec.LatestCounts | inet/src/world/ChannelControl.cc:244-257 | Position and channel of a host are those reported last, channel 0 after registration |
| ChannelControlSpec.ComparedExactlyWhen | inet/src/world/ChannelControl.cc:203-249 | Two hosts have been compared exactly when one of them moved while both were registered and neither came or went since |
| ChannelControlSpec.InRangeOnAxis | inet/src/world/ChannelControl.cc:215 | Hosts on a line parallel to an axis are in range exactly if they are less than the range apart |
| ChannelControlSpec.Pythagoras | inet/src/base/Coord.h:134-138 | The square of the distance is the sum of those along the axes |
| ChannelControlSpec.InRangeBetween | inet/src/world/ChannelControl.cc:215 | Hosts in range are less than the range apart on each axis; hosts whose distances along the axes add up to less are in range |
| ChannelControlSpec.LinkedIsGraph | inet/src/world/ChannelControl.cc:203-236 | The neighbour relation is symmetric, irreflexive and confined to registered hosts |
| ChannelControlSpec.LinkedAfterMove | inet/src/world/ChannelControl.cc:244-249 | After a move the links are exactly the registered hosts in range |
| ChannelControlSpec.LinkedAcrossMove | inet/src/world/ChannelControl.cc:203-249 | A move decides the links of the host that moves and leaves all others as they were |
| ChannelControlSpec.LiveExactlyWhen | inet/src/world/ChannelControl.cc:294-311 | A frame is kept, as often as it was sent, exactly if it ended no more than a second ago |
| ChannelControlSpec.OnTheAirAnswered | inet/src/world/ChannelControl.cc:259-311 | Every frame still on the air is in the answer, and none that ended more than a second ago |
| ChannelControlSpec.LiveOfLive | inet/src/world/ChannelControl.cc:294-311 | Purging early changes nothing about purging later |
| ReassemblyModule.ReassemblyBuffer.MergeFragments | inet/src/base/ReassemblyBuffer.cc:81-126 | Ends; the main region grew along a gapless chain of stored fragments, and nothing left touches it |
| ReassemblyModule.ReassemblyBuffer.Merge | inet/src/base/ReassemblyBuffer.cc:45-79 | A fragment extends the main region, is set aside, or is a duplicate |
| ReassemblyModule.ReassemblyBuffer.AddFragment | inet/src/base/ReassemblyBuffer.cc:37-43 | For any fragments, overlapping or not, every offset below the end was received; true exactly when a last fragment was joined; the main region is the longest received prefix exactly if no fragment straddles its end |
| ReassemblyModule.ReassemblyBuffer.GetTotalLength | inet/src/base/ReassemblyBuffer.h:81 | The end of the fragments joined; it is the longest received prefix exactly if nothing straddles it |
| ReassemblySpec.AddsSound | inet/src/base/ReassemblyBuffer.cc:45-126 | Every fragment keeps: the region starts at 0, every offset in it was received, and it is complete only if a last fragment was received |
| ReassemblySpec.MergedSound | inet/src/base/ReassemblyBuffer.cc:81-126 | So does absorbing stored fragments |
| ReassemblySpec.ChainOfPieces | inet/src/base/ReassemblyBuffer.cc:81-126 | A gapless chain of pieces of one datagram is a run of consecutive pieces |
| ReassemblySpec.AddsPiece | inet/src/base/ReassemblyBuffer.cc:45-126 | Each piece, new or duplicate, leaves the longest received prefix joined and the rest set aside |
| ReassemblySpec.RunAssembles | inet/src/base/ReassemblyBuffer.cc:37-126 | After any order with any duplicates the main region is the longest received prefix |
| ReassemblySpec.CompleteExactlyWhen | inet/src/base/ReassemblyBuffer.cc:37-43 | Complete exactly when every piece has arrived, and then with the right length |
| ReassemblySpec.MergedFixpoint | inet/src/base/ReassemblyBuffer.cc:81-126 | Merging again changes nothing |
| ReassemblySpec.PrefixExactlyWhen | inet/src/base/ReassemblyBuffer.cc:37-126 | After any fragments in any order the main region is the longest received prefix exactly if nothing straddles its end, and is complete exactly if some last fragment began where it ended when it was joined |
| ReassemblySpec.OverlapsCompleteExactlyWhen | inet/src/base/ReassemblyBuffer.cc:37-126 | When all of a datagram was received in pieces of different cuts, it is complete exactly if nothing straddles the end of what was joined |
| ReassemblySpec.NextHadExactlyWhen | inet/src/base/ReassemblyBuffer.cc:45-126 | The next offset was received exactly if a fragment straddles the end |
| ReassemblySpec.KeptExactlyWhen | inet/src/base/ReassemblyBuffer.cc:45-79 | A new fragment is used or kept exactly if it does not begin inside the main region |
| ReassemblySpec.StraddlingDependsOnOrder | inet/src/base/ReassemblyBuffer.cc:45-79 | Three fragments and their runs in two orders, with no other outcome: one completes the datagram, the other leaves a fragment that straddles the end |
| ReassemblySpec.SwallowingDependsOnOrder | inet/src/base/ReassemblyBuffer.cc:81-126 | Three fragments and their runs in two orders, with no other outcome: one completes the datagram, in the other the last fragment is taken for a duplicate |
| ReassemblySpec.SwallowedInEitherOrder | inet/src/base/ReassemblyBuffer.cc:81-126 | Two fragments that cover all, one of them the last, and their runs in both orders, with no other outcome: neither completes the datagram |
| EtherBusSpec.PositionsNotGiven | inet/src/linklayer/ethernet/EtherBus.cc:61-68 | Taps without a given position follow at the distance of the last two given, or at 5 metres |
| EtherBusModule.PlaceTaps | inet/src/linklayer/ethernet/EtherBus.cc:49-75 | Missing positions repeat the last distance; succeeds exactly for ascending positions |
| EtherBusModule.CalculateDelays | inet/src/linklayer/ethernet/EtherBus.cc:77-93 | Each tap has the delays to its two neighbours, in both directions, and none beyond the ends |
| EtherBusModule.EtherBus.HandleFrame | inet/src/linklayer/ethernet/EtherBus.cc:119-147 | What came out and what is in flight stay exactly what is due |
| EtherBusModule.EtherBus.HandleSelfMessage | inet/src/linklayer/ethernet/EtherBus.cc:148-174 | A hop keeps that balance |
| EtherBusModule.EtherBus.Drain | inet/src/linklayer/ethernet/EtherBus.cc:148-174 | The hops end, nothing is left in flight, and exactly what is due has come out |
| EtherBusSpec.DeliveredExactlyOnce | inet/src/linklayer/ethernet/EtherBus.cc:117-174 | A frame comes out exactly once at every other tap, delayed by distance over speed, and never at its own |
| EtherBusSpec.FutureDown | inet/src/linklayer/ethernet/EtherBus.cc:135-141 | The hop delays downstream add up to the distance |
| EtherBusSpec.FutureUp | inet/src/linklayer/ethernet/EtherBus.cc:126-134 | The hop delays upstream add up to the distance |
| EtherBusSpec.HopConserves | inet/src/linklayer/ethernet/EtherBus.cc:148-174 | A hop delivers one copy and changes nothing about what else will be delivered |
| EtherBusModule.DueCounted | inet/src/linklayer/ethernet/EtherBus.cc:117-174 | For any frames, overlapping in any way, each delivery is due as often as a frame calls for it |
| EtherBusModule.HopBalanced | inet/src/linklayer/ethernet/EtherBus.cc:148-174 | A hop keeps what came out and what is in flight equal to what is due |
| EtherBusModule.EntryBalanced | inet/src/linklayer/ethernet/EtherBus.cc:119-147 | An entering frame adds to both sides alike |
| TraCIModule.TraCIBuffer.Write | inet/src/world/TraCIScenarioManager.h:135-147 | A number is appended most significant byte first on hosts of either byte order |
| TraCIModule.TraCIBuffer.Read | inet/src/world/TraCIScenarioManager.h:115-133 | Fails exactly past the end, else gives the big-endian value of the next bytes on hosts of either byte order |
| TraCIModule.TraCIBuffer.WriteString | inet/src/world/TraCIScenarioManager.cc:445-449 | Length and bytes are appended |
| TraCIModule.TraCIBuffer.ReadString | inet/src/world/TraCIScenarioManager.cc:451-460 | Fails exactly past the end, else gives the bytes after the length |
| TraCIModule.MakeTraCICommand | inet/src/world/TraCIScenarioManager.cc:125-132 | The command with its length in the short or the extended form |
| TraCIModule.LaunchRequest | inet/src/world/TraCIScenarioManagerLaunchd.cc:54-60 | The bytes sent for a launch document are those of the message format |
| TraCIModule.ReceiveTraCIMessage | inet/src/world/TraCIScenarioManager.cc:67-105 | However the stream is cut up by reads, the body of the first message is returned and the rest stays; fails exactly if the stream ends early |
| TraCIModule.FramedIsReceived | inet/src/world/TraCIScenarioManager.cc:67-123 | What was framed for sending is what is received |
| TraCIModule.ReadLaunchConfig | inet/etc/sumo-launchd.py:406-464 | On every stream, for all sizes of the two reads that are not repeated, the daemon's result is that of the parser specification with those sizes |
| TraCIModule.ReadReply | inet/src/world/TraCIScenarioManagerLaunchd.cc:62-69 | Succeeds exactly if the stream holds a whole message that answers the launch command; then gives its result byte, whether all was read, and leaves the rest |
| TraCIModule.OkReplyIsRead | inet/src/world/TraCIScenarioManagerLaunchd.cc:62-69 | The daemon's reply is such a message, with nothing left over |
| TraCISpec.ValueOfBigEndian | inet/src/world/TraCIScenarioManager.h:115-147 | Reading undoes writing, for every number that fits its width |
| TraCISpec.Reversed | inet/src/world/TraCIScenarioManager.h:135-147 | The two byte orders are each other's reverse |
| TraCISpec.LengthInFront | inet/src/world/TraCIScenarioManager.cc:125-132 | The length in front of a command is that of the whole, in one byte exactly if it fits |
| TraCISpec.SampleFront | inet/src/world/TraCIScenarioManagerLaunchd.cc:54-60 | The first bytes sent for one document |
| TraCISpec.CommandParses | inet/etc/sumo-launchd.py:406-438 | Both forms of a command lead the daemon to the same payload |
| TraCISpec.LaunchRoundTrip | inet/etc/sumo-launchd.py:406-464 | A document arrives unchanged if and only if it is shorter than 2^31 bytes; a longer one is refused or cut to its length modulo 2^32 |
| TraCISpec.FullReads | inet/etc/sumo-launchd.py:406-464 | Of every message that arrives completely, reads that are long enough give what the format says |
| TraCISpec.ShortReads | inet/etc/sumo-launchd.py:431-464 | Of every message that arrives completely, any reads give what the format says, or have the name refused or the contents cut; a wrong name is still refused unless it begins with the right one |
| TraCISpec.LaunchReadExactlyWhen | inet/etc/sumo-launchd.py:406-464 | For every document, whatever follows it and all sizes of the reads, the document arrives exactly if both reads are long enough and it is shorter than 2^31 bytes |
| TraCISpec.CutByShortRead | inet/etc/sumo-launchd.py:452-464 | A document whose read is short arrives as that many first bytes of it |
| TraCISpec.DocumentIsCut | inet/etc/sumo-launchd.py:452-464 | One such document and what arrives of it |
| TraCISpec.DecodedLengthAgrees | inet/etc/sumo-launchd.py:419-429 | Both forms decode to the same command length |
| MobilityModule.MassMobility.ReflectIfOutside | inet/src/mobility/BasicMobility.cc:123-153 | Position and target are mirrored in each wall passed, step and heading are turned |
| MobilityModule.MassMobility.Move | inet/src/mobility/MassMobility.cc:93-102 | One move of the reflected motion |
| MobilityModule.MassMobility.MoveTimes | inet/src/mobility/MassMobility.cc:66-102 | Any number of moves between changes of direction |
| MobilitySpec.TurnsOnFarWall | inet/src/mobility/BasicMobility.cc:123-153 | A node that stands exactly on the far wall turns round, on the near wall it does not |
| MobilitySpec.ReflectionIsFolding | inet/src/mobility/BasicMobility.cc:123-153 | With steps no longer than the playground the position after n moves is inside and is free motion folded at every wall, with the step reversed in every other cell |
| MobilitySpec.PositionIsMirrorImage | inet/src/mobility/BasicMobility.cc:123-153 | The position is the mirror image of free motion |
| MobilitySpec.ImageUnique | inet/src/mobility/BasicMobility.cc:123-153 | There is only one mirror image, also on the walls |
| MobilitySpec.StepFollowsParity | inet/src/mobility/MassMobility.cc:93-102 | Between walls the step points forward exactly in even cells |
| MobilitySpec.StaysInsideExactlyWhen | inet/src/mobility/BasicMobility.cc:123-153 | A move stays inside exactly when it does not pass a second wall |
| MobilitySpec.FreeIsLinear | inet/src/mobility/MassMobility.cc:93-96 | Free motion is start plus n steps |
| MobilitySpec.AxesIndependent | inet/src/mobility/BasicMobility.cc:123-153 | The two axes move independently |
| MobilitySpec.HeadingKept | inet/src/mobility/MassMobility.cc:76-102 | However often the node bounces, its step leads in the direction of its heading |

## Left out

- EtherMAC2, the other MAC: it looks for a requested pause before it takes the sent frame off, so it has other properties.
- The exchange of autoconfiguration messages (EtherMAC.cc, lines 108-200): the phase is modelled, with queueing and without sending; which rate and duplex mode it ends with is a parameter.
- Frames whose bit error flag is set, the filter by destination address, and the external queue module of the MAC.
- Disconnected and disabled MACs, statistics other than the two time totals, notifications and displays.
- EtherMacModule.EtherMac.FrameReceptionComplete: does not model the address filter and the relay to the upper layer; a completed reception is recorded.
- A liveness claim after an excess-collision drop: false, see `EtherMacRuns.StallsExactlyWhen`.
- A bound on the bytes of a burst: false, see `EtherMacBurst.BurstLimitExceeded`.
- DHCP lease expiry, NAK, option contents, lease times and the moments of T1 and T2: when a timer fires is left open, so the claims hold for all times.
- DhcpServerModule.DhcpServer.ProcessPacket: a message without a type, or with one that is neither DISCOVER nor REQUEST, gets no answer in the model and is not told apart further.
- Turtle statements other than loops: their geometry and their attributes; of each only the time it takes is kept, as a draw.
- TurtleModule.TurtleMobility.ExecuteStatement: does not model the errors for missing attributes and for a speed that is not positive, since attributes are left out.
- TurtleModule.TurtleMobility.ResumeScript: needs a bound on the statements that take no time in a row, because the source does not return from an endless loop that takes none.
- ChannelControlModule.ChannelControl.SendToChannel: the copies carry no propagation delay.
- Gate lookups of ChannelControl, and ChannelControlExtended, which repeats it.
- ReassemblyModule.ReassemblyBuffer.AddFragment: fragment ends are not cut to 16 bits; a fragment whose end would lie before its start is not modelled.
- EtherBusModule.CalculateDelays: not for a single tap, where the source reads beyond its array.
- TraCI commands other than the launch, sockets, module creation, and all of the daemon but its parser.
- Border policies other than reflection, and mobility models that follow curves, traces or random walks.
- Floating point rounding: times, positions and angles are real numbers.
- Traffic applications, SCTP, RTP, ping, packet dumps and the example utilities (bit tables, filters, identifiers).
