# HyBBX verification model

HyBBX is a mailbox daemon whose radio links are multiplexed over TCP "circuits".
This project models its circuit layer, the codecs on the way to the radio and
three satellites, and proves what they promise for every input, every run and
every way a stream can be cut.

Run `dafny verify dfyconfig.toml`.

## How it is built

Each component has a module of functions on values, which says what an operation
does, and a module that does the same in place, as the C code does: rings,
buffers and tables that are fields of a class, updated step by step, each method
proved equal to its function. The properties are then proved about the functions,
one operation at a time, and carried over whole runs by induction.

| component | on values | properties of runs | in place |
|---|---|---|---|
| load balancer of one link | `Balance` | `BalanceAnswers`, `BalanceRuns`, `BalanceAges`, `BalanceProgress`, `BalanceRecovery` | `BalanceRing` |
| which users are sacrificed | `BandwidthPolicy` | `BandwidthPolicy`, `SacrificeOrder` | `PolicyService` |
| users before links | `LinkGuard` | `LinkRuns` | `LinkHub` |
| link slots of the hub | `HubSlots`, `BroadcastLinks` | `HubSlots`, `HubAnswers`, `BroadcastLinks` | `HubTable`, `BroadcastLinks` |
| beacon sequencer | `Beacon` | `BeaconRuns`, `BeaconWaits` | `BeaconScheduler` |
| HBX circuit framing | `Hbx` | `Hbx`, `WireFormats` | `HbxCodec` |
| AX.25 UI frames and their CRC | `Ax25`, `Crc` | `Ax25`, `FrameErrors`, `Crc`, `WireFormats` | `Ax25Codec`, `Crc` |
| both carriages, end to end | `Carriage` | `Carriage`, `WireFormats` | `Carriage` |
| KISS | `Kiss` | `Kiss`, `WireFormats` | `KissCodec` |
| SHA-1 of the WebSocket handshake | `Sha1` | `Sha1Example`, `Sha1Context` | `Sha1Context` |
| WebSocket reassembly | `WsFrames` | `WsFrames`, `WsDelivery` | `WsConnection` |
| client line editor | `LineEditor`, `Terminal`, `CommandLine` | `LineEditorRuns`, `LineEditorKeys`, `PasswordHistory` | `ClientLine` |

## Modelling decisions

- Time is a parameter. Every operation reads the clock once; the C code may read
  it more than once in an operation. Runs of the balancer assume a clock after the
  epoch, runs of the beacon one that does not go back; what is said of the age of a
  backlog assumes both, and seconds that fit 32 bits.
- `oldest_enqueue` is set when the queue stops being empty and reset only when it is
  empty again (`src/core/circuit_balance.c:470-472`, `:535-537`). After a partial drain it
  dates a frame already sent, so the age the balancer acts on may exceed that of every
  frame it holds (`OldestIsFirst`, `AgeOfSentFrame`).
- The drain allowance of the balancer is a floating-point number of bytes in the C
  code. It is kept here exactly, in units of 1/8000 byte, so that baud times
  poll milliseconds is a whole number. `lag_sec` and the lag estimate are 32-bit
  numbers; the doubling of `lag_sec` wraps as it does in C, which is why
  `Recovery` asks for less than half the range.
- The bounds on the balancer are for an enabled balancer with positive thresholds; each
  lemma names the relations between thresholds that it needs.
- The flow callback of the balancer may call back into it: `spare` says whether a
  Cancel that is told to the edge is spared inside the callback, whose effect on
  `last_sent_action` is then overwritten. A callback is always installed, as the
  hub does.
- Sending may fail: `sendOks` is how many sends succeed before one fails. Memory
  and thread creation may fail when a connection is accepted.
- `hybbx_session_disconnect_bandwidth` (`src/core/session.c:2473-2492`) only marks
  a session, which stays among those visited until its own thread ends it, although
  `include/hybbx/session.h:196-200` speaks of a disconnect. The model follows the
  code: users have a flag `leaving`. As a consequence a Cancel can be spared
  without anyone being newly disconnected (`IdleSpareExists`); `CancelUsesUp` and
  `SparesBounded` say exactly when it is.
- The policy looks at no more than 128 users; session ids are distinct.
- Authentication of a link, with the eviction of a stale one, is one step. Slots are
  authenticated and activated by their own connection thread while they are connecting.
- `circuit_broadcast_links_sort` puts links of unknown frequency first, orders those by
  id and leaves links of one known frequency in the order of their slots.
- Header byte 11 of an HBX frame is never written by the encoder; it is arbitrary here.
- Address fields of a UI frame come in the order of the code: destination,
  digipeaters, source. Section 3.12 of AX.25 v2.2 has the source second.
- A parser of UI frames returns the length of the payload, and 0 when it refuses; an
  empty payload therefore looks like a refusal to its caller. The values of the model
  keep the two apart (`None`, or a path with an empty payload), so for an empty payload
  the round trips speak of the path that is filled in. The methods in place return 0 for both.
- The server reads a line as `src/core/command_parse.c` does; its access rights are not
  modelled. `CommandLine` asks only whether one of the arguments would be taken as a
  password, whoever sends it.
- A WebSocket pong is always empty, unlike the one of section 5.5.3 of RFC 6455,
  which repeats the payload of the ping.
- The terminal of the line editor is one row without a right margin, one cell a byte.

## Model

| member | source | states |
|---|---|---|
| Balance.DrainCount | src/core/circuit_balance.c:508-533 | one drain sends the longest prefix of the queue that fits the byte budget, cut short only by a failed send |
| BalanceRuns.LagMeaning | src/core/circuit_balance.c:313-338 | the lag estimate is the larger of the backlog's time on the air and the time since the stored `oldest_enqueue`, which need not be that of a queued frame |
| BalanceAges.OldestIsFirst | src/core/circuit_balance.c:462-537 | in every reachable state the stored time is the enqueue time of the first frame since the queue was last empty, never later than that of the frame at the head |
| BalanceAges.LagIsFirstAge | src/core/circuit_balance.c:313-338 | so in every reachable state the estimate is the larger of the time on the air and the age of that first frame, sent or not |
| BalanceAges.AgeOfSentFrame | src/core/circuit_balance.c:535-537 | an input for which the estimate exceeds the age of every queued frame: two frames a second apart, one tick that sends the first |
| BalanceAges.RunFresh | src/core/circuit_balance.c:370-427 | in every reachable state the stored time lay less than lag_sec before the last escalation |
| BalanceRuns.EscalateSettles | src/core/circuit_balance.c:370-427 | whatever the pressure, escalation ends in None, Pause or Cancel with the backlog below every threshold that applies there |
| BalanceRuns.SubmitSettles | src/core/circuit_balance.c:429-476 | a submit, accepted or refused, keeps the balancer within the bounds of a resting state |
| BalanceRuns.TickSettles | src/core/circuit_balance.c:478-545 | a tick keeps the balancer within the bounds of a resting state, whatever it drains |
| BalanceRuns.RunSettles | src/core/circuit_balance.c:370-545 | every reachable state is a resting state |
| BalanceRuns.BacklogBound | src/core/circuit_balance.c:370-476 | over all runs: the action is None, Pause or Cancel, Cancel means an empty queue on a low-bandwidth link, queued bytes stay below queue_break and queued air time below lag_sec |
| BalanceRuns.CancelSticks | src/core/circuit_balance.c:286-296 | once cancelled, no sequence of submits and ticks changes anything; only a spare leaves Cancel |
| BalanceRuns.HighBandwidthStaysIdle | src/core/circuit_balance.c:443-449 | with lag_sec of 2 or more a high-bandwidth link stays in its initial state over all runs |
| BalanceRuns.RunConserves | src/core/circuit_balance.c:357-476 | over all runs: the accepted frames are, in order, those that left (each sent or dropped once) followed by those queued; the wire carries exactly the sent ones |
| BalanceRuns.NothingLost | src/core/circuit_balance.c:429-545 | as multisets, accepted = sent + dropped + queued |
| BalanceRuns.DropsExplained | src/core/circuit_balance.c:385-413 | over all runs: each dropped frame was in the backlog of some operation of the run that found it at the break or cancel threshold and left nothing queued |
| BalanceRuns.TickPaces | src/core/circuit_balance.c:508-533 | one tick puts no more on the wire than the carry and one poll interval allow |
| BalanceRuns.Pacing | src/core/circuit_balance.c:357-368 | over any run of submits, ticks, failed sends and clears: bytes sent plus carry never exceed the sum over ticks of baud * poll_ms / 8000 plus the initial carry |
| BalanceProgress.HeadMoves | src/core/circuit_balance.c:513-523 | the head of the queue is sent in a tick if and only if the send works and carry plus one interval cover it |
| BalanceProgress.LongFrameStarves | src/core/circuit_balance.c:513-533 | a head longer than every tick's allowance stays there or is dropped with the queue |
| BalanceProgress.TooLongNeverSent | src/core/circuit_balance.c:429-545 | over every run of submits, ticks and spares: if each frame is longer than a poll interval's allowance rounded up to whole bytes, nothing is ever sent |
| BalanceProgress.UnnamedLowLinkIsMute | src/core/circuit_balance.c:141-145 | a low-bandwidth link that names no baud gets 1200, 7.5 bytes a tick of 50 ms; no frame with an HBX header is ever sent out of its balancer's queue |
| BalanceProgress.HeadIsSent | src/core/circuit_balance.c:508-533 | conversely a head that is no longer than that is sent by idle ticks as soon as the fractions they leave make up what it lacks; idleness is asked for only until then |
| BalanceProgress.HeadIsSentInTime | src/core/circuit_balance.c:508-533 | so after 8000 idle ticks at the latest |
| BalanceRecovery.PausedPoll | src/core/circuit_balance.c:478-507 | a timely poll of a paused balancer resumes and says so, or keeps it paused within bounds |
| BalanceRecovery.ResumesAfterLag | src/core/circuit_balance.c:395-426 | the poll after one that sees lag_sec of age finds the balancer resumed |
| BalanceRecovery.RecoveryFrom | src/core/circuit_balance.c:313-427 | from a paused state within bounds whose backlog is fresh: polled at gaps of at most lag_sec it resumes, as below |
| BalanceRecovery.Recovery | src/core/circuit_balance.c:313-427 | after every run that ends in a pause, polled at gaps of at most lag_sec: it stays paused, never cancelled, until it resumes and tells the edge, no later than the poll after the first that sees lag_sec of age |
| BalanceAnswers.BypassDelivers | src/core/circuit_balance.c:443-446 | on a disabled balancer or a high-bandwidth link the answer is the transport's, the frame is on the wire exactly when that is Ok, and nothing else changes |
| BalanceAnswers.BypassRun | src/core/circuit_balance.c:443-446 | over every run of such a link the wire carries exactly the accepted frames, in order |
| BalanceAnswers.SubmitAnswers | src/core/circuit_balance.c:439-476 | on a balanced link a frame is accepted if and only if it has 1 to 4108 bytes, fewer than 64 are queued and the link is not cancelled; the other answers are exact too |
| BalanceAnswers.Transitions | src/core/circuit_balance.c:370-427 | when a link is paused, resumed and cancelled, in bytes and seconds: resuming takes less than half of queue_pause |
| BalanceAnswers.Tells | src/core/circuit_balance.c:385-426 | with which calls each decision is told to the edge |
| BalanceAnswers.EdgeKnows | src/core/circuit_balance.c:340-355 | over every run without spares the last call the edge got is the present decision |
| BalanceAnswers.TickVerdict | src/core/circuit_balance.c:478-545 | a tick asks for the link to be given up exactly when it leaves it cancelled |
| BalanceAnswers.SpareReopens | src/core/circuit_balance.c:286-296 | a spare makes a cancel a pause and has the next decision told anew |
| BalanceAnswers.Wraps | src/core/circuit_balance.c:326-333 | inputs at which 32 bits wrap |
| BalanceRing.RingAppend | src/core/circuit_balance.c:462-470 | writing the slot behind the last, modulo 64, appends to the queue |
| BalanceRing.RingAdvance | src/core/circuit_balance.c:524-528 | advancing the head, modulo 64, removes the first frame |
| BalanceRing.Balancer.ClearQueue | src/core/circuit_balance.c:357-368 | the ring, its byte count, the oldest time and the carry are reset |
| BalanceRing.Balancer.EstimatedLagSec | src/core/circuit_balance.c:313-338 | computes the lag estimate from the fields |
| BalanceRing.Balancer.SendFlow | src/core/circuit_balance.c:340-355 | tells the edge unless it was told the same, with the spare inside the callback overwritten |
| BalanceRing.Balancer.SparedCancel | src/core/circuit_balance.c:286-296 | leaves Cancel for Pause and forgets what was told |
| BalanceRing.Balancer.ApplyEscalation | src/core/circuit_balance.c:370-427 | the fields and flow calls after escalation are those of the function on values |
| BalanceRing.Balancer.Submit | src/core/circuit_balance.c:429-476 | the ring, result, wire and flow calls after a submit are those of the function on values |
| BalanceRing.Balancer.Drain | src/core/circuit_balance.c:508-533 | the loop over the ring sends exactly the prefix that the budget and the transport allow and keeps the fractional carry |
| BalanceRing.Balancer.Tick | src/core/circuit_balance.c:478-545 | the ring, result, wire and flow calls after a tick are those of the function on values |
| BandwidthPolicy.ApplyOrderly | src/core/bandwidth_policy.c:163-229 | every action keeps the paused users a prefix of the staying ones in order of sacrifice |
| BandwidthPolicy.BreakPick | src/core/bandwidth_policy.c:192-207 | the user a break picks is leaving already or comes before every other staying user |
| BandwidthPolicy.CancelKeepsLast | src/core/bandwidth_policy.c:209-216 | of the staying users a cancel leaves exactly the last in order of sacrifice |
| BandwidthPolicy.CollectedAll | src/core/bandwidth_policy.c:52-74 | with at most 128 of them, the collected users are all the eligible ones |
| BandwidthPolicy.PausedFirst | src/core/bandwidth_policy.c:163-229 | over any run of actions and departures the paused users stay a prefix of the order of sacrifice |
| BandwidthPolicy.PausedFirstFromFresh | src/core/bandwidth_policy.c:163-229 | from fresh users on, whoever comes before a paused staying user is paused or leaving |
| SacrificeOrder.SeesAll | src/core/bandwidth_policy.c:52-74 | with at most 128 of them, the policy sees exactly the users logged in over packet radio or TCP |
| SacrificeOrder.PausePicks | src/core/bandwidth_policy.c:178-190 | a pause pauses the first user that is not paused: a radio user if there is one, the newest, the highest id; and touches nobody else |
| SacrificeOrder.BreakPicks | src/core/bandwidth_policy.c:192-207 | a break disconnects the first of the paused users, or of all, in the same order |
| SacrificeOrder.CancelPicks | src/core/bandwidth_policy.c:209-216 | a cancel keeps one user, whom all others go before: a TCP user if there is one |
| SacrificeOrder.ResumeFrees | src/core/bandwidth_policy.c:217-223 | a resume unpauses all users and does nothing else |
| SacrificeOrder.RadioFirst | src/core/bandwidth_policy.c:13-45 | over any run from fresh users no staying TCP user is paused while a staying radio user is not, nor an older one of the same kind while a newer one is not |
| PolicyService.SortVictimsFirst | src/core/bandwidth_policy.c:76-114 | the exchange sort in place yields a permutation in which radio sessions stand before TCP sessions, of one kind newer ones first, then higher ids |
| PolicyService.Service.Apply | src/core/bandwidth_policy.c:163-229 | the session flags and the number affected are those of the set-based definition, which mentions no sort |
| LinkGuard.LinksLast | src/core/circuit_tcp.c:453-493 | the link thread is told to cancel the link in exactly the ticks that want it cancelled with fewer than two users to turn on, and then no user is touched |
| LinkGuard.CollectedSize | src/core/bandwidth_policy.c:150-161 | the number collected is the number of eligible sessions, capped at 128 |
| LinkGuard.AtMostOneUserLeft | src/core/circuit_tcp.c:364-393 | a link is given up only in a state with at most one eligible user |
| LinkGuard.CancelUsesUp | src/core/bandwidth_policy.c:209-216 | a sparing cancel disconnects someone new if and only if someone besides the last user is still staying |
| LinkGuard.PromptSparesProductive | src/core/circuit_tcp.c:364-393 | if nobody is leaving already, a spare disconnects at least one user |
| LinkGuard.IdleSpareExists | src/core/session.c:2473-2492 | two users, one of them leaving, let a cancel be spared with nobody newly disconnected |
| LinkGuard.CancelLeavesOne | src/core/bandwidth_policy.c:209-216 | one cancel on two fresh users leads to that state |
| LinkRuns.StepUsesUp | src/core/circuit_tcp.c:395-493 | no event makes users available again, and a productive spare uses one up, also inside the flow callback |
| LinkRuns.SparesBounded | src/core/circuit_tcp.c:364-493 | over any run without arrivals, however many users there are, the productive spares and the users left together never exceed the users at the start |
| LinkRuns.OnlyFirstSpareCosts | src/core/circuit_tcp.c:364-493 | with at most 128 users, at most one spare of any run without arrivals disconnects anybody: it leaves one user, and no later one finds another |
| LinkRuns.PromptSparesAllProductive | src/core/circuit_tcp.c:364-493 | if no tick or submit finds a leaving user, no spare of the run is idle |
| LinkRuns.PromptSparesBounded | src/core/circuit_tcp.c:364-493 | so in such a run without arrivals all spared cancels together, plus the users left, never exceed the users at the start; with at most 128 users there is at most one |
| LinkRuns.PromptRunGoesOn | src/core/circuit_tcp.c:395-493 | a run that meets this: a cancel is turned on two users inside the flow callback, the newer one departs, the ticks go on |
| LinkRuns.IdleSparesUnbounded | src/core/circuit_tcp.c:395-493 | the input for which it is not met: while the disconnected user lingers, every overdue frame spares another cancel and disconnects nobody, without bound |
| LinkGuard.TickTurns | src/core/circuit_tcp.c:395-493 | a tick applies what it tells the edge to the users, in order, and pauses one more if the link stays paused with queue_pause bytes queued |
| LinkGuard.SubmitTurns | src/core/circuit_tcp.c:395-451 | a submit applies what it tells the edge to the users |
| LinkGuard.CancelTurns | src/core/circuit_tcp.c:364-393 | a cancelled link is spared, back to a pause, if there are two users, and otherwise given up |
| LinkHub.SpareLink | src/core/circuit_tcp.c:364-393 | over the real balancer and sessions: applies the action and spares the link if anyone was affected |
| LinkHub.TickSlot | src/core/circuit_tcp.c:453-493 | over the real balancer and sessions: state, users and verdict after a slot tick |
| HubSlots.FreeSlotExists | src/core/circuit_tcp.c:237-270 | below the limit the search for a free slot succeeds |
| HubSlots.AcceptNeverStuck | src/core/circuit_tcp.c:1485-1513 | the failure "no slot" after the count check cannot happen |
| HubSlots.EvictionSuffices | src/core/circuit_tcp.c:970-999 | after one eviction no other slot holds the id |
| HubSlots.AuthNeverDuplicate | src/core/circuit_tcp.c:1068-1128 | authentication succeeds exactly when the password is right, never failing as a duplicate |
| HubSlots.AuthSound | src/core/circuit_tcp.c:1130-1228 | an authenticated link is the only one in use with its id |
| HubSlots.NoteRfOwn | src/core/circuit_tcp.c:1694-1721 | noting radio activity by link id changes that link's own slot and no other |
| HubSlots.StepSound | src/core/circuit_tcp.c:901-999 | every step of accept, authentication, activation, eviction and close keeps the table sound |
| HubSlots.RunSound | src/core/circuit_tcp.c:1565-1580 | in every reachable state at most max_links slots (of 16) are in use, free slots have no descriptor, ids in use are unique, and neither failure above is possible |
| HubAnswers.LimitExactly | src/core/circuit_tcp.c:1576-1580 | 1 to 16 links as configured, otherwise 8 |
| HubAnswers.AcceptExactly | src/core/circuit_tcp.c:1485-1513 | a connection is accepted if and only if fewer than max_links slots are in use and its balancer and thread can be created; it then has the first free slot, connecting, with its descriptor; otherwise the slots in use stay as they were |
| HubAnswers.HubAccepts | src/core/circuit_tcp.c:1485-1513 | so in every reachable state a connection gets in exactly below the limit |
| HubAnswers.AuthExactly | src/core/circuit_tcp.c:1130-1228 | slot by slot what authentication changes: id and profile of its own, id and descriptor of whoever held the id |
| HubAnswers.ActivateAndClose | src/core/circuit_tcp.c:901-945 | what activating, closing and disconnecting change, and that they change one slot |
| HubAnswers.NoteRfExactly | src/core/circuit_tcp.c:1694-1721 | radio activity is noted on the active, connected slot with that id and on no other |
| HubAnswers.LinkLives | src/core/circuit_tcp.c:901-945 | a life of one slot, state by state: accepted, authenticated, active, heard, disconnected, closed, and free again |
| HubTable.Hub.FindFreeSlot | src/core/circuit_tcp.c:255-270 | the loop finds the first free slot |
| HubTable.Hub.Accept | src/core/circuit_tcp.c:1485-1513 | the slot table after a connection, with all failures |
| HubTable.Hub.Authenticate | src/core/circuit_tcp.c:1068-1128 | the slot table after authentication with eviction |
| HubTable.Hub.NoteRfActivity | src/core/circuit_tcp.c:1694-1721 | the loop stamps the first slot that carries the id |
| HubTable.Hub.SnapshotLinks | src/core/circuit_tcp.c:807-844 | the sorted list of links that qualify for the beacon |
| BroadcastLinks.SnapshotExact | src/core/circuit_tcp.c:807-844 | a snapshot lists each qualifying slot exactly once, sorted, with its own id and frequency |
| BroadcastLinks.SnapshotOrder | src/core/circuit_tcp.c:769-844 | a snapshot lists exactly the active, connected slots with the profile; unknown frequencies first, by id, then rising frequencies |
| BroadcastLinks.ArrangedSorted | src/core/circuit_tcp.c:769-805 | the result is a sorted permutation |
| BroadcastLinks.SortLinks | src/core/circuit_tcp.c:769-805 | the insertion sort in place yields that result |
| BeaconRuns.AdvanceSound | src/core/broadcast.c:685-789 | one advance at a later time keeps all the timing promises of the log |
| BeaconRuns.StepSound | src/core/broadcast.c:797-911 | so do the periodic tick and the manual start, with the hub changing in between |
| BeaconRuns.BeaconTiming | src/core/broadcast.c:327-373 | over all runs: two transmissions on one slot are 900 s apart; two of one cycle are 180 s apart, in snapshot order and on different slots; every one, the last included, found its slot's last radio activity 180 s old and went to the slot its snapshot names |
| BeaconRuns.TransmitsExactly | src/core/broadcast.c:413-522 | a due link is sent to if and only if its frequency is known, it still qualifies, the band is idle and the rate allows it |
| BeaconRuns.TransmissionNoted | src/core/circuit_tcp.c:697-732 | a transmission is noted as radio activity of the slot it used and of no other |
| BeaconWaits.BandIdleExactly | src/core/circuit_tcp.c:1723-1805 | a band is idle when the slot is live and was not heard for 180 s, and ready 180 s after it was; a link has rested 900 s after its last beacon |
| BeaconWaits.AdvanceWaits | src/core/broadcast.c:721-745 | a due link without frequency is left; one that is not live or not rested is tried again in 30 s; one heard less than 180 s ago is tried again exactly when it has been quiet for 180 s |
| BeaconWaits.AdvanceSendsOpen | src/core/broadcast.c:746-789 | otherwise it is sent to and left, tried again in 30 s when the send is busy or denied, or left when the send is hopeless |
| BeaconWaits.AdvanceNotDue | src/core/broadcast.c:694-719 | a cycle that is not due sends nothing, and ends when its hub, configuration or links are gone |
| BeaconWaits.SendExactly | src/core/broadcast.c:413-522 | everything a send to one slot can answer, and when |
| BeaconWaits.TickStarts | src/core/broadcast.c:847-911 | exactly when the periodic tick starts a cycle |
| BeaconWaits.ManualAnswers | src/core/broadcast.c:797-845 | exactly what the operator's request answers |
| BeaconWaits.NobodyPassedOver | src/core/broadcast.c:685-789 | over any run each link of a cycle before the present one was sent its beacon, or left because it has no frequency or the send was hopeless |
| BeaconWaits.RequestIsSent | src/core/broadcast.c:797-845 | a run that sends: one open link, the request of the operator, the beacon on the wire in the same second |
| BeaconScheduler.Scheduler.BandIdle | src/core/circuit_tcp.c:1723-1762 | reads the slot table as the function on values does |
| BeaconScheduler.Scheduler.SeqAdvance | src/core/broadcast.c:685-789 | sequencer fields, hub table and transmissions after an advance |
| BeaconScheduler.Scheduler.Tick | src/core/broadcast.c:847-911 | the same after a periodic tick, which may start a cycle |
| BeaconScheduler.Scheduler.Manual | src/core/broadcast.c:797-845 | the same after a manual request |
| Hbx.ParseSplit | src/core/circuit.c:111-146 | parsing may stop anywhere and go on from what it kept |
| Hbx.StreamingIsBatch | src/core/circuit.c:67-146 | any chunking of any stream gives the parse of the whole |
| Hbx.ParseLeavesResidual | src/core/circuit.c:119-124 | what is kept is an unfinished frame, shorter than the buffer: the overflow reset is unreachable |
| Hbx.RoundTripAll | src/core/circuit.c:148-181 | any sequence of encoded frames parses back to exactly those frames, whatever header byte 11 holds |
| Hbx.Resynchronises | src/core/circuit.c:92-146 | noise in which no valid header starts, then encoded frames: exactly those frames are delivered |
| Hbx.NoiseWithoutMagic | src/core/circuit.c:92-109 | noise without the first magic byte is of that kind |
| WireFormats.HbxLayout | src/core/circuit.c:148-181 | an encoded frame byte by byte |
| WireFormats.HbxAccepts | src/core/circuit.c:92-109 | a header is accepted exactly with magic, version 1 and a length of at most 4096 |
| HbxCodec.Decoder.Feed | src/core/circuit.c:111-146 | the decoder's buffer and deliveries are the parse of kept bytes and data |
| HbxCodec.EncodeInto | src/core/circuit.c:148-181 | the bytes written, the unwritten byte 11, and the refusals |
| Crc.Compute | plugins/packet_radio/ax25.c:72-90 | the nested loops compute the register function |
| Crc.StepLinear | plugins/packet_radio/ax25.c:78-87 | one shift is linear over exclusive or |
| Crc.StepInjective | plugins/packet_radio/ax25.c:78-87 | one shift with 0x1021 loses nothing |
| Crc.CrcIsBits | plugins/packet_radio/ax25.c:72-90 | bytewise and bitwise feeding agree |
| Crc.BurstDetected | plugins/packet_radio/ax25.c:72-90 | any error within 16 consecutive bits changes the check sequence |
| WireFormats.CheckValue | plugins/packet_radio/ax25.c:72-90 | the reference value of this CRC, 0x29B1 for the digits 1 to 9 |
| Crc.AdjacentBytesAreBurst | plugins/packet_radio/ax25.c:72-90 | altering one byte or two adjacent ones is such an error |
| Ax25.AddressSurvives | plugins/packet_radio/ax25.c:51-70 | an address field decodes to the address and its end mark |
| Ax25.PathSurvives | plugins/packet_radio/ax25.c:169-229 | the address loop of the parser recovers destination, digipeaters and source |
| Ax25.UiRoundTrip | plugins/packet_radio/ax25.c:115-250 | a frame that fits is addresses, control, payload and check sequence, and parses to the same path and payload |
| Ax25.UiRoundTripExactly | plugins/packet_radio/ax25.c:115-250 | for well-formed paths what is built parses back if and only if all of the frame fits and the payload fits the reader's buffer |
| Ax25.CrampedFrameIsLost | plugins/packet_radio/ax25.c:130-134 | an input for which it does not: eight digipeaters, 8 bytes of payload, 40 bytes of room give a 12-byte frame without addresses, which is refused |
| FrameErrors.AcceptedHasFcs | plugins/packet_radio/ax25.c:230-235 | nothing is accepted with a wrong check sequence |
| FrameErrors.BurstRejected | plugins/packet_radio/ax25.c:230-235 | a built frame is rejected that was hit by a burst of up to 16 bits in the part before the check sequence |
| FrameErrors.AlteredBytesRejected | plugins/packet_radio/ax25.c:230-235 | so is one with one byte or two adjacent bytes of that part altered |
| FrameErrors.AlteredFcsRejected | plugins/packet_radio/ax25.c:230-235 | so is one whose check sequence alone was altered |
| FrameErrors.SeamAccepted | plugins/packet_radio/ax25.c:144-147 | the low byte of the check sequence is sent first: flipping 0x89 in the last byte before it and 0xA1 in that low byte is accepted, with the payload altered |
| FrameErrors.AdjacentExactly | plugins/packet_radio/ax25.c:115-250 | of all changes of one byte or two adjacent bytes anywhere in a built frame exactly this one is accepted |
| WireFormats.AddressLayout | plugins/packet_radio/ax25.c:51-70 | an address field byte by byte, as numbers |
| WireFormats.FieldsLayout | plugins/packet_radio/ax25.c:92-113 | destination, digipeaters, source, in this order, only the last marked |
| WireFormats.UiLayout | plugins/packet_radio/ax25.c:115-148 | a built frame: addresses, 0x03, 0xF0, payload, check sequence with its low byte first |
| WireFormats.OneAddress | plugins/packet_radio/ax25.c:169-250 | a frame with one address, marked as the last, is accepted from 16 bytes on, without a source |
| Ax25.TooManyAddresses | plugins/packet_radio/ax25.c:183-212 | a frame without an end mark in its first ten addresses is refused |
| Ax25Codec.WriteAddresses | plugins/packet_radio/ax25.c:92-113 | the address fields written one behind the other |
| Ax25Codec.BuildInto | plugins/packet_radio/ax25.c:115-148 | the frame written, or nothing |
| Ax25Codec.ParseInto | plugins/packet_radio/ax25.c:169-250 | the path and payload read, or nothing |
| Carriage.PackRoundTrip | src/core/circuit.c:192-337 | a packed path and payload unpack to the same |
| Carriage.PackedFrameExists | src/core/circuit.c:232-248 | with room for it there is a packed frame, of the expected size |
| Carriage.RawEndToEnd | src/core/circuit.c:183-190 | build, encode, cut into any chunks, decode, parse: one frame with the same path and payload |
| Carriage.PackedEndToEnd | src/core/circuit.c:232-337 | pack, encode, cut into any chunks, decode, unpack: the same path and payload |
| WireFormats.PackedLayout | src/core/circuit.c:192-248 | the number of digipeaters, the same address fields, the payload, as protocol 2 with the path flag |
| WireFormats.PackExactly | src/core/circuit.c:192-230 | there is a packed payload exactly if all of it fits |
| Carriage.PackInto | src/core/circuit.c:192-230 | the packed payload written |
| Carriage.UnpackInto | src/core/circuit.c:284-337 | the path and payload read, or nothing |
| Kiss.FendOnlyAtEnds | plugins/packet_radio/kiss.c:111-152 | an encoded frame has the delimiter at its two ends and nowhere else |
| Kiss.ChunksDoNotMatter | plugins/packet_radio/kiss.c:34-81 | any chunking delivers the same frames |
| Kiss.FeedBody | plugins/packet_radio/kiss.c:48-78 | escaped bytes arrive as they were, or the frame is given up beyond 2048 |
| Kiss.SelfSynchronising | plugins/packet_radio/kiss.c:34-152 | from any state an encoded frame delivers what one delimiter would, then exactly port mod 16 and payload, up to 2047 bytes and no more |
| Kiss.FramesAfterGarbage | plugins/packet_radio/kiss.c:34-152 | any garbage, then encoded frames, in any chunks: the garbage's flush and then exactly those frames |
| WireFormats.KissLayout | plugins/packet_radio/kiss.c:111-152 | delimiter, escaped command byte and payload, delimiter |
| WireFormats.CommandLayout | plugins/packet_radio/kiss.c:111-152 | the port in the high half of the command byte, the command in the low one |
| WireFormats.EscapeIs | plugins/packet_radio/kiss.c:83-109 | the two escape sequences |
| WireFormats.KissLimit | plugins/packet_radio/kiss.c:34-81 | payloads of up to 2047 bytes arrive, longer ones do not |
| KissCodec.Decoder.FeedByte | plugins/packet_radio/kiss.c:34-81 | decoder fields and deliveries after a byte |
| KissCodec.Decoder.Feed | plugins/packet_radio/kiss.c:34-81 | the same after a chunk |
| KissCodec.EncodeInto | plugins/packet_radio/kiss.c:111-152 | the bytes written, and exactly when the capacity is enough |
| Sha1.ZeroCount | plugins/websocket/ws_sha1.c:109-116 | padding as in section 5.1.1 of FIPS 180-4 fills whole blocks with fewer than 64 zeros |
| Sha1.AbsorbConcat | plugins/websocket/ws_sha1.c:88-98 | compressing whole blocks may stop at any block |
| Sha1Example.DigestOfAbc | plugins/websocket/ws_sha1.c:21-70 | the worked example of FIPS 180: the digest of "abc", with its schedule and the state after each round |
| Sha1Example.LengthWraps | plugins/websocket/ws_sha1.c:82-86 | the length in bits is taken modulo 2^64 |
| Sha1Context.ChoiceAgrees | plugins/websocket/ws_sha1.c:43-44 | the code's choice function is that of section 4.1.1 of FIPS 180-4 |
| Sha1Context.MajorityAgrees | plugins/websocket/ws_sha1.c:49-50 | so is its majority function |
| Sha1Context.IndexOf | plugins/websocket/ws_sha1.c:82-86 | the wrapping bit counter still tells how full the buffer is |
| Sha1Context.PadBlocks | plugins/websocket/ws_sha1.c:103-121 | padding the whole message is padding the buffered rest, in one block or two |
| Sha1Context.Context.Transform | plugins/websocket/ws_sha1.c:21-70 | schedule and rounds compute the compression of section 6.1.2 |
| Sha1Context.Context.Update | plugins/websocket/ws_sha1.c:82-101 | the state and buffer represent the old message followed by the data |
| Sha1Context.Context.Final | plugins/websocket/ws_sha1.c:103-129 | the digest of the message fed so far |
| Sha1Context.Hash | plugins/websocket/ws_sha1.c:131-138 | the digest of the data |
| Sha1Context.HashChunks | plugins/websocket/ws_sha1.c:82-129 | any split into updates gives the digest of the whole |
| WsFrames.MaskTwice | plugins/websocket/ws_proto.c:403-405 | unmasking undoes masking |
| WsFrames.EncodedFrame | plugins/websocket/ws_proto.c:376-425 | a client frame is recognised with its length, in both length forms, and delivers its payload, whatever follows |
| WsFrames.RunSplit | plugins/websocket/ws_proto.c:460-492 | the loop may stop when bytes run out and go on from what it kept; a failure stays a failure |
| WsFrames.ReassemblyFrom | plugins/websocket/ws_proto.c:432-492 | any chunking of a bounded stream delivers what the whole would, with the same outcome: the buffer never overflows |
| WsFrames.Reassembly | plugins/websocket/ws_proto.c:355-492 | client frames in any chunks of 1 to 256 bytes: alive and a prefix delivered at every moment, exactly the unmasked non-empty payloads and the pongs at the end |
| WsFrames.ModeratePayloads | plugins/websocket/ws_proto.h:22-22 | payloads of up to 3849 bytes are safe |
| WsFrames.EndsAt | plugins/websocket/ws_proto.c:373-412 | a fragment or close frame ends the connection after everything before it and nothing behind it was delivered |
| WsFrames.CrampedOverflows | plugins/websocket/ws_proto.c:452-455 | a longer frame with enough bytes behind it overflows for some chunking |
| WsFrames.SafeExactly | plugins/websocket/ws_proto.c:452-455 | no chunking fails if and only if each frame has at most 3857 bytes or ends a stream whose rest fits the buffer |
| WsDelivery.Layout | plugins/websocket/ws_proto.c:376-405 | a client frame byte by byte, in both length forms |
| WsDelivery.FrameDelivers | plugins/websocket/ws_proto.c:407-425 | a legal frame delivers its payload exactly if it is text or binary and not empty, and is answered with a pong exactly if it is a ping |
| WsDelivery.FrameEnds | plugins/websocket/ws_proto.c:371-377 | a fragment ends the connection as unsupported, a close as an error |
| WsDelivery.Refusals | plugins/websocket/ws_proto.c:460-479 | 64-bit lengths, lengths beyond 4096 and missing masks end the connection with nothing delivered |
| WsDelivery.ReassemblyDelivers | plugins/websocket/ws_proto.c:355-492 | client frames in any chunks of 1 to 256 bytes: the payloads delivered are at every moment a prefix, and in the end all, of the non-empty text and binary payloads in order, and the pongs as many as the pings |
| WsDelivery.ModerateDelivers | plugins/websocket/ws_proto.h:22-22 | so for payloads of up to 3849 bytes |
| WsConnection.Connection.Unmask | plugins/websocket/ws_proto.c:400-405 | the loop unmasks the payload of the frame in front |
| WsConnection.Connection.HandleFrame | plugins/websocket/ws_proto.c:355-430 | what a complete frame delivers, answers or fails with |
| WsConnection.Connection.ReadFrames | plugins/websocket/ws_proto.c:432-496 | buffer, deliveries and outcome after one read |
| Terminal.FeedRedraw | src/clients/client_line.c:74-91 | the output of a suffix refresh replaces the rest of the row by the suffix and leaves the cursor |
| LineEditor.ApplyKeeps | src/clients/client_line.c:93-275 | every key keeps the line printable and below 80 bytes and the history at most 25 storable entries |
| LineEditorRuns.ApplyMirror | src/clients/client_line.c:93-275 | a key keeps the screen a mirror of the line if and only if it is not the home key away from the start |
| LineEditorRuns.EnterRestores | src/clients/client_line.c:474-487 | ending the line restores the mirror from whatever the row shows |
| LineEditorRuns.RunMirror | src/clients/client_line.c:435-495 | over any session without the home key the screen mirrors the line |
| LineEditorRuns.ScreenMirrors | src/clients/client_line.c:49-188 | the same from the start of the editor, with the bound on the line |
| LineEditorKeys.KeyDoes | src/clients/client_line.c:291-391 | which bytes are which key: each usual sequence, read, does what its key does |
| LineEditorKeys.CursorKeys | src/clients/client_line.c:93-131 | where each cursor key goes, and that it leaves the text alone |
| LineEditorKeys.ErasingKeys | src/clients/client_line.c:133-161 | which character each erasing key takes away |
| LineEditorKeys.EnterKey | src/clients/client_line.c:475-488 | the line is handed out whole and an empty one begun |
| LineEditorKeys.HistoryLimit | src/clients/client_line.c:190-203 | a full history of 25 drops its oldest line for a new one |
| LineEditorKeys.ControlLimit | src/clients/client_line.c:366-377 | a control sequence of 24 bytes is given up without effect |
| LineEditorKeys.NothingShown | src/clients/client_line.c:74-91 | without a terminal nothing is written, whatever is read |
| LineEditorRuns.RestOfReadDropped | src/clients/client_line.c:474-488 | a read that completes a line drops the bytes behind it; otherwise reads may be cut anywhere |
| LineEditorRuns.Typing | src/clients/client_line.c:163-188 | typed text is inserted at the cursor as far as there is room, and the rest is ignored |
| LineEditorRuns.HistoryExact | src/clients/client_line.c:190-203 | the history is the last 25 lines worth keeping, newest first |
| CommandLine.VerbAsWritten | src/core/command_parse.c:202-296 | right behind the slash, ended by a blank and no alias, the verb is what is written there |
| CommandLine.BlanksSkipped | src/core/command_parse.c:30-57 | white space in front of the slash or the verb makes no difference |
| CommandLine.AliasSkipped | src/core/command_parse.c:80-129 | an alias in front of the verb is skipped |
| CommandLine.TokenLimit | src/core/command_parse.c:202-296 | sixteen words are a command, seventeen are not |
| PasswordHistory.StorableExactly | src/clients/client_line.c:15-25 | a line in which the server reads a password is kept if and only if it is not plainly written: slash, one of four verbs in lower case, a blank, nothing in front or between |
| PasswordHistory.PasswordRecallable | src/clients/client_line.c:190-203 | typed and ended on an empty line, such a line enters the history exactly then |
| PasswordHistory.RecalledLines | src/clients/client_line.c:190-203 | over any session the recallable lines were submitted in it, and none that carries a password is plainly written |
| PasswordHistory.LoudLoginRecalled | src/core/command.c:34-54 | an input for which a password is kept: the verb in capitals, which the server takes and the editor does not know |
| LineEditorRuns.RecallShows | src/clients/client_line.c:237-257 | pressing up n times shows the n-th last entry, or the oldest |
| LineEditorRuns.RecallUndone | src/clients/client_line.c:237-275 | at least as many downs bring the line back |
| LineEditorRuns.EditsUndone | src/clients/client_line.c:93-188 | typing and erasing, moving and moving back undo each other |
| ClientLine.RingRemembers | src/clients/client_line.c:196-200 | writing the next history slot puts an entry in front and drops the oldest of a full ring |
| ClientLine.Editor.RefreshSuffix | src/clients/client_line.c:74-91 | writes the suffix, the erase and the way back |
| ClientLine.Editor.InsertChar | src/clients/client_line.c:163-188 | the line array and output after a typed byte are those of the zipper |
| ClientLine.Editor.BackspaceChar | src/clients/client_line.c:146-161 | the same for erasing backwards |
| ClientLine.Editor.DeleteForward | src/clients/client_line.c:133-144 | the same for erasing forwards |
| ClientLine.Editor.LineReplace | src/clients/client_line.c:205-235 | the same for replacing the line |
| ClientLine.Editor.HistoryUp | src/clients/client_line.c:237-257 | the ring entry shown is that of the newest-first list |
| ClientLine.Editor.HistoryDown | src/clients/client_line.c:259-275 | the same on the way back |
| ClientLine.Editor.FilterEscapeByte | src/clients/client_line.c:328-391 | escape state, buffer and action after a byte of a sequence |
| ClientLine.Editor.Poll | src/clients/client_line.c:435-495 | all fields, output and the submitted line, cut to the caller's buffer, after one read |

## Left out

- Sockets, threads, serial ports, TLS, SSH, logging, configuration and its defaults: input and output, or plumbing.
- Locks: operations are atomic steps. The window between eviction and the write of the link id, in which the lock is not held, is not part of the model, nor is a link thread that outlives the stop of its hub.
- Clock errors: `time` never fails.
- Rounding of the drain allowance in floating point.
- FLOW_CTRL frames: they never reach the edge, because the encoder of link messages refuses their protocol (`src/core/circuit.c:262-265`); the model reasons about the calls of the flow callback.
- A balancer without a flow callback.
- The public one-message path `hybbx_broadcast_ax25` (`src/core/broadcast.c:524-660`), which checks the rate of only one matching link: the spacing is proved for the sequencer.
- Termination of a beacon cycle: a vanished link makes it wait forever (`src/core/broadcast.c:731-738`).
- Expansion of tokens in the beacon message and the building of its path: parameters of a step.
- Every queued frame is eventually sent: false (`UnnamedLowLinkIsMute`, `TooLongNeverSent`); `HeadIsSent` is what holds. Whether a link stays idle long enough is left to the traffic.
- `BeaconRuns.BeaconTiming`: speaks of slots, not of link identities, because the marks are kept for slots.
- `LinkRuns.PromptSparesBounded`: assumes that no tick or submit finds a user who is leaving already; without that the claim is false (`IdleSparesUnbounded`), and `OnlyFirstSpareCosts` is what holds.
- Frames that go past the balancer: beacons and the answer to an authentication are put on the link directly.
- `Carriage.UnpackInto`: with a path to fill; without one the code skips one address too many (`src/core/circuit.c:320-322`).
- 6PACK, ARDOP and telnet negotiation: no comparable law holds of them.
- The text of link authentication, the handshake headers and Base64 around the SHA-1 digest, and the server's own WebSocket frames: easier members.
- Failing writes to the terminal, and the setting and restoring of its modes.
- `LineEditorRuns.ScreenMirrors`: only without the home key, which moves the cursor of the screen but not that of the line (`src/clients/client_line.c:115-121`); `ApplyMirror` says this exactly.
- That no password can be recalled: false (`LoudLoginRecalled`); `StorableExactly` is what holds.
- The line editor of sessions in `src/core/session.c:124-638`, a relative of the client's.
