# Speed Test Protocol: a verified model

The Speed Test Protocol (STP) is a small QUIC-like transport over UDP that measures throughput.
This project models its sender, loss recovery, BBR congestion controller, pacer, wire format and
server session, and the latency statistics of the reports, and proves what they keep over every run.
`dafny verify dfyconfig.toml` verifies all of it.

| file | models |
|---|---|
| `Numbers.dfy` | 64-bit counters, bytes, optional values, and the non-negative doubles with infinity and NaN |
| `Wire.dfy` | headers and packets, encoding and decoding |
| `Connection.dfy` | per-peer connection state |
| `Recovery.dfy` | the in-flight queue, acknowledgement and loss detection |
| `Pacing.dfy` | the pacer |
| `Congestion.dfy`, `CongestionProofs.dfy` | the bandwidth filter and the BBR state machine; its runs |
| `Client.dfy` | the sender, which owns one object of each of the four classes above |
| `ClientRuns.dfy` | conservation of payloads, bytes and packets over every run of the sender |
| `ClientControl.dfy` | how the sender drives its controller and pacer; bounds for whole runs |
| `ClientOrder.dfy` | order of packet numbers and send times |
| `ClientAcks.dfy` | what the sender's own packets acknowledge |
| `ClientEarly.dfy` | the sender during the first ten seconds: window, Startup and bytes in flight |
| `Upload.dfy` | the control loop of an upload |
| `Server.dfy`, `ServerRuns.dfy` | the server session and its runs |
| `StpSystem.dfy` | client, server and a network that loses, duplicates and reorders, at any clock readings |
| `StpClock.dfy` | what a client wall clock that does not run backwards adds |
| `Latency.dfy` | latency statistics |

## How it is modelled

Each object of the program is a class with the program's fields. `Model()` is its value; a method
ensures that the new value is a step function of the old one, and the lemmas are about runs of those
step functions, so they hold of the objects. Loop bodies and common tails that the program writes
inline are small methods of their own (`CountAcked`, `RetransmitLost`, `SettleAt`, `SendTo`,
`SendInFragments`, `TurnSend`, `TurnReceive`).

- **Time.** The monotonic clock is a real number of seconds; the wall clock is a `u64` of
  microseconds. Every reading, and whether each socket send succeeds, is a parameter (`SendEnv`,
  `AckEnv`, `Env`), in the order in which the program takes it.
- **Doubles** are reals with infinity and NaN beside them. They are needed: a measured round trip can
  be 0, and the delivery rate divides by it.
- **Counters.** Packet numbers are `u64` and wrap, as in a release build; lemmas that need them not
  to say so (fewer than 2^64 packets). The age of a packet is a `u64` difference that wraps as well
  when the wall clock has stepped back. Byte and packet tallies are unbounded.
- **Network.** The set of all datagrams ever sent in each direction. Delivering any of them, any number of
  times or never, covers loss, duplication, reordering and delay. Other hosts send the server anything.
  The server's clock is unrelated to the client's.

## What the code does where its documentation says otherwise

- An ACK counts as cumulative in the sender (protocol.rs:199), but the server names only the packet
  it has just received. So "acknowledged" does not imply "received": `AcknowledgedNeedNotBeReceived`
  builds a reachable counterexample. What does hold is `AckedBoundedByReceived`, and
  `SelectiveAckMeansReceived` when no older packet is in flight.
- "Highest packet number received from peer" (protocol.rs:14) is the most recent one. It is the highest
  at every moment if and only if packets arrive in the order of their numbers
  (`LatestAckIsHighestIffInOrder`, `NextAckIsHighestIff` for the sender's outgoing packets);
  `LatestAckIsNotHighest` is an instance where it is not.
- "Packet declared lost after 3 higher packets are ACKed" (STP_IMPLEMENTATION.md:42) is in the code but
  no reachable state triggers it. `ThresholdNeedsUnreachableState` says exactly when it fires,
  `ThreeHigherAcknowledgedIsNotLoss` gives an instance, and `AckCutsOrderedQueue` the rule that is left.
- "Using the nearest-rank method" (latency.rs:88) is a rounded index over len - 1:
  `MedianOfTwoIsNotNearestRank`; `NearestRankIff` says when the two agree and `NearestRankWithinOne`
  that they are never more than one apart.
- "Using default 1024 bytes" (server.rs:130) keeps whatever size parsed last: `UnparsableKeepsSize`,
  `DownloadStateOfRun`; `UnparsableAnsweredWithOldSize` is a run.
- A round trip measured as zero makes the delivery rate infinite. The bandwidth estimate is infinite
  exactly while such an ACK lies in the two seconds before the last ACK (`InfiniteBandwidthIff`); exactly
  then the pacing rate is infinite, and the window is minimal while the minimum RTT is zero (infinity
  times zero is NaN, and NaN as `usize` is 0) and maximal once it has been renewed above zero
  (`ZeroRttControl`; `ZeroRttBothEnds` shows both in one run).
- A wall clock that steps back behind a send time makes the age of that packet wrap, so the packet is
  declared lost at once. `AckSplitsAnyQueue` includes it; `AckCutsOrderedQueue` says exactly when the
  queue is still cut in order, and `SteppedBackClockBreaksOrder` shows a queue that is not.
- "Stop if send fails" (server.rs:255, 297) holds of a whole burst if and only if the payload is a single
  packet or all fragments of all payloads but the last were accepted; otherwise only the current payload
  stops and the next one is attempted: `BurstUnderErrors`, with `RefusedFragmentDoesNotStop` as an instance.
- Retransmissions are neither paced nor counted as sent. A packet whose retransmission the socket refuses
  leaves the books for good, with every lost packet after it in the same call. So sent minus
  acknowledged equals what is in flight if and only if no retransmission was ever refused
  (`NothingDropped`, `InFlightAccounting`; `RefusedRetransmissionDrops` is an instance), and an upload
  that has given up as many bytes as the largest window never sends again (`UploadStalls`).

## Model

| member | source | states |
|---|---|---|
| Wire.PacketLayout | src/performance/udp/protocol.rs:32-37 | Byte i of each field is that field's i-th most significant base-256 digit; the fields stand at offsets 0, 8, 16, 24 in the documented order and the payload at 32 |
| Wire.DecodeEncode | src/performance/udp/protocol.rs:80-96 | Decoding an encoded packet gives the packet back, for every packet |
| Wire.EncodeDecode | src/performance/udp/protocol.rs:80-96 | Encoding a decoded datagram gives the datagram back, for every datagram of at least 32 bytes |
| Wire.DecodeInjective | src/performance/udp/protocol.rs:87-96 | No two datagrams decode to the same packet |
| Wire.Decode | src/performance/udp/protocol.rs:87-96 | Decoding fails exactly below 32 bytes; otherwise the payload is everything after byte 32 |
| Wire.BytesMut.PutHeader | src/performance/udp/protocol.rs:32-37 | Appends the header encoding, for which the round trip and the layout are proved, to whatever the buffer held |
| Wire.EncodeThroughBuffer | src/performance/udp/protocol.rs:80-85 | What the buffer holds in the end decodes to the packet |
| Connection.ConnectionState.constructor | src/performance/udp/protocol.rs:115-124 | A fresh connection has numbered nothing and acknowledges nothing |
| Connection.ConnectionState.NextPacketNumber | src/performance/udp/protocol.rs:126-129 | Returns the successor of the last number handed out, wrapping at 2^64, and changes nothing else |
| Connection.ConnectionState.UpdateFromReceived | src/performance/udp/protocol.rs:131-139 | Takes acknowledgement, number and timestamp from the header and leaves the own packet counter alone |
| Connection.LatestAckIsHighestIffInOrder | src/performance/udp/protocol.rs:131-139 | For any earlier state and any headers: the recorded number is the highest received at every moment if and only if packets arrive in non-decreasing order of number, starting from the one recorded before |
| Connection.LatestAckIsNotHighest | src/performance/udp/protocol.rs:14-15 | Packets 2 then 1 leave the connection acknowledging 1, whatever it had received before |
| Connection.EstablishedIff | src/performance/udp/protocol.rs:131-139 | A connection counts as established if and only if something was received |
| Recovery.LossRecovery.constructor | src/performance/udp/protocol.rs:174-181 | Starts with nothing in flight and nothing acknowledged |
| Recovery.LossRecovery.OnPacketSent | src/performance/udp/protocol.rs:183-185 | The queue grows at the end; the rest of the state stays |
| Recovery.LossRecovery.OnAckReceived | src/performance/udp/protocol.rs:187-218 | In every state and at every clock reading, the single pass over the queue returns the packets and leaves the state that the lemmas below classify, in queue order; TimeoutIsOneSecond and ThresholdNeedsUnreachableState fix its two constants |
| Recovery.AckSplitsAnyQueue | src/performance/udp/protocol.rs:187-218 | In any state, at any clock reading: acknowledged, lost and kept partition the old queue as multisets, each membership has an exact condition, a stamp ahead of the clock counts as timed out by wrapping, and nothing kept is timed out |
| Recovery.TimeoutIsOneSecond | src/performance/udp/protocol.rs:179-206 | In every ordered state a packet newer than the ACK is kept at an age of exactly 1,000,000 microseconds and lost one microsecond later |
| Recovery.AckCutsOrderedQueue | src/performance/udp/protocol.rs:187-218 | With numbers in order, loss is by timeout only and the rest is in order again; acked + lost + kept is the old queue as a sequence if and only if no timed-out packet follows a fresh one among those newer than the ACK, which holds whenever the clock has not stepped back |
| Recovery.SteppedBackClockBreaksOrder | src/performance/udp/protocol.rs:205-211 | With the clock between two send times the later packet is lost and the earlier one kept |
| Recovery.StaleAckAcknowledgesNothing | src/performance/udp/protocol.rs:195-201 | An ACK for a number not above the largest acknowledged one acknowledges nothing |
| Recovery.ThresholdNeedsUnreachableState | src/performance/udp/protocol.rs:178-211 | A packet that is not timed out is lost if and only if the largest acknowledged number was already 3 above it; in an ordered state it is always kept |
| Recovery.ThreeHigherAcknowledgedIsNotLoss | STP_IMPLEMENTATION.md:42 | With 1 to 4 in flight, the ACK of 4 counts packet 1 as acknowledged, not as lost |
| Recovery.AckIsSelectiveIffFrontIsNamed | src/performance/udp/protocol.rs:198-201 | An ACK acknowledges only the packet it names if and only if no older packet is in flight |
| Recovery.AckOrderIrrelevant | src/performance/udp/protocol.rs:187-218 | With nothing timed out, by age or by a clock behind a send time, any list of ACKs in any order has exactly the effect of its highest alone: queue, largest number and acknowledged packets |
| Recovery.AckPermutation | src/performance/udp/protocol.rs:187-218 | With nothing timed out, two lists of ACKs that are permutations of each other have the same effect |
| Pacing.Pacer.constructor | src/performance/udp/pacing.rs:21-28 | A fresh pacer has no schedule and a rate of at least 1000 |
| Pacing.FreshPacer | src/performance/udp/pacing.rs:21-28 | A fresh pacer runs at the given rate where that is at least 1000 and at 1000 otherwise, with nothing scheduled |
| Pacing.Pacer.UpdateRate | src/performance/udp/pacing.rs:31-33 | Changes the rate, floored at 1000 bytes per second, and never the schedule |
| Pacing.Pacer.ScheduleNextSend | src/performance/udp/pacing.rs:36-67 | Takes the slot and returns the wait of Schedule, for which closed form, rate bound and wait bound are proved |
| Pacing.SendDuration | src/performance/udp/pacing.rs:40 | Duration times rate is the size; no packet takes longer than size/1000 seconds |
| Pacing.ClosedForm | src/performance/udp/pacing.rs:36-67 | After any calls the scheduled time is the maximum over j of now_j plus the durations after j, and the recorded next time is one duration later |
| Pacing.ScheduleUnique | src/performance/udp/pacing.rs:36-67 | That maximum determines the time: two schedules of the same calls are equal |
| Pacing.RateBound | src/performance/udp/pacing.rs:36-67 | If no rate exceeds R, the bytes after a first packet are at most R times the scheduled time elapsed, with equality for a sender that is always early at constant rate R |
| Pacing.WaitIsShort | src/performance/udp/pacing.rs:49-64 | A call whose clock has reached the last slot waits exactly when it is early, no longer than its packet takes, and then its slot is the moment the wait ends |
| Pacing.HonouredWaitsAreShort | src/performance/udp/pacing.rs:36-67 | In every run of a caller that sleeps as told before each next call, with any sizes and rates, no wait exceeds size/rate or size/1000 seconds |
| Pacing.IgnoredWaitsAddUp | src/performance/udp/pacing.rs:49-64 | A caller that ignores its waits is scheduled further and further ahead: n packets at once end n-1 durations out |
| Congestion.FoldMax | src/performance/udp/congestion.rs:150-151 | The fold is an upper bound of all samples that are numbers, never NaN and never below 0 |
| Congestion.BandwidthFilter.constructor | src/performance/udp/congestion.rs:129-134 | Starts without samples at 0 |
| Congestion.BandwidthFilter.Update | src/performance/udp/congestion.rs:136-152 | The push, the pop loop and the fold make the step that FilterIsWindowMax shows to be a sliding-window maximum |
| CongestionProofs.FilterIsWindowMax | src/performance/udp/congestion.rs:136-152 | For non-decreasing times, after every update the filter is the maximum, floor 0, over the entire history inside the window, although only the front is ever popped |
| CongestionProofs.WindowMaxUnique | src/performance/udp/congestion.rs:150-151 | The window maximum is unique, so the specification of the filter leaves no freedom |
| CongestionProofs.BandwidthEstimate | src/performance/udp/congestion.rs:187-190 | In every controller run with forward time the bandwidth is the maximum over all delivery rates of the two seconds before the last ACK |
| CongestionProofs.MinRttOfRun | src/performance/udp/congestion.rs:180-185 | In every run the minimum RTT is the sample taken at its stamp (or the initial second), is at most every sample since, and after an ACK is at most ten seconds old |
| Congestion.BbrCongestionControl.constructor | src/performance/udp/congestion.rs:160-178 | Startup with the initial window, one second minimum RTT and no samples |
| Congestion.BbrCongestionControl.UpdatePathModel | src/performance/udp/congestion.rs:180-191 | Renews minimum RTT and bandwidth and touches nothing else |
| Congestion.BbrCongestionControl.UpdateControlParameters | src/performance/udp/congestion.rs:193-232 | Rate and window become those of the phase, which ControlIsGain relates to the path model |
| Congestion.BbrCongestionControl.AdvanceCyclePhase | src/performance/udp/congestion.rs:238-249 | One step of the gain cycle at most, in ProbeBw only |
| Congestion.BbrCongestionControl.UpdatePhase | src/performance/udp/congestion.rs:263-296 | The phase step that PhaseStep and PhaseProgress classify |
| Congestion.BbrCongestionControl.OnPacketSent | src/performance/udp/congestion.rs:300-304 | Counts the packet and settles phase before rate and window |
| Congestion.BbrCongestionControl.OnAckReceived | src/performance/udp/congestion.rs:306-311 | Path model first, phase second, rate and window last; AckNeverEntersProbeRtt depends on this order |
| Congestion.BbrCongestionControl.OnPacketLost | src/performance/udp/congestion.rs:313-318 | Settles without touching path model or counters |
| CongestionProofs.CwndBounded | src/performance/udp/congestion.rs:193-231 | In every run the window stays between 5600 and 1048576 bytes |
| CongestionProofs.ControlIsGain | src/performance/udp/congestion.rs:193-236 | For every bandwidth estimate: finite, the rate is the phase's gain times the bandwidth and the window the phase's gain times the bandwidth-delay product, rounded down and clamped; infinite, the rate is infinite and the window minimal for a zero RTT, else maximal; the NaN case too |
| CongestionProofs.ControlOfRun | src/performance/udp/congestion.rs:299-318 | After the first event of any run, rate and window are the fixed function of phase, cycle index, bandwidth and minimum RTT, and the rate is within a factor 2.77 of the bandwidth |
| CongestionProofs.RateNearBandwidth | src/performance/udp/congestion.rs:193-236 | In every phase, for finite and infinite bandwidth, the rate lies in [bw/2.77, 2.77 bw] |
| CongestionProofs.CycleIsNeutral | src/performance/udp/congestion.rs:112 | Any eight consecutive gains of the cycle add up to 8: what is probed is drained |
| CongestionProofs.ZeroRttCollapsesWindow | src/performance/udp/congestion.rs:187-232 | From any state, an ACK of at least one byte with a zero round trip leaves an infinite rate and the smallest window |
| CongestionProofs.InfiniteBandwidthIff | src/performance/udp/congestion.rs:136-152 | In every run with forward time the estimate is infinite if and only if an ACK of at least one byte with zero round trip lies in the two seconds before the last ACK |
| CongestionProofs.ZeroRttControl | src/performance/udp/congestion.rs:187-232 | Exactly then the rate is infinite; the window is meanwhile minimal while the minimum RTT is zero and maximal once it was renewed above zero |
| CongestionProofs.ZeroRttBothEnds | src/performance/udp/congestion.rs:182-232 | One run of three ACKs shows both ends of the window |
| CongestionProofs.PhaseStep | src/performance/udp/congestion.rs:263-318 | All possible phase changes of one event and the exact condition of each |
| CongestionProofs.CycleStep | src/performance/udp/congestion.rs:238-249 | While ProbeBw is held, the cycle moves to the next index if and only if a second has passed since the last move |
| CongestionProofs.DrainEndsIff | src/performance/udp/congestion.rs:257-278 | For any number of bytes in flight, Drain ends if and only if they fit the bandwidth-delay product |
| CongestionProofs.PhaseProgress | src/performance/udp/congestion.rs:263-318 | In every run there is a k: Startup before state k, Drain in state k only, ProbeBw or ProbeRtt ever after |
| CongestionProofs.StartupLength | src/performance/udp/congestion.rs:251-255 | Startup is never left before the 13th ACK and never survives the 2245th |
| CongestionProofs.SteadyStartup | src/performance/udp/congestion.rs:251-255 | With ACKs of constant size, Startup holds after n ACKs if and only if n <= 3 * (window / 1400) |
| CongestionProofs.StartupBoundsReached | src/performance/udp/congestion.rs:251-255 | Both bounds of StartupLength are attained by ACKs of 32-byte packets: 13 plain ones, and 2245 of which the first two measured a zero round trip |
| CongestionProofs.EarlyWindow | src/performance/udp/congestion.rs:180-232 | In every forward-time run of at most ten seconds, the window is at most the larger of its minimum and two of the largest acknowledged packet, whatever the round trips |
| CongestionProofs.EarlyStartup | src/performance/udp/congestion.rs:251-255 | In that time Startup ends after the ACKs such a window allows; with packets of at most 2800 bytes the window is always minimal and Startup lasts exactly 12 ACKs |
| CongestionProofs.AckNeverEntersProbeRtt | src/performance/udp/congestion.rs:306-311 | No ACK enters ProbeRtt from any state, and after it the RTT stamp is at most ten seconds old |
| CongestionProofs.LossAfterAckNeverEntersProbeRtt | src/performance/udp/congestion.rs:313-318 | Nor does any number of losses handled at the same moment |
| CongestionProofs.ProbeRttEntry | src/performance/udp/congestion.rs:279-286 | ProbeRtt is entered only from ProbeBw, by a send or a loss, with a stamp older than ten seconds |
| CongestionProofs.ProbeRttExit | src/performance/udp/congestion.rs:287-294 | ProbeRtt holds through all events of the next 200 ms, and the first one after that returns to ProbeBw at cycle index 0 |
| CongestionProofs.GainCycle | src/performance/udp/congestion.rs:238-249 | While ProbeBw is held for time T the cycle advances at most floor(T) times, consecutively modulo 8 from 0 |
| CongestionProofs.ProbeBwEntry | src/performance/udp/congestion.rs:271-294 | Every entry to ProbeBw, from Drain or ProbeRtt, starts the cycle at index 0 at that moment |
| CongestionProofs.GainCycleOfRun | src/performance/udp/congestion.rs:238-294 | In every run from a fresh controller, from any entry to ProbeBw as long as it is held, the cycle advances at most once per full second, consecutively modulo 8 from 0 |
| Client.StpClient.constructor | src/performance/udp/client.rs:57-79 | All four parts are fresh and the pacer starts at the controller's rate |
| Client.StpClient.SendData | src/performance/udp/client.rs:82-121 | New state, success and datagram put on the wire are those of Send, for which conservation, pacing and order are proved; a failed send keeps the number and the slot taken |
| Client.StpClient.ProcessAckPacket | src/performance/udp/client.rs:124-184 | In every state and at every clock reading, new state, success and retransmissions are those of ProcessAck: acknowledged packets first, then lost ones in order up to the first failed send |
| Client.StpClient.CountAcked | src/performance/udp/client.rs:142-150 | One acknowledged packet updates tallies, RTT samples and controller together |
| Client.StpClient.RetransmitLost | src/performance/udp/client.rs:153-176 | One lost packet is reported, renumbered, re-encoded and sent; tracked again only if the send succeeds |
| ClientRuns.RenumberedTally | src/performance/udp/client.rs:157-174 | A retransmission carries the same payload and size, decodes, and is stored under its own number |
| ClientRuns.ResendTally | src/performance/udp/client.rs:153-176 | Retransmitting a list of lost packets moves exactly those sent back into the queue; the others are the given-up ones, none if no send failed |
| ClientRuns.Conservation | src/performance/udp/client.rs:82-184 | Over every run, whatever arrives and whichever sends fail: payloads accepted = acknowledged + in flight + given up as multisets, in bytes and in packets, the four counters being those sums; every stored packet decodes to its own number |
| ClientRuns.NothingDropped | src/performance/udp/client.rs:153-176 | Over every run, packets are given up if and only if the socket refused a retransmission; refused first transmissions give up nothing |
| ClientRuns.InFlightAccounting | src/performance/udp/client.rs:607-608 | Sent minus acknowledged is the in-flight queue plus what was given up, in bytes and packets; bytes, packets and payloads are exactly those in flight if and only if no retransmission was refused |
| ClientRuns.AckCallFailsIff | src/performance/udp/client.rs:153-183 | Processing an ACK fails if and only if the socket refuses one of the retransmissions it calls for |
| ClientRuns.RttSampleExact | src/performance/udp/protocol.rs:230-237 | The recorded round trip in microseconds: 1000 without echo, else the time since the echo, zero when the clock is not past it |
| ClientRuns.RefusedRetransmissionDrops | src/performance/udp/client.rs:157-168 | A run of one send and one ACK that gives its packet up: nothing in flight, nothing acknowledged, counters one packet apart |
| ClientControl.ControllerRun | src/performance/udp/client.rs:107-154 | The controller inside a sender is in the state of a controller run on the events the calls produced, so every controller theorem holds of senders |
| ClientControl.EventsInOrder | src/performance/udp/client.rs:107-154 | Those events have non-decreasing times when the sender's clock does |
| ClientControl.AckCallNeverEntersProbeRtt | src/performance/udp/client.rs:142-154 | An ACK call that acknowledges a packet never moves the sender into ProbeRtt, although it handles losses too |
| ClientControl.CountersAgree | src/performance/udp/client.rs:107-150 | In every run client and controller count the same packets and there is one RTT sample for each acknowledged packet |
| ClientControl.SenderStartup | src/performance/udp/congestion.rs:251-255 | A whole sender is out of Startup by its 2245th acknowledged packet and not before its 13th |
| ClientControl.NoUnderflow | src/performance/udp/client.rs:608 | The subtraction of the upload loop never underflows, in any run |
| ClientControl.InFlightBound | src/performance/udp/client.rs:605-646 | In every run whose sends pass the window check, bytes in flight stay below the largest window plus one datagram |
| ClientEarly.EarlySender | src/performance/udp/client.rs:107-154 | A sender in its first ten seconds: window at most its initial value or two of its largest packets; with packets of at most 2800 bytes it is in Startup if and only if at most 12 packets are acknowledged |
| ClientEarly.EarlyInFlightBound | src/performance/udp/client.rs:605-646 | In an upload of at most ten seconds bytes in flight stay below the initial window or two packets, plus one datagram |
| ClientControl.WindowStaysClosed | src/performance/udp/client.rs:607-610 | Once the bytes given up reach the largest window, the window check fails in every later state |
| ClientControl.PacerRun | src/performance/udp/client.rs:97-114 | The pacer inside a sender follows the schedule of its send attempts; retransmissions never reach it |
| ClientControl.PacerStep | src/performance/udp/client.rs:97-114 | A call moves the schedule only by its send attempt, header included, and sets the rate exactly when it succeeds; a failed or undecodable call leaves the rate alone |
| ClientControl.SendRateBound | src/performance/udp/client.rs:97-114 | Bytes sent after a first send are at most R times the scheduled time when the rate never exceeded R |
| ClientControl.SenderWaitsAreShort | src/performance/udp/client.rs:97-101 | In every run of a sender that sleeps as told, whatever arrives and whichever sends fail, no sleep exceeds its packet size over the current rate, hence size/1000 seconds |
| ClientControl.PacerRateCap | src/performance/udp/client.rs:112-114 | If the bandwidth estimate never exceeds bw, every attempt is paced at most at max(1000, 2.77 bw) |
| ClientControl.PacedByBandwidth | src/performance/udp/client.rs:97-114 | Controller and pacer together: bytes sent after the first attempt are at most max(1000, 2.77 bw) times the scheduled time |
| ClientControl.PacerFollowsController | src/performance/udp/client.rs:112-114 | Until a retransmission is refused the pacer runs at the controller's current sending rate; refused first transmissions do not matter |
| ClientControl.PacerRateOfRun | src/performance/udp/congestion.rs:320-322 | In such runs the pacer's rate is the controller's pacing rate where that is at least 1000 and 1000 otherwise, and never below the bandwidth estimate divided by 2.77 |
| ClientOrder.SendSequenced | src/performance/udp/client.rs:82-121 | A send, successful or not, at any clock readings, keeps numbers in flight increasing, above everything acknowledged, and allocated |
| ClientOrder.AckSequenced | src/performance/udp/client.rs:124-184 | So does an ACK with all its retransmissions, when it names a number the client has used |
| ClientOrder.SendTimed | src/performance/udp/client.rs:82-121 | A send at a clock that has not stepped back keeps send times in order along the queue and not after the clock |
| ClientOrder.AckTimed | src/performance/udp/client.rs:124-184 | So does an ACK with all its retransmissions |
| ClientAcks.NextAckIsHighestIff | src/performance/udp/client.rs:84-89 | At every moment of a run the sender's next packet acknowledges the highest number received, if and only if datagrams arrive in the order of their numbers |
| ClientAcks.InOrderAcksAreHighest | src/performance/udp/client.rs:157-164 | In that case every packet put on the wire, retransmissions included, acknowledges the highest number received |
| Upload.RunUpload | src/performance/udp/client.rs:605-646 | The loop, with any clock readings, ends in the state of its specification, whose turns UploadTurn fixes, with bytes in flight non-negative and below the largest window plus one datagram |
| Upload.BytesInFlight | src/performance/udp/client.rs:607-608 | The loop's difference is defined, and is the size of the queue if and only if no retransmission was refused |
| Upload.UploadIsGuardedRun | src/performance/udp/client.rs:605-646 | Every upload is a run of the sender in which each send passed the window check |
| Upload.UploadTurn | src/performance/udp/client.rs:605-646 | From any point of any upload a turn sends if and only if bytes in flight are below the window, then takes the datagram that came in unless the send failed, and a failed send ends the upload |
| Upload.UploadEndsWithFailure | src/performance/udp/client.rs:621-630 | The calls of an upload end exactly with its first failed send |
| Upload.UploadBound | src/performance/udp/client.rs:605-646 | Between any two calls of any upload, window and bytes in flight are within their bounds |
| Upload.UploadStalls | src/performance/udp/client.rs:605-646 | An upload that has given up as many bytes as the largest window never sends again |
| Congestion.BbrCongestionControl.CanSend | src/performance/udp/congestion.rs:328-330 | A send is allowed exactly below the window; UploadTurn says what the loop makes of it |
| Server.StpServer.constructor | src/performance/udp/server.rs:58-64 | A server starts without sessions |
| Server.StpServer.SendTo | src/performance/udp/server.rs:51-55 | Takes the next number of that session, hands one datagram to the socket and leaves other sessions alone |
| Server.StpServer.SendInFragments | src/performance/udp/server.rs:258-307 | The fragment loop makes the attempts of SendFragments, whose sizes FragmentsUnderErrors bounds |
| Server.StpServer.SendBurst | src/performance/udp/server.rs:214-312 | The ten rounds make the attempts of Burst, whose totals BurstExact and BurstUnderErrors give |
| Server.StpServer.HandleStpPacket | src/performance/udp/server.rs:97-316 | Session map and datagrams sent are those of HandleDatagram, for which accounting, numbering and genuineness of ACKs are proved; an undecodable datagram changes nothing |
| ServerRuns.ParseFormat | src/performance/udp/server.rs:119-120 | Parsing the decimal text of any 64-bit number gives the number |
| ServerRuns.DownloadRoundTrip | src/performance/udp/client.rs:454 | The request the client formats puts the session in download mode with exactly that size, for every size |
| ServerRuns.UnparsableKeepsSize | src/performance/udp/server.rs:111-141 | A request without a parsable size, with or without the colon, sets download mode and leaves the rest of the session, the size included |
| ServerRuns.ParseDigitsValue | src/performance/udp/server.rs:119-120 | The size parser accepts exactly the digit strings whose decimal value fits 64 bits, leading zeros included, and returns that value |
| ServerRuns.ParseUsizeValue | src/performance/udp/server.rs:119-120 | The server accepts as a size exactly a decimal numeral that fits 64 bits, with or without one plus sign |
| ServerRuns.FormatValue | src/performance/udp/client.rs:454 | What the client writes is the decimal numeral of the size without leading zeros |
| ServerRuns.CommandText | src/performance/udp/server.rs:112-119 | The command matched and sent is the ASCII text DOWNLOAD with a colon |
| ServerRuns.DownloadStateOfRun | src/performance/udp/server.rs:111-141 | After any run a client's size is the last one that parsed among its own requests, 1024 only if none did, and it is in download mode exactly if it ever sent a request |
| ServerRuns.UnparsableAnsweredWithOldSize | src/performance/udp/server.rs:128-134 | A run: after a request for n bytes, a bare DOWNLOAD is answered with ten times n bytes, for any n |
| ServerRuns.HandleOnePacket | src/performance/udp/server.rs:104-316 | Exactly the first datagram is an ACK, echoing number and timestamp, and all others carry zeros; numbers continue without gap over ACK and burst; counters grow by this packet; download mode is not left |
| ServerRuns.BurstAnsweredIff | src/performance/udp/server.rs:205-222 | For every session and payload: the ACK is followed by a burst if and only if the socket accepted it and the session is, or now becomes, a download session; over an error-free socket that burst is ten times the session size, for requests and other packets alike |
| ServerRuns.DatagramAnswered | src/performance/udp/server.rs:97-316 | An undecodable datagram is ignored and creates no session; any other creates or keeps its own session only and is answered with a burst exactly under that condition |
| ServerRuns.BurstExact | src/performance/udp/server.rs:222-312 | An error-free burst carries exactly rounds times the requested size, in ceil(size/1400) fragments of 1 to 1400 bytes per payload above 1400 |
| ServerRuns.DownloadAnswered | src/performance/udp/server.rs:104-316 | A formatted request over an error-free socket is answered by one ACK and ten times the requested bytes |
| ServerRuns.BurstUnderErrors | src/performance/udp/server.rs:222-312 | Nothing follows a refused datagram in a burst if and only if the payload is a single packet or every fragment of all payloads but the last was accepted; an unfragmented burst ends at its first refusal, a fragmented one attempts every round |
| ServerRuns.RefusedFragmentDoesNotStop | src/performance/udp/server.rs:292-298 | With 1401 bytes requested and the first fragment refused, all ten payloads are still attempted |
| ServerRuns.FragmentsUnderErrors | src/performance/udp/server.rs:263-306 | A payload's fragments go out up to the first failure and carry it whole if there is none |
| ServerRuns.FragmentSizes | src/performance/udp/server.rs:263-266 | Fragment i of a payload carries 1400 bytes, the last one the rest |
| ServerRuns.OthersUntouched | src/performance/udp/server.rs:106-109 | A datagram from one address changes no other session |
| ServerRuns.SessionAccounting | src/performance/udp/server.rs:51-55 | Over every run, byte and packet counters are sums over this client's decodable datagrams, and everything sent to it is numbered 1 to n without gap or repeat |
| ServerRuns.DownloadModeStays | src/performance/udp/server.rs:112-114 | Download mode once set stays set, whatever arrives |
| StpSystem.SystemInvariant | src/performance/udp/client.rs:124-184 | In every world reachable over a network that loses, duplicates and reorders, at any clock readings: the queue is in order and stored properly, each number was sent at most once, every ACK names a packet the server received and echoes its timestamp, the largest acknowledged number is one the server received, and every recorded RTT sample comes from the timestamp of a received packet |
| StpSystem.AckEffect | src/performance/udp/protocol.rs:187-218 | Any ACK delivery in a reachable world, at any clock reading: it names a used number, a stale one acknowledges nothing, loss is by timeout only, and the queue is cut in three consecutive pieces if and only if its ages are in order |
| StpSystem.AckedBoundedByReceived | src/performance/udp/server.rs:196-202 | Each acknowledged number is at most one the server received |
| StpSystem.EchoGenuine | src/performance/udp/server.rs:196-202 | An ACK that names a packet belongs to the only datagram ever sent under that number, and its echo is the timestamp in that datagram, at any clock readings |
| StpSystem.HistoryGenuine | src/performance/udp/client.rs:142-145 | Every recorded RTT sample was computed from the timestamp of a packet the server received |
| StpSystem.ReachableAckOrder | src/performance/udp/protocol.rs:187-218 | In every reachable world ACK order does not matter while nothing is timed out, by age or by a clock behind a send time |
| StpSystem.ClientAcksGenuine | src/performance/udp/client.rs:84-89 | Everything the client sends acknowledges nothing or a server packet delivered to it, with that packet's timestamp |
| StpSystem.SelectiveAckMeansReceived | src/performance/udp/server.rs:196-202 | If no older packet is in flight, what an ACK acknowledges did reach the server, byte for byte |
| StpClock.ClockInvariant | src/performance/udp/protocol.rs:183-211 | With a forward client clock: send times are in order along the queue, everything sent is stamped between start and now, and every recorded RTT sample is exact |
| StpClock.AckCutsByAge | src/performance/udp/protocol.rs:187-218 | With a forward clock every ACK delivery cuts the queue in three consecutive pieces and loses exactly what is newer than the ACK and more than a second old |
| StpClock.RttGenuine | src/performance/udp/client.rs:131-135 | With a forward clock the RTT sample of an ACK is exactly the time since the timestamp of the only packet sent under the number it names, never negative |
| StpClock.HistoryExact | src/performance/udp/client.rs:142-145 | With a forward clock started after the epoch, each recorded RTT sample is exactly the time from the timestamp of a received packet to a later reading; the 1 ms default is never recorded for an unknown round trip |
| StpClock.AcknowledgedNeedNotBeReceived | src/performance/udp/protocol.rs:199-201 | In general it need not, even with a forward clock: a reachable world with two packets counted as acknowledged, nothing in flight, and one of them never received |
| Latency.CountsAddUp | src/report/result/latency.rs:17-40 | Successful and dropped measurements add up to all, and the successful ones are the values |
| Latency.AvgRtt | src/report/result/latency.rs:43-59 | The one-pass loop gives the mean of the successful measurements, nothing if there are none |
| Latency.MinRtt | src/report/result/latency.rs:62-66 | Nothing exactly when nothing was measured, else a measured value that is a lower bound of all |
| Latency.MaxRtt | src/report/result/latency.rs:94-98 | Nothing exactly when nothing was measured, else a measured value that is an upper bound of all |
| Latency.AverageWithin | src/report/result/latency.rs:43-59 | minimum <= average <= maximum |
| Latency.VarianceBound | src/report/result/latency.rs:107-110 | The variance is at most (max - avg) * (avg - min) |
| Latency.VarianceExact | src/report/result/latency.rs:107-110 | n times the variance is the sum of squares less n times the squared average |
| Latency.JitterBound | src/report/result/latency.rs:102-111 | Jitter is at most half the range |
| Latency.NoJitter | src/report/result/latency.rs:102-111 | Jitter is zero if and only if all values are equal |
| Latency.RankInBounds | src/report/result/latency.rs:80-90 | The rounded index is in bounds and agrees with both special cases |
| Latency.PercentileRtt | src/report/result/latency.rs:70-91 | The program's case split computes Percentile, which PercentileByCount pins to one value for every n |
| Latency.PercentileIsMeasured | src/report/result/latency.rs:70-91 | A result exists exactly for 0 <= n <= 100 with something measured; it is a measured value, the minimum at 0 and the maximum at 100 |
| Latency.PercentileByCount | src/report/result/latency.rs:88-90 | With k the rounded index, at most k measurements are below the percentile and more than k are at or below it |
| Latency.MedianOfThree | src/report/result/latency.rs:88-90 | The median of 1, 2 and 3 is 2 in whatever order they were measured |
| Latency.PercentileMonotone | src/report/result/latency.rs:88-90 | A higher percentile is never a smaller value |
| Latency.PercentileOrderFree | src/report/result/latency.rs:78-90 | The order of the measurements does not matter |
| Latency.MedianOfTwoIsNotNearestRank | src/report/result/latency.rs:88-89 | The median of two values is not the nearest-rank one |
| Latency.NearestRankIff | src/report/result/latency.rs:88-89 | The index is the nearest rank if and only if the fractional part of p*count is within half a step of p, or, for a whole rank, n is above 50 |
| Latency.NearestRankWithinOne | src/report/result/latency.rs:88-89 | The index is the nearest rank or one above it up to n = 50, the nearest rank or one below it beyond |

## Left out

- Upload.RunUpload: the loop ends with its script of environment turns, not with a clock test; measurements and statistics channels are omitted.
- Recovery.LossRecovery.OnAckReceived: the age wraps as in a release build; a debug build would stop with an overflow error instead.
- Pacing.Pacer.ScheduleNextSend: durations are reals, without rounding to nanoseconds.
- Congestion.BandwidthFilter.Update: `now - filter_len` of the monotonic clock can fail within two seconds of boot; times here are unbounded reals.
- Server.StpServer.HandleStpPacket: sessions are values in a map, not shared mutable entries behind a lock; nothing removes an entry, so the "client disconnected" branches do not occur.
- Latency.PercentileRtt: sorting is by an insertion sort on values, specified as the sorted permutation; measurements are real numbers, so NaN and infinite values are not covered.
- Latency.JitterBound: the square root is characterised (non-negative, its square is the variance), not computed.
- StpSystem.SystemInvariant: assumes fewer than 2^64 packet numbers.
- Sockets, the async runtime, sleeps and the `PacedSend` future: replaced by parameters for clock readings and send outcomes.
- `ack_timestamps` (written, never read), `debt` (never changed), `start_time`, `last_report` and `download_start_time` (reporting only), `PING` detection (logged only).
- The average RTT of `get_stats`, logging, progress bars, measurement lists.
- IEEE rounding and the overflow of 64-bit byte tallies.
- Truncation of datagrams beyond 2048 bytes by the receive buffers.
- The latency and download loops of the client; the request text of the download is included.
- TCP, HTTP and TLS tests, `ThroughputResult`, reports, export, command line and configuration.
- Convergence or fairness of BBR on a real link, which the code does not decide.
