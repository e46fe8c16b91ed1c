# A verified model of the smart sensor network

Sensor nodes send telemetry and heartbeats over UDP to a gateway. The gateway keeps a registry of
sensors, a watchdog marks sensors offline that have been silent for more than ten seconds, a logger
collects messages on its own thread, and a TCP server answers monitoring commands. This project
models those parts in Dafny and proves what holds over every run, every interleaving and every byte
string, including the exact conditions under which the program departs from what it is meant to do.

`dafny verify dfyconfig.toml` checks everything.

## Structure

| file | contents |
|---|---|
| `Protocol.dfy` | integer widths, message records, constants, wrapping subtraction |
| `BigEndian.dfy` | big-endian integers of every width, and the write and read loops |
| `PacketSerializer.dfy` | the two packet formats, encoding and decoding |
| `GatewayModel.dfy` | gateway state, its three kinds of step, runs |
| `GatewayRuntime.dfy` | the gateway object, each method proved to be one step |
| `GatewayHistory.dfy` | what an entry says about the run; timed detection; heartbeat age |
| `GatewayAlgebra.dfy` | independence of sensors, commuting packets, scans, announcements |
| `Watchdog.dfy` | the watchdog split into clock sample and locked scan, interleaved with handlers |
| `WatchdogTiming.dfy` | timed detection by the split watchdog |
| `WatchdogRuns.dfy` | exactly which gateway runs the split watchdog produces |
| `WireRefinement.dfy` | datagram streams as gateway runs |
| `SensorNode.dfy` | the node's two-timer polling loop |
| `SlowestNode.dfy` | the passes that make a polled timer as slow as it can be |
| `HeartbeatSafety.dfy` | timer, lossy network and watchdog together: when a live sensor is never offline |
| `Delivery.dfy` | the same from the bytes the node's loop emits, packet by packet |
| `EndToEnd.dfy` | the same with the watchdog split: false alarms exactly where a sample is overtaken |
| `Logger.dfy` | the logger object and its producer/worker/stop protocol |
| `Monitor.dfy` | statistics from four separate reads, the sorted sensor list |
| `TcpServer.dfy` | request normalisation, `get <id>` parsing, dispatch |
| `BatterySensor.dfy` | the battery over all drain sequences |

## Main results

* **Health is history.** With no assumption on the clock, every field of a registry entry is read off
  the run: `EntryIsHistory`. With a positive clock that never goes back this becomes the intended
  meaning of UNKNOWN, ONLINE and OFFLINE (`HealthIsHistory`), with two-sided timing at every moment,
  however late the watchdog starts (`BoundedDetection`), and agreement with the reported age
  (`AgeAgreesWithHealth`).
* **Sensors are independent.** A sensor's entry and its log lines depend only on its own packets and the
  scans (`ProjectionDecides`), so interleavings that agree sensor by sensor agree
  (`SameProjectionsSameRegistry`).
* **The watchdog's window.** The clock is sampled before the lock. In every interleaving, a scan wrongly
  marks a live sensor if and only if that sensor's last heartbeat was handled between the sample and the
  lock with a later stamp (`FalseOfflineIffHeartbeatInWindow`); sampling under the lock would rule it out
  (`SampleUnderLockIsNeverWrong`). The runs this machine can produce are characterised exactly
  (`SplitRunsAreAdmissible`), and with samples P apart and commits within L a silent sensor is OFFLINE after
  h + 10000 + P + L, and OFFLINE before h + 10000 if and only if it was overtaken
  (`DetectionOfTheSplitWatchdog`).
* **No false alarms, exactly when.** Take a node with interval H ms whose polls are at most g apart, a delay of at
  most d, at most k heartbeats lost in a row, and clocks of R ticks per millisecond (g and d in ticks). A live
  sensor is never offline in any scenario if and only if (k+1)(H·R−1+g)+d ≤ 10000·R (`SafeIffWithinTimeout`).
  With g and d in milliseconds, it is safe at every resolution if and only if (k+1)(H+g)+d ≤ 10000
  (`SafeAtEveryResolution`); with the default H = 5000 that means k = 0 and g+d ≤ 5000
  (`DefaultsTolerateNoLoss`). The same condition is exact for the very bytes the node's loop emits, delivered and
  dispatched packet by packet (`DeliverySafeIffWithinTimeout`).
* **The whole chain.** With the real, split watchdog, a live sensor within that bound is shown OFFLINE at some
  point of an interleaving if and only if some scan is about to commit with the sensor ONLINE and its stamp
  later than the sample (`LiveSensorOfflineIffOvertaken`).
* **Bytes to state.** The codec loops are correct for every width, both directions of the packet round trip
  hold on all inputs, a datagram stream is exactly a run of the accepted steps, and what a node's loop emits is
  read by the gateway as exactly the measurements of its passes (`EmissionsTellPasses`).
* **Readers.** Whatever happens between the four reads of the statistics, each field is read off the run before its
  own read (`TornStatsAreExact`). Every `get` request gets the answer its number calls for (`GetAnswersNumber`).
* **Logger.** Messages are conserved and history is the last 15 lines in every interleaving. While the logger runs
  no message is stuck: a worker asleep on a non-empty queue has a notification still to come
  (`QueueIsDrainedIffAwake`, `NoMessageIsStuck`). `stop`
  flushes what was logged before it if and only if the worker was not just about to test the flag (or
  nothing was queued), and it can return on its own if and only if its notification did not fall between the
  worker's predicate check and its wait.

## Where the code departs from its documentation

* `include/common/TimeUtils.hpp:11` calls the clock monotonic, but `system_clock` can be set back. The clock is
  an input here, and results that need it to be monotone say so.
* `include/monitor/Logger.hpp:56` promises that all queued messages are printed before shutdown. The worker
  discards messages instead of printing them, and may leave some in the queue; `popped` stands for "printed".
* `getStats` never fills in the `unknown` count (`HealthAddsUpIffAllHeard`).
* An id above 2^31 − 1, or 0, can be registered and is listed, but `get` refuses it (`GetAnswersListedId`).
* Nothing catches the decoder's exception between the socket and the thread function in `main.cpp:83-88`, so a
  packet too short for its type terminates the whole process (`ReceiveAll`).
* `src/sensor/PressureSensor.cpp:24` tests its range with `||`, which is always true, where its test uses `&&`.

## Model

| member | source | states |
|---|---|---|
| Protocol.Elapsed | src/gateway/Gateway.cpp:96 | unsigned 64-bit subtraction: the true difference when in order, wrapped otherwise |
| BigEndian.Buffer.Write | src/network/PacketSerializer.cpp:19-26 | for every width the loop appends exactly the value's big-endian digits |
| BigEndian.Cursor.Read | src/network/PacketSerializer.cpp:29-45 | for every width: underflow exactly on too few bytes, offset then unmoved; otherwise the denoted number, never truncated |
| BigEndian.DigitAt | src/network/PacketSerializer.cpp:22-25 | each digit is what the shift and mask at that position extracts |
| BigEndian.ValueOfDigits | src/network/PacketSerializer.cpp:19-45 | reading back a written value that fits the width gives the value |
| BigEndian.DigitsOfValue | src/network/PacketSerializer.cpp:19-45 | writing back what was read gives the same bytes |
| PacketSerializer.WriteHeader | src/network/PacketSerializer.cpp:80-85 | appends type, id and timestamp in this order |
| PacketSerializer.ReadHeader | src/network/PacketSerializer.cpp:68-77 | succeeds exactly with 13 bytes left, and reads the three fields |
| PacketSerializer.SerializeHeartbeat | src/network/PacketSerializer.cpp:116-128 | produces the heartbeat format |
| PacketSerializer.SerializeTelemetry | src/network/PacketSerializer.cpp:91-111 | produces the telemetry format |
| PacketSerializer.DeserializeHeartbeat | src/network/PacketSerializer.cpp:149-157 | field-by-field reading is decoding of the format, with the same failures |
| PacketSerializer.DeserializeTelemetry | src/network/PacketSerializer.cpp:133-144 | field-by-field reading is decoding of the format, with the same failures |
| PacketSerializer.PeekMessageType | src/network/PacketSerializer.cpp:162-167 | needs the whole header, returns the type byte |
| PacketSerializer.WireLayout | README.md:126-163 | every field sits at its documented offset as its big-endian digits, and a heartbeat is the header alone |
| PacketSerializer.HeartbeatRoundTrip | src/network/PacketSerializer.cpp:116-157 | decoding an encoded heartbeat gives it back, whatever follows |
| PacketSerializer.TelemetryRoundTrip | src/network/PacketSerializer.cpp:91-144 | decoding encoded telemetry gives it back bit for bit, whatever follows |
| PacketSerializer.HeartbeatReencodes | src/network/PacketSerializer.cpp:149-167 | heartbeat decoding and peek succeed iff 13 bytes are there, and re-encoding gives those bytes |
| PacketSerializer.TelemetryReencodes | src/network/PacketSerializer.cpp:133-144 | telemetry decoding succeeds iff 23 bytes are there, and re-encoding gives those bytes |
| GatewayRuntime.Gateway.UpdateSensorInfo | src/gateway/Gateway.cpp:44-53 | one telemetry step: stored message, stamp and counter, nothing else |
| GatewayRuntime.Gateway.HandleHeartbeat | src/gateway/Gateway.cpp:58-67 | one heartbeat step: stamp, ONLINE and counter, nothing else |
| GatewayRuntime.Gateway.HandlePacket | src/gateway/Gateway.cpp:17-39 | a decodable packet of listed type is its step; every other one changes no state; unknown types are logged |
| GatewayRuntime.Gateway.DetectOfflineSensors | src/gateway/Gateway.cpp:82-108 | in every iteration order the loop is the pointwise scan, and logs exactly the sensors it takes from not OFFLINE to OFFLINE, each once |
| GatewayRuntime.Gateway.GetSecondsSinceLastHeartbeat | src/gateway/Gateway.cpp:113-131 | the age reply, 0 for unknown sensors and for sensors without heartbeat |
| GatewayHistory.EntryIsHistory | src/gateway/Gateway.cpp:44-108 | for every run: who is registered, stamps, last telemetry in arrival order, UNKNOWN iff no heartbeat, OFFLINE iff a later scan computed an elapsed time above the timeout |
| GatewayHistory.HealthIsHistory | src/gateway/Gateway.cpp:44-108 | with a monotone clock: the intended meaning of the three health values, and UNKNOWN iff stamp 0 |
| GatewayHistory.BoundedDetection | src/gateway/Gateway.cpp:82-108 | with scans at most P apart from the watchdog's start s on: ONLINE up to h+10000, OFFLINE after max(h+10000, s)+P, at every moment of every run |
| GatewayHistory.LastSampleIsRecent | main.cpp:128-133 | within a regular scan schedule no moment is more than a period after the last scan |
| GatewayHistory.AgeIsHistory | src/gateway/Gateway.cpp:113-131 | on every run, whatever the clock did: whole seconds of the wrapping difference to the last heartbeat's stamp, 0 without one |
| GatewayHistory.AgeIsExact | src/gateway/Gateway.cpp:113-131 | in every monotone run the age is the whole seconds since the last heartbeat |
| GatewayHistory.AgeAgreesWithHealth | src/gateway/Gateway.cpp:82-131 | an OFFLINE sensor reports at least 10 s, one reporting at most 9 s is not OFFLINE |
| GatewayHistory.TornRowMeansNewHeartbeat | src/monitor/Monitor.cpp:18-56 | a listed row with OFFLINE and an age under 10 s means a heartbeat arrived between the two reads |
| GatewayAlgebra.ProjectionDecides | src/gateway/Gateway.cpp:44-108 | a sensor's entry and announcements equal those of the run filtered to its packets and the scans |
| GatewayAlgebra.SameProjectionsSameRegistry | src/gateway/Gateway.cpp:44-108 | runs that agree sensor by sensor end in the same registry |
| GatewayAlgebra.IndependentPacketsCommute | src/gateway/Gateway.cpp:44-67 | swapping packets of different sensors, or telemetry and heartbeat of one, anywhere in a run changes nothing |
| GatewayAlgebra.ScanIsIdempotent | src/gateway/Gateway.cpp:89-107 | a repeated scan changes and logs nothing |
| GatewayAlgebra.EarlierScanIsAbsorbed | src/gateway/Gateway.cpp:89-107 | two scans are one at the later sample when no stamp is later than the first, and announce the same, split |
| GatewayAlgebra.StaleScanIsNotAbsorbed | src/gateway/Gateway.cpp:89-107 | a registry on which that fails without the hypothesis |
| GatewayAlgebra.AnnouncedIffTurnsOffline | src/gateway/Gateway.cpp:96-104 | a scan announces a sensor iff it takes it from not OFFLINE to OFFLINE |
| GatewayAlgebra.AnnouncementsAreTransitions | src/gateway/Gateway.cpp:96-104 | over every run, the number of offline log lines of a sensor is the number of steps that take it from not OFFLINE to OFFLINE |
| GatewayAlgebra.AnnouncementsNeedHeartbeats | src/gateway/Gateway.cpp:58-108 | offline announcements plus one if ONLINE never exceed the heartbeats |
| GatewayAlgebra.HeartbeatBetweenAnnouncements | src/gateway/Gateway.cpp:96-104 | between two offline announcements of a sensor there is a heartbeat of it |
| Watchdog.LineariseIsFaithful | src/gateway/Gateway.cpp:82-108 | every interleaving of the split scan is a gateway run, in the order of the critical sections, whose scan samples may be stale |
| Watchdog.WronglyMarkedIffOvertaken | src/gateway/Gateway.cpp:91-101 | a scan marks a sensor offline that was heard within the timeout iff it is ONLINE with a stamp later than the sample (short of 2^64 ms) |
| Watchdog.FalseOfflineIffHeartbeatInWindow | src/gateway/Gateway.cpp:84-96 | in every legal interleaving, wrong iff the last heartbeat fell between sample and lock with a later stamp |
| Watchdog.SampleUnderLockIsNeverWrong | src/gateway/Gateway.cpp:84-87 | sampling directly before the scan never marks a live sensor |
| Watchdog.OvertakenSampleWitness | src/gateway/Gateway.cpp:84-101 | a legal run in which a sensor heard from a millisecond ago goes offline |
| WatchdogTiming.CommittedIsRecent | main.cpp:124-134 | with samples at most P apart and commits within L, the last committed sample is at most P + L old at every moment |
| WatchdogTiming.LateSampleMeansOffline | src/gateway/Gateway.cpp:82-108 | in every interleaving, a committed sample more than the timeout after the last heartbeat has left the sensor OFFLINE |
| WatchdogTiming.OfflineEarlyIffOvertaken | src/gateway/Gateway.cpp:82-108 | in every interleaving, up to the timeout after its last heartbeat a sensor is OFFLINE iff a scan since then was overtaken, ONLINE otherwise |
| WatchdogTiming.YoungOfflineIffOvertaken | src/gateway/Gateway.cpp:82-131 | a sensor reporting an age under 10 s is OFFLINE iff a scan since its last heartbeat was overtaken |
| WatchdogTiming.DetectionOfTheSplitWatchdog | src/gateway/Gateway.cpp:82-108 | timing at every moment of every interleaving: early OFFLINE iff overtaken, OFFLINE for certain after max(h+10000, start)+P+L |
| WatchdogRuns.SplitRunsAreAdmissible | src/gateway/Gateway.cpp:82-108 | the runs that interleavings amount to are exactly those whose packets obey the clock and whose samples are no older than anything up to the scan before |
| WatchdogRuns.SplitStatesAreAdmissible | src/gateway/Gateway.cpp:82-108 | the gateway states between scans that interleavings reach are exactly those of such runs |
| WireRefinement.DispatchIsExact | src/gateway/Gateway.cpp:17-33 | a packet is acted on as a step iff it starts with the encoding of that step's message |
| WireRefinement.DispatchTable | include/common/ProtocolTypes.hpp:42-46 | every byte string: type 1 with 23 bytes is telemetry, type 2 with 13 bytes a heartbeat, each field the big-endian number at its offset; anything else is nothing |
| WireRefinement.IgnoredPackets | src/gateway/Gateway.cpp:17-39 | a packet carries nothing iff it is too short (13, or 23 for telemetry) or of unlisted type |
| WireRefinement.StreamIsRun | src/gateway/Gateway.cpp:17-67 | handing over a stream, throws counting as rejections, is the run of its accepted steps |
| WireRefinement.ReceiveAll | src/network/UdpReceiver.cpp:81-97 | the gateway runs the accepted steps up to the first packet that throws, which ends the process; the process survives iff none throws |
| WireRefinement.WireIsTransparent | src/network/PacketSerializer.cpp:91-128 | serialising a run of messages and receiving the bytes is that run |
| WireRefinement.MistypedTelemetryIsHeartbeat | src/gateway/Gateway.cpp:28-33 | a telemetry record with the heartbeat type is acted on as a heartbeat |
| SensorNode.Node.constructor | include/sensor/SensorNode.hpp:37-39 | default intervals of 500 and 5000 ms |
| SensorNode.Node.Tick | src/sensor/SensorNode.cpp:20-29 | sends and returns one telemetry message, each field the one measured |
| SensorNode.Node.SendHeartbeat | src/sensor/SensorNode.cpp:74-85 | sends one heartbeat packet |
| SensorNode.Node.Turn | src/sensor/SensorNode.cpp:41-57 | one turn of the loop: each timer is tested against its own last fire and reset to this pass only if it fires |
| SensorNode.Node.Run | src/sensor/SensorNode.cpp:34-61 | the loop makes passes until it finds its flag cleared, and emits exactly what its two timers demand, telemetry first, each message with its own clock reading |
| SensorNode.Node.EmissionTimes | src/sensor/SensorNode.cpp:45-57 | the sends of each kind are that timer's fires: the timers do not disturb each other |
| SensorNode.FireSpacing | src/sensor/SensorNode.cpp:41-57 | in any unit of time, consecutive fires are at least an interval and at most an interval plus a poll gap less one unit apart, and none is overdue |
| SensorNode.FireCount | src/sensor/SensorNode.cpp:41-57 | the time of the n-th fire lies between n intervals and n strides after the start |
| HeartbeatSafety.LiveSensorNeverOffline | src/gateway/Gateway.cpp:58-108 | at every clock resolution, within the bound a live sensor is never OFFLINE at any point of any run |
| HeartbeatSafety.WorstCaseFits | src/sensor/SensorNode.cpp:34-61 | beyond the bound there is a scenario that meets all hypotheses and goes OFFLINE |
| HeartbeatSafety.SafeIffWithinTimeout | include/common/ProtocolTypes.hpp:6 | at every clock resolution, a setting is safe in every scenario iff (k+1) strides of H·R−1+g ticks plus the delay fit the timeout |
| HeartbeatSafety.SafeAtEveryResolution | src/sensor/SensorNode.cpp:38-57 | a setting in milliseconds is safe at every resolution iff (k+1)(H+g)+d fits the timeout |
| HeartbeatSafety.DefaultsTolerateNoLoss | include/sensor/SensorNode.hpp:37-39 | with the default interval: safe at every resolution iff no loss is possible and gap plus delay is at most 5000 ms |
| Delivery.EmissionsTellPasses | src/sensor/SensorNode.cpp:20-85 | the gateway reads off each emission exactly the measurement and clock reading of the pass that made it, in the order of the passes, telemetry before heartbeat |
| Delivery.EmissionsAreOwnPackets | src/sensor/SensorNode.cpp:20-85 | whatever a node emits, the gateway takes as that sensor's packet, of the right kind and with the fields of a pass at that time |
| Delivery.FeedIsRun | src/gateway/Gateway.cpp:17-39 | datagrams and watchdog turns in any order are the run of the steps they carry |
| Delivery.DeliveryFits | src/network/UdpReceiver.cpp:39-97 | if each emission of the loop is lost or handed over at its arrival, and nobody else speaks for the sensor, the gateway handles its heartbeats exactly at their arrivals: all hypotheses of the no-false-alarm theorem |
| Delivery.DeliveredSensorNeverOffline | src/gateway/Gateway.cpp:17-108 | within the bound, no prefix of the inputs leaves a live node OFFLINE |
| Delivery.WorstDelivery | src/sensor/SensorNode.cpp:34-85 | beyond the bound, a delivery of the node's own bytes leaves it OFFLINE though it is alive |
| Delivery.DeliverySafeIffWithinTimeout | src/sensor/SensorNode.cpp:34-85 | from emitted bytes to shown health: never OFFLINE in every delivery iff (k+1) strides plus the delay fit the timeout |
| EndToEnd.TimelineIsClocked | src/gateway/Gateway.cpp:84-87 | moving every scan to the moment of its sample gives a run that obeys the clock |
| EndToEnd.RecentAtBegin | src/gateway/Gateway.cpp:84-96 | within the bound, a live sensor's last heartbeat is within the timeout whenever a sample is taken |
| EndToEnd.OnlyOvertakenSamplesAnnounce | src/gateway/Gateway.cpp:82-108 | within the bound, a split scan announces a live sensor only if it is ONLINE with a stamp later than the sample |
| EndToEnd.LiveSensorOfflineIffOvertaken | src/sensor/SensorNode.cpp:34-61 | within the bound, a live sensor is OFFLINE at some point of an interleaving iff some scan is about to commit with the sensor ONLINE and its stamp later than the sample |
| Logger.Logger.Log | src/monitor/Logger.cpp:31-44 | appends to the queue; history gains the stamped line and loses its oldest beyond 15; is the protocol's Log step |
| Logger.Logger.Drain | src/monitor/Logger.cpp:62-65 | pops everything, in order; is the worker's own steps until its queue is empty |
| Logger.Logger.Start | src/monitor/Logger.cpp:8-12 | sets the flag, keeps queue and history; is the protocol's Start step |
| Logger.Logger.ClearFlag | src/monitor/Logger.cpp:19 | clears the flag, keeps queue and history; is the first step of `stop` |
| Logger.InvariantsHold | src/monitor/Logger.cpp:8-67 | the protocol's invariants in every reachable state |
| Logger.MessagesAreConserved | src/monitor/Logger.cpp:31-67 | in every interleaving popped plus queued is the messages of all `log` calls, in order |
| Logger.HistoryIsLastFifteen | src/monitor/Logger.cpp:38-43 | in every interleaving the history is the stamped lines of the last fifteen `log` calls, in order |
| Logger.SleeperIsNotified | src/monitor/Logger.cpp:46-60 | in every interleaving, a worker asleep on a non-empty queue has a notification still to come |
| Logger.QueueIsDrainedIffAwake | src/monitor/Logger.cpp:46-66 | in every reachable state with queued messages, the worker alone consumes them all iff it is awake and not about to find the flag cleared; asleep, it does so once notified |
| Logger.NoMessageIsStuck | src/monitor/Logger.cpp:31-67 | while the logger runs, queued messages always have a worker that will drain them, at most one pending notification away |
| Logger.AllConsumedIffQuietSinceDrain | include/monitor/Logger.hpp:53-58 | at worker exit the queue is what was logged since the last drain; all was consumed iff that is nothing |
| Logger.StopFlushesIffNotAtTest | src/monitor/Logger.cpp:17-26 | messages logged before `stop` are all consumed iff the worker was not about to test the flag or nothing was queued |
| Logger.StopHangsOnlyIfNotificationMissed | src/monitor/Logger.cpp:17-60 | after the notification the worker exits on its own unless asleep, and it is asleep only if the notification was missed |
| Logger.StopReturnsIffNotifiedInTime | src/monitor/Logger.cpp:19-25 | right after the notification: `stop` can return unaided iff the worker was not between check and wait |
| Logger.AwakeWorkerExits | src/monitor/Logger.cpp:52-67 | with the flag cleared, an awake worker exits after a computed number of its own steps |
| Logger.MissedNotificationWitness | src/monitor/Logger.cpp:17-60 | a run in which `stop` waits for a sleeping worker |
| Logger.LostMessageWitness | src/monitor/Logger.cpp:17-67 | a run in which a message logged before `stop` is still queued after it |
| Monitor.CountHealthSensors | src/monitor/Monitor.cpp:170-198 | in every iteration order the counts are the sizes of the three health classes |
| Monitor.GetStats | src/monitor/Monitor.cpp:203-216 | the two registry copies and the two counters each go to their own field, `unknown` left at 0 |
| Monitor.CountersCount | src/gateway/Gateway.cpp:44-67 | the packet counters are the numbers of packets modulo 2^64 |
| Monitor.TornStatsAreExact | src/monitor/Monitor.cpp:203-216 | for any steps between the four reads: total, online and offline are the numbers of sensors seen, heard and unexpired, and expired before their own read; the packet fields are the packet counts before theirs, modulo 2^64 |
| Monitor.TornStatsBounds | src/monitor/Monitor.cpp:203-216 | for any steps between the four reads: total within the later snapshot and within the packet counts, online plus offline within the heartbeats |
| Monitor.TornHealthWithinTotalIffNoHeartbeat | src/monitor/Monitor.cpp:203-213 | online plus offline is guaranteed within the total iff no heartbeat is handled between the first two reads |
| Monitor.TornStatsWitness | src/monitor/Monitor.cpp:203-213 | one heartbeat in between shows one sensor online out of none |
| Monitor.HealthAddsUpIffAllHeard | src/monitor/Monitor.cpp:203-216 | the health counts add up to the total iff every registered sensor has sent a heartbeat |
| Monitor.ListIds | src/monitor/Monitor.cpp:18-29 | the list holds every registered id exactly once, ascending |
| Monitor.ListIsUnique | src/monitor/Monitor.cpp:22-29 | so it does not depend on the order of the map |
| TcpServer.TcpServer.ProcessRequest | src/network/TcpServer.cpp:166-224 | strips line ends, records the command, answers it and logs what the code logs |
| TcpServer.StripSplits | src/network/TcpServer.cpp:170-174 | stripping removes line ends only, and all of them |
| TcpServer.CommandTable | src/network/TcpServer.cpp:166-223 | which raw requests, line ends included, get which kind of answer |
| TcpServer.StoiAcceptsShape | src/network/TcpServer.cpp:229-241 | every string of white space, sign, digits and rest parses to its number unless out of range |
| TcpServer.StoiNeedsShape | src/network/TcpServer.cpp:229-241 | no other string parses |
| TcpServer.DecimalRoundTrip | src/monitor/Monitor.cpp:49-50 | the printed decimal denotes the id |
| TcpServer.GetAnswersListedId | src/network/TcpServer.cpp:203-241 | for every id and line ending: ids 1 to 2^31-1 are found iff registered, all others are refused |
| TcpServer.GetAnswersNumber | src/network/TcpServer.cpp:203-241 | every `get` request: a number that is negative, 0 or above 2^31-1, or no number at all, is refused; any other is looked up as that very id |
| TcpServer.LogTestAgreesIffIdsAreConsecutive | src/network/TcpServer.cpp:208-211 | the "not found" log test agrees with the registry iff the ids are exactly 1 to n (all of 1 to 2^31-1 registered, when there are more sensors) |
| BatterySensor.Battery.CollectData | src/sensor/BatterySensor.cpp:14-43 | one drain, clamped at zero, and the state of the new level |
| BatterySensor.LevelIsRemainder | src/sensor/BatterySensor.cpp:14-24 | in every run the level is 100 less all drains, or 0 |
| BatterySensor.BatteryOnlyWorsens | src/sensor/BatterySensor.cpp:14-43 | in every run the level stays in 0 to 100 and never rises, the severity never falls |
| BatterySensor.Timetable | include/sensor/BatterySensor.hpp:12-15 | over all runs: always ACTIVE iff at most 140 measurements, never ACTIVE iff at least 350, never ERROR iff at most 180, always ERROR iff at least 450, always empty iff at least 500 |

## Left out

- Sockets, binding, accept, receive and send loops, file descriptors and error codes: operating-system I/O. The network is a stream of byte strings with arrival times, delays and losses.
- The console renderer and the text layout of the monitor's reports (including the health summary and the details page): presentation only.
- The thread wiring and demo script in `main.cpp`; only its scan period matters here.
- Floating-point rounding: a `double` is a 64-bit word in the codec and a real number in the battery.
- Random numbers: the battery's drain is any value in the stated interval.
- Motion, temperature and pressure sensors and the enum-to-text tables: memoryless, they would only add easy members.
- The C++ memory model: mutex sections, atomic accesses and notifications are sequentially consistent steps.
- Restarting the logger, and calling `stop` before `start`: one start and one stop are modelled.
- HeartbeatSafety.SafeIffWithinTimeout: the node's steady clock and the gateway's wall clock are taken to run at the same rate; an interval and the timeout leave room below 2^64 ms, and the poll gap is at least one tick.
- Delivery.DeliverySafeIffWithinTimeout: under the same two conditions, for a node whose heartbeat interval is counted in ticks; a short packet from another sender counts as dropped here, whereas in the program it ends the process (`ReceiveAll`).
- Monitor.TornStatsBounds: for runs of fewer than 2^64 steps, beyond which the counters wrap (`CountersCount` gives their values then).
