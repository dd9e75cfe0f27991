# Round-trip benchmark core, modelled in Dafny

This project models the core of a zenoh request/ack latency benchmark. It has three parts:

- **Wire format** (`bench_cpp/src/bench_protocol.hpp`). There are two packed headers of unsigned 64-bit fields. A request header holds `seq` and `client_send_mono_ns`: 16 bytes. An ack header holds `seq`, `server_recv_mono_ns` and `server_send_mono_ns`: 24 bytes. The request builder pads to a 1024-byte payload and the ack builder emits exactly 24 bytes. Both parsers reject a buffer shorter than their header and otherwise read its prefix. Module `Wire` models this. It defines the fields' byte layout and proves that parsing inverts building, that a parse reads only the header prefix, and that trailing bytes never matter.
- **Sender** (`bench_cpp/src/bench_pub_rtt.cpp`). The sender makes its startup checks, paces its sends, and keeps the in-flight tracker that the ack callback and the timeout sweep update under one mutex. In count mode (`count > 0`) the tracker is a state table and a send-time table indexed by sequence number. In duration mode it is a map of in-flight sequence numbers to send times. In both modes a FIFO holds the sent sequence numbers. Also modelled:
  - the pending count and the percentile of the final report;
  - the streaming statistics accumulator, which uses Welford's algorithm.

  The modules are:
  - `InflightSpec`: the abstract per-sequence states and the sweep as a pure function.
  - `Inflight`: the storage of both modes as a class over arrays, a map and a sequence. Each method is proved against the abstract view.
  - `SenderSpec`: the counters' invariant.
  - `PubRtt`: the configuration checks, the percentile, and the `RttTracker` class whose methods are the sender's locked regions.
  - `OnlineStatistics`: the accumulator, proved against the two-pass mean and variance.
  - `SeqOrder`: out-of-order counting, shared with the responder.
- **Responder** (`bench_cpp/src/bench_echo_ack.cpp`). The responder callback counts every parsed request and feeds the gap since the previous request to an inter-arrival accumulator. It counts a sequence number that does not exceed the previous one, and answers with an ack echoing the sequence number. Modules `EchoSpec` (the gaps between arrivals) and `EchoAck` (class `Responder`) model it.

Clock readings are integer nanoseconds passed in by the caller. RTTs and inter-arrival gaps are exact differences of those readings. The statistics are exact reals.

The sender's call at `bench_pub_rtt.cpp:281` passes the configured payload size to `make_req_payload`. The header declares only a two-argument form that always pads to 1024 bytes. The model keeps both:
- `Wire.MakeReqPayload` is the header's form.
- `Wire.MakeReqPayloadSized` is the sized form the sender asks for. It has the same layout padded to the configured size, and it equals the header's form when the size is 1024.

## Model

| member | source | states |
|---|---|---|
| Wire.EncodeReqHeader | bench_cpp/src/bench_protocol.hpp:15-19 | a packed request header is 16 bytes: `seq` in bytes 0-7, `client_send_mono_ns` in bytes 8-15 |
| Wire.EncodeAckHeader | bench_cpp/src/bench_protocol.hpp:21-25 | a packed ack header is 24 bytes: `seq`, `server_recv_mono_ns`, `server_send_mono_ns` in declared order, 8 bytes each |
| Wire.DecodeEncodeU64 | bench_cpp/src/bench_protocol.hpp:15-19 | reading back the 8 bytes of a stored 64-bit field gives the field |
| Wire.EncodeDecodeU64 | bench_cpp/src/bench_protocol.hpp:15-19 | every 8-byte group is the stored form of the value it reads as, so no byte pattern is lost |
| Wire.MakeReqPayload | bench_cpp/src/bench_protocol.hpp:31-36 | the request payload is 1024 bytes: the header's fields first, zeros after byte 16 |
| Wire.MakeReqPayloadSized | bench_cpp/src/bench_pub_rtt.cpp:281 | the sender's payload has the configured length, the header's fields first and zeros after; at 1024 bytes it is the header's payload |
| Wire.MakeAckPayload | bench_cpp/src/bench_protocol.hpp:38-45 | the ack payload is exactly 24 bytes holding the three fields in order |
| Wire.ParseReqPayload | bench_cpp/src/bench_protocol.hpp:47-51 | the request parse fails exactly when the buffer is shorter than 16 bytes |
| Wire.ParseAckPayload | bench_cpp/src/bench_protocol.hpp:53-57 | the ack parse fails exactly when the buffer is shorter than 24 bytes |
| Wire.ParseReqIsPrefix | bench_cpp/src/bench_protocol.hpp:47-51 | a request parse of a long enough buffer succeeds, and re-encoding its header gives the buffer's first 16 bytes |
| Wire.ParseAckIsPrefix | bench_cpp/src/bench_protocol.hpp:53-57 | an ack parse of a long enough buffer succeeds, and re-encoding its header gives the buffer's first 24 bytes |
| Wire.ParseReqIgnoresTrailing | bench_cpp/src/bench_protocol.hpp:47-51 | two buffers with the same 16-byte prefix parse to the same request |
| Wire.ParseAckIgnoresTrailing | bench_cpp/src/bench_protocol.hpp:53-57 | two buffers with the same 24-byte prefix parse to the same ack |
| Wire.ReqRoundTrip | bench_cpp/src/bench_protocol.hpp:31-51 | parsing a built request payload, fixed or sized, gives back its sequence number and send time |
| Wire.AckRoundTrip | bench_cpp/src/bench_protocol.hpp:38-57 | parsing a built ack payload gives back its three fields |
| OnlineStatistics.MinOfIsMinimum | bench_cpp/src/bench_pub_rtt.cpp:35 | the tracked minimum is one of the samples and no sample is smaller |
| OnlineStatistics.MaxOfIsMaximum | bench_cpp/src/bench_pub_rtt.cpp:36 | the tracked maximum is one of the samples and no sample is larger |
| OnlineStatistics.ExtremesStep | bench_cpp/src/bench_pub_rtt.cpp:35-36 | one comparison per new sample yields the minimum and the maximum of the extended history |
| OnlineStatistics.WelfordStep | bench_cpp/src/bench_pub_rtt.cpp:37-40 | Welford's incremental mean and M2 equal the two-pass mean and sum of squared deviations of the extended history |
| OnlineStatistics.WelfordUpdate | bench_cpp/src/bench_pub_rtt.cpp:37-40 | the accumulator's four update statements, read as equations, produce the mean and M2 of the extended history |
| OnlineStatistics.SampleVarianceNonNegative | bench_cpp/src/bench_pub_rtt.cpp:43 | the sample variance is never negative |
| OnlineStatistics.OnlineStats.constructor | bench_cpp/src/bench_pub_rtt.cpp:26-31 | a fresh accumulator has seen no samples, with extremes at +inf and -inf |
| OnlineStatistics.OnlineStats.Add | bench_cpp/src/bench_pub_rtt.cpp:33-41 | after `add(x)` the count, mean, M2 and extremes are those of the history extended by `x` |
| OnlineStatistics.OnlineStats.Variance | bench_cpp/src/bench_pub_rtt.cpp:43 | `variance()` is the two-pass sample variance (divisor n-1) of everything added, 0 below two samples, never negative |
| SeqOrder.OutOfOrderAppend | bench_cpp/src/bench_pub_rtt.cpp:211-213 | a new sequence number adds one out-of-order event exactly when an earlier one exists and it does not exceed the latest |
| SeqOrder.OutOfOrderExample | bench_cpp/src/bench_pub_rtt.cpp:211 | the stream 1,2,2,5,3 counts two events: a repeat and a drop |
| SeqOrder.NoneOutOfOrderIffIncreasing | bench_cpp/src/bench_pub_rtt.cpp:211 | no event is counted if and only if the stream is strictly increasing |
| SeqOrder.OutOfOrderBound | bench_cpp/src/bench_pub_rtt.cpp:211 | a stream of n numbers has at most n-1 events |
| SeqOrder.OrderStep | bench_cpp/src/bench_echo_ack.cpp:156-158 | the counter, the latest number and its presence flag keep following the history after each decoded number |
| InflightSpec.CountPartition | bench_cpp/src/bench_pub_rtt.cpp:179 | once every entry is sent, acked + timed out + in flight covers all of them exactly once |
| InflightSpec.SendKeepsQueue | bench_cpp/src/bench_pub_rtt.cpp:274 | pushing the new sequence number keeps the FIFO increasing, bounded, and holding every in-flight number |
| InflightSpec.SendKeepsStorage | bench_cpp/src/bench_pub_rtt.cpp:270-279 | the send step keeps either mode's storage in agreement with the abstract states and send times |
| InflightSpec.ResolveKeepsStorage | bench_cpp/src/bench_pub_rtt.cpp:215-233 | resolving an in-flight entry (mark it in count mode, erase it in duration mode) keeps the storage in agreement |
| InflightSpec.PopKeepsStorage | bench_cpp/src/bench_pub_rtt.cpp:301-303 | popping a resolved front entry keeps every in-flight number in the FIFO |
| InflightSpec.TablePending | bench_cpp/src/bench_pub_rtt.cpp:391-394 | counting in-flight codes over the whole state table counts exactly the in-flight sequence numbers sent |
| InflightSpec.SweepSpec | bench_cpp/src/bench_pub_rtt.cpp:297-328 | the sweep as a function of the states, send times and FIFO: it keeps one state per sequence number and leaves a FIFO no longer than before, holding only sent numbers |
| InflightSpec.SweepPopsFront | bench_cpp/src/bench_pub_rtt.cpp:297-328 | the sweep only removes a prefix of the FIFO; it stops on an empty FIFO or on an in-flight front whose age does not exceed the timeout |
| InflightSpec.SweepChanges | bench_cpp/src/bench_pub_rtt.cpp:305-310 | the only states the sweep changes are in-flight entries it popped and that are strictly older than the timeout; each becomes timed out |
| InflightSpec.SweepResolvesPopped | bench_cpp/src/bench_pub_rtt.cpp:297-328 | no entry the sweep popped is still in flight afterwards |
| InflightSpec.SweepLeavesRest | bench_cpp/src/bench_pub_rtt.cpp:297-328 | entries left in the FIFO keep their state |
| InflightSpec.SweepCounts | bench_cpp/src/bench_pub_rtt.cpp:306-309 | each expired entry moves one unit from in flight to timed out; the acked and unsent counts are unchanged |
| Inflight.InflightTable.constructor | bench_cpp/src/bench_pub_rtt.cpp:192-199 | count mode sizes both tables to `count` with every state unsent; duration mode starts with empty storage |
| Inflight.InflightTable.RecordSend | bench_cpp/src/bench_pub_rtt.cpp:268-279 | the sequence number is the old `sent`, is stamped with its send time, becomes in flight and is queued at the back |
| Inflight.InflightTable.Acknowledge | bench_cpp/src/bench_pub_rtt.cpp:215-229 | an ack matches if and only if its sequence number was sent and is still in flight; a match becomes acked and yields its send time, a non-match changes nothing |
| Inflight.InflightTable.Sweep | bench_cpp/src/bench_pub_rtt.cpp:297-328 | the loop over the FIFO, in either mode, leaves the states and FIFO the sweep function gives and returns its number of timeouts |
| Inflight.InflightTable.SweepTableFront | bench_cpp/src/bench_pub_rtt.cpp:299-312 | one count-mode turn advances the sweep by exactly one step of the sweep function, or ends it where the function stops |
| Inflight.InflightTable.SweepMapFront | bench_cpp/src/bench_pub_rtt.cpp:314-326 | one duration-mode turn advances the sweep by exactly one step of the sweep function, or ends it where the function stops |
| Inflight.InflightTable.Expire | bench_cpp/src/bench_pub_rtt.cpp:307-309 | an expired front entry is recorded as timed out and popped |
| Inflight.InflightTable.CountPending | bench_cpp/src/bench_pub_rtt.cpp:388-398 | the table scan or the map size is the number of in-flight sequence numbers |
| SenderSpec.PacedAppend | bench_cpp/src/bench_pub_rtt.cpp:260-264 | a send not before the next deadline keeps every request on schedule |
| SenderSpec.PacedDeadlines | bench_cpp/src/bench_pub_rtt.cpp:246-264 | on a paced history request i went out no earlier than start + i * interval |
| SenderSpec.SendKeepsTallies | bench_cpp/src/bench_pub_rtt.cpp:268-279 | a send leaves the ack and timeout counters equal to the acked and timed-out counts |
| SenderSpec.AckKeepsTallies | bench_cpp/src/bench_pub_rtt.cpp:220-223 | acking an in-flight number raises the ack counter and the sample count by one each, in step with the states |
| SenderSpec.SweepKeepsTallies | bench_cpp/src/bench_pub_rtt.cpp:306-309 | adding the sweep's expired count to `timeouts` keeps it equal to the timed-out count |
| SenderSpec.SampleKeepsAgreement | bench_cpp/src/bench_pub_rtt.cpp:222-223 | the RTT sample list and the RTT statistics keep describing the same samples |
| PubRtt.CheckConfig | bench_cpp/src/bench_pub_rtt.cpp:154-161 | the configuration is accepted if and only if the rate is positive and the payload holds a request header; a bad rate is reported first, a short payload with a good rate as too small |
| PubRtt.IntervalUs | bench_cpp/src/bench_pub_rtt.cpp:247 | the interval is the largest whole number of microseconds with interval * rate <= 1 s |
| PubRtt.PercentileIndex | bench_cpp/src/bench_pub_rtt.cpp:134-135 | the truncated index for a fraction strictly between 0 and 1 is in range |
| PubRtt.PercentileSorted | bench_cpp/src/bench_pub_rtt.cpp:129-137 | no samples give 0; otherwise the result is a sample, the first for p <= 0 and the last for p >= 1 |
| PubRtt.PercentileWithinRange | bench_cpp/src/bench_pub_rtt.cpp:129-137 | on sorted samples every percentile lies between the smallest and the largest |
| PubRtt.PercentileMonotone | bench_cpp/src/bench_pub_rtt.cpp:129-137 | on sorted samples a larger fraction never gives a smaller percentile |
| PubRtt.PercentileExample | bench_cpp/src/bench_pub_rtt.cpp:134-136 | P50 of 1..5 is 3 |
| PubRtt.RttTracker.constructor | bench_cpp/src/bench_pub_rtt.cpp:177-199 | after accepted checks the tracker starts empty: nothing sent, no acks, timeouts, samples or out-of-order events, and no previous ack sequence number; the interval in ns comes from the truncated microsecond interval |
| PubRtt.RttTracker.SendIteration | bench_cpp/src/bench_pub_rtt.cpp:260-332 | one send-loop turn sends the next number with a payload of the configured size; with a positive timeout the states, FIFO and `timeouts` are then the sweep of the extended history, otherwise the new number is simply in flight and queued; the deadline moves on by one interval, keeping the invariant and the pacing |
| PubRtt.RttTracker.RecordSend | bench_cpp/src/bench_pub_rtt.cpp:266-279 | the locked send step keeps the counters, statistics and pacing invariant |
| PubRtt.RttTracker.SweepTimeouts | bench_cpp/src/bench_pub_rtt.cpp:293-329 | with a positive timeout, states, FIFO and `timeouts` follow the sweep function; otherwise nothing changes |
| PubRtt.RttTracker.OnAck | bench_cpp/src/bench_pub_rtt.cpp:209-233 | every decoded ack feeds the out-of-order check; a matching ack becomes acked, is counted, and records RTT = arrival - send time; any other ack changes nothing else |
| PubRtt.RttTracker.NoteAckOrder | bench_cpp/src/bench_pub_rtt.cpp:211-213 | the out-of-order count rises exactly for a number not above the latest, and the latest is overwritten |
| PubRtt.RttTracker.ResolveAck | bench_cpp/src/bench_pub_rtt.cpp:215-233 | only an in-flight sequence number is resolved, counted and sampled, in either mode |
| PubRtt.RttTracker.RecordRtt | bench_cpp/src/bench_pub_rtt.cpp:221-223 | a matched ack adds one to the ack count and appends its RTT to both the sample list and the statistics |
| PubRtt.RttTracker.OnAckPayload | bench_cpp/src/bench_pub_rtt.cpp:203-233 | a payload shorter than an ack header changes nothing; any other goes through the order check by its decoded sequence number and, if that number is in flight, is acked, counted and sampled at arrival - send time; the FIFO, send times and `timeouts` never change |
| PubRtt.RttTracker.DrainPass | bench_cpp/src/bench_pub_rtt.cpp:338-374 | one drain pass sweeps, leaves the sends, acks, samples and order fields alone, and reports the FIFO empty exactly when it is, which means nothing is in flight |
| PubRtt.RttTracker.CountPending | bench_cpp/src/bench_pub_rtt.cpp:388-398 | pending is the in-flight count, and acks + timeouts + pending equals the number sent |
| EchoSpec.Gaps | bench_cpp/src/bench_echo_ack.cpp:147-154 | n arrivals have n-1 gaps (none for no arrival) |
| EchoSpec.GapsAreDifferences | bench_cpp/src/bench_echo_ack.cpp:147-154 | gap i is the time from arrival i to arrival i+1 |
| EchoSpec.GapsAppend | bench_cpp/src/bench_echo_ack.cpp:147-154 | each arrival after the first adds exactly one gap: the time since the previous arrival |
| EchoSpec.ArrivalStep | bench_cpp/src/bench_echo_ack.cpp:146-154 | a parsed request raises the count and becomes the previous arrival; a gap is sampled unless it is the first request |
| EchoAck.Responder.constructor | bench_cpp/src/bench_echo_ack.cpp:119-125 | the responder starts with no arrivals, no samples and no out-of-order events |
| EchoAck.Responder.OnRequest | bench_cpp/src/bench_echo_ack.cpp:132-164 | a short payload gets no ack and changes nothing; any other is counted, has its arrival, sequence number and gap appended to the kept histories, is order-checked and answered with an ack carrying its sequence number and the two server times |
| EchoAck.Responder.RecordArrival | bench_cpp/src/bench_echo_ack.cpp:145-154 | the count rises, the gap since the previous arrival goes to the statistics (not for the first), and the statistics hold one sample fewer than the count |
| EchoAck.Responder.NoteOrder | bench_cpp/src/bench_echo_ack.cpp:156-158 | the out-of-order count rises exactly for a number not above the latest, and the latest is overwritten |

## Left out

- The zenoh session, publishers, subscribers and `put` calls are not modelled: the callbacks are methods taking the payload, and an ack is returned instead of published.
- Concurrency is not modelled. Each mutex-guarded region is one atomic method call, and the interleavings of the callback threads with the send loop are not.
- Sleeps and the drain phase's time-bounded outer loop are not modelled (`bench_pub_rtt.cpp:335-377`). One pass is `DrainPass`.
- `should_continue` is not modelled. Its signal flag and its duration-mode elapsed-time test are clock and OS inputs; the count-mode bound is the `requires` of `SendIteration`.
- Floating point is not modelled. RTTs and gaps are converted to double microseconds in the source but stay integer nanoseconds here, and the statistics use exact reals with no rounding. `stddev` (a square root), throughput figures and the `double` returned by the percentile are not modelled.
- `OnlineStatistics.OnlineStats.Add`: the count is a `nat`, not a 64-bit counter that could wrap.
- `PubRtt.RttTracker.OnAck`: `ack_received`, `timeouts` and `out_of_order` are unbounded; their 64-bit wrap-around is not modelled.
- `PubRtt.RttTracker.SendIteration`: the clock reading taken after `sleep_until(next_send)` is assumed to be no earlier than the deadline (its `requires sendTp >= nextSend`); the pacing facts `Paced` and `PacedDeadlines` carry this assumption forward rather than derive it from the steady clock.
- `PubRtt.RttTracker.RecordSend`: `sent` and the sequence number are unbounded, and the `requires` stops at 2^64 sends; the wrap of `sent++` after that is not modelled.
- `EchoAck.Responder.OnRequest`: `recv_count` and `out_of_order` are unbounded; 64-bit wrap-around is not modelled. The two server clock readings are parameters, so nothing is stated about their order.
- Byte order and `#pragma pack` are fixed: the model uses the little-endian layout, which is what `memcpy` gives on the usual hosts.
- `parse_args`, usage and progress printing, the summary report and the sort before the percentile are left out. The percentile is modelled over an already sorted sequence.
- The optional progress lines that read the FIFO size or `recv_count` under the lock only read state, so they are left out.
- `PubRtt.RttTracker.SweepTimeouts`: the source adds one to `timeouts` per expired entry during the loop. The model adds the sweep's total after it, which gives the same final value under the lock.
- `PubRtt.RttTracker.SendIteration`: `sent++` happens outside the lock in the source. The model increments it inside the locked send step; no other thread writes it.
- The zenoh C++ and Python publisher/subscriber samples of the repository are not part of this model.
