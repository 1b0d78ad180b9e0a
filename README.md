# xv6 UDP networking and its host-side benchmarks, in Dafny

This project models the UDP layer of an xv6 kernel and the Python scripts that
measure it from the host.

The kernel side is `kernel/net.c`. It keeps a table of 32 port entries, and each
entry owns a ring of 16 packet slots:

- `bind` claims an entry.
- `ip_rx` queues an incoming UDP datagram on the entry bound to its destination
  port, or drops it.
- `recv` takes the oldest datagram off the ring.
- `send` builds an Ethernet/IPv4/UDP frame whose IPv4 header carries the
  checksum computed by `in_cksum`.
- `net_rx` dispatches a frame by its EtherType.

The host side has three parts:

- `tests/stress_test.py` sends numbered `throughput <i>` datagrams to the echo
  server and tallies what comes back: received, unique, missing, duplicates,
  out of order and payload errors. It then searches for the highest rate that
  still gets 99% of them back.
- `tests/nettest.py` measures latency in two ways. In the synchronous mode it
  sends 8-byte big-endian ids one at a time and matches each reply. In the
  latency mode a receiver thread stamps each echoed id. It then summarizes the
  latencies per rate: minimum, maximum, percentiles and counts.
- `burst_test_final.py` and `burst_test.py` send `burst:<port>:<seq>` datagrams
  to 1, 2, 4, 8 (and 16) ports. They stop at the first count that fails and
  grade the largest count that passed.

Modules:

| module | file | models |
|---|---|---|
| `NetPorts` | `net_ports.dfy` | the port table as a class over an array of entries and a 2-D array of slots; bind, unbind, ip_rx, recv |
| `InternetChecksum` | `net_cksum.dfy` | `in_cksum` as a loop, against the RFC 1071 one's-complement sum |
| `NetFrames` | `net_frames.dfy` | `net_rx` dispatch, the length rule of `send` and the IPv4 header it writes |
| `Text` | `text.dfy` | the Python text operations the scripts rely on: `str(n)`, ASCII decoding, `split()`, `int()` |
| `Throughput` | `throughput.dfy` | the receive loop and the tally of the throughput test |
| `CapacitySearch` | `findmax.dfy` | the binary search for the highest passing rate |
| `Samples` | `samples.dfy` | sum, min, max and sorting of latency samples |
| `IdCodec` | `id_codec.dfy` | `id.to_bytes(8, "big")` and `int.from_bytes(reply[:8], "big")` |
| `LatencySync` | `latency_sync.dfy` | the synchronous latency rounds and their percentile statistics |
| `LatencyMode` | `latency_mode.dfy` | id assignment, the receiver thread and the per-rate aggregation of latency mode |
| `Burst` | `burst.dfy` | the burst payloads, the listener, the 60% threshold, escalation and grading |

Clocks, sockets and the network are parameters:

- A reply stream is a sequence of `Datagram(bytes)` and `Timeout` events.
- The rate search takes the result of a round as a function of the rate.
- Send times come from a `clock` function.
- A receive time is an integer carried with each reply.

Modelling decisions where the code and its surrounding description differ (the
model follows the code):

- The rate search accepts a rate when `received / sent >= 0.99`. Here
  `received` counts every datagram read, not the unique sequence numbers.
  `CapacitySearch.RepeatedEcho` shows a round that passes the search although
  the throughput test itself would report failure.
- "Out of order" counts every gap between consecutive valid sequence numbers
  after the first. It does not count inversions: a single swap `0 2 1 3` counts
  3 (`Throughput.SwapCounted`).
- `bind` of a port that is already bound returns 0 and changes nothing.
  `unbind` is a stub that returns 0 and releases nothing.

Floating-point thresholds are written as exact integer comparisons:

- `received >= sent * 0.99` becomes `received * 100 >= sent * 99`.
- `received / total >= 0.6` becomes `received * 10 >= total * 6`.
- `int(n * 0.95)` becomes `n * 95 / 100`.

The two sides agree for every sample count the scripts produce.

## Model

| member | source | states |
|---|---|---|
| `NetPorts.FindBound` | kernel/net.c:157-163 | returns -1 exactly when no bound entry carries the port, and otherwise the first entry that does |
| `NetPorts.FirstFree` | kernel/net.c:87-88 | returns -1 exactly when every entry is bound, and otherwise the first unbound entry |
| `NetPorts.PortTable.constructor` | kernel/net.c:44-57 | `netinit`: all 32 entries are unbound and every ring is empty |
| `NetPorts.PortTable.Bind` | kernel/net.c:65-101 | an out-of-range port gives -1 and no change; a bound port gives 0 and no change; otherwise the first free entry is claimed with an empty ring, or the result is -1 when none is free; after a 0 the port is bound; ports stay unique |
| `NetPorts.PortTable.Unbind` | kernel/net.c:108-116 | always returns 0; it has no `modifies` clause, so the table cannot change |
| `NetPorts.PortTable.EnqueueAt` | kernel/net.c:361-368 | writing slot `tail` and advancing it appends the packet to that port's queue and leaves every other queue alone |
| `NetPorts.PortTable.IpRx` | kernel/net.c:299-377 | the verdict cascade is: not UDP, then a payload length outside 0..2048, then no bound port, then a full ring (16); only `Queued` changes the table, by appending the payload, its source address and its source port at the back of that port's queue |
| `NetPorts.PortTable.Lookup` | kernel/net.c:156-163 | the scan returns the first entry bound to the port, and -1 exactly when no entry is bound to it |
| `NetPorts.PortTable.DequeueAt` | kernel/net.c:175-178 | the packet taken is the oldest in that port's queue; advancing `head` removes it and leaves every other queue alone |
| `NetPorts.PortTable.Recv` | kernel/net.c:133-198 | a bad port or a negative `maxlen` gives -1; an unbound port gives -1; an empty ring blocks; otherwise the oldest packet leaves the queue and `min(len, maxlen)` bytes are returned with its source, or -1 if the copy-out fails after the dequeue |
| `NetPorts.EnqueueAppends` | kernel/net.c:361-368 | advancing `tail` in the ring adds exactly one packet at the back of the queue |
| `NetPorts.DequeueRemovesOldest` | kernel/net.c:176-178 | advancing `head` in the ring removes exactly the front packet |
| `InternetChecksum.InCksum` | kernel/net.c:202-233 | the result is 16-bit and equals the complement of the folded 32-bit word sum; for buffers that cannot overflow the accumulator it is the RFC 1071 checksum |
| `InternetChecksum.AddWords` | kernel/net.c:205-224 | the 32-bit accumulator ends as the sum of the little-endian words, an odd last byte counted alone, reduced modulo 2^32 |
| `InternetChecksum.OnesSumIsEndAround` | kernel/net.c:226-228 | the one's-complement sum of the words is the end-around-carry reduction of their plain sum |
| `InternetChecksum.FoldIsEndAround` | kernel/net.c:227-228 | the two carry-folding steps compute the end-around-carry reduction for every 32-bit sum |
| `InternetChecksum.ChecksumVerifies` | kernel/net.c:280 | after the checksum is stored into a zeroed 16-bit field, the checksum of the whole buffer is 0 |
| `InternetChecksum.SwapOnesAdd` | kernel/net.c:216 | one one's-complement addition of two byte-swapped words gives the byte-swapped result |
| `InternetChecksum.OnesSumSwap` | kernel/net.c:215-218 | summing byte-swapped words gives the byte-swapped sum, so the little-endian sum is byte-order independent |
| `InternetChecksum.StoredChecksumIsNetworkOrder` | kernel/net.c:280 | the checksum computed on little-endian words and stored little-endian lays down the same bytes as the network-order checksum stored big-endian |
| `NetFrames.NetRx` | kernel/net.c:427-441 | a frame goes to `arp_rx` exactly when it is long enough for an ARP packet and has EtherType 0x0806, and to `ip_rx` exactly when it is long enough for an IPv4 header and has EtherType 0x0800 |
| `NetFrames.NetRxGuardsHeaders` | kernel/net.c:432-439 | a frame handed on always holds the header its handler reads; runts and other EtherTypes are freed |
| `NetFrames.SysSend` | kernel/net.c:254-292 | the size rule as intended, for a C `int` length: -1 exactly when the length is negative, the frame exceeds one 4096-byte page (computed without overflow), or allocation or copy-in fails; on success the payload is between 0 and the page size less the 42 header bytes, and the IP and UDP lengths are truncated to 16 bits |
| `NetFrames.SysSendAsWritten` | kernel/net.c:254-256 | the size rule as written: the 32-bit `int` total wraps, so -1 for an oversized frame only when `len + 42` stays below 2^31 |
| `NetFrames.SendTotalAsWritten` | kernel/net.c:254 | `total` is `len + 42` when that fits an `int` and `len + 42 - 2^32`, a negative number, when it does not |
| `NetFrames.OversizedSendAccepted` | kernel/net.c:254-256 | every length whose sum wraps is larger than a page allows, yet passes the written check with a negative total, while the intended rule refuses it |
| `NetFrames.NegativeSendAccepted` | kernel/net.c:254-256 | every negative length passes the written check with a total below a page, while the intended rule refuses it |
| `NetFrames.AsWrittenDiffersOnlyOnWrap` | kernel/net.c:254-256 | the written and intended rules disagree exactly on negative lengths and on lengths whose sum wraps, when allocation and copy-in succeed |
| `NetFrames.SendLengthsRoundTrip` | kernel/net.c:273-285 | for a payload that fits, the UDP length is payload + 8 and the IP length is that + 20; `ip_rx` recovers the payload length and accepts it exactly when it is at most 2048 |
| `NetFrames.SentHeaderChecks` | kernel/net.c:270-280 | the IPv4 header `send` writes passes the receiver's checksum test, and its checksum field holds the RFC 791 checksum in network byte order |
| `NetFrames.SendHeaderChecksum` | kernel/net.c:280 | `in_cksum` over the unfilled header gives the checksum the transmitted header carries |
| `Text.DecodeEncode` | tests/stress_test.py:157-190 | the ASCII bytes of a payload the script sends decode back to the same text |
| `Text.PyIntDec` | tests/stress_test.py:192 | `int(str(n)) == n` for every natural n |
| `Text.DecInjective` | burst_test_final.py:78 | different naturals print differently |
| `Text.SplitTwo` | tests/stress_test.py:191-192 | a word, one space and a token split into exactly those two fields |
| `Throughput.ParsePayload` | tests/stress_test.py:157 | the reply `throughput <i>` that an echo returns parses back to i |
| `Throughput.RecvCount` | tests/stress_test.py:183-212 | the loop reads at most `sent` events; everything it reads is a datagram; it stops early only at a timeout or at the end of the stream |
| `Throughput.ReceiveReplies` | tests/stress_test.py:182-212 | `received` is the number of replies read; the seen set holds exactly the valid sequence numbers; the payload error count and out-of-order count match their specifications |
| `Throughput.RepliesSplit` | tests/stress_test.py:189-205 | every reply read is counted exactly once, either as a valid sequence number or as a payload error |
| `Throughput.DuplicatesCoverErrors` | tests/stress_test.py:222 | the duplicate count is at least the number of payload errors, so it is never negative |
| `Throughput.MissingPartition` | tests/stress_test.py:219-221 | the missing set and the received set are disjoint, and together they cover the `sent` expected numbers exactly |
| `Throughput.OutOfOrderCountsGaps` | tests/stress_test.py:195-197 | the out-of-order count equals the number of positions whose number does not follow its predecessor, and is at most one less than the number of valid replies |
| `Throughput.InOrderStream` | tests/stress_test.py:195-196 | a stream of consecutive numbers counts no out-of-order replies |
| `Throughput.SwapCounted` | tests/stress_test.py:195-197 | one swapped pair in `0 2 1 3` counts as three out-of-order replies |
| `Throughput.SuccessAtThousand` | tests/stress_test.py:246-250 | at 1000 packets the test passes exactly when at least 990 replies and 990 unique numbers come back with at most 10 payload errors |
| `Throughput.PerfectEcho` | tests/stress_test.py:144-250 | when every packet is echoed in order, nothing is missing, duplicated, out of order or malformed, and the test passes |
| `CapacitySearch.FindMax` | tests/stress_test.py:341-382 | at most 10 rounds; every probe is recorded with its result; the best rate is 0 or a probed rate that held; every passing probe is at or below it and every failing probe above it; if delivery falls monotonically with rate, every rate from 1000 to the best holds and every rate more than 47 above it fails |
| `CapacitySearch.Step` | tests/stress_test.py:356-380 | one round keeps the search invariant: the remaining interval shrinks by at least half, the probe is recorded, probes that held lie below the new `low` and probes that failed above the new `high`, and `best_rate` is `low - 1` (0 before any probe held) |
| `CapacitySearch.Conclude` | tests/stress_test.py:356 | when the loop ends, the unexplored interval above the best rate is at most 47 wide, and empty when the search ended before its 10th round |
| `CapacitySearch.ThresholdNetwork` | tests/stress_test.py:341-382 | against a network that delivers up to 8000 packets/s, the search reports a rate between 7953 and 8000 |
| `CapacitySearch.RepeatedEcho` | tests/stress_test.py:373 | 1000 copies of one reply pass the search's 99% rule although the throughput test reports failure |
| `Samples.MinFromIsLeast` | tests/nettest.py:335-336 | the running minimum is at most its start and every sample, and is the start or one of the samples |
| `Samples.MaxFromIsGreatest` | tests/nettest.py:337-338 | the running maximum is at least its start and every sample, and is the start or one of the samples |
| `Samples.SortSeq` | tests/nettest.py:224 | the result is sorted and a permutation of the input |
| `Samples.SortedUnique` | tests/nettest.py:224 | two sorted permutations of the same samples are equal, so the sorted list is determined by the samples |
| `Samples.SumPermutation` | tests/nettest.py:227 | the sum does not depend on sample order |
| `Samples.SortedEnds` | tests/nettest.py:224-229 | the first sorted sample is `min` and the last is `max` |
| `IdCodec.DecodeIdBound` | tests/nettest.py:210 | a decoded id is always below 2^64 |
| `IdCodec.BigEndianRoundTrip` | tests/nettest.py:200-210 | decoding the n-byte big-endian encoding of a value below 256^n returns the value |
| `IdCodec.IdRoundTrip` | tests/nettest.py:200-210 | the id read from an echo of the 8-byte message is the id sent, whatever bytes follow it |
| `IdCodec.EncodeInjective` | tests/nettest.py:200 | different ids are sent as different messages |
| `LatencySync.SyncRound` | tests/nettest.py:193-220 | a round sends `rate * 5` packets and records the round-trip time of exactly the replies that carry the id just sent |
| `LatencySync.RecordedCountsMatches` | tests/nettest.py:209-213 | the number of latencies recorded is the number of sends whose reply matched |
| `LatencySync.AllEchoed` | tests/nettest.py:198-217 | when every packet is echoed intact, every round-trip time is recorded, in send order |
| `LatencySync.StaleEchoIgnored` | tests/nettest.py:210-211 | a late echo of an earlier packet is not taken as the reply to the current one |
| `LatencySync.EmptyReplyMatchesFirst` | tests/nettest.py:210-211 | an empty reply decodes to 0 and is accepted as the reply to packet 0 |
| `LatencySync.PercentileIndices` | tests/nettest.py:230-232 | the p50, p95 and p99 indices are in range and ordered for every nonempty sample list |
| `LatencySync.StatsOf` | tests/nettest.py:223-234 | statistics exist exactly when some latency was recorded; the count and sum are those of the samples |
| `LatencySync.StatsOrdered` | tests/nettest.py:223-234 | min <= p50 <= p95 <= p99 <= max, and min and max are actual samples |
| `LatencySync.StatsPermutation` | tests/nettest.py:223-234 | the statistics do not depend on the order of the samples |
| `LatencySync.SyncAll` | tests/nettest.py:191-234 | results hold an entry for exactly those rates that recorded a latency, each with the statistics of its round |
| `LatencyMode.RateOf` | tests/nettest.py:294-303 | an id has a rate exactly when it is below the total number sent |
| `LatencyMode.RateOfBlock` | tests/nettest.py:294-303 | the ids of the j-th rate in the send order form one consecutive block, after the blocks of the rates before it |
| `LatencyMode.TotalSentGrows` | tests/nettest.py:270-273 | the running total of packets to send never decreases along the order |
| `LatencyMode.SendAll` | tests/nettest.py:270-303 | ids 0 up to `total_sent` are assigned, each recorded with its block's rate, its send time and no receive time; the count equals `total_sent` |
| `LatencyMode.ReceiverThread` | tests/nettest.py:283-289 | the thread's result is the specification `Stamp` over the echoes in arrival order |
| `LatencyMode.StampKeeps` | tests/nettest.py:289 | echoes never add or remove records, and never change a rate or a send time; a record no echo names is unchanged |
| `LatencyMode.UnknownIdStops` | tests/nettest.py:287-289 | an echo whose id was never sent raises `KeyError`, which ends the thread with nothing after it recorded |
| `LatencyMode.CountIsAnswered` | tests/nettest.py:325-331 | `num_valid` for a rate is the number of its records that an echo stamped |
| `LatencyMode.SummaryBounds` | tests/nettest.py:321-338 | the minimum is at most 10^9 and every latency, and is 10^9 or a latency; the maximum is at least 0 and every latency, and is 0 or a latency |
| `LatencyMode.SummarizeRate` | tests/nettest.py:321-338 | the loop's min, max, total and count are those of the rate's summary |
| `LatencyMode.SummarizeAll` | tests/nettest.py:315-344 | rates are summarized in ascending order until the first rate with no answered record, where the average divides by zero; `num_recv` is the sum of the counts summarized |
| `Burst.SendRound` | burst_test_final.py:67-81 | the packets sent are the `n * m` payloads in port-then-sequence order, each to port 27001 + port index; the set of sent messages is exactly those payloads |
| `Burst.BurstPayloadInjective` | burst_test_final.py:78 | a payload determines its port index and sequence number |
| `Burst.PayloadSetSize` | burst_test_final.py:68-79 | a round of n ports and m packets per port sends exactly `n * m` distinct messages |
| `Burst.HeardSet` | burst_test_final.py:41-44 | everything the listener keeps starts with `burst:` |
| `Burst.Listen` | burst_test_final.py:39-48 | the listener adds exactly the tagged texts of the datagrams it reads to the received set |
| `Burst.EchoHeard` | burst_test_final.py:42-44 | an echoed payload is heard as exactly the text that was sent |
| `Burst.HeardNotBoundedBySent` | burst_test_final.py:90-95 | the received count can exceed the number sent, since any tagged text counts, including one left over from an earlier round |
| `Burst.Thresholds` | burst_test_final.py:90-95 | a round passes with at least 2 of 3, 4 of 6, 8 of 12 or 15 of 24, and never with nothing sent |
| `Burst.TestPortsWithEcho` | burst_test_final.py:52-95 | sends the 3-per-port schedule, hears exactly the tagged echoes, and passes exactly when at least 60% of the sent count was heard |
| `Burst.EscalationResult` | burst_test_final.py:104-117 | the maximum is 0 when the first count fails; otherwise it is the last count before the first failure: that count and every earlier one passed, and the next count, if any, failed; it is the last count when all pass |
| `Burst.EscalationFrom` | burst_test_final.py:109-115 | the same from any starting maximum, which survives only when the first count fails |
| `Burst.ClassifyMonotone` | burst_test_final.py:122-129 | more working ports never gives a worse grade |
| `Burst.MainWithEcho` | burst_test_final.py:97-129 | the maximum is the escalation over 1, 2, 4, 8 with the echo round as the test, and the grade is its classification |
| `Burst.TestPortsFixed` | burst_test.py:12-44 | sends the 5-per-port schedule and passes exactly when at most 4 ports are used |
| `Burst.MainFixed` | burst_test.py:46-80 | the maximum is the escalation over 1, 2, 4, 8, 16 with the fixed rule; four counts are tried |
| `Burst.FixedOutcome` | burst_test.py:41-80 | the fixed rule always yields 4 working ports, graded "moderate port load - GOOD" |

## Findings

| source | as written | input that shows it | evidently intended | confidence | as-written member | corrected member |
|---|---|---|---|---|---|---|
| kernel/net.c:254-256 | `int total = len + sizeof(...)` narrows a `size_t` sum to a 32-bit `int`, and `len` itself is never checked for sign: a payload length within 42 of 2^31 wraps to a negative total, and a negative length gives a small one, so both pass `total > PGSIZE` | `len` = 2147483647: the total is -2147483607; `len` = -1: the total is 41 and `copyin` is handed 2^64 - 1 bytes; in both cases the check passes and more than a page is copied into one page | refuse a negative length and every frame longer than a page, comparing without overflow | not executed; GCC's narrowing is two's complement | `NetFrames.SysSendAsWritten`, `NetFrames.OversizedSendAccepted`, `NetFrames.NegativeSendAccepted` | `NetFrames.SysSend` |

## Left out

- Locking, `sleep`/`wakeup` and the interrupt context are left out. `Recv` returns `Blocked` where the kernel would sleep, and the table changes one call at a time.
- `copyin` and `copyout` are not modelled. Their success is a boolean parameter (`copyOk`, `allocOk`), as is `kalloc`'s.
- The Ethernet and IP addresses of `send`'s frame, `e1000_transmit` and the e1000 driver are not part of this model. `arp_rx`, which builds an ARP reply, is not part of this model either.
- Header sizes (14, 20, 8 and 28) are constants. The struct definitions in `kernel/net.h` are not part of this model.
- `NetPorts.PortTable.IpRx`: the caller must pass a body of at least 2048 bytes, because the kernel copies from a whole page. The kernel trusts the UDP length field and does not check it against the frame length, so the payload may include bytes past the end of the frame; the model does not say which bytes those are.
- `NetPorts.PortTable.Recv`: the kernel copies out of the slot after releasing the lock. A concurrent `ip_rx` could overwrite the slot in between; the model does not capture that race.
- `NetPorts.PortTable.Unbind`: the source is a stub, so nothing is released and packets keep arriving for the port.
- `InternetChecksum.InCksum` equals the RFC 1071 checksum only for buffers of at most 131074 bytes. For longer buffers the model states the wrapped 32-bit accumulator result instead.
- Sockets, timeouts, sleeps, threads starting and joining, printing, `input()`, command-line parsing and `KeyboardInterrupt` are left out. Replies, results and times are inputs.
- `random.shuffle` of the latency-mode rates is left out. The send order is an input.
- Latencies are differences of integer clock readings. The conversion to milliseconds in floating point is left out, and so are the averages (`avg`, `total / num_valid`), `loss_rate` and `effective_throughput`, which only feed printed output.
- `LatencyMode.ReceiverThread` processes all echoes after all sends. An echo processed before its record exists would raise `KeyError` early; that interleaving is left out.
- `LatencySync.SyncRound` takes the replies as given and does not model the bytes it sends. `OverflowError` for ids of 2^64 or more cannot occur at the rates used; `IdCodec.EncodeId` models that case.
- The listener's fallback to a backup port and its exit on a bind failure are left out.

