# fwd: a verified model of a two-port DPDK forwarder's data path

`fwd/main.c` is a DPDK application that polls two Ethernet ports. Worker lcores
receive bursts of up to 32 frames from one port. For each frame they:

- drop it if it is not IPv4;
- drop it if its IPv4 source address is in a table of blocked addresses;
- otherwise rewrite its destination MAC to `00:11:22:33:44:55`.

The worker then transmits on the other port and keeps per-port packet, byte and
drop counters. A reporter thread periodically differences those counters
against its previous snapshot.

This project models that core in Dafny and proves properties of the model:

- `types.dfy`: fixed-width unsigned integers, with explicit `uint64_t` wrap-around.
- `frame.dfy`: the Ethernet II and IPv4 header fields the worker reads.
  - Big-endian decoding, as `rte_be_to_cpu_16/32`, with its inverse and both
    round trips.
  - The destination-MAC rewrite.
- `blocklist.dfy`: the blocked-address table as a class over a fixed 8-slot array
  with a fill count (`add_blocked_ip`, `is_blocked_ip`), and the two addresses
  installed at startup.
- `stats.dfy`: the per-port counters and the integer part of the reporter.
  - The wrapping differences and the snapshot update.
  - The reporter's private `prev[]` array is a class.
- `worker.dfy`: one iteration of the worker loop, as imperative code over an array
  of mbuf slots and the counter array.
  - An mbuf is identified by its slot index, so `to_tx_bufs` is a sequence of
    slots.
  - A ghost sequence records every `rte_pktmbuf_free` by slot, in order.
  - Specification functions give the forward set, the filtered slots, the
    rewritten burst and the counters after a burst.
  - Lemmas prove partition, ordering, rewrite, counter and buffer-ownership
    properties.
- `assign.dfy`: the startup assignment of worker lcores to queues, and the
  `num_queues` check in `main`.

The worker loop is modelled exactly as written:

- Line 290 submits the whole received burst `bufs[0..nb_rx)`. The forward set
  `to_tx_bufs` is built but never used.
- The cleanup frees `bufs[nb_tx..nb_rx)` and adds `nb_rx - nb_tx` to the partner
  port's drop counter.
- Non-IPv4 frames (line 261) and frames from a blocked source (line 274) are freed
  without touching any counter. `dropped` grows only at line 306, for frames the
  NIC did not accept.
- Lines 255-269 read the Ethernet and IPv4 headers without checking the frame
  length. The model therefore requires every received frame to be at least 34
  bytes long (`Frame.Parsable`).

The consequences of submitting the whole burst are proved in
`Worker.AsWrittenSafeIff`. A frame freed by the
filter is afterwards handed to the NIC, or freed a second time. Buffer ownership
is kept exactly when no frame of the burst is filtered. The corrected iteration,
which submits the forward set, is modelled next to it and proved to keep
ownership (see "## Findings").

Every worker is given port 0 at line 398. So every worker receives from port 1
and transmits on port 0 (`QueueAssign.EveryQueueServed`).

## Model

| member | source | states |
|---|---|---|
| Types.Add64 | fwd/main.c:233-234 | `uint64_t +=`: the exact sum when it fits in 64 bits, otherwise the sum minus 2^64, which is then smaller than the old value |
| Types.Sub64 | fwd/main.c:88-91 | `uint64_t` subtraction: the exact difference when it is not negative, otherwise the difference plus 2^64 |
| Types.SubAfterAdd | fwd/main.c:88-91 | the wrapped difference between a counter after an increment and before it is the increment, even across a wrap |
| Types.AddAfterSub | fwd/main.c:88-101 | adding the wrapped difference back to the old value gives the new value |
| Frame.Be16OfToBe16 | fwd/main.c:258 | decoding the big-endian encoding of a 16-bit value gives the value back |
| Frame.ToBe16OfBe16 | fwd/main.c:258 | encoding a decoded 16-bit field gives back the two bytes it was read from |
| Frame.Be32OfToBe32 | fwd/main.c:269 | decoding the big-endian encoding of a 32-bit value gives the value back |
| Frame.ToBe32OfBe32 | fwd/main.c:269 | encoding a decoded 32-bit field gives back the four bytes it was read from |
| Frame.Be16 | fwd/main.c:258 | `rte_be_to_cpu_16`: the first byte is the high byte of the value and the second byte the low byte |
| Frame.Be32 | fwd/main.c:269 | `rte_be_to_cpu_32`: the first byte is the most significant byte of the value and the fourth byte the least significant |
| Frame.EtherType | fwd/main.c:258 | `ether_type` in host order: frame byte 12 is its high byte and byte 13 its low byte |
| Frame.Ipv4Src | fwd/main.c:266-269 | `src_addr` in host order, read 14 bytes into the frame: frame byte 26 is its most significant byte and byte 29 its least significant |
| Frame.SetDstMac | fwd/main.c:279-283 | the rewritten frame has the same length, bytes 0-5 equal to 00:11:22:33:44:55, and every later byte unchanged |
| Frame.SetDstMacKeepsHeaders | fwd/main.c:255-283 | the rewrite keeps the frame parsable, keeps its EtherType and IPv4 source address, and is idempotent |
| BlockList.BlockedIps.Entries | fwd/main.c:48-50 | the table in force holds at most MAX_BLOCKED_IPS = 8 addresses |
| BlockList.BlockedIps.constructor | fwd/main.c:49-50 | the static table starts empty |
| BlockList.BlockedIps.Add | fwd/main.c:53-59 | with room left and a successful parse, the address is appended at slot `num_blocked_ips` and the count grows by one; a full table or a failed parse changes nothing |
| BlockList.BlockedIps.IsBlocked | fwd/main.c:194-202 | the answer is true exactly when the address is among the first `num_blocked_ips` slots |
| BlockList.StartupTable | fwd/main.c:353-354 | after startup the table holds exactly 192.168.1.100 and then 10.0.0.1, in host byte order |
| Stats.Partner | fwd/main.c:224 | `port ^ 1` is the other of the two ports |
| Stats.RecordRx | fwd/main.c:233-234 | `rx_packets += n; rx_bytes += b` on one port: the wrapped growth of the two rx counters is exactly n and b, and the tx and drop counters are unchanged |
| Stats.RecordTx | fwd/main.c:297-298 | `tx_packets += n; tx_bytes += b` on one port: the wrapped growth of the two tx counters is exactly n and b, and the rx and drop counters are unchanged |
| Stats.RecordDrop | fwd/main.c:306 | `dropped += n` on one port: the wrapped growth of the drop counter is exactly n, and the four traffic counters are unchanged |
| Stats.SampleDelta | fwd/main.c:88-91 | `drx`, `dtx`, `drxb`, `dtxb`: each difference, added modulo 2^64 to the snapshot counter, gives the current counter |
| Stats.Report | fwd/main.c:82-96 | the printed packet and drop counts are the absolute counters read, not differences |
| Stats.Snapshot | fwd/main.c:98-101 | the new `prev[i]` keeps its old drop count, sees the same differences as the current counters, and sampling against it right away reports zero on all four differences |
| Stats.DeltaRestoresSnapshot | fwd/main.c:88-101 | the old snapshot plus each reported difference is the new snapshot, so no count is lost between samples, even across a wrap |
| Stats.SampleSeesRx | fwd/main.c:82-91 | a sample taken after a receive update reports exactly the received packets and bytes, and nothing else |
| Stats.SampleSeesTx | fwd/main.c:82-91 | a sample taken after a transmit update reports exactly the transmitted packets and bytes, and nothing else |
| Stats.SampleIgnoresDrop | fwd/main.c:86-96 | a drop update changes none of the four differences; it shows only in the absolute drop count |
| Stats.Reporter.constructor | fwd/main.c:67 | the reporter's snapshot starts at zero for both ports |
| Stats.Reporter.Sample | fwd/main.c:80-102 | for each port, the report holds the absolute rx, tx and drop counts and the four wrapped differences against the old snapshot; the new snapshot copies the four traffic counters and never the drop count |
| Worker.Indices | fwd/main.c:249-287 | the listed slots are slots of the burst, and there are no more of them than frames |
| Worker.IndicesSound | fwd/main.c:249-287 | every listed slot's frame has the requested verdict |
| Worker.IndicesIncreasing | fwd/main.c:249-287 | slots are listed in strictly increasing, i.e. receive, order |
| Worker.IndicesComplete | fwd/main.c:249-287 | every slot whose frame has the requested verdict is listed |
| Worker.Classify | fwd/main.c:258-276 | a frame is not-IPv4 exactly when its EtherType is not 0x0800, and blocked exactly when it is IPv4 and its source address is in the table in force |
| Worker.Forwardable | fwd/main.c:258-286 | a frame reaches `to_tx_bufs` exactly when its EtherType is 0x0800 and its source address is not blocked |
| Worker.ForwardSet | fwd/main.c:286 | `to_tx_bufs[0..nb_to_tx)` by slot: no more slots than frames received |
| Worker.FilteredOut | fwd/main.c:261-274 | the slots freed by the filter: no more slots than frames received |
| Worker.RewriteFrame | fwd/main.c:258-283 | one frame after the filter loop keeps its length and every byte past the destination MAC |
| Worker.Rewritten | fwd/main.c:249-287 | the burst after the filter loop has as many frames as the received burst |
| Worker.RewrittenAt | fwd/main.c:279-283 | each slot after the filter loop holds its own frame, rewritten exactly when the frame is forwardable |
| Worker.TotalLen | fwd/main.c:229-232 | when every frame's length fits the `uint32_t` `pkt_len`, the byte total of a burst is at most the frame count times MAX_PKT_LEN = 2^32 - 1 |
| Worker.BurstBytes | fwd/main.c:229-232 | the summing loop computes the total `pkt_len` of the burst without wrapping its `uint64_t` |
| Worker.RxStats | fwd/main.c:229-234 | receive accounting touches only the partner port, whose rx packet counter grows by the burst size modulo 2^64 |
| Worker.TxStats | fwd/main.c:292-307 | transmit accounting grows the port's tx packet counter by nb_tx and the partner's drop counter by the unaccepted count, and touches no rx counter |
| Worker.BurstStats | fwd/main.c:229-307 | after a whole as-written burst the partner's rx packet counter has grown by nb_rx, the port's tx packet counter by nb_tx, and the port's own rx counter is unchanged |
| Worker.BurstStatsForwardSet | fwd/main.c:229-307 | the same for the corrected burst, with nb_tx taken from the forward set |
| Worker.ReleasedAsWritten | fwd/main.c:261-304 | the as-written frees: as many as the filtered slots plus nb_rx - nb_tx, all slots of the burst |
| Worker.ReleasedForwardSet | fwd/main.c:261-304 | the corrected frees: nb_rx - nb_tx of them, all slots of the burst |
| Worker.Decide | fwd/main.c:257-276 | the verdict is not-IPv4, blocked or forward, exactly as the classification of the frame against the table in force |
| Worker.FilterOne | fwd/main.c:250-286 | one body pass reports whether the frame is forwardable and writes back the rewritten frame into its slot only; every other slot is untouched |
| Worker.FilterAndRewrite | fwd/main.c:247-287 | after the filter loop the received slots hold the rewritten burst, the other slots are unchanged, `to_tx_bufs` is the forward set, and the frees are the filtered slots in receive order |
| Worker.RecordBurstRx | fwd/main.c:228-234 | the received packet and byte counts are added to the partner port's rx counters and nothing else changes |
| Worker.RecordBurstTx | fwd/main.c:292-307 | the accepted count and its bytes are added to the port's tx counters; when fewer were accepted than submitted, the difference is added to the partner port's drop counter |
| Worker.ProcessBurst | fwd/main.c:222-307 | one iteration as written: the rewritten burst, the forward set, the first nb_tx slots as the frames sent, the frees (filtered slots, then slots nb_tx..nb_rx) and the counters after receive and transmit accounting of the whole burst |
| Worker.ProcessBurstForwardSet | fwd/main.c:286-307 | the corrected iteration: the accepted frames are the first nb_tx of the forward set, the frees are the filtered slots followed by the unaccepted forward-set slots, and the counters account for the forward set |
| Worker.ForwardSetSpec | fwd/main.c:257-286 | a slot is forwarded exactly when its EtherType is 0x0800 and its source address is not blocked; the forward set is in receive order and no larger than the burst |
| Worker.Partition | fwd/main.c:249-287 | the filtered slots and the forward set together are every received slot exactly once |
| Worker.RewriteSpec | fwd/main.c:279-286 | forwarded frames get the new destination MAC with all other bytes kept; filtered frames are left untouched |
| Worker.RewriteKeepsVerdicts | fwd/main.c:255-283 | filtering the rewritten burst again gives every frame the same verdict and the same forward set |
| Worker.RewriteIdempotent | fwd/main.c:279-283 | running the filter loop over its own output changes nothing further |
| Worker.ReporterSeesBurst | fwd/main.c:228-307 | after an as-written burst, the reporter sees the partner port's rx difference equal to the burst, the port's tx difference equal to the first nb_tx frames, and the partner's drops grown by nb_rx - nb_tx; an empty burst changes no counter |
| Worker.ReporterSeesBurstForwardSet | fwd/main.c:290-307 | after a corrected burst, the tx difference is that of the first nb_tx forward-set frames and the drops grow by the unaccepted forward-set frames only |
| Worker.ReporterSeesTx | fwd/main.c:228-307 | receive accounting on the partner port and transmit accounting on the port are seen separately by the reporter, with drops invisible to the differences |
| Worker.AsWrittenOwnership | fwd/main.c:258-304 | as written, the frees plus the slots handed to the NIC are every received slot once plus every filtered slot a second time |
| Worker.AsWrittenSafeIff | fwd/main.c:258-304 | as written, each slot is freed or transmitted exactly once if and only if every frame in the burst is forwardable |
| Worker.ForwardSetOwnership | fwd/main.c:286-304 | submitting the forward set, each received slot is freed by the filter, freed as unsent, or handed to the NIC, exactly once |
| Worker.ForwardSetSendsOnlyRewritten | fwd/main.c:279-290 | submitting the forward set, every accepted frame passed the filter and carries the new destination MAC |
| Worker.AsWrittenSendsFiltered | fwd/main.c:258-290 | as written, a filtered frame in a slot below nb_tx is among the frames handed to the NIC, with its destination MAC unchanged |
| Worker.ArpFrameReleasedThenSent | fwd/main.c:258-304 | a burst of one ARP frame is freed at line 261 and then either handed to the NIC (nb_tx = 1) or freed again (nb_tx = 0) |
| Worker.OneBlockedOneForwarded | fwd/main.c:249-287 | with 203.0.113.5 blocked, a burst of frames from 203.0.113.5 and 198.51.100.9 forwards only the second, with the new destination MAC |
| QueueAssign.MaxWorkerLcores | fwd/main.c:366 | `rte_lcore_count() - 1` in an `unsigned`: one less than the lcore count, or 2^32 - 1 when it is zero |
| QueueAssign.QueueCountFits | fwd/main.c:366-370 | the startup check passes exactly when num_queues is below the lcore count, or when the lcore count is zero and `max_lcores` wraps to 2^32 - 1 |
| QueueAssign.Assigned | fwd/main.c:394-402 | `lcore_conf` after the loop has visited the given worker lcores: still MAX_LCORES = 128 entries, with the contents stated by QueueAssign.AssignedSpec |
| QueueAssign.AssignedSpec | fwd/main.c:394-402 | the k-th worker lcore gets port 0 and queue k while k < num_queues; later workers and non-worker lcores keep their entries |
| QueueAssign.EveryQueueServed | fwd/main.c:366-402 | when the startup check passes, every queue below num_queues has exactly one worker, and each worker's receive port is port 1 |
| QueueAssign.AssignQueues | fwd/main.c:394-402 | the loop leaves `lcore_conf` as the assignment and launches the first min(workers, num_queues) worker lcores in order |
| QueueAssign.RestUnassigned | fwd/main.c:396-397 | breaking out once num_queues queues are given out loses no assignment |

## Left out

- I/O and hardware are not modelled. `rte_eth_rx_burst` and `rte_eth_tx_burst` become parameters: the received frames in `bufs[0..nb_rx)` and the accepted count `nb_tx`. The model assumes `nb_tx` never exceeds the submitted count, as DPDK promises.
- Worker.ProcessBurst requires every received frame to be at least 34 bytes long, because the source reads the Ethernet and IPv4 headers without a length check. What happens to a shorter frame is not modelled.
- Worker.ProcessBurstForwardSet requires the same 34-byte minimum, for the same reason.
- Worker.ProcessBurst models an empty burst (lines 225-226) as an iteration that changes nothing. The model has no outer polling loop.
- Buffer lifetime is modelled as a ghost sequence of freed slots. Reuse of a freed mbuf by the mempool is not modelled, so a freed frame that is later sent keeps its bytes in the model.
- Concurrency is not modelled. The source updates the `volatile` counters with plain, non-atomic increments, and several workers can share a port when num_queues > 1. The model applies one burst at a time, so lost updates between workers are not captured.
- The reporter's clock wait (lines 63-77), its `printf` output and its Mbps figures (floating point) are not modelled. `drx` and `dtx` are computed but never printed; the model keeps them in the report.
- `inet_aton` is not modelled. BlockList.BlockedIps.Add takes the parsed address (or the parse failure) already in host byte order.
- `parse_args` and its `atoi` conversion of `-q` are not modelled; num_queues is a `u16` parameter. `usage`, `port_init`, EAL initialisation and cleanup, the mempool, the port-count check and the stats thread start are not modelled either.
- The prefetch loop (lines 237-245), the NUMA warning, the unused `dst_ip` and the unused globals `rx_bufs` and `tx_bufs` have no effect on the modelled state and are left out.
- QueueAssign.AssignQueues requires every worker lcore id to be below MAX_LCORES = 128. The source indexes `lcore_conf[MAX_LCORES]` with the DPDK lcore id at lines 208-209 and 398-399 without a bound check, and DPDK allows ids up to RTE_MAX_LCORE, which may exceed 128. The out-of-bounds access such an id would cause is not modelled.
- QueueAssign.AssignQueues represents the lcore enumeration as a sequence of distinct, ascending lcore ids. `rte_eal_remote_launch` is modelled only as the returned launch order.

## Findings

| source | as written | input that shows it | evidently intended | confidence | as-written member | corrected member |
|---|---|---|---|---|---|---|
| fwd/main.c:290 | `rte_eth_tx_burst(port, queue, bufs, nb_rx)` submits the whole received burst. The cleanup at lines 301-306 then frees `bufs[nb_tx..nb_rx)` and counts those slots as dropped. | One 42-byte ARP frame (EtherType 0x0806) alone in a burst. It is freed at line 261, then handed to the NIC when nb_tx = 1, or freed a second time at line 304 when nb_tx = 0. | Submit `to_tx_bufs[0..nb_to_tx)`. Count the tx bytes of those frames. Free and count as dropped only the unaccepted forward-set frames. | high; not executed | Worker.ProcessBurst, Worker.ArpFrameReleasedThenSent, Worker.AsWrittenSafeIff | Worker.ProcessBurstForwardSet, Worker.ForwardSetOwnership, Worker.ForwardSetSendsOnlyRewritten |
