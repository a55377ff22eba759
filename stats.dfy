// Per-port counters (struct port_stats, g_port_stats[MAX_PORTS]) and the integer
// part of the reporting loop: the per-port difference against the previous
// snapshot and the snapshot update (fwd/main.c:37-46, fwd/main.c:80-102).
module Stats {
  import opened Types

  const MAX_PORTS: nat := 2

  type PortId = p: u16 | p < MAX_PORTS

  /** `port ^ 1`: the crossover partner of a port, the other of the two. */
  function Partner(port: PortId): (r: PortId)
    ensures r != port && r + port == 1
  {
    ((port as bv16) ^ 1) as int
  }

  datatype PortStats = PortStats(
    rxPackets: u64,
    txPackets: u64,
    rxBytes: u64,
    txBytes: u64,
    dropped: u64)

  const ZERO: PortStats := PortStats(0, 0, 0, 0, 0)

  /** `rx_packets += packets; rx_bytes += bytes` on one port's counters. */
  function RecordRx(s: PortStats, packets: u64, bytes: u64): (r: PortStats)
    ensures Sub64(r.rxPackets, s.rxPackets) == packets && Sub64(r.rxBytes, s.rxBytes) == bytes
    ensures r.txPackets == s.txPackets && r.txBytes == s.txBytes && r.dropped == s.dropped
  {
    SubAfterAdd(s.rxPackets, packets);
    SubAfterAdd(s.rxBytes, bytes);
    s.(rxPackets := Add64(s.rxPackets, packets), rxBytes := Add64(s.rxBytes, bytes))
  }

  /** `tx_packets += packets; tx_bytes += bytes` on one port's counters. */
  function RecordTx(s: PortStats, packets: u64, bytes: u64): (r: PortStats)
    ensures Sub64(r.txPackets, s.txPackets) == packets && Sub64(r.txBytes, s.txBytes) == bytes
    ensures r.rxPackets == s.rxPackets && r.rxBytes == s.rxBytes && r.dropped == s.dropped
  {
    SubAfterAdd(s.txPackets, packets);
    SubAfterAdd(s.txBytes, bytes);
    s.(txPackets := Add64(s.txPackets, packets), txBytes := Add64(s.txBytes, bytes))
  }

  /** `dropped += count` on one port's counters. */
  function RecordDrop(s: PortStats, count: u64): (r: PortStats)
    ensures Sub64(r.dropped, s.dropped) == count
    ensures r.rxPackets == s.rxPackets && r.txPackets == s.txPackets
    ensures r.rxBytes == s.rxBytes && r.txBytes == s.txBytes
  {
    SubAfterAdd(s.dropped, count);
    s.(dropped := Add64(s.dropped, count))
  }

  /** drx, dtx, drxb, dtxb of one port for one interval. */
  datatype PortDelta = PortDelta(rxPackets: u64, txPackets: u64, rxBytes: u64, txBytes: u64)

  /** What the loop computes for one port: the absolute packet and drop counts it
      prints and the four uint64_t differences against the snapshot. */
  datatype PortReport = PortReport(rxPackets: u64, txPackets: u64, dropped: u64, delta: PortDelta)

  /** The four differences of one port: each is what must be added, modulo 2^64, to
      the snapshot's counter to reach the current one. */
  function SampleDelta(cur: PortStats, prev: PortStats): (d: PortDelta)
    ensures Add64(prev.rxPackets, d.rxPackets) == cur.rxPackets
    ensures Add64(prev.txPackets, d.txPackets) == cur.txPackets
    ensures Add64(prev.rxBytes, d.rxBytes) == cur.rxBytes
    ensures Add64(prev.txBytes, d.txBytes) == cur.txBytes
  {
    AddAfterSub(cur.rxPackets, prev.rxPackets);
    AddAfterSub(cur.txPackets, prev.txPackets);
    AddAfterSub(cur.rxBytes, prev.rxBytes);
    AddAfterSub(cur.txBytes, prev.txBytes);
    PortDelta(
      Sub64(cur.rxPackets, prev.rxPackets),
      Sub64(cur.txPackets, prev.txPackets),
      Sub64(cur.rxBytes, prev.rxBytes),
      Sub64(cur.txBytes, prev.txBytes))
  }

  /** The printed packet and drop counts are absolute, never differences. */
  function Report(cur: PortStats, prev: PortStats): (r: PortReport)
    ensures r.rxPackets == cur.rxPackets && r.txPackets == cur.txPackets && r.dropped == cur.dropped
  {
    PortReport(cur.rxPackets, cur.txPackets, cur.dropped, SampleDelta(cur, prev))
  }

  /** The new snapshot: the four traffic counters just read; `dropped` is never
      written into the snapshot, so it keeps its initial zero. */
  function Snapshot(cur: PortStats, prev: PortStats): (r: PortStats)
    ensures r.dropped == prev.dropped
    ensures SampleDelta(r, prev) == SampleDelta(cur, prev)
    ensures SampleDelta(cur, r) == PortDelta(0, 0, 0, 0)
  {
    cur.(dropped := prev.dropped)
  }

  /** Adding each reported difference back onto the old snapshot gives the new
      snapshot: nothing counted between two samples is lost, even across a wrap. */
  lemma DeltaRestoresSnapshot(cur: PortStats, prev: PortStats)
    ensures var d := SampleDelta(cur, prev);
      Snapshot(cur, prev) == prev.(rxPackets := Add64(prev.rxPackets, d.rxPackets),
                                   txPackets := Add64(prev.txPackets, d.txPackets),
                                   rxBytes := Add64(prev.rxBytes, d.rxBytes),
                                   txBytes := Add64(prev.txBytes, d.txBytes))
  {
    AddAfterSub(cur.rxPackets, prev.rxPackets);
    AddAfterSub(cur.txPackets, prev.txPackets);
    AddAfterSub(cur.rxBytes, prev.rxBytes);
    AddAfterSub(cur.txBytes, prev.txBytes);
  }

  /** A sample taken after RecordRx reports exactly what was recorded. */
  lemma SampleSeesRx(s: PortStats, packets: u64, bytes: u64)
    ensures SampleDelta(RecordRx(s, packets, bytes), s) == PortDelta(packets, 0, bytes, 0)
    ensures RecordRx(s, packets, bytes).dropped == s.dropped
  {
    SubAfterAdd(s.rxPackets, packets);
    SubAfterAdd(s.rxBytes, bytes);
  }

  /** A sample taken after RecordTx reports exactly what was recorded. */
  lemma SampleSeesTx(s: PortStats, packets: u64, bytes: u64)
    ensures SampleDelta(RecordTx(s, packets, bytes), s) == PortDelta(0, packets, 0, bytes)
    ensures RecordTx(s, packets, bytes).dropped == s.dropped
  {
    SubAfterAdd(s.txPackets, packets);
    SubAfterAdd(s.txBytes, bytes);
  }

  /** RecordDrop is invisible to the sampled differences: only the absolute drop
      count is reported. */
  lemma SampleIgnoresDrop(s: PortStats, count: u64)
    ensures SampleDelta(RecordDrop(s, count), s) == PortDelta(0, 0, 0, 0)
    ensures Report(RecordDrop(s, count), s).dropped == Add64(s.dropped, count)
  {
  }

  /** The private state of stats_loop: `prev[MAX_PORTS]`, zero-initialised. */
  class Reporter {
    var prev: array<PortStats>

    /** Only the four traffic counters are ever copied into the snapshot. */
    ghost predicate Valid()
      reads this, prev
    {
      prev.Length == MAX_PORTS &&
      forall i :: 0 <= i < MAX_PORTS ==> prev[i].dropped == 0
    }

    constructor ()
      ensures Valid() && fresh(prev)
      ensures forall i :: 0 <= i < MAX_PORTS ==> prev[i] == ZERO
    {
      prev := new PortStats[MAX_PORTS](_ => ZERO);
    }

    /** One pass of the reporting loop over both ports, without the clock wait
        and without the Mbps conversion. */
    method Sample(stats: array<PortStats>) returns (report: seq<PortReport>)
      requires Valid() && stats.Length == MAX_PORTS && stats != prev
      modifies prev
      ensures Valid()
      ensures |report| == MAX_PORTS
      ensures forall i :: 0 <= i < MAX_PORTS ==> report[i] == Report(stats[i], old(prev[i]))
      ensures forall i :: 0 <= i < MAX_PORTS ==> prev[i] == Snapshot(stats[i], old(prev[i]))
    {
      report := [];
      for i := 0 to MAX_PORTS
        invariant |report| == i
        invariant forall k :: 0 <= k < i ==> report[k] == Report(stats[k], old(prev[k]))
        invariant forall k :: 0 <= k < i ==> prev[k] == Snapshot(stats[k], old(prev[k]))
        invariant forall k :: i <= k < MAX_PORTS ==> prev[k] == old(prev[k])
      {
        var cur := stats[i];
        var d := PortDelta(
          Sub64(cur.rxPackets, prev[i].rxPackets),
          Sub64(cur.txPackets, prev[i].txPackets),
          Sub64(cur.rxBytes, prev[i].rxBytes),
          Sub64(cur.txBytes, prev[i].txBytes));
        report := report + [PortReport(cur.rxPackets, cur.txPackets, cur.dropped, d)];
        prev[i] := prev[i].(rxPackets := cur.rxPackets, txPackets := cur.txPackets,
                            rxBytes := cur.rxBytes, txBytes := cur.txBytes);
      }
    }
  }
}
