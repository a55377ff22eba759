// One iteration of the forwarding loop of lcore_worker_main (fwd/main.c:222-307):
// receive a burst from the partner port, count it, drop non-IPv4 and blocked
// frames, rewrite the destination MAC of the rest, hand a burst to the NIC and
// count what it accepted and what it did not.
//
// The NIC is not modelled: the received burst is the first nbRx slots of `bufs`
// (each slot the bytes of one mbuf) and the transmit result is the accepted
// count nbTx. An mbuf is identified by its slot index, so the forward set
// `to_tx_bufs` is a sequence of slot indices, and writing a slot is writing
// through every pointer to that mbuf. A ghost sequence records each
// rte_pktmbuf_free, by slot, in the order the source performs them.
module Worker {
  import opened Types
  import opened Frame
  import opened Stats
  import opened BlockList

  const BURST_SIZE: nat := 32

  predicate AllParsable(frames: seq<Frame>) {
    forall i :: 0 <= i < |frames| ==> Parsable(frames[i])
  }

  /** What rte_eth_rx_burst can return: at most BURST_SIZE frames, each one long
      enough for the headers the loop reads. */
  predicate Burst(frames: seq<Frame>) {
    |frames| <= BURST_SIZE && AllParsable(frames)
  }

  /** The decision taken for one frame at lines 258 and 272. */
  datatype Verdict = NotIpv4 | Blocked | Forward

  function Classify(f: Frame, blocked: seq<u32>): (v: Verdict)
    requires Parsable(f)
    ensures v == NotIpv4 <==> EtherType(f) != ETHER_TYPE_IPV4
    ensures v == Blocked <==> EtherType(f) == ETHER_TYPE_IPV4 && Ipv4Src(f) in blocked
  {
    if EtherType(f) != ETHER_TYPE_IPV4 then NotIpv4
    else if Ipv4Src(f) in blocked then Blocked
    else Forward
  }

  predicate Forwardable(f: Frame, blocked: seq<u32>)
    requires Parsable(f)
    ensures Forwardable(f, blocked) <==> EtherType(f) == ETHER_TYPE_IPV4 && Ipv4Src(f) !in blocked
  {
    Classify(f, blocked) == Forward
  }

  /** Every listed slot is a slot of a burst of n frames. */
  predicate Within(idx: seq<nat>, n: nat) {
    forall k :: 0 <= k < |idx| ==> idx[k] < n
  }

  /** The slots of a burst whose frames are forwardable (`fwd`) or not (`!fwd`),
      in receive order. */
  function Indices(frames: seq<Frame>, blocked: seq<u32>, fwd: bool): (r: seq<nat>)
    requires AllParsable(frames)
    ensures |r| <= |frames| && Within(r, |frames|)
    decreases |frames|
  {
    if frames == [] then []
    else
      var n := |frames| - 1;
      var prefix := Indices(frames[..n], blocked, fwd);
      if Forwardable(frames[n], blocked) == fwd then prefix + [n] else prefix
  }

  /** Every slot Indices lists has the requested verdict. */
  lemma {:induction false} IndicesSound(frames: seq<Frame>, blocked: seq<u32>, fwd: bool)
    requires AllParsable(frames)
    ensures forall k :: 0 <= k < |Indices(frames, blocked, fwd)| ==>
              Forwardable(frames[Indices(frames, blocked, fwd)[k]], blocked) == fwd
    decreases |frames|
  {
    if frames != [] {
      var n := |frames| - 1;
      IndicesSound(frames[..n], blocked, fwd);
      var prefix := Indices(frames[..n], blocked, fwd);
      var r := Indices(frames, blocked, fwd);
      assert r == if Forwardable(frames[n], blocked) == fwd then prefix + [n] else prefix;
      forall k | 0 <= k < |r|
        ensures Forwardable(frames[r[k]], blocked) == fwd
      {
        if k < |prefix| {
          assert r[k] == prefix[k] && frames[..n][prefix[k]] == frames[prefix[k]];
        }
      }
    }
  }

  predicate Increasing(r: seq<nat>) {
    forall k, l :: 0 <= k < l < |r| ==> r[k] < r[l]
  }

  /** Indices lists slots in increasing, hence receive, order. */
  lemma {:induction false} IndicesIncreasing(frames: seq<Frame>, blocked: seq<u32>, fwd: bool)
    requires AllParsable(frames)
    ensures Increasing(Indices(frames, blocked, fwd))
    decreases |frames|
  {
    if frames != [] {
      var n := |frames| - 1;
      IndicesIncreasing(frames[..n], blocked, fwd);
      var prefix := Indices(frames[..n], blocked, fwd);
      var r := Indices(frames, blocked, fwd);
      assert r == if Forwardable(frames[n], blocked) == fwd then prefix + [n] else prefix;
      assert forall k :: 0 <= k < |prefix| ==> prefix[k] < n;
    }
  }

  /** Every slot with the requested verdict is listed. */
  lemma {:induction false} IndicesComplete(frames: seq<Frame>, blocked: seq<u32>, fwd: bool)
    requires AllParsable(frames)
    ensures forall i :: 0 <= i < |frames| && Forwardable(frames[i], blocked) == fwd ==>
              i in Indices(frames, blocked, fwd)
    decreases |frames|
  {
    if frames != [] {
      var n := |frames| - 1;
      IndicesComplete(frames[..n], blocked, fwd);
      assert forall i :: 0 <= i < n ==> frames[..n][i] == frames[i];
    }
  }

  /** to_tx_bufs[0..nb_to_tx): the slots that survive the filter. */
  function ForwardSet(frames: seq<Frame>, blocked: seq<u32>): (r: seq<nat>)
    requires AllParsable(frames)
    ensures |r| <= |frames|
  {
    Indices(frames, blocked, true)
  }

  /** The slots freed at lines 261 and 274. */
  function FilteredOut(frames: seq<Frame>, blocked: seq<u32>): (r: seq<nat>)
    requires AllParsable(frames)
    ensures |r| <= |frames|
  {
    Indices(frames, blocked, false)
  }

  /** One frame after the filter loop: lines 279-283 run only for a forwardable frame. */
  function RewriteFrame(f: Frame, blocked: seq<u32>): (g: Frame)
    requires Parsable(f)
    ensures |g| == |f| && g[MAC_LEN..] == f[MAC_LEN..]
  {
    if Forwardable(f, blocked) then SetDstMac(f) else f
  }

  /** The burst after the filter loop. */
  function Rewritten(frames: seq<Frame>, blocked: seq<u32>): (r: seq<Frame>)
    requires AllParsable(frames)
    ensures |r| == |frames|
    decreases |frames|
  {
    if frames == [] then []
    else
      var n := |frames| - 1;
      Rewritten(frames[..n], blocked) + [RewriteFrame(frames[n], blocked)]
  }

  /** Each slot of the rewritten burst is its own frame, rewritten or not. */
  lemma {:induction false} RewrittenAt(frames: seq<Frame>, blocked: seq<u32>)
    requires AllParsable(frames)
    ensures forall k :: 0 <= k < |frames| ==> Rewritten(frames, blocked)[k] == RewriteFrame(frames[k], blocked)
    decreases |frames|
  {
    if frames != [] {
      var n := |frames| - 1;
      RewrittenAt(frames[..n], blocked);
      assert forall k :: 0 <= k < n ==> frames[..n][k] == frames[k];
    }
  }

  /** Indices grows by at most the last slot when the burst grows by one frame. */
  lemma IndicesSnoc(frames: seq<Frame>, blocked: seq<u32>, fwd: bool, i: nat)
    requires i < |frames| && AllParsable(frames)
    ensures AllParsable(frames[..i]) && AllParsable(frames[..i + 1])
    ensures Indices(frames[..i + 1], blocked, fwd) ==
            Indices(frames[..i], blocked, fwd) + (if Forwardable(frames[i], blocked) == fwd then [i] else [])
  {
    assert frames[..i + 1][..i] == frames[..i];
  }

  /** The sum of rte_pktmbuf_pkt_len over a burst. */
  function TotalLen(frames: seq<Frame>): (r: nat)
    ensures (forall i :: 0 <= i < |frames| ==> |frames[i]| <= MAX_PKT_LEN) ==> r <= |frames| * MAX_PKT_LEN
    decreases |frames|
  {
    if frames == [] then 0
    else
      var n := |frames| - 1;
      assert forall i :: 0 <= i < n ==> frames[..n][i] == frames[i];
      TotalLen(frames[..n]) + |frames[n]|
  }

  /** The slot indices lo, lo + 1, ..., hi - 1. */
  function Range(lo: nat, hi: nat): (r: seq<nat>)
    requires lo <= hi
    ensures |r| == hi - lo && forall k :: 0 <= k < |r| ==> r[k] == lo + k
  {
    seq(hi - lo, k => lo + k)
  }

  /** The frames of the listed slots, in list order. */
  function Gather(frames: seq<Frame>, idx: seq<nat>): (r: seq<Frame>)
    requires Within(idx, |frames|)
    ensures |r| == |idx|
  {
    seq(|idx|, k requires 0 <= k < |idx| => frames[idx[k]])
  }

  /** Receive accounting of a burst (lines 229-234), on the partner port. */
  function RxStats(s: seq<PortStats>, port: PortId, frames: seq<Frame>): (r: seq<PortStats>)
    requires |s| == MAX_PORTS && Burst(frames)
    ensures |r| == MAX_PORTS && r[port] == s[port]
    ensures Sub64(r[Partner(port)].rxPackets, s[Partner(port)].rxPackets) == |frames|
  {
    var rx := Partner(port);
    s[rx := RecordRx(s[rx], |frames|, TotalLen(frames))]
  }

  /** Transmit accounting (lines 292-307) after the NIC accepted the first nbTx
      frames of `submitted`: tx on the worker's port, the rest as drops on the partner. */
  function TxStats(s: seq<PortStats>, port: PortId, submitted: seq<Frame>, nbTx: nat): (r: seq<PortStats>)
    requires |s| == MAX_PORTS && Burst(submitted) && nbTx <= |submitted|
    ensures |r| == MAX_PORTS
    ensures Sub64(r[port].txPackets, s[port].txPackets) == nbTx
    ensures Sub64(r[Partner(port)].dropped, s[Partner(port)].dropped) == |submitted| - nbTx
    ensures r[port].rxPackets == s[port].rxPackets && r[Partner(port)].rxPackets == s[Partner(port)].rxPackets
  {
    var s1 := s[port := RecordTx(s[port], nbTx, TotalLen(submitted[..nbTx]))];
    if nbTx < |submitted| then
      var rx := Partner(port);
      s1[rx := RecordDrop(s1[rx], |submitted| - nbTx)]
    else s1
  }

  /** The counters after one burst as the source runs it: the whole received burst
      is submitted, so the accepted and the unsent counts are taken of nbRx. */
  function BurstStats(s: seq<PortStats>, port: PortId, frames: seq<Frame>, nbTx: nat): (r: seq<PortStats>)
    requires |s| == MAX_PORTS && Burst(frames) && nbTx <= |frames|
    ensures |r| == MAX_PORTS
    ensures Sub64(r[Partner(port)].rxPackets, s[Partner(port)].rxPackets) == |frames|
    ensures Sub64(r[port].txPackets, s[port].txPackets) == nbTx
    ensures r[port].rxPackets == s[port].rxPackets
  {
    if frames == [] then s
    else TxStats(RxStats(s, port, frames), port, frames, nbTx)
  }

  /** The counters after one burst when only the forward set is submitted. */
  function BurstStatsForwardSet(s: seq<PortStats>, port: PortId, frames: seq<Frame>,
                                blocked: seq<u32>, nbTx: nat): (r: seq<PortStats>)
    requires |s| == MAX_PORTS && Burst(frames) && nbTx <= |ForwardSet(frames, blocked)|
    ensures |r| == MAX_PORTS
    ensures Sub64(r[Partner(port)].rxPackets, s[Partner(port)].rxPackets) == |frames|
    ensures Sub64(r[port].txPackets, s[port].txPackets) == nbTx
    ensures r[port].rxPackets == s[port].rxPackets
  {
    if frames == [] then s
    else TxStats(RxStats(s, port, frames), port, Gather(frames, ForwardSet(frames, blocked)), nbTx)
  }

  /** The frees of one as-written burst, by slot and in order: the filtered slots
      (lines 261, 274), then the slots the NIC did not accept (lines 303-304). */
  function ReleasedAsWritten(frames: seq<Frame>, blocked: seq<u32>, nbTx: nat): (r: seq<nat>)
    requires AllParsable(frames) && nbTx <= |frames|
    ensures |r| == |FilteredOut(frames, blocked)| + |frames| - nbTx && Within(r, |frames|)
  {
    FilteredOut(frames, blocked) + Range(nbTx, |frames|)
  }

  /** The frees of one burst when only the forward set is submitted. */
  function ReleasedForwardSet(frames: seq<Frame>, blocked: seq<u32>, nbTx: nat): (r: seq<nat>)
    requires AllParsable(frames) && nbTx <= |ForwardSet(frames, blocked)|
    ensures |r| == |frames| - nbTx && Within(r, |frames|)
  {
    Partition(frames, blocked);
    FilteredOut(frames, blocked) + ForwardSet(frames, blocked)[nbTx..]
  }

  // ---------------------------------------------------------------------------
  // The loop body, as imperative code over the mbuf slots and the counters.

  /** The summing loops of lines 229-232 and 293-296: the byte count of a burst,
      accumulated in a uint64_t, which cannot wrap for a burst. */
  method BurstBytes(pkts: seq<Frame>) returns (total: u64)
    requires Burst(pkts)
    ensures total == TotalLen(pkts)
  {
    total := 0;
    for i := 0 to |pkts|
      invariant total == TotalLen(pkts[..i])
    {
      assert pkts[..i + 1][..i] == pkts[..i];
      assert forall k :: 0 <= k < i + 1 ==> pkts[..i + 1][k] == pkts[k];
      total := Add64(total, |pkts[i]|);
    }
    assert pkts[..|pkts|] == pkts;
  }

  /** The tests of lines 258 and 272 on one frame: the EtherType, then a scan of
      the blocked-address table for the IPv4 source. */
  method Decide(f: Frame, table: BlockedIps) returns (v: Verdict)
    requires Parsable(f) && table.Valid()
    ensures v == Classify(f, table.Entries())
  {
    if EtherType(f) != ETHER_TYPE_IPV4 {
      return NotIpv4;
    }
    var src := Ipv4Src(f);
    var isBlocked := table.IsBlocked(src);
    if isBlocked {
      return Blocked;
    }
    return Forward;
  }

  /** One pass of the filter loop body (lines 250-286) on slot i: a frame that
      survives the filter has its destination MAC rewritten in place; any other is
      left as it is (and freed by the caller). */
  method FilterOne(bufs: array<Frame>, i: nat, table: BlockedIps) returns (forward: bool)
    requires table.Valid() && i < bufs.Length && Parsable(bufs[i])
    modifies bufs
    ensures forward == Forwardable(old(bufs[i]), table.Entries())
    ensures bufs[..] == old(bufs[..])[i := RewriteFrame(old(bufs[i]), table.Entries())]
  {
    var f := bufs[i];
    var v := Decide(f, table);
    forward := v == Forward;
    if forward {
      bufs[i] := SetDstMac(f);
    }
  }

  /** The filter loop of lines 247-287: frees non-IPv4 and blocked frames, rewrites
      the destination MAC of the others in their mbuf and collects their slots. */
  method FilterAndRewrite(bufs: array<Frame>, nbRx: nat, table: BlockedIps)
    returns (toTx: seq<nat>, ghost released: seq<nat>)
    requires table.Valid() && nbRx <= bufs.Length && AllParsable(bufs[..nbRx])
    modifies bufs
    ensures bufs[..nbRx] == Rewritten(old(bufs[..nbRx]), table.Entries())
    ensures bufs[nbRx..] == old(bufs[nbRx..])
    ensures toTx == ForwardSet(old(bufs[..nbRx]), table.Entries())
    ensures released == FilteredOut(old(bufs[..nbRx]), table.Entries())
  {
    ghost var orig := bufs[..];
    ghost var frames := orig[..nbRx];
    ghost var blocked := table.Entries();
    toTx := [];
    released := [];
    RewrittenNone(frames, orig, blocked);
    for i := 0 to nbRx
      invariant table.Valid() && table.Entries() == blocked
      invariant bufs[..] == Rewritten(frames[..i], blocked) + orig[i..]
      invariant toTx == Indices(frames[..i], blocked, true)
      invariant released == Indices(frames[..i], blocked, false)
    {
      RewrittenStep(frames, orig, blocked, i);
      var forward := FilterOne(bufs, i, table);
      IndicesSnoc(frames, blocked, true, i);
      IndicesSnoc(frames, blocked, false, i);
      if !forward {
        released := released + [i];
        continue;
      }
      toTx := toTx + [i];
    }
    RewrittenDone(frames, orig, blocked);
  }

  /** Before the filter loop nothing is rewritten. */
  lemma RewrittenNone(frames: seq<Frame>, orig: seq<Frame>, blocked: seq<u32>)
    requires AllParsable(frames)
    ensures AllParsable(frames[..0]) && Rewritten(frames[..0], blocked) + orig[0..] == orig
  {
    assert frames[..0] == [];
  }

  /** The rewrite keeps every frame's length, so a rewritten burst is still a burst. */
  lemma RewrittenLengths(frames: seq<Frame>, blocked: seq<u32>)
    requires Burst(frames)
    ensures Burst(Rewritten(frames, blocked))
    ensures forall k :: 0 <= k < |frames| ==> |Rewritten(frames, blocked)[k]| == |frames[k]|
  {
    RewrittenAt(frames, blocked);
  }

  /** Gathering the forward set from the rewritten burst gives a burst whose frames
      have the lengths of the received ones. */
  lemma GatherRewrittenLengths(frames: seq<Frame>, blocked: seq<u32>)
    requires Burst(frames)
    ensures Within(ForwardSet(frames, blocked), |Rewritten(frames, blocked)|)
    ensures Burst(Gather(Rewritten(frames, blocked), ForwardSet(frames, blocked)))
    ensures Burst(Gather(frames, ForwardSet(frames, blocked)))
    ensures forall k :: 0 <= k < |ForwardSet(frames, blocked)| ==>
              |Gather(Rewritten(frames, blocked), ForwardSet(frames, blocked))[k]| ==
              |Gather(frames, ForwardSet(frames, blocked))[k]|
  {
    RewrittenLengths(frames, blocked);
  }

  /** The first n frames gathered are the frames of the first n listed slots. */
  lemma GatherPrefix(frames: seq<Frame>, idx: seq<nat>, n: nat)
    requires Within(idx, |frames|) && n <= |idx|
    ensures Within(idx[..n], |frames|)
    ensures Gather(frames, idx)[..n] == Gather(frames, idx[..n])
  {
  }

  /** Rewriting slot i of the partly filtered burst extends the rewritten prefix by one. */
  lemma RewrittenStep(frames: seq<Frame>, orig: seq<Frame>, blocked: seq<u32>, i: nat)
    requires i < |frames| <= |orig| && frames == orig[..|frames|] && AllParsable(frames)
    ensures AllParsable(frames[..i]) && AllParsable(frames[..i + 1]) && Parsable(orig[i])
    ensures (Rewritten(frames[..i], blocked) + orig[i..])[i] == orig[i]
    ensures (Rewritten(frames[..i], blocked) + orig[i..])[i := RewriteFrame(orig[i], blocked)] ==
            Rewritten(frames[..i + 1], blocked) + orig[i + 1..]
  {
    assert frames[i] == orig[i];
    assert frames[..i + 1][..i] == frames[..i];
    var pre := Rewritten(frames[..i], blocked);
    var x := RewriteFrame(orig[i], blocked);
    assert Rewritten(frames[..i + 1], blocked) == pre + [x];
    assert orig[i..] == [orig[i]] + orig[i + 1..];
    assert (pre + orig[i..])[i := x] == pre + [x] + orig[i + 1..];
  }

  /** Once every received slot is visited, the array holds the rewritten burst
      followed by the untouched slots. */
  lemma RewrittenDone(frames: seq<Frame>, orig: seq<Frame>, blocked: seq<u32>)
    requires |frames| <= |orig| && frames == orig[..|frames|] && AllParsable(frames)
    ensures frames[..|frames|] == frames
    ensures (Rewritten(frames, blocked) + orig[|frames|..])[..|frames|] == Rewritten(frames, blocked)
    ensures (Rewritten(frames, blocked) + orig[|frames|..])[|frames|..] == orig[|frames|..]
  {
    assert frames[..|frames|] == frames;
  }

  /** Frames with the same lengths have the same byte count. */
  lemma {:induction false} TotalLenByLengths(a: seq<Frame>, b: seq<Frame>)
    requires |a| == |b| && forall i :: 0 <= i < |a| ==> |a[i]| == |b[i]|
    ensures TotalLen(a) == TotalLen(b)
    decreases |a|
  {
    if a != [] {
      var n := |a| - 1;
      TotalLenByLengths(a[..n], b[..n]);
    }
  }

  /** Lines 229-234: count the received burst on the partner port. */
  method RecordBurstRx(stats: array<PortStats>, port: PortId, pkts: seq<Frame>)
    requires stats.Length == MAX_PORTS && Burst(pkts)
    modifies stats
    ensures stats[..] == RxStats(old(stats[..]), port, pkts)
  {
    var rxBytes := BurstBytes(pkts);
    var rx := Partner(port);
    stats[rx] := RecordRx(stats[rx], |pkts|, rxBytes);
  }

  /** Lines 292-298 and 301-307 without the frees: count the first nbTx frames of
      `submitted` as transmitted on the worker's port and the rest as dropped on
      the partner port. */
  method RecordBurstTx(stats: array<PortStats>, port: PortId, submitted: seq<Frame>, nbTx: nat)
    requires stats.Length == MAX_PORTS && Burst(submitted) && nbTx <= |submitted|
    modifies stats
    ensures stats[..] == TxStats(old(stats[..]), port, submitted, nbTx)
  {
    var txBytes := BurstBytes(submitted[..nbTx]);
    stats[port] := RecordTx(stats[port], nbTx, txBytes);
    if nbTx < |submitted| {
      var rx := Partner(port);
      stats[rx] := RecordDrop(stats[rx], |submitted| - nbTx);
    }
  }

  /** The transmit accounting depends on the submitted frames only through their lengths. */
  lemma TxStatsByLengths(s: seq<PortStats>, port: PortId, a: seq<Frame>, b: seq<Frame>, nbTx: nat)
    requires |s| == MAX_PORTS && Burst(a) && Burst(b) && nbTx <= |a| == |b|
    requires forall i :: 0 <= i < |a| ==> |a[i]| == |b[i]|
    ensures TxStats(s, port, a, nbTx) == TxStats(s, port, b, nbTx)
  {
    TotalLenByLengths(a[..nbTx], b[..nbTx]);
  }

  /** One iteration of the worker loop exactly as the source runs it (lines 222-307):
      the whole received burst bufs[0..nbRx) is submitted at line 290, of which the
      NIC accepts the first nbTx; the forward set is built but never used. */
  method ProcessBurst(stats: array<PortStats>, port: PortId, table: BlockedIps,
                      bufs: array<Frame>, nbRx: nat, nbTx: nat)
    returns (toTx: seq<nat>, sent: seq<Frame>, ghost released: seq<nat>)
    requires stats.Length == MAX_PORTS && table.Valid()
    requires nbRx <= bufs.Length && Burst(bufs[..nbRx]) && nbTx <= nbRx
    modifies stats, bufs
    ensures bufs[..nbRx] == Rewritten(old(bufs[..nbRx]), table.Entries())
    ensures bufs[nbRx..] == old(bufs[nbRx..])
    ensures toTx == ForwardSet(old(bufs[..nbRx]), table.Entries())
    ensures sent == bufs[..nbTx]
    ensures released == ReleasedAsWritten(old(bufs[..nbRx]), table.Entries(), nbTx)
    ensures stats[..] == BurstStats(old(stats[..]), port, old(bufs[..nbRx]), nbTx)
  {
    ghost var frames := bufs[..nbRx];
    if nbRx == 0 {
      return [], [], [];
    }
    RecordBurstRx(stats, port, bufs[..nbRx]);
    ghost var afterRx := stats[..];
    toTx, released := FilterAndRewrite(bufs, nbRx, table);
    RewrittenLengths(frames, table.Entries());
    sent := bufs[..nbTx];
    RecordBurstTx(stats, port, bufs[..nbRx], nbTx);
    TxStatsByLengths(afterRx, port, bufs[..nbRx], frames, nbTx);
    if nbTx < nbRx {
      released := released + Range(nbTx, nbRx);
    }
  }

  /** The same iteration with line 290 submitting to_tx_bufs[0..nb_to_tx), as the
      forward set evidently intends: only surviving frames reach the NIC, and only
      unaccepted surviving frames are freed and counted as dropped. */
  method ProcessBurstForwardSet(stats: array<PortStats>, port: PortId, table: BlockedIps,
                                bufs: array<Frame>, nbRx: nat, nbTx: nat)
    returns (toTx: seq<nat>, sent: seq<Frame>, ghost released: seq<nat>)
    requires stats.Length == MAX_PORTS && table.Valid()
    requires nbRx <= bufs.Length && Burst(bufs[..nbRx])
    requires nbTx <= |ForwardSet(bufs[..nbRx], table.Entries())|
    modifies stats, bufs
    ensures bufs[..nbRx] == Rewritten(old(bufs[..nbRx]), table.Entries())
    ensures bufs[nbRx..] == old(bufs[nbRx..])
    ensures toTx == ForwardSet(old(bufs[..nbRx]), table.Entries())
    ensures sent == Gather(bufs[..nbRx], toTx[..nbTx])
    ensures released == ReleasedForwardSet(old(bufs[..nbRx]), table.Entries(), nbTx)
    ensures stats[..] == BurstStatsForwardSet(old(stats[..]), port, old(bufs[..nbRx]), table.Entries(), nbTx)
  {
    ghost var frames := bufs[..nbRx];
    if nbRx == 0 {
      return [], [], [];
    }
    RecordBurstRx(stats, port, bufs[..nbRx]);
    ghost var afterRx := stats[..];
    toTx, released := FilterAndRewrite(bufs, nbRx, table);
    GatherRewrittenLengths(frames, table.Entries());
    GatherPrefix(bufs[..nbRx], toTx, nbTx);
    var submitted := Gather(bufs[..nbRx], toTx);
    sent := submitted[..nbTx];
    RecordBurstTx(stats, port, submitted, nbTx);
    TxStatsByLengths(afterRx, port, submitted, Gather(frames, toTx), nbTx);
    if nbTx < |toTx| {
      released := released + toTx[nbTx..];
    }
  }

  // ---------------------------------------------------------------------------
  // Properties of one burst.

  /** A slot is in the forward set exactly when its frame is IPv4 and its source is
      not blocked; the set keeps receive order and is no larger than the burst. */
  lemma ForwardSetSpec(frames: seq<Frame>, blocked: seq<u32>)
    requires AllParsable(frames)
    ensures |ForwardSet(frames, blocked)| <= |frames|
    ensures Increasing(ForwardSet(frames, blocked))
    ensures forall i :: 0 <= i < |frames| ==>
              (i in ForwardSet(frames, blocked) <==>
               EtherType(frames[i]) == ETHER_TYPE_IPV4 && Ipv4Src(frames[i]) !in blocked)
  {
    IndicesSound(frames, blocked, true);
    IndicesIncreasing(frames, blocked, true);
    IndicesComplete(frames, blocked, true);
  }

  /** Every received slot is either in the forward set or filtered out, never both:
      no frame of a burst is lost or duplicated by the filter. */
  lemma {:induction false} Partition(frames: seq<Frame>, blocked: seq<u32>)
    requires AllParsable(frames)
    ensures multiset(FilteredOut(frames, blocked) + ForwardSet(frames, blocked)) ==
            multiset(Range(0, |frames|))
    ensures |FilteredOut(frames, blocked)| + |ForwardSet(frames, blocked)| == |frames|
    decreases |frames|
  {
    if frames != [] {
      var n := |frames| - 1;
      Partition(frames[..n], blocked);
      var fo, fs := FilteredOut(frames[..n], blocked), ForwardSet(frames[..n], blocked);
      if Forwardable(frames[n], blocked) {
        assert FilteredOut(frames, blocked) == fo && ForwardSet(frames, blocked) == fs + [n];
        assert fo + (fs + [n]) == (fo + fs) + [n];
      } else {
        assert FilteredOut(frames, blocked) == fo + [n] && ForwardSet(frames, blocked) == fs;
        assert multiset(fo + [n] + fs) == multiset(fo + fs) + multiset{n};
      }
      assert Range(0, n + 1) == Range(0, n) + [n];
    }
  }

  /** After the filter loop, a forwarded frame has bytes 0-5 equal to 00:11:22:33:44:55
      and every other byte unchanged; a filtered frame is untouched. */
  lemma RewriteSpec(frames: seq<Frame>, blocked: seq<u32>)
    requires AllParsable(frames)
    ensures |Rewritten(frames, blocked)| == |frames|
    ensures forall k :: 0 <= k < |ForwardSet(frames, blocked)| ==>
              var i := ForwardSet(frames, blocked)[k];
              |Rewritten(frames, blocked)[i]| == |frames[i]| &&
              Rewritten(frames, blocked)[i][..MAC_LEN] == FWD_DST_MAC &&
              Rewritten(frames, blocked)[i][MAC_LEN..] == frames[i][MAC_LEN..]
    ensures forall k :: 0 <= k < |FilteredOut(frames, blocked)| ==>
              Rewritten(frames, blocked)[FilteredOut(frames, blocked)[k]] ==
              frames[FilteredOut(frames, blocked)[k]]
  {
    IndicesSound(frames, blocked, true);
    IndicesSound(frames, blocked, false);
    RewrittenAt(frames, blocked);
    forall k | 0 <= k < |ForwardSet(frames, blocked)|
      ensures Rewritten(frames, blocked)[ForwardSet(frames, blocked)[k]][MAC_LEN..] ==
              frames[ForwardSet(frames, blocked)[k]][MAC_LEN..]
    {
      var i := ForwardSet(frames, blocked)[k];
      assert Rewritten(frames, blocked)[i] == SetDstMac(frames[i]);
    }
  }

  /** Filtering the rewritten burst again decides every frame the same way: the
      rewrite never touches the fields the filter reads. */
  lemma RewriteKeepsVerdicts(frames: seq<Frame>, blocked: seq<u32>)
    requires AllParsable(frames)
    ensures AllParsable(Rewritten(frames, blocked))
    ensures forall i :: 0 <= i < |frames| ==>
              Classify(Rewritten(frames, blocked)[i], blocked) == Classify(frames[i], blocked)
    ensures ForwardSet(Rewritten(frames, blocked), blocked) == ForwardSet(frames, blocked)
  {
    var r := Rewritten(frames, blocked);
    RewrittenAt(frames, blocked);
    forall i | 0 <= i < |frames|
      ensures Parsable(r[i]) && Classify(r[i], blocked) == Classify(frames[i], blocked)
    {
      SetDstMacKeepsHeaders(frames[i]);
    }
    SameVerdictsSameIndices(r, frames, blocked, true);
  }

  /** Running the filter loop a second time over its own output rewrites nothing further. */
  lemma RewriteIdempotent(frames: seq<Frame>, blocked: seq<u32>)
    requires AllParsable(frames)
    ensures AllParsable(Rewritten(frames, blocked))
    ensures Rewritten(Rewritten(frames, blocked), blocked) == Rewritten(frames, blocked)
  {
    var r := Rewritten(frames, blocked);
    RewriteKeepsVerdicts(frames, blocked);
    RewrittenAt(frames, blocked);
    RewrittenAt(r, blocked);
    forall i | 0 <= i < |r|
      ensures Rewritten(r, blocked)[i] == r[i]
    {
      SetDstMacKeepsHeaders(frames[i]);
    }
  }

  /** Bursts whose frames get the same verdicts have the same Indices. */
  lemma {:induction false} SameVerdictsSameIndices(a: seq<Frame>, b: seq<Frame>, blocked: seq<u32>, fwd: bool)
    requires AllParsable(a) && AllParsable(b) && |a| == |b|
    requires forall i :: 0 <= i < |a| ==> Forwardable(a[i], blocked) == Forwardable(b[i], blocked)
    ensures Indices(a, blocked, fwd) == Indices(b, blocked, fwd)
    decreases |a|
  {
    if a != [] {
      var n := |a| - 1;
      SameVerdictsSameIndices(a[..n], b[..n], blocked, fwd);
    }
  }

  /** What the reporter sees of one as-written burst: the partner port's rx
      differences are the burst's packet and byte counts, the worker port's tx
      differences are those of the first nbTx frames, and the partner's drop count
      grows by the nbRx - nbTx frames the NIC refused; an empty burst changes nothing. */
  lemma ReporterSeesBurst(s: seq<PortStats>, port: PortId, frames: seq<Frame>, nbTx: nat)
    requires |s| == MAX_PORTS && Burst(frames) && nbTx <= |frames|
    ensures SampleDelta(BurstStats(s, port, frames, nbTx)[Partner(port)], s[Partner(port)]) ==
            PortDelta(|frames|, 0, TotalLen(frames), 0)
    ensures SampleDelta(BurstStats(s, port, frames, nbTx)[port], s[port]) ==
            PortDelta(0, nbTx, 0, TotalLen(frames[..nbTx]))
    ensures BurstStats(s, port, frames, nbTx)[Partner(port)].dropped ==
            Add64(s[Partner(port)].dropped, |frames| - nbTx)
    ensures BurstStats(s, port, frames, nbTx)[port].dropped == s[port].dropped
    ensures frames == [] ==> BurstStats(s, port, frames, nbTx) == s
  {
    if frames != [] {
      ReporterSeesTx(s, port, frames, frames, nbTx);
    }
  }

  /** The same for a burst that submits only the forward set: the tx differences
      and the drops are taken of the forward set instead of the whole burst. */
  lemma ReporterSeesBurstForwardSet(s: seq<PortStats>, port: PortId, frames: seq<Frame>,
                                    blocked: seq<u32>, nbTx: nat)
    requires |s| == MAX_PORTS && Burst(frames) && nbTx <= |ForwardSet(frames, blocked)|
    ensures SampleDelta(BurstStatsForwardSet(s, port, frames, blocked, nbTx)[Partner(port)], s[Partner(port)]) ==
            PortDelta(|frames|, 0, TotalLen(frames), 0)
    ensures SampleDelta(BurstStatsForwardSet(s, port, frames, blocked, nbTx)[port], s[port]) ==
            PortDelta(0, nbTx, 0, TotalLen(Gather(frames, ForwardSet(frames, blocked))[..nbTx]))
    ensures BurstStatsForwardSet(s, port, frames, blocked, nbTx)[Partner(port)].dropped ==
            Add64(s[Partner(port)].dropped, |ForwardSet(frames, blocked)| - nbTx)
    ensures BurstStatsForwardSet(s, port, frames, blocked, nbTx)[port].dropped == s[port].dropped
  {
    if frames != [] {
      ReporterSeesTx(s, port, frames, Gather(frames, ForwardSet(frames, blocked)), nbTx);
    }
  }

  /** The receive-then-transmit accounting of a non-empty burst as the two sampled ports see it. */
  lemma ReporterSeesTx(s: seq<PortStats>, port: PortId, frames: seq<Frame>, submitted: seq<Frame>, nbTx: nat)
    requires |s| == MAX_PORTS && Burst(frames) && Burst(submitted) && nbTx <= |submitted|
    ensures SampleDelta(TxStats(RxStats(s, port, frames), port, submitted, nbTx)[Partner(port)], s[Partner(port)]) ==
            PortDelta(|frames|, 0, TotalLen(frames), 0)
    ensures SampleDelta(TxStats(RxStats(s, port, frames), port, submitted, nbTx)[port], s[port]) ==
            PortDelta(0, nbTx, 0, TotalLen(submitted[..nbTx]))
    ensures TxStats(RxStats(s, port, frames), port, submitted, nbTx)[Partner(port)].dropped ==
            Add64(s[Partner(port)].dropped, |submitted| - nbTx)
    ensures TxStats(RxStats(s, port, frames), port, submitted, nbTx)[port].dropped == s[port].dropped
  {
    var rxPort := RecordRx(s[Partner(port)], |frames|, TotalLen(frames));
    TxAfterRx(s, port, frames, submitted, nbTx);
    SampleSeesRx(s[Partner(port)], |frames|, TotalLen(frames));
    SampleSeesTx(s[port], nbTx, TotalLen(submitted[..nbTx]));
    SampleIgnoresDrop(rxPort, |submitted| - nbTx);
  }

  /** Receive and transmit accounting touch the two ports separately. */
  lemma TxAfterRx(s: seq<PortStats>, port: PortId, frames: seq<Frame>, submitted: seq<Frame>, nbTx: nat)
    requires |s| == MAX_PORTS && Burst(frames) && Burst(submitted) && nbTx <= |submitted|
    ensures TxStats(RxStats(s, port, frames), port, submitted, nbTx)[port] ==
            RecordTx(s[port], nbTx, TotalLen(submitted[..nbTx]))
    ensures TxStats(RxStats(s, port, frames), port, submitted, nbTx)[Partner(port)] ==
            if nbTx < |submitted| then RecordDrop(RecordRx(s[Partner(port)], |frames|, TotalLen(frames)), |submitted| - nbTx)
            else RecordRx(s[Partner(port)], |frames|, TotalLen(frames))
  {
    assert RxStats(s, port, frames)[port] == s[port];
  }

  /** Every slot of a burst is either freed or handed to the NIC, and exactly once. */
  predicate OwnershipKept(n: nat, released: seq<nat>, sentSlots: seq<nat>) {
    multiset(released + sentSlots) == multiset(Range(0, n))
  }

  /** As written, the frees and the slots handed to the NIC count every received
      slot once plus every filtered slot a second time: a filtered frame is either
      freed at line 261/274 and then transmitted (slot < nbTx) or freed twice. */
  lemma AsWrittenOwnership(frames: seq<Frame>, blocked: seq<u32>, nbTx: nat)
    requires AllParsable(frames) && nbTx <= |frames|
    ensures multiset(ReleasedAsWritten(frames, blocked, nbTx) + Range(0, nbTx)) ==
            multiset(Range(0, |frames|)) + multiset(FilteredOut(frames, blocked))
  {
    assert Range(0, nbTx) + Range(nbTx, |frames|) == Range(0, |frames|);
  }

  /** As written, buffer ownership is kept exactly when every frame of the burst
      survives the filter. */
  lemma AsWrittenSafeIff(frames: seq<Frame>, blocked: seq<u32>, nbTx: nat)
    requires AllParsable(frames) && nbTx <= |frames|
    ensures OwnershipKept(|frames|, ReleasedAsWritten(frames, blocked, nbTx), Range(0, nbTx)) <==>
            forall i :: 0 <= i < |frames| ==> Forwardable(frames[i], blocked)
  {
    AsWrittenOwnership(frames, blocked, nbTx);
    IndicesSound(frames, blocked, false);
    IndicesComplete(frames, blocked, false);
    var f := FilteredOut(frames, blocked);
    if f != [] {
      assert f[0] in multiset(f);
    }
  }

  /** Submitting the forward set keeps buffer ownership: each received slot is freed
      by the filter, freed as unsent, or handed to the NIC, exactly once. */
  lemma ForwardSetOwnership(frames: seq<Frame>, blocked: seq<u32>, nbTx: nat)
    requires AllParsable(frames) && nbTx <= |ForwardSet(frames, blocked)|
    ensures OwnershipKept(|frames|, ReleasedForwardSet(frames, blocked, nbTx),
                          ForwardSet(frames, blocked)[..nbTx])
  {
    Partition(frames, blocked);
    var fs := ForwardSet(frames, blocked);
    assert fs[..nbTx] + fs[nbTx..] == fs;
  }

  /** Submitting the forward set, every frame the NIC accepts passed the filter and
      carries the rewritten destination MAC. */
  lemma ForwardSetSendsOnlyRewritten(frames: seq<Frame>, blocked: seq<u32>, nbTx: nat)
    requires AllParsable(frames) && nbTx <= |ForwardSet(frames, blocked)|
    ensures forall k :: 0 <= k < nbTx ==>
              var f := Gather(Rewritten(frames, blocked), ForwardSet(frames, blocked)[..nbTx])[k];
              Parsable(f) && Forwardable(f, blocked) && f[..MAC_LEN] == FWD_DST_MAC
  {
    IndicesSound(frames, blocked, true);
    RewriteKeepsVerdicts(frames, blocked);
    RewrittenAt(frames, blocked);
  }

  /** As written, a frame the filter dropped is still among the frames handed to the
      NIC when its slot is below nbTx, and goes out with its destination MAC unchanged. */
  lemma AsWrittenSendsFiltered(frames: seq<Frame>, blocked: seq<u32>, nbTx: nat)
    requires AllParsable(frames) && nbTx <= |frames|
    ensures forall i :: 0 <= i < nbTx && !Forwardable(frames[i], blocked) ==>
              i in FilteredOut(frames, blocked) && Rewritten(frames, blocked)[..nbTx][i] == frames[i]
  {
    IndicesComplete(frames, blocked, false);
    RewrittenAt(frames, blocked);
  }

  /** A 42-byte ARP frame (EtherType 0x0806). */
  const ARP_FRAME: Frame := seq(42, i => if i == 12 then 0x08 else if i == 13 then 0x06 else 0)

  /** One ARP frame alone in a burst: freed at line 261, then handed to the NIC at
      line 290 if it accepts it (nbTx = 1), or freed a second time at line 304 if
      it does not (nbTx = 0). */
  lemma ArpFrameReleasedThenSent()
    ensures Parsable(ARP_FRAME) && EtherType(ARP_FRAME) == 0x0806
    ensures FilteredOut([ARP_FRAME], []) == [0]
    ensures ReleasedAsWritten([ARP_FRAME], [], 1) == [0] && Range(0, 1) == [0]
    ensures ReleasedAsWritten([ARP_FRAME], [], 0) == [0, 0]
  {
    assert [ARP_FRAME][..0] == [];
  }

  /** A minimal IPv4 frame (no payload) from the given source address. */
  function Ipv4Frame(src: u32): (f: Frame)
    ensures Parsable(f) && EtherType(f) == ETHER_TYPE_IPV4 && Ipv4Src(f) == src
  {
    var f: Frame := seq(12, _ => 0) + ToBe16(ETHER_TYPE_IPV4) + seq(12, _ => 0) + ToBe32(src) + seq(4, _ => 0);
    assert f[12..14] == ToBe16(ETHER_TYPE_IPV4);
    assert f[26..30] == ToBe32(src);
    Be16OfToBe16(ETHER_TYPE_IPV4);
    Be32OfToBe32(src);
    f
  }

  /** With 203.0.113.5 blocked, a burst from 203.0.113.5 and 198.51.100.9 forwards
      only the second frame, with the rewritten destination MAC. */
  lemma OneBlockedOneForwarded()
    ensures ForwardSet([Ipv4Frame(0xCB00_7105), Ipv4Frame(0xC633_6409)], [0xCB00_7105]) == [1]
    ensures FilteredOut([Ipv4Frame(0xCB00_7105), Ipv4Frame(0xC633_6409)], [0xCB00_7105]) == [0]
    ensures Rewritten([Ipv4Frame(0xCB00_7105), Ipv4Frame(0xC633_6409)], [0xCB00_7105])[1][..MAC_LEN] == FWD_DST_MAC
  {
    var b := [Ipv4Frame(0xCB00_7105), Ipv4Frame(0xC633_6409)];
    assert b[..1] == [Ipv4Frame(0xCB00_7105)];
    assert b[..1][..0] == b[..0];
  }
}
