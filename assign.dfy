// Startup assignment of worker lcores to receive/transmit queues (fwd/main.c:366-370,
// fwd/main.c:394-402): the worker lcores, in the ascending order in which
// RTE_LCORE_FOREACH_WORKER visits them, receive queue ids 0, 1, ... until
// num_queues ids are given out; every record names port 0.
module QueueAssign {
  import opened Types
  import Stats

  const MAX_LCORES: nat := 128

  /** struct lcore_queue_conf */
  datatype LcoreQueueConf = LcoreQueueConf(portId: u16, queueId: u16)

  /** What RTE_LCORE_FOREACH_WORKER enumerates: distinct lcore ids in ascending
      order, each an index of lcore_conf[MAX_LCORES]. */
  predicate WorkerLcores(workers: seq<nat>) {
    (forall k :: 0 <= k < |workers| ==> workers[k] < MAX_LCORES) &&
    (forall k, l :: 0 <= k < l < |workers| ==> workers[k] < workers[l])
  }

  /** `rte_lcore_count() - 1` in an `unsigned` (line 366): the lcores left for
      workers once the main lcore is set aside, wrapping at 2^32 when there is none. */
  function MaxWorkerLcores(lcoreCount: u32): (r: u32)
    ensures 1 <= lcoreCount ==> r + 1 == lcoreCount
    ensures lcoreCount == 0 ==> r == 0xFFFF_FFFF
  {
    (lcoreCount as int - 1) % 0x1_0000_0000
  }

  /** The startup check of lines 367-370: it passes when there are at least as many
      worker lcores as queues, and, through the unsigned wrap, when the lcore count
      is zero. */
  predicate QueueCountFits(numQueues: u16, lcoreCount: u32)
    ensures QueueCountFits(numQueues, lcoreCount) <==> numQueues < lcoreCount || lcoreCount == 0
  {
    numQueues as int <= MaxWorkerLcores(lcoreCount) as int
  }

  /** The table lcore_conf after the first |workers| visits of the loop. */
  function Assigned(conf: seq<LcoreQueueConf>, workers: seq<nat>, numQueues: u16): (r: seq<LcoreQueueConf>)
    requires |conf| == MAX_LCORES && WorkerLcores(workers)
    ensures |r| == MAX_LCORES
    decreases |workers|
  {
    if workers == [] then conf
    else
      var n := |workers| - 1;
      var c := Assigned(conf, workers[..n], numQueues);
      if n >= numQueues then c else c[workers[n] := LcoreQueueConf(0, n)]
  }

  /** The k-th worker gets (port 0, queue k) while k < numQueues; every other entry of
      lcore_conf, including those of workers beyond numQueues, is left as it was. */
  lemma {:induction false} AssignedSpec(conf: seq<LcoreQueueConf>, workers: seq<nat>, numQueues: u16)
    requires |conf| == MAX_LCORES && WorkerLcores(workers)
    ensures forall k :: 0 <= k < |workers| && k < numQueues ==>
              Assigned(conf, workers, numQueues)[workers[k]] == LcoreQueueConf(0, k)
    ensures forall k :: numQueues <= k < |workers| ==>
              Assigned(conf, workers, numQueues)[workers[k]] == conf[workers[k]]
    ensures forall l :: 0 <= l < MAX_LCORES && l !in workers ==>
              Assigned(conf, workers, numQueues)[l] == conf[l]
    decreases |workers|
  {
    if workers != [] {
      var n := |workers| - 1;
      var w := workers[..n];
      AssignedSpec(conf, w, numQueues);
      var c := Assigned(conf, w, numQueues);
      var r := Assigned(conf, workers, numQueues);
      assert r == if n >= numQueues then c else c[workers[n] := LcoreQueueConf(0, n)];
      forall k | 0 <= k < n
        ensures r[workers[k]] == c[w[k]]
      {
        assert w[k] == workers[k];
        assert workers[k] < workers[n];
      }
      forall l | 0 <= l < MAX_LCORES && l !in workers
        ensures r[l] == conf[l]
      {
        assert l != workers[n];
      }
    }
  }

  /** When the startup check passes and every worker lcore is enumerated, each queue
      0 .. numQueues - 1 is served by exactly one worker, and no worker receives from
      port 0: every worker's receive port is port 0's partner. */
  lemma EveryQueueServed(conf: seq<LcoreQueueConf>, workers: seq<nat>, numQueues: u16, lcoreCount: u32)
    requires |conf| == MAX_LCORES && WorkerLcores(workers)
    requires 1 <= lcoreCount && |workers| + 1 == lcoreCount as int && QueueCountFits(numQueues, lcoreCount)
    ensures forall q :: 0 <= q < numQueues ==>
              Assigned(conf, workers, numQueues)[workers[q]] == LcoreQueueConf(0, q)
    ensures forall k, l :: 0 <= k < l < numQueues ==>
              Assigned(conf, workers, numQueues)[workers[k]].queueId !=
              Assigned(conf, workers, numQueues)[workers[l]].queueId
    ensures forall q :: 0 <= q < numQueues ==>
              Stats.Partner(Assigned(conf, workers, numQueues)[workers[q]].portId) == 1
  {
    AssignedSpec(conf, workers, numQueues);
  }

  /** The loop of lines 394-402. It returns the lcores handed to
      rte_eal_remote_launch, in launch order. */
  method AssignQueues(lcoreConf: array<LcoreQueueConf>, workers: seq<nat>, numQueues: u16)
    returns (launched: seq<nat>)
    requires lcoreConf.Length == MAX_LCORES && WorkerLcores(workers)
    modifies lcoreConf
    ensures lcoreConf[..] == Assigned(old(lcoreConf[..]), workers, numQueues)
    ensures |launched| <= numQueues
    ensures launched == workers[..if |workers| < numQueues then |workers| else numQueues]
  {
    var qid: u16 := 0;
    launched := [];
    var k := 0;
    while k < |workers|
      invariant 0 <= k <= |workers| && qid as int == k <= numQueues
      invariant lcoreConf[..] == Assigned(old(lcoreConf[..]), workers[..k], numQueues)
      invariant launched == workers[..k]
    {
      var lcoreId := workers[k];
      if qid >= numQueues {
        break;
      }
      assert workers[..k + 1][..k] == workers[..k];
      lcoreConf[lcoreId] := LcoreQueueConf(0, qid);
      launched := launched + [lcoreId];
      qid := qid + 1;
      k := k + 1;
    }
    RestUnassigned(old(lcoreConf[..]), workers, k, numQueues);
  }

  /** Visits after the numQueues-th change nothing, so stopping early loses nothing. */
  lemma {:induction false} RestUnassigned(conf: seq<LcoreQueueConf>, workers: seq<nat>, k: nat, numQueues: u16)
    requires |conf| == MAX_LCORES && WorkerLcores(workers) && k <= |workers|
    requires k == |workers| || k == numQueues
    ensures WorkerLcores(workers[..k])
    ensures Assigned(conf, workers, numQueues) == Assigned(conf, workers[..k], numQueues)
    decreases |workers|
  {
    if k < |workers| {
      var n := |workers| - 1;
      assert workers[..n][..k] == workers[..k];
      RestUnassigned(conf, workers[..n], k, numQueues);
    } else {
      assert workers[..k] == workers;
    }
  }
}
