/** One node's view of the cluster: folding in what it hears, and deciding who should hold what. */
module Cluster {
  import opened Octets
  import opened Orders
  import opened Names

  type NodeId = Name
  /** The target's name is the job's identity. */
  type JobId = Name

  datatype Config = Config(replication: nat, heartbeatInterval: u64, missedHeartbeats: u32, highWatermark: real) {
    /** Silence longer than this is death; the product saturates. */
    function DeadAfter(): u64 {
      var product := heartbeatInterval * missedHeartbeats;
      if product < U64_LIMIT then product else U64_LIMIT - 1
    }
  }

  datatype NodeStatus = NodeStatus(lastHeartbeat: u64, used: u64, total: u64) {
    /** The fraction of capacity used; 0 when the total is 0. */
    function Utilization(): real {
      if total == 0 then 0.0 else used as real / total as real
    }
  }

  /** `erasure` is `(k, n)`: the object is `n` shards, one a holder. */
  datatype Job = Job(replication: nat, claimants: map<NodeId, u64>, erasure: Option<(u16, u16)>)

  datatype View = View(config: Config, nodes: map<NodeId, NodeStatus>, jobs: map<JobId, Job>)

  // ---- folding ----------------------------------------------------------------------------

  const NO_JOB: Job := Job(0, map[], None)

  function JobOf(v: View, job: JobId): Job {
    if job in v.jobs then v.jobs[job] else NO_JOB
  }

  /** A heartbeat: newer stamps win. */
  function Beaten(v: View, node: NodeId, used: u64, total: u64, now: u64): View {
    var e := if node in v.nodes then v.nodes[node] else NodeStatus(0, used, total);
    v.(nodes := v.nodes[node := if now >= e.lastHeartbeat then NodeStatus(now, used, total) else e])
  }

  function WithJob(v: View, job: JobId, replication: nat): View {
    var j := JobOf(v, job);
    v.(jobs := v.jobs[job := if replication != 0 then j.(replication := replication) else j])
  }

  function SaturatingAdd16(a: u16, b: u16): u16 {
    if a + b < U16_LIMIT then a + b else U16_LIMIT - 1
  }

  /** The stored spec: zero `k` or `redundancy` count as 1, and `k + redundancy` saturates. */
  function Spec(k: u16, redundancy: u16): (u16, u16) {
    var k' := if k >= 1 then k else 1;
    (k', SaturatingAdd16(k', if redundancy >= 1 then redundancy else 1))
  }

  function WithErasureJob(v: View, job: JobId, k: u16, redundancy: u16): View {
    v.(jobs := v.jobs[job := JobOf(v, job).(erasure := Some(Spec(k, redundancy)))])
  }

  function Claimed(v: View, job: JobId, node: NodeId, ts: u64): View {
    var j := JobOf(v, job);
    var e := if node in j.claimants then j.claimants[node] else 0;
    v.(jobs := v.jobs[job := j.(claimants := j.claimants[node := if e >= ts then e else ts])])
  }

  function Released(v: View, job: JobId, node: NodeId): View {
    if job in v.jobs
    then v.(jobs := v.jobs[job := v.jobs[job].(claimants := v.jobs[job].claimants - {node})])
    else v
  }

  // ---- queries ----------------------------------------------------------------------------

  predicate IsLive(v: View, node: NodeId, now: u64) {
    && node in v.nodes
    && (if now >= v.nodes[node].lastHeartbeat then now - v.nodes[node].lastHeartbeat else 0) <= v.config.DeadAfter()
  }

  /** The time a node may be silent, in unbounded numbers. */
  function Patience(config: Config): nat {
    config.heartbeatInterval * config.missedHeartbeats
  }

  /** A known node is live up to and including its last stamp plus as many intervals as it may miss,
      whether or not the product fits 64 bits. */
  lemma LiveExactly(v: View, node: NodeId, now: u64)
    ensures IsLive(v, node, now)
       <==> node in v.nodes
            && now <= v.nodes[node].lastHeartbeat + v.config.heartbeatInterval * v.config.missedHeartbeats
  {
  }

  predicate HasCapacity(v: View, node: NodeId) {
    node in v.nodes && v.nodes[node].Utilization() < v.config.highWatermark
  }

  function Live(v: View, now: u64): set<NodeId> {
    set n | n in v.nodes && IsLive(v, n, now)
  }

  function UtilizationOf(v: View, node: NodeId): real {
    if node in v.nodes then v.nodes[node].Utilization() else 0.0
  }

  /** Lower utilisation first, ties by name. */
  predicate RanksBefore(v: View, a: NodeId, b: NodeId) {
    UtilizationOf(v, a) < UtilizationOf(v, b) || (UtilizationOf(v, a) == UtilizationOf(v, b) && KeyLess(a, b))
  }

  function Rank(v: View): (NodeId, NodeId) -> bool {
    (a, b) => RanksBefore(v, a, b)
  }

  lemma RankIsTotal(v: View, s: set<NodeId>)
    ensures StrictTotal(Rank(v), s)
  {
    hide KeyLess;
    KeyOrder(s);
  }

  function Ranked(v: View, s: set<NodeId>): (q: seq<NodeId>)
    ensures Sorted(Rank(v), q) && Elements(q) == s && |q| == |s|
  {
    RankIsTotal(v, s);
    SortedSeq(Rank(v), s)
  }

  function RankedLive(v: View, now: u64): seq<NodeId> {
    Ranked(v, Live(v, now))
  }

  function WithCapacity(v: View): NodeId -> bool {
    n => HasCapacity(v, n)
  }

  function WithCapacityUnclaimed(v: View, j: Job): NodeId -> bool {
    n => HasCapacity(v, n) && n !in j.claimants
  }

  /** The nodes that should each hold one of `count` shards, in shard order. */
  function ShardHolders(v: View, count: nat, now: u64): seq<NodeId> {
    First(Filter(RankedLive(v, now), WithCapacity(v)), count)
  }

  function Position(q: seq<NodeId>, node: NodeId): Option<nat> {
    if q == [] then None
    else if q[0] == node then Some(0)
    else match Position(q[1..], node) case None => None case Some(i) => Some(i + 1)
  }

  function ShardIndexOf(v: View, self: NodeId, n: nat, now: u64): Option<nat> {
    Position(ShardHolders(v, n, now), self)
  }

  /** An erasure job needs one holder a shard, whatever the copy count. */
  function EffectiveReplication(v: View, job: Job): nat {
    match job.erasure
    case Some(spec) => spec.1
    case None => if job.replication != 0 then job.replication else v.config.replication
  }

  datatype ShardPlan = ShardPlan(index: nat, k: u16, n: u16)

  function PlanOf(v: View, job: JobId, self: NodeId, now: u64): Option<ShardPlan> {
    if job !in v.jobs || v.jobs[job].erasure == None then None
    else
      var (k, n) := v.jobs[job].erasure.value;
      match ShardIndexOf(v, self, n, now)
      case None => None
      case Some(index) => Some(ShardPlan(index, k, n))
  }

  function LiveClaimants(v: View, job: JobId, now: u64): set<NodeId> {
    set n | n in JobOf(v, job).claimants && IsLive(v, n, now)
  }

  predicate IsUnderReplicated(v: View, job: JobId, now: u64) {
    job in v.jobs && |LiveClaimants(v, job, now)| < EffectiveReplication(v, v.jobs[job])
  }

  /** The lowest-ranked live nodes with spare capacity that do not claim the job, exactly enough of
      them to reach the factor. */
  function DesignatedClaimers(v: View, job: JobId, now: u64): seq<NodeId> {
    if job !in v.jobs then []
    else
      var j, have := v.jobs[job], |LiveClaimants(v, job, now)|;
      var need := if EffectiveReplication(v, j) > have then EffectiveReplication(v, j) - have else 0;
      if need == 0 then []
      else First(Filter(RankedLive(v, now), WithCapacityUnclaimed(v, j)), need)
  }

  predicate ShouldClaim(v: View, job: JobId, self: NodeId, now: u64) {
    self in DesignatedClaimers(v, job, now)
  }

  function JobsToClaim(v: View, self: NodeId, now: u64): set<JobId> {
    set j | j in v.jobs && IsUnderReplicated(v, j, now) && ShouldClaim(v, j, self, now)
  }

  /** The lowest-ranked live claimants, up to the factor. */
  function DesignatedKeepers(v: View, job: JobId, now: u64): seq<NodeId> {
    if job !in v.jobs then []
    else First(Ranked(v, LiveClaimants(v, job, now)), EffectiveReplication(v, v.jobs[job]))
  }

  function JobsToRelease(v: View, self: NodeId, now: u64): set<JobId> {
    set j | j in v.jobs && self in v.jobs[j].claimants && IsLive(v, self, now)
            && self !in DesignatedKeepers(v, j, now)
  }

  // ---- the mutable state ------------------------------------------------------------------

  class ClusterState {
    const config: Config
    var nodes: map<NodeId, NodeStatus>
    var jobs: map<JobId, Job>

    constructor (config: Config)
      ensures Snapshot() == View(config, map[], map[])
    {
      this.config := config;
      nodes, jobs := map[], map[];
    }

    function Snapshot(): View
      reads this
    {
      View(config, nodes, jobs)
    }

    method ObserveHeartbeat(node: NodeId, used: u64, total: u64, now: u64)
      modifies this
      ensures Snapshot() == Beaten(old(Snapshot()), node, used, total, now)
    {
      if node !in nodes {
        nodes := nodes[node := NodeStatus(0, used, total)];
      }
      if now >= nodes[node].lastHeartbeat {
        nodes := nodes[node := NodeStatus(now, used, total)];
      }
    }

    method ObserveJob(job: JobId, replication: nat)
      modifies this
      ensures Snapshot() == WithJob(old(Snapshot()), job, replication)
      ensures job in jobs && jobs - {job} == old(jobs) - {job}
      ensures jobs[job].replication
           == if replication != 0 then replication else if job in old(jobs) then old(jobs[job].replication) else 0
      ensures job in old(jobs) ==>
                jobs[job].claimants == old(jobs[job].claimants) && jobs[job].erasure == old(jobs[job].erasure)
    {
      var j := JobOf(Snapshot(), job);
      if replication != 0 {
        j := j.(replication := replication);
      }
      jobs := jobs[job := j];
    }

    method ObserveErasureJob(job: JobId, k: u16, redundancy: u16)
      modifies this
      ensures Snapshot() == WithErasureJob(old(Snapshot()), job, k, redundancy)
      ensures job in jobs && jobs - {job} == old(jobs) - {job} && jobs[job].erasure.Some?
      ensures var (k', n') := jobs[job].erasure.value;
              1 <= k' && (k' < n' || k' == n' == U16_LIMIT - 1)
      ensures k >= 1 && redundancy >= 1 && k + redundancy < U16_LIMIT ==> jobs[job].erasure == Some((k, k + redundancy))
      ensures redundancy == 0 ==> jobs[job].erasure == Some(Spec(k, 1))
      ensures k == 0 ==> jobs[job].erasure == Some(Spec(1, redundancy))
      ensures job in old(jobs) ==>
                && jobs[job].claimants == old(jobs[job].claimants)
                && jobs[job].replication == old(jobs[job].replication)
    {
      var j := JobOf(Snapshot(), job);
      jobs := jobs[job := j.(erasure := Some(Spec(k, redundancy)))];
    }

    method ObserveClaim(job: JobId, node: NodeId, ts: u64)
      modifies this
      ensures Snapshot() == Claimed(old(Snapshot()), job, node, ts)
      ensures job in jobs && jobs - {job} == old(jobs) - {job}
      ensures node in jobs[job].claimants && jobs[job].claimants[node] >= ts
      ensures jobs[job].claimants[node] == ts
              || (job in old(jobs) && node in old(jobs[job].claimants)
                  && jobs[job].claimants[node] == old(jobs[job].claimants[node]))
      ensures job in old(jobs) ==>
                && jobs[job].claimants - {node} == old(jobs[job].claimants) - {node}
                && (node in old(jobs[job].claimants) ==>
                      jobs[job].claimants[node] >= old(jobs[job].claimants[node]))
    {
      var j := JobOf(Snapshot(), job);
      var e := if node in j.claimants then j.claimants[node] else 0;
      jobs := jobs[job := j.(claimants := j.claimants[node := Max(e, ts)])];
    }

    method ObserveRelease(job: JobId, node: NodeId)
      modifies this
      ensures Snapshot() == Released(old(Snapshot()), job, node)
      ensures jobs.Keys == old(jobs.Keys) && jobs - {job} == old(jobs) - {job}
      ensures job in jobs ==>
                && node !in jobs[job].claimants
                && jobs[job].claimants == old(jobs[job].claimants) - {node}
    {
      if job in jobs {
        jobs := jobs[job := jobs[job].(claimants := jobs[job].claimants - {node})];
      }
    }

    /** Sort nodes collected from a map in whatever order it gives them up. */
    method SortByRank(s: set<NodeId>) returns (q: seq<NodeId>)
      ensures q == Ranked(Snapshot(), s)
    {
      hide RanksBefore, Ranked;
      ghost var less := Rank(Snapshot());
      q := [];
      var rest := s;
      while rest != {}
        invariant rest <= s && Sorted(less, q) && Elements(q) == s - rest
      {
        var n :| n in rest;
        q := InsertByRank(q, n, s);
        rest := rest - {n};
      }
      RankIsTotal(Snapshot(), s);
      SortedUnique(less, q, Ranked(Snapshot(), s));
    }

    method InsertByRank(q: seq<NodeId>, n: NodeId, ghost s: set<NodeId>) returns (r: seq<NodeId>)
      requires Sorted(Rank(Snapshot()), q) && Elements(q) <= s && n in s && n !in q
      ensures Sorted(Rank(Snapshot()), r) && Elements(r) == Elements(q) + {n}
    {
      hide RanksBefore;
      ghost var less := Rank(Snapshot());
      RankIsTotal(Snapshot(), s);
      var i := 0;
      while i < |q| && RanksBefore(Snapshot(), q[i], n)
        invariant i <= |q| && forall j | 0 <= j < i :: less(q[j], n)
      {
        i := i + 1;
      }
      InsertSorted(less, s, q, i, n);
      r := q[..i] + [n] + q[i..];
    }

    method RankedLiveNodes(now: u64) returns (q: seq<NodeId>)
      ensures q == RankedLive(Snapshot(), now)
    {
      q := SortByRank(set n | n in nodes && IsLive(Snapshot(), n, now));
      assert (set n | n in nodes && IsLive(Snapshot(), n, now)) == Live(Snapshot(), now);
    }

    method Keepers(job: JobId, now: u64) returns (q: seq<NodeId>)
      ensures q == DesignatedKeepers(Snapshot(), job, now)
    {
      if job !in jobs {
        return [];
      }
      var live := SortByRank(LiveClaimants(Snapshot(), job, now));
      return First(live, EffectiveReplication(Snapshot(), jobs[job]));
    }
  }

  lemma InsertSorted(less: (NodeId, NodeId) -> bool, s: set<NodeId>, q: seq<NodeId>, i: nat, n: NodeId)
    requires StrictTotal(less, s) && Sorted(less, q) && Elements(q) <= s && n in s && n !in q && i <= |q|
    requires forall j | 0 <= j < i :: less(q[j], n)
    requires i < |q| ==> !less(q[i], n)
    ensures Sorted(less, q[..i] + [n] + q[i..]) && Elements(q[..i] + [n] + q[i..]) == Elements(q) + {n}
  {
    var r := q[..i] + [n] + q[i..];
    forall j | i <= j < |q|
      ensures less(n, q[j])
    {
      assert q[i] in Elements(q) && q[j] in Elements(q);
      assert i < j ==> less(q[i], q[j]);
    }
    assert forall x :: x in r <==> x in q || x == n;
  }
}
