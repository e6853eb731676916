/** What the designated claimers, keepers and shard indices of one view promise. */
module Placement {
  import opened Octets
  import opened Orders
  import opened Cluster

  /** The live nodes with spare capacity: the pool both claims and shards are placed on. */
  function Eligible(v: View, now: u64): set<NodeId> {
    set n | n in Live(v, now) && HasCapacity(v, n)
  }

  /** Of these, the ones that do not claim the job already. */
  function Spare(v: View, job: JobId, now: u64): set<NodeId> {
    set n | n in Eligible(v, now) && n !in JobOf(v, job).claimants
  }

  function Factor(v: View, job: JobId): nat {
    EffectiveReplication(v, JobOf(v, job))
  }

  function Need(v: View, job: JobId, now: u64): nat {
    var have := |LiveClaimants(v, job, now)|;
    if Factor(v, job) > have then Factor(v, job) - have else 0
  }

  /** `chosen` is the best-ranked `count` of `pool`: in rank order, and no node of the pool left out
      ranks before a chosen one. */
  ghost predicate BestOf(v: View, chosen: seq<NodeId>, pool: set<NodeId>, count: nat) {
    && Sorted(Rank(v), chosen)
    && Elements(chosen) <= pool && |Elements(chosen)| == |chosen| == Min(|pool|, count)
    && forall x, y | x in chosen && y in pool && y !in chosen :: RanksBefore(v, x, y)
  }

  lemma FirstRankedIsBest(v: View, pool: set<NodeId>, count: nat)
    ensures BestOf(v, First(Ranked(v, pool), count), pool, count)
  {
    hide RanksBefore;
    RankIsTotal(v, pool);
    FirstAreLeast(Rank(v), pool, count);
  }

  /** A best choice is the only one, so equal views choose alike, in whatever order their maps are
      walked. */
  lemma BestIsUnique(v: View, a: seq<NodeId>, b: seq<NodeId>, pool: set<NodeId>, count: nat)
    requires BestOf(v, a, pool, count) && BestOf(v, b, pool, count)
    ensures a == b
  {
    hide RanksBefore;
    RankIsTotal(v, pool);
    forall x | x in Elements(a)
      ensures x in Elements(b)
    {
      if x !in b {
        SameSizeWitness(Elements(b), Elements(a), x);
        assert false;
      }
    }
    SameSizeEqual(Elements(a), Elements(b));
    RankIsTotal(v, Elements(a));
    SortedUnique(Rank(v), a, b);
  }

  lemma SameSizeWitness(a: set<NodeId>, b: set<NodeId>, x: NodeId)
    requires |a| == |b| && x in b && x !in a
    ensures exists y :: y in a && y !in b
  {
    if a <= b {
      assert a <= b - {x};
      assert |b - {x}| == |b| - 1;
      CardMono(a, b - {x});
    }
  }

  lemma SameSizeEqual(a: set<NodeId>, b: set<NodeId>)
    requires a <= b && |a| == |b|
    ensures a == b
  {
    assert b == a + (b - a);
  }

  lemma FilteredIsRanked(v: View, now: u64, p: NodeId -> bool)
    ensures Filter(RankedLive(v, now), p) == Ranked(v, Where(Live(v, now), p))
  {
    hide Rank, Live, Filter;
    RankIsTotal(v, Live(v, now));
    FilterSorted(Rank(v), Live(v, now), p);
  }

  /** A job's claimers are the best of the spare nodes, exactly enough to reach the factor. */
  lemma ClaimersAreBest(v: View, job: JobId, now: u64)
    requires job in v.jobs
    ensures DesignatedClaimers(v, job, now) == First(Ranked(v, Spare(v, job, now)), Need(v, job, now))
    ensures BestOf(v, DesignatedClaimers(v, job, now), Spare(v, job, now), Need(v, job, now))
  {
    hide RanksBefore, Ranked, RankedLive, Filter, HasCapacity, IsLive, BestOf;
    var p := WithCapacityUnclaimed(v, v.jobs[job]);
    FilteredIsRanked(v, now, p);
    assert Where(Live(v, now), p) == Spare(v, job, now);
    FirstRankedIsBest(v, Spare(v, job, now), Need(v, job, now));
  }

  /** Its keepers are the best of the live claimants, up to the factor. */
  lemma KeepersAreBest(v: View, job: JobId, now: u64)
    requires job in v.jobs
    ensures BestOf(v, DesignatedKeepers(v, job, now), LiveClaimants(v, job, now), Factor(v, job))
  {
    hide RanksBefore;
    FirstRankedIsBest(v, LiveClaimants(v, job, now), Factor(v, job));
  }

  /** The shard holders are the best eligible nodes, in shard order. */
  lemma HoldersAreBest(v: View, count: nat, now: u64)
    ensures ShardHolders(v, count, now) == First(Ranked(v, Eligible(v, now)), count)
    ensures BestOf(v, ShardHolders(v, count, now), Eligible(v, now), count)
  {
    hide RanksBefore, Ranked, RankedLive, Filter, HasCapacity, IsLive, BestOf;
    FilteredIsRanked(v, now, WithCapacity(v));
    assert Where(Live(v, now), WithCapacity(v)) == Eligible(v, now);
    FirstRankedIsBest(v, Eligible(v, now), count);
  }

  // ---- shard indices -----------------------------------------------------------------------

  lemma {:induction false} PositionFound(q: seq<NodeId>, node: NodeId)
    ensures match Position(q, node)
            case None => node !in q
            case Some(i) => i < |q| && q[i] == node
  {
    if q != [] && q[0] != node {
      PositionFound(q[1..], node);
      assert forall x :: x in q <==> x == q[0] || x in q[1..];
    }
  }

  lemma {:induction false} PositionAt(less: (NodeId, NodeId) -> bool, q: seq<NodeId>, i: nat)
    requires StrictTotal(less, Elements(q)) && Sorted(less, q) && i < |q|
    ensures Position(q, q[i]) == Some(i)
  {
    if i > 0 {
      assert less(q[0], q[i]) && q[0] in Elements(q);
      TotalOnPart(less, Elements(q[1..]), Elements(q));
      PositionAt(less, q[1..], i - 1);
    }
  }

  /** In one view no two nodes share an index, every index is below the shard count, and the indices
      in use are exactly `0..min(n, eligible nodes)`. */
  lemma IndicesAreARange(v: View, n: nat, now: u64, a: NodeId, b: NodeId)
    ensures ShardIndexOf(v, a, n, now).Some? && ShardIndexOf(v, a, n, now) == ShardIndexOf(v, b, n, now) ==> a == b
    ensures ShardIndexOf(v, a, n, now).Some? ==>
              ShardIndexOf(v, a, n, now).value < Min(|Eligible(v, now)|, n)
    ensures |ShardHolders(v, n, now)| == Min(|Eligible(v, now)|, n)
    ensures forall i: nat | i < |ShardHolders(v, n, now)| ::
              ShardIndexOf(v, ShardHolders(v, n, now)[i], n, now) == Some(i)
  {
    var h := ShardHolders(v, n, now);
    HoldersAreBest(v, n, now);
    hide ShardHolders, RanksBefore;
    PositionFound(h, a);
    PositionFound(h, b);
    RankIsTotal(v, Elements(h));
    forall i: nat | i < |h|
      ensures Position(h, h[i]) == Some(i)
    {
      PositionAt(Rank(v), h, i);
    }
  }

  /** A node has a plan exactly when the job is an erasure job, the node is live and has room, and fewer
      such nodes than there are shards rank before it. Its index is how many do, and the `k` and `n` are
      the job's. */
  lemma PlanExactly(v: View, job: JobId, self: NodeId, now: u64)
    ensures PlanOf(v, job, self, now).Some?
       <==> (job in v.jobs && v.jobs[job].erasure.Some? && self in Eligible(v, now)
            && |Smaller(Rank(v), Eligible(v, now), self)| < v.jobs[job].erasure.value.1)
    ensures PlanOf(v, job, self, now).Some? ==>
              var plan := PlanOf(v, job, self, now).value;
              && v.jobs[job].erasure == Some((plan.k, plan.n)) && plan.index < plan.n
              && plan.index == |Smaller(Rank(v), Eligible(v, now), self)|
  {
    if job in v.jobs && v.jobs[job].erasure.Some? {
      IndexExactly(v, self, v.jobs[job].erasure.value.1, now);
      hide ShardIndexOf, Smaller, Eligible, Rank;
    }
  }

  lemma IndexExactly(v: View, self: NodeId, n: nat, now: u64)
    ensures match ShardIndexOf(v, self, n, now)
            case None => self !in Eligible(v, now) || |Smaller(Rank(v), Eligible(v, now), self)| >= n
            case Some(i) => self in Eligible(v, now) && i == |Smaller(Rank(v), Eligible(v, now), self)| < n
  {
    var pool, h := Eligible(v, now), ShardHolders(v, n, now);
    HoldersAreBest(v, n, now);
    PositionFound(h, self);
    hide ShardHolders, Rank, HasCapacity, IsLive, Smaller, Eligible;
    RankIsTotal(v, pool);
    assert self in h ==> self in Elements(h);
    if self in pool {
      TakenAreEarly(Rank(v), pool, n, self);
    }
    if self in h {
      var i := Position(h, self).value;
      PositionCounts(Rank(v), pool, i);
      assert h[i] == Ranked(v, pool)[i];
    }
  }

  /** Every node asked to claim an erasure job has a shard to store, and it is one of the `n`. */
  lemma ClaimersHaveShards(v: View, job: JobId, now: u64, x: NodeId)
    requires job in v.jobs && v.jobs[job].erasure.Some? && x in DesignatedClaimers(v, job, now)
    ensures PlanOf(v, job, x, now).Some?
    ensures var plan := PlanOf(v, job, x, now).value;
            v.jobs[job].erasure == Some((plan.k, plan.n)) && plan.index < plan.n
  {
    PlanExactly(v, job, x, now);
    ClaimersAreBest(v, job, now);
    ClaimerIsHolder(v, job, now, x);
    HoldersAreBest(v, Factor(v, job), now);
    PositionFound(ShardHolders(v, Factor(v, job), now), x);
    hide ShardHolders, RanksBefore, DesignatedClaimers, Eligible, Smaller;
  }

  /** Fewer eligible nodes rank before a designated claimer than there are shards: those that are
      spare are designated before it, and the others are live claimants. */
  lemma ClaimerIsHolder(v: View, job: JobId, now: u64, x: NodeId)
    requires job in v.jobs && x in DesignatedClaimers(v, job, now)
    ensures x in ShardHolders(v, Factor(v, job), now)
  {
    var pool, spare, have := Eligible(v, now), Spare(v, job, now), LiveClaimants(v, job, now);
    ClaimersAreBest(v, job, now);
    HoldersAreBest(v, Factor(v, job), now);
    hide ShardHolders, DesignatedClaimers, HasCapacity, Rank;
    assert x in Elements(DesignatedClaimers(v, job, now));
    RankIsTotal(v, spare);
    RankIsTotal(v, pool);
    TakenAreEarly(Rank(v), spare, Need(v, job, now), x);
    TakenAreEarly(Rank(v), pool, Factor(v, job), x);
    var before, spareBefore := Smaller(Rank(v), pool, x), Smaller(Rank(v), spare, x);
    assert before <= spareBefore + have;
    CardMono(before, spareBefore + have);
    assert |spareBefore + have| <= |spareBefore| + |have|;
  }

  /** With no claimants yet, the claimers are the shard holders, in the same order. */
  lemma FreshClaimersAreHolders(v: View, job: JobId, now: u64)
    requires job in v.jobs && v.jobs[job].claimants == map[]
    ensures DesignatedClaimers(v, job, now) == ShardHolders(v, Factor(v, job), now)
  {
    ClaimersAreBest(v, job, now);
    HoldersAreBest(v, Factor(v, job), now);
    hide ShardHolders, DesignatedClaimers, RanksBefore;
    assert Spare(v, job, now) == Eligible(v, now);
    assert LiveClaimants(v, job, now) == {};
  }
}
