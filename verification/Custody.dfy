/** Placement and coding together: what the nodes a view places shards on can give back. */
module Custody {
  import opened Octets
  import opened Orders
  import opened Coding
  import opened Cluster
  import opened Placement
  import opened Gossip
  import opened ObjectCoder

  /** `offers` has, from each of `holders`, the shard its own plan in view `v` tells it to store. */
  predicate FromHolders(v: View, job: JobId, now: u64, holders: set<NodeId>, codec: Codec, data: Bytes,
                        offers: seq<Offered>)
  {
    forall h | h in holders ::
      PlanOf(v, job, h, now).Some? && Offers(offers, codec, data, PlanOf(v, job, h, now).value)
  }

  predicate Offers(offers: seq<Offered>, codec: Codec, data: Bytes, plan: ShardPlan) {
    exists i | 0 <= i < |offers| ::
      && offers[i].index == plan.index
      && offers[i].bytes == ShardOfData(codec, data, plan.k, plan.n, plan.index)
  }

  /** A plan carries the spec last announced for its job. */
  lemma PlanIsAnnounced(v: View, hs: seq<Heard>, job: JobId, self: NodeId, now: u64)
    requires PlanOf(Fold(v, hs), job, self, now).Some?
    ensures var plan := PlanOf(Fold(v, hs), job, self, now).value;
            && plan.index < plan.n
            && Some((plan.k, plan.n)) == if LastSpec(hs, job).Some? then LastSpec(hs, job) else JobOf(v, job).erasure
  {
    hide Fold, PlanOf;
    PlanExactly(Fold(v, hs), job, self, now);
    AnnouncementsStand(v, hs, job);
  }

  function PlannedIndices(v: View, job: JobId, now: u64, holders: set<NodeId>): set<nat> {
    set h | h in holders && PlanOf(v, job, h, now).Some? :: PlanOf(v, job, h, now).value.index
  }

  /** Nodes placed in one view have as many different indices as there are nodes. */
  lemma {:induction false} IndicesDiffer(v: View, job: JobId, now: u64, holders: set<NodeId>)
    requires forall h | h in holders :: PlanOf(v, job, h, now).Some?
    ensures |PlannedIndices(v, job, now, holders)| == |holders|
    decreases |holders|
  {
    hide ShardIndexOf;
    if holders != {} {
      var h :| h in holders;
      var rest := holders - {h};
      IndicesDiffer(v, job, now, rest);
      var index := PlanOf(v, job, h, now).value.index;
      forall g | g in rest
        ensures PlanOf(v, job, g, now).value.index != index
      {
        IndicesAreARange(v, v.jobs[job].erasure.value.1, now, g, h);
      }
      assert PlannedIndices(v, job, now, holders) == PlannedIndices(v, job, now, rest) + {index};
    }
  }

  /** The nodes one view gives plans for a job: all their plans say the same `k` and `n`, and any `k` of
      the nodes, each giving the shard of its plan, give the object back, whatever junk failing its hash
      comes with them. */
  lemma AnyHoldersRebuild(v: View, job: JobId, now: u64, holders: set<NodeId>, plan: ShardPlan, m: Manifest,
                          codec: Codec, hash: Bytes -> Bytes, data: Bytes, offers: seq<Offered>)
    requires exists h :: PlanOf(v, job, h, now) == Some(plan)
    requires 1 <= plan.k <= plan.n <= 255 && Lawful(codec, plan.k, plan.n) && |data| < U64_LIMIT
    requires Describes(m, codec, hash, job, data, plan.k, plan.n)
    requires NoForgery(codec, hash, data, plan.k, plan.n, offers)
    requires FromHolders(v, job, now, holders, codec, data, offers) && |holders| >= plan.k
    ensures Reconstruction(codec, hash, m, offers) == Some(data)
  {
    hide Reconstruction, Lawful, Describes, NoForgery, ShardOfData, PlanOf;
    var one :| PlanOf(v, job, one, now) == Some(plan);
    PlanExactly(v, job, one, now);
    IndicesDiffer(v, job, now, holders);
    var k, n := plan.k, plan.n;
    var planned, genuine := PlannedIndices(v, job, now, holders), GenuineIndices(codec, data, k, n, offers);
    forall i | i in planned
      ensures i in genuine
    {
      var h :| h in holders && PlanOf(v, job, h, now).Some? && PlanOf(v, job, h, now).value.index == i;
      PlanExactly(v, job, h, now);
    }
    CardMono(planned, genuine);
    ReconstructsExactly(m, codec, hash, job, data, k, n, offers);
  }

  /** In particular any `k` of the nodes designated to claim the job. */
  lemma AnyClaimersRebuild(v: View, job: JobId, now: u64, claimers: set<NodeId>, plan: ShardPlan, m: Manifest,
                           codec: Codec, hash: Bytes -> Bytes, data: Bytes, offers: seq<Offered>)
    requires job in v.jobs && v.jobs[job].erasure.Some?
    requires claimers <= Elements(DesignatedClaimers(v, job, now)) && |claimers| >= plan.k
    requires exists c | c in claimers :: PlanOf(v, job, c, now) == Some(plan)
    requires 1 <= plan.k <= plan.n <= 255 && Lawful(codec, plan.k, plan.n) && |data| < U64_LIMIT
    requires Describes(m, codec, hash, job, data, plan.k, plan.n)
    requires NoForgery(codec, hash, data, plan.k, plan.n, offers)
    requires forall c, p | c in claimers && PlanOf(v, job, c, now) == Some(p) :: Offers(offers, codec, data, p)
    ensures Reconstruction(codec, hash, m, offers) == Some(data)
  {
    hide Reconstruction, Lawful, Describes, NoForgery, ShardOfData, PlanOf, DesignatedClaimers, Offers;
    forall c | c in claimers
      ensures PlanOf(v, job, c, now).Some?
    {
      ClaimersHaveShards(v, job, now, c);
    }
    AnyHoldersRebuild(v, job, now, claimers, plan, m, codec, hash, data, offers);
  }
}
