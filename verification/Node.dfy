/** One cluster node: it folds what it hears and, each tick, sheds and claims what its view designates
    it for. */
module Node {
  import opened Octets
  import opened Orders
  import opened Names
  import opened Cluster
  import opened Placement
  import opened Gossip

  // ---- a tick as a change of the view ------------------------------------------------------

  function ReleasedAll(v: View, jobs: set<JobId>, self: NodeId): View {
    v.(jobs := map j | j in v.jobs ::
      if j in jobs then v.jobs[j].(claimants := v.jobs[j].claimants - {self}) else v.jobs[j])
  }

  function ClaimedAll(v: View, jobs: set<JobId>, self: NodeId, ts: u64): View {
    v.(jobs := map j | j in v.jobs :: if j in jobs then ClaimedJob(v.jobs[j], self, ts) else v.jobs[j])
  }

  function ClaimedJob(j: Job, self: NodeId, ts: u64): Job {
    var e := if self in j.claimants then j.claimants[self] else 0;
    j.(claimants := j.claimants[self := if e >= ts then e else ts])
  }

  /** The jobs a node in view `v` (its own heartbeat in) sheds, and what it is left with. */
  function Shed(v: View, self: NodeId, now: u64): View {
    ReleasedAll(v, JobsToRelease(v, self, now), self)
  }

  /** Of what is left, the jobs it claims. */
  function TickClaims(v: View, self: NodeId, now: u64): set<JobId> {
    JobsToClaim(Shed(v, self, now), self, now)
  }

  /** The view after a tick from `v`, the node's own heartbeat already in. */
  function Ticked(v: View, self: NodeId, now: u64): View {
    ClaimedAll(Shed(v, self, now), TickClaims(v, self, now), self, now)
  }

  // ---- what placement depends on -----------------------------------------------------------

  /** Two views that see the same nodes alive, equally full and equally able to take more. */
  ghost predicate Agree(v: View, w: View, now: u64) {
    && v.config == w.config
    && forall n: NodeId ::
         && (IsLive(v, n, now) <==> IsLive(w, n, now))
         && (HasCapacity(v, n) <==> HasCapacity(w, n))
         && UtilizationOf(v, n) == UtilizationOf(w, n)
  }

  lemma SameBest(v: View, w: View, now: u64, chosen: seq<NodeId>, pool: set<NodeId>, count: nat)
    requires Agree(v, w, now) && BestOf(v, chosen, pool, count)
    ensures BestOf(w, chosen, pool, count)
  {
    forall a, b
      ensures RanksBefore(v, a, b) <==> RanksBefore(w, a, b)
    {
      hide KeyLess, IsLive, HasCapacity;
    }
    hide RanksBefore;
  }

  lemma AgreeOnClaimers(v: View, w: View, job: JobId, now: u64)
    requires Agree(v, w, now) && job in v.jobs && job in w.jobs && v.jobs[job] == w.jobs[job]
    ensures DesignatedClaimers(v, job, now) == DesignatedClaimers(w, job, now)
  {
    AgreePools(v, w, job, now);
    assert Need(v, job, now) == Need(w, job, now);
    ClaimersAreBest(v, job, now);
    ClaimersAreBest(w, job, now);
    hide Agree, BestOf, DesignatedClaimers, Ranked, LiveClaimants, Spare, Need;
    SameBest(v, w, now, DesignatedClaimers(v, job, now), Spare(w, job, now), Need(w, job, now));
    BestIsUnique(w, DesignatedClaimers(v, job, now), DesignatedClaimers(w, job, now), Spare(w, job, now),
                 Need(w, job, now));
  }

  lemma AgreeOnKeepers(v: View, w: View, job: JobId, now: u64)
    requires Agree(v, w, now) && job in v.jobs && job in w.jobs && v.jobs[job] == w.jobs[job]
    ensures DesignatedKeepers(v, job, now) == DesignatedKeepers(w, job, now)
  {
    AgreePools(v, w, job, now);
    assert Factor(v, job) == Factor(w, job);
    KeepersAreBest(v, job, now);
    KeepersAreBest(w, job, now);
    hide Agree, BestOf, DesignatedKeepers, Ranked, LiveClaimants, Factor;
    SameBest(v, w, now, DesignatedKeepers(v, job, now), LiveClaimants(w, job, now), Factor(w, job));
    BestIsUnique(w, DesignatedKeepers(v, job, now), DesignatedKeepers(w, job, now), LiveClaimants(w, job, now),
                 Factor(w, job));
  }

  /** Views that agree, on a job they know alike, choose alike. */
  lemma AgreeOnJob(v: View, w: View, job: JobId, now: u64)
    requires Agree(v, w, now) && job in v.jobs && job in w.jobs && v.jobs[job] == w.jobs[job]
    ensures LiveClaimants(v, job, now) == LiveClaimants(w, job, now)
    ensures Spare(v, job, now) == Spare(w, job, now)
    ensures DesignatedClaimers(v, job, now) == DesignatedClaimers(w, job, now)
    ensures DesignatedKeepers(v, job, now) == DesignatedKeepers(w, job, now)
    ensures IsUnderReplicated(v, job, now) <==> IsUnderReplicated(w, job, now)
  {
    AgreePools(v, w, job, now);
    AgreeOnClaimers(v, w, job, now);
    AgreeOnKeepers(v, w, job, now);
  }

  lemma AgreePools(v: View, w: View, job: JobId, now: u64)
    requires Agree(v, w, now) && job in v.jobs && job in w.jobs && v.jobs[job] == w.jobs[job]
    ensures LiveClaimants(v, job, now) == LiveClaimants(w, job, now)
    ensures Spare(v, job, now) == Spare(w, job, now)
  {
    forall n
      ensures n in LiveClaimants(v, job, now) <==> n in LiveClaimants(w, job, now)
      ensures n in Spare(v, job, now) <==> n in Spare(w, job, now)
    {
      assert IsLive(v, n, now) <==> IsLive(w, n, now);
    }
  }

  lemma SameNodesAgree(v: View, w: View, now: u64)
    requires v.config == w.config && v.nodes == w.nodes
    ensures Agree(v, w, now)
  {
  }

  // ---- one job through one tick ------------------------------------------------------------

  /** A node sheds a job only when its live claimants exceed the factor. */
  lemma ShedIsExcess(v: View, self: NodeId, now: u64, job: JobId)
    requires job in JobsToRelease(v, self, now)
    ensures self in LiveClaimants(v, job, now) && |LiveClaimants(v, job, now)| > Factor(v, job)
  {
    KeepersAreBest(v, job, now);
    hide DesignatedKeepers, IsLive;
    var live, keepers := LiveClaimants(v, job, now), Elements(DesignatedKeepers(v, job, now));
    assert self in live && self !in keepers;
    if |live| <= Factor(v, job) {
      SameSizeEqual(keepers, live);
    }
  }

  /** With no more live claimants than the factor, all of them keep the job. */
  lemma AllKeep(v: View, now: u64, job: JobId, n: NodeId)
    requires job in v.jobs && |LiveClaimants(v, job, now)| <= Factor(v, job) && n in LiveClaimants(v, job, now)
    ensures n in DesignatedKeepers(v, job, now)
  {
    KeepersAreBest(v, job, now);
    hide DesignatedKeepers, IsLive;
    SameSizeEqual(Elements(DesignatedKeepers(v, job, now)), LiveClaimants(v, job, now));
    assert n in Elements(DesignatedKeepers(v, job, now));
  }

  lemma ClaimantNotDesignated(v: View, now: u64, job: JobId, n: NodeId)
    requires job in v.jobs && n in v.jobs[job].claimants
    ensures !ShouldClaim(v, job, n, now)
  {
    ClaimersAreBest(v, job, now);
    hide DesignatedClaimers;
    assert n !in Spare(v, job, now);
    assert n !in Elements(DesignatedClaimers(v, job, now));
  }

  /** What a node sheds it does not claim in the same tick. */
  lemma ShedNotClaimed(v: View, self: NodeId, now: u64, job: JobId)
    requires job in JobsToRelease(v, self, now)
    ensures !IsUnderReplicated(v, job, now)
    ensures !IsUnderReplicated(Shed(v, self, now), job, now)
  {
    ShedIsExcess(v, self, now, job);
    var w := Shed(v, self, now);
    forall n
      ensures n in LiveClaimants(w, job, now) <==> n in LiveClaimants(v, job, now) - {self}
    {
      assert IsLive(v, n, now) <==> IsLive(w, n, now);
    }
    assert LiveClaimants(w, job, now) == LiveClaimants(v, job, now) - {self};
  }

  /** From any state a tick never drops and ingests the same job. */
  lemma NeverDropAndIngest(v: View, self: NodeId, now: u64)
    ensures JobsToRelease(v, self, now) !! TickClaims(v, self, now)
  {
    hide JobsToRelease, IsUnderReplicated, ShouldClaim, Shed;
    forall j | j in JobsToRelease(v, self, now)
      ensures j !in TickClaims(v, self, now)
    {
      ShedNotClaimed(v, self, now, j);
    }
  }

  /** The jobs a tick claims are the ones its view designates it for, shed or not. */
  lemma ClaimsAreDesignated(v: View, self: NodeId, now: u64)
    ensures TickClaims(v, self, now) == JobsToClaim(v, self, now)
  {
    var w := Shed(v, self, now);
    SameNodesAgree(v, w, now);
    hide Agree, IsUnderReplicated, ShouldClaim;
    forall j | j in v.jobs
      ensures j in JobsToClaim(w, self, now) <==> j in JobsToClaim(v, self, now)
    {
      if j in JobsToRelease(v, self, now) {
        ShedNotClaimed(v, self, now, j);
      } else {
        AgreeOnJob(v, w, j, now);
        ShouldClaimAlike(v, w, j, self, now);
      }
    }
  }

  lemma ShouldClaimAlike(v: View, w: View, job: JobId, self: NodeId, now: u64)
    requires DesignatedClaimers(v, job, now) == DesignatedClaimers(w, job, now)
    ensures ShouldClaim(v, job, self, now) <==> ShouldClaim(w, job, self, now)
  {
  }

  // ---- after the tick ----------------------------------------------------------------------

  lemma ShedJobSettled(v: View, self: NodeId, now: u64, job: JobId)
    requires job in JobsToRelease(v, self, now)
    ensures var w := Ticked(v, self, now);
            job !in JobsToRelease(w, self, now) && job !in JobsToClaim(w, self, now)
  {
    var u, w := Shed(v, self, now), Ticked(v, self, now);
    NeverDropAndIngest(v, self, now);
    ShedNotClaimed(v, self, now, job);
    SameNodesAgree(u, w, now);
    AgreeOnJob(u, w, job, now);
  }

  lemma ClaimedLive(v: View, self: NodeId, now: u64, job: JobId)
    requires IsLive(v, self, now) && job in TickClaims(v, self, now)
    ensures job in Ticked(v, self, now).jobs && self in Ticked(v, self, now).jobs[job].claimants
    ensures LiveClaimants(Ticked(v, self, now), job, now) == LiveClaimants(Shed(v, self, now), job, now) + {self}
  {
    var u, w := Shed(v, self, now), Ticked(v, self, now);
    hide IsUnderReplicated, ShouldClaim, DesignatedKeepers;
    forall n
      ensures n in LiveClaimants(w, job, now) <==> n in LiveClaimants(u, job, now) + {self}
    {
      assert IsLive(w, n, now) <==> IsLive(u, n, now);
      assert IsLive(w, self, now) <==> IsLive(v, self, now);
    }
  }

  lemma ClaimedJobSettled(v: View, self: NodeId, now: u64, job: JobId)
    requires IsLive(v, self, now) && job in TickClaims(v, self, now)
    ensures var w := Ticked(v, self, now);
            job !in JobsToRelease(w, self, now) && job !in JobsToClaim(w, self, now)
  {
    var u, w := Shed(v, self, now), Ticked(v, self, now);
    ClaimedLive(v, self, now, job);
    SameFactor(v, self, now, job);
    hide IsLive, Shed, Ticked, LiveClaimants, ShouldClaim, DesignatedKeepers;
    AllKeep(w, now, job, self);
    ClaimantNotDesignated(w, now, job, self);
  }

  /** What is claimed was short of its factor, which a tick does not change. */
  lemma SameFactor(v: View, self: NodeId, now: u64, job: JobId)
    requires job in TickClaims(v, self, now)
    ensures Factor(Ticked(v, self, now), job) == Factor(Shed(v, self, now), job)
    ensures |LiveClaimants(Shed(v, self, now), job, now)| < Factor(Shed(v, self, now), job)
  {
    hide ShouldClaim, LiveClaimants, DesignatedKeepers;
  }

  lemma UntouchedJobSettled(v: View, self: NodeId, now: u64, job: JobId)
    requires job in v.jobs && job !in JobsToRelease(v, self, now) && job !in TickClaims(v, self, now)
    ensures var w := Ticked(v, self, now);
            job !in JobsToRelease(w, self, now) && job !in JobsToClaim(w, self, now)
  {
    var u, w := Shed(v, self, now), Ticked(v, self, now);
    SameNodesAgree(v, w, now);
    SameNodesAgree(v, u, now);
    AgreeOnJob(v, w, job, now);
    AgreeOnJob(v, u, job, now);
    hide DesignatedClaimers, DesignatedKeepers, IsUnderReplicated;
    assert IsLive(v, self, now) <==> IsLive(w, self, now);
  }

  /** After a tick the node has nothing left to shed or claim at that time, so a second tick with the
      same capacity emits only a heartbeat and changes nothing. */
  lemma TickSettles(v: View, self: NodeId, used: u64, total: u64, now: u64)
    ensures var w := Ticked(Beaten(v, self, used, total, now), self, now);
            && JobsToRelease(w, self, now) == {} && JobsToClaim(w, self, now) == {}
            && Beaten(w, self, used, total, now) == w
            && TickClaims(w, self, now) == {} && Ticked(w, self, now) == w
  {
    var v' := Beaten(v, self, used, total, now);
    var w := Ticked(v', self, now);
    assert IsLive(v', self, now);
    forall j | j in w.jobs
      ensures j !in JobsToRelease(w, self, now) && j !in JobsToClaim(w, self, now)
    {
      if j in JobsToRelease(v', self, now) {
        ShedJobSettled(v', self, now, j);
      } else if j in TickClaims(v', self, now) {
        ClaimedJobSettled(v', self, now, j);
      } else {
        UntouchedJobSettled(v', self, now, j);
      }
    }
    SettledStays(w, self, now);
    assert Beaten(w, self, used, total, now).nodes == w.nodes;
  }

  lemma SettledStays(w: View, self: NodeId, now: u64)
    requires forall j | j in w.jobs :: j !in JobsToRelease(w, self, now) && j !in JobsToClaim(w, self, now)
    ensures JobsToRelease(w, self, now) == {} && JobsToClaim(w, self, now) == {}
    ensures TickClaims(w, self, now) == {} && Ticked(w, self, now) == w
  {
    ClaimsAreDesignated(w, self, now);
    hide IsUnderReplicated, ShouldClaim, DesignatedKeepers, IsLive;
    assert JobsToRelease(w, self, now) == {};
    assert JobsToClaim(w, self, now) == {};
    assert Shed(w, self, now).jobs == w.jobs;
    assert Ticked(w, self, now).jobs == w.jobs;
  }

  // ---- the node ----------------------------------------------------------------------------

  /** What a tick decided: messages to gossip, jobs newly claimed and jobs let go. */
  datatype TickOutcome = TickOutcome(publish: seq<ClusterMsg>, ingest: seq<JobId>, drop: seq<JobId>)

  function Releases(jobs: seq<JobId>, self: NodeId): seq<ClusterMsg> {
    seq(|jobs|, i requires 0 <= i < |jobs| => Release(jobs[i], self))
  }

  function Claims(jobs: seq<JobId>, self: NodeId, ts: u64): seq<ClusterMsg> {
    seq(|jobs|, i requires 0 <= i < |jobs| => Claim(jobs[i], self, ts))
  }

  /** The messages of a tick: the heartbeat, then what was shed, then what was claimed. */
  function Published(self: NodeId, used: u64, total: u64, epoch: nat, now: u64, drop: seq<JobId>,
                     ingest: seq<JobId>): seq<ClusterMsg> {
    [Heartbeat(self, used, total, epoch % U64_LIMIT)] + Releases(drop, self) + Claims(ingest, self, now)
  }

  class ClusterNode {
    const self: NodeId
    const state: ClusterState
    var used: u64
    var total: u64
    var epoch: nat

    constructor (self: NodeId, config: Config, total: u64)
      ensures fresh(state) && this.self == self && this.total == total && used == 0 && epoch == 0
      ensures state.Snapshot() == View(config, map[], map[])
    {
      this.self := self;
      state := new ClusterState(config);
      this.used, this.total, epoch := 0, total, 0;
    }

    /** Fold a gossiped message in. */
    method Observe(msg: ClusterMsg, now: u64)
      modifies state
      ensures state.Snapshot() == Observed(old(state.Snapshot()), msg, now)
    {
      match msg {
        case Heartbeat(node, used, total, _) =>
          state.ObserveHeartbeat(node, used, total, now);
        case Announce(target, replication, erasure) =>
          match erasure {
            case Some(spec) => state.ObserveErasureJob(target, spec.0, SaturatingSub(spec.1, spec.0));
            case None => state.ObserveJob(target, replication);
          }
        case Claim(job, node, ts) =>
          state.ObserveClaim(job, node, ts);
        case Release(job, node) =>
          state.ObserveRelease(job, node);
      }
    }

    /** One coordination round: record and publish the heartbeat, shed, then claim. */
    method Tick(now: u64) returns (out: TickOutcome)
      modifies this`epoch, state
      ensures epoch == old(epoch) + 1
      ensures var v := Beaten(old(state.Snapshot()), self, used, total, now);
              && state.Snapshot() == Ticked(v, self, now)
              && Elements(out.drop) == JobsToRelease(v, self, now) && |out.drop| == |JobsToRelease(v, self, now)|
              && Elements(out.ingest) == JobsToClaim(v, self, now) && |out.ingest| == |JobsToClaim(v, self, now)|
              && Elements(out.drop) !! Elements(out.ingest)
              && out.publish == Published(self, used, total, epoch, now, out.drop, out.ingest)
    {
      epoch := epoch + 1;
      state.ObserveHeartbeat(self, used, total, now);
      ghost var v := state.Snapshot();
      NeverDropAndIngest(v, self, now);
      ClaimsAreDesignated(v, self, now);
      hide JobsToRelease, JobsToClaim;
      var dropped := ShedExcess(now);
      var claimed := ClaimDesignated(now);
      out := TickOutcome(Published(self, used, total, epoch, now, dropped, claimed), claimed, dropped);
    }

    method ShedExcess(now: u64) returns (dropped: seq<JobId>)
      modifies state
      ensures state.Snapshot() == Shed(old(state.Snapshot()), self, now)
      ensures Elements(dropped) == JobsToRelease(old(state.Snapshot()), self, now)
      ensures |dropped| == |JobsToRelease(old(state.Snapshot()), self, now)|
    {
      hide JobsToRelease;
      ghost var v := state.Snapshot();
      var jobs := JobsToRelease(state.Snapshot(), self, now);
      var rest := jobs;
      dropped := [];
      assert ReleasedAll(v, {}, self).jobs == v.jobs;
      while rest != {}
        invariant rest <= jobs && Elements(dropped) == jobs - rest && |dropped| == |jobs| - |rest|
        invariant state.Snapshot() == ReleasedAll(v, jobs - rest, self)
      {
        var job :| job in rest;
        state.ObserveRelease(job, self);
        ReleasedNext(v, jobs - rest, job, self);
        assert jobs - (rest - {job}) == (jobs - rest) + {job};
        ElementsSnoc(dropped, job);
        dropped := dropped + [job];
        rest := rest - {job};
      }
      assert jobs - rest == jobs;
    }

    method ClaimDesignated(now: u64) returns (claimed: seq<JobId>)
      modifies state
      ensures state.Snapshot()
           == ClaimedAll(old(state.Snapshot()), JobsToClaim(old(state.Snapshot()), self, now), self, now)
      ensures Elements(claimed) == JobsToClaim(old(state.Snapshot()), self, now)
      ensures |claimed| == |JobsToClaim(old(state.Snapshot()), self, now)|
    {
      hide JobsToClaim, Claimed, ClaimedAll, ClaimedJob;
      ghost var v := state.Snapshot();
      var jobs := JobsToClaim(state.Snapshot(), self, now);
      ClaimsAreKnown(v, self, now);
      ClaimedNone(v, self, now);
      var rest := jobs;
      claimed := [];
      assert jobs - rest == {};
      while rest != {}
        invariant rest <= jobs && Elements(claimed) == jobs - rest && |claimed| == |jobs| - |rest|
        invariant state.Snapshot() == ClaimedAll(v, jobs - rest, self, now)
      {
        var job :| job in rest;
        state.ObserveClaim(job, self, now);
        ClaimedNext(v, jobs - rest, job, self, now);
        assert jobs - (rest - {job}) == (jobs - rest) + {job};
        ElementsSnoc(claimed, job);
        claimed := claimed + [job];
        rest := rest - {job};
      }
      assert jobs - rest == jobs;
    }
  }

  lemma ClaimsAreKnown(v: View, self: NodeId, now: u64)
    ensures JobsToClaim(v, self, now) <= v.jobs.Keys
  {
  }

  lemma ClaimedNone(v: View, self: NodeId, ts: u64)
    ensures ClaimedAll(v, {}, self, ts) == v
  {
    assert ClaimedAll(v, {}, self, ts).jobs == v.jobs;
  }

  lemma ElementsSnoc(q: seq<JobId>, x: JobId)
    ensures Elements(q + [x]) == Elements(q) + {x}
  {
  }

  lemma ReleasedNone(v: View, self: NodeId)
    ensures ReleasedAll(v, {}, self) == v
  {
    assert ReleasedAll(v, {}, self).jobs == v.jobs;
  }

  lemma ReleasedNext(v: View, done: set<JobId>, job: JobId, self: NodeId)
    ensures Released(ReleasedAll(v, done, self), job, self) == ReleasedAll(v, done + {job}, self)
  {
    if job in v.jobs {
      var c := v.jobs[job].claimants - {self};
      assert c - {self} == c;
    }
    assert Released(ReleasedAll(v, done, self), job, self).jobs == ReleasedAll(v, done + {job}, self).jobs;
  }

  lemma ClaimedNext(v: View, done: set<JobId>, job: JobId, self: NodeId, ts: u64)
    requires job in v.jobs
    ensures Claimed(ClaimedAll(v, done, self, ts), job, self, ts) == ClaimedAll(v, done + {job}, self, ts)
  {
    var once := ClaimedJob(v.jobs[job], self, ts);
    assert ClaimedJob(once, self, ts).claimants == once.claimants;
    assert Claimed(ClaimedAll(v, done, self, ts), job, self, ts).jobs == ClaimedAll(v, done + {job}, self, ts).jobs;
  }
}
