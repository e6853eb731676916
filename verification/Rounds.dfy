/** Rounds of the whole cluster: from a view the nodes share, any of them tick and everyone folds what
    was published. */
module Rounds {
  import opened Octets
  import opened Orders
  import opened Cluster
  import opened Placement
  import opened Gossip
  import opened Node

  // ---- the messages of a round -------------------------------------------------------------

  /** The messages of one node's tick as the others hear them, all at the time of the round. */
  function Bus(from: NodeId, msgs: seq<ClusterMsg>, now: u64): seq<Heard> {
    seq(|msgs|, i requires 0 <= i < |msgs| => Heard(from, msgs[i], now))
  }

  /** `h` is a message node `n` publishes when it ticks at `now` from the shared view `v`: its
      heartbeat with the capacity it last gossiped, a release it owes or a claim it is designated for. */
  predicate SaysInRound(v: View, n: NodeId, now: u64, h: Heard) {
    && h.from == n && h.at == now
    && match h.msg
       case Heartbeat(node, used, total, _) =>
         node == n && n in v.nodes && used == v.nodes[n].used && total == v.nodes[n].total
       case Release(job, node) => node == n && job in JobsToRelease(v, n, now)
       case Claim(job, node, ts) => node == n && ts == now && job in JobsToClaim(v, n, now)
       case Announce(_, _, _) => false
  }

  predicate Releases1(hs: set<Heard>, job: JobId, n: NodeId, now: u64) {
    Heard(n, Release(job, n), now) in hs
  }

  predicate Claims1(hs: set<Heard>, job: JobId, n: NodeId, now: u64) {
    Heard(n, Claim(job, n, now), now) in hs
  }

  predicate Beats1(hs: set<Heard>, n: NodeId) {
    exists h | h in hs :: h.from == n && h.msg.Heartbeat?
  }

  /** `hs` is everything the nodes of `ticking` published in a round from the shared view `v`. */
  ghost predicate IsRound(v: View, ticking: set<NodeId>, now: u64, hs: set<Heard>) {
    && (forall h | h in hs :: h.from in ticking && SaysInRound(v, h.from, now, h))
    && (forall n, j | n in ticking && j in JobsToRelease(v, n, now) :: Releases1(hs, j, n, now))
    && (forall n, j | n in ticking && j in JobsToClaim(v, n, now) :: Claims1(hs, j, n, now))
    && (forall n | n in ticking :: Beats1(hs, n))
  }

  /** What a node sheds it is not designated for. */
  lemma ShedOrDesignated(v: View, n: NodeId, now: u64)
    ensures JobsToRelease(v, n, now) !! JobsToClaim(v, n, now)
  {
    NeverDropAndIngest(v, n, now);
    ClaimsAreDesignated(v, n, now);
  }

  // ---- what a round leaves -----------------------------------------------------------------

  /** A node's own beat, with the capacity the view already has, leaves placement as it was. */
  ghost predicate SameNodes(v: View, w: View, now: u64) {
    && v.config == w.config && v.nodes.Keys == w.nodes.Keys
    && forall n | n in v.nodes ::
         && w.nodes[n].used == v.nodes[n].used && w.nodes[n].total == v.nodes[n].total
         && (w.nodes[n].lastHeartbeat == v.nodes[n].lastHeartbeat
             || (IsLive(v, n, now) && w.nodes[n].lastHeartbeat == now > v.nodes[n].lastHeartbeat))
  }

  lemma SameNodesPlaceAlike(v: View, w: View, now: u64)
    requires SameNodes(v, w, now)
    ensures Agree(v, w, now)
  {
  }

  ghost predicate TickingAreLive(v: View, ticking: set<NodeId>, now: u64) {
    forall n | n in ticking :: IsLive(v, n, now)
  }

  ghost predicate RoundMessages(v: View, ticking: set<NodeId>, now: u64, hs: seq<Heard>) {
    forall i | 0 <= i < |hs| :: hs[i].from in ticking && SaysInRound(v, hs[i].from, now, hs[i])
  }

  lemma NodesStep(v: View, w: View, now: u64, h: Heard)
    requires SameNodes(v, w, now) && SaysInRound(v, h.from, now, h) && IsLive(v, h.from, now)
    ensures SameNodes(v, Step(w, h), now)
  {
    hide JobsToRelease, JobsToClaim;
    if !h.msg.Heartbeat? {
      ObservedOnJob(w, h.msg, h.at);
    }
  }

  lemma {:induction false} FoldSameNodes(v: View, ticking: set<NodeId>, now: u64, hs: seq<Heard>)
    requires TickingAreLive(v, ticking, now) && RoundMessages(v, ticking, now, hs)
    ensures SameNodes(v, Fold(v, hs), now)
  {
    hide SaysInRound, Step, IsLive;
    if hs != [] {
      var before, h := hs[..|hs| - 1], hs[|hs| - 1];
      assert RoundMessages(v, ticking, now, before);
      FoldSameNodes(v, ticking, now, before);
      hide SameNodes;
      NodesStep(v, Fold(v, before), now, h);
    }
  }

  lemma FoldKeepsNodes(v: View, ticking: set<NodeId>, now: u64, hs: seq<Heard>)
    requires TickingAreLive(v, ticking, now) && RoundMessages(v, ticking, now, hs)
    ensures SameNodes(v, Fold(v, hs), now)
    ensures forall i | 0 <= i < |hs| && hs[i].msg.Heartbeat? ::
              hs[i].from in v.nodes && Fold(v, hs).nodes[hs[i].from].lastHeartbeat >= now
  {
    FoldSameNodes(v, ticking, now, hs);
    hide JobsToRelease, JobsToClaim, Fold;
    forall i | 0 <= i < |hs| && hs[i].msg.Heartbeat?
      ensures hs[i].from in v.nodes && Fold(v, hs).nodes[hs[i].from].lastHeartbeat >= now
    {
      assert SaysInRound(v, hs[i].from, now, hs[i]);
      BeatIsHeard(v, hs, hs[i]);
    }
  }

  lemma {:induction false} FoldKeepsJobs(v: View, ticking: set<NodeId>, now: u64, hs: seq<Heard>)
    requires RoundMessages(v, ticking, now, hs)
    ensures Fold(v, hs).jobs.Keys == v.jobs.Keys
    ensures forall j | j in v.jobs ::
              && Fold(v, hs).jobs[j].replication == v.jobs[j].replication
              && Fold(v, hs).jobs[j].erasure == v.jobs[j].erasure
  {
    if hs != [] {
      var before, h := hs[..|hs| - 1], hs[|hs| - 1];
      assert RoundMessages(v, ticking, now, before);
      FoldKeepsJobs(v, ticking, now, before);
      assert SaysInRound(v, h.from, now, h);
      RoundJobIsKnown(v, now, h);
      hide JobsToRelease, JobsToClaim;
      if !h.msg.Heartbeat? {
        ObservedOnJob(Fold(v, before), h.msg, h.at);
      }
    }
  }

  lemma RoundJobIsKnown(v: View, now: u64, h: Heard)
    requires SaysInRound(v, h.from, now, h)
    ensures !h.msg.Heartbeat? ==> JobIn(h.msg) in v.jobs
  {
  }

  /** One round message moves one node in or out of one job's claimants. */
  lemma ClaimantsStep(v: View, w: View, now: u64, h: Heard, job: JobId, n: NodeId)
    requires SaysInRound(v, h.from, now, h) && job in w.jobs && job in Step(w, h).jobs
    ensures n in Step(w, h).jobs[job].claimants
       <==> (h == Heard(n, Claim(job, n, now), now)
            || (n in w.jobs[job].claimants && h != Heard(n, Release(job, n), now)))
  {
    hide JobsToRelease, JobsToClaim;
    if !h.msg.Heartbeat? {
      ObservedOnJob(w, h.msg, h.at);
    }
  }

  /** After the round a node claims a job exactly when it claimed it in the round, or had before and
      did not release it. */
  lemma {:induction false} ClaimantsAfter(v: View, ticking: set<NodeId>, now: u64, hs: seq<Heard>,
                                        job: JobId, n: NodeId)
    requires RoundMessages(v, ticking, now, hs) && job in v.jobs && job in Fold(v, hs).jobs
    ensures n in Fold(v, hs).jobs[job].claimants
       <==> (Heard(n, Claim(job, n, now), now) in hs
            || (n in v.jobs[job].claimants && Heard(n, Release(job, n), now) !in hs))
  {
    hide SaysInRound, Step;
    if hs != [] {
      var before, h := hs[..|hs| - 1], hs[|hs| - 1];
      assert RoundMessages(v, ticking, now, before);
      FoldKeepsJobs(v, ticking, now, before);
      ClaimantsAfter(v, ticking, now, before, job, n);
      ClaimantsStep(v, Fold(v, before), now, h, job, n);
      NotBoth(v, ticking, now, hs, job, n);
      assert hs == before + [h];
    }
  }

  lemma NotBoth(v: View, ticking: set<NodeId>, now: u64, hs: seq<Heard>, job: JobId, n: NodeId)
    requires RoundMessages(v, ticking, now, hs)
    ensures !(Heard(n, Claim(job, n, now), now) in hs && Heard(n, Release(job, n), now) in hs)
  {
    ShedOrDesignated(v, n, now);
    hide JobsToRelease, JobsToClaim;
    assert forall h | h in hs :: SaysInRound(v, h.from, now, h);
  }

  /** The live claimants a round leaves: those that did not owe a release, and those that were
      designated. */
  function LeftBy(v: View, ticking: set<NodeId>, now: u64, job: JobId): set<NodeId> {
    (set n | n in LiveClaimants(v, job, now) && !(n in ticking && job in JobsToRelease(v, n, now)))
    + (set n | n in ticking && job in JobsToClaim(v, n, now))
  }

  ghost predicate IsRoundSeq(v: View, ticking: set<NodeId>, now: u64, hs: seq<Heard>) {
    IsRound(v, ticking, now, Elements(hs))
  }

  lemma RoundSeqMessages(v: View, ticking: set<NodeId>, now: u64, hs: seq<Heard>)
    requires IsRoundSeq(v, ticking, now, hs)
    ensures RoundMessages(v, ticking, now, hs)
  {
    hide SaysInRound;
    forall i | 0 <= i < |hs|
      ensures hs[i].from in ticking && SaysInRound(v, hs[i].from, now, hs[i])
    {
      assert hs[i] in Elements(hs);
    }
  }

  lemma SaidExactly(v: View, ticking: set<NodeId>, now: u64, hs: seq<Heard>, job: JobId, n: NodeId)
    requires IsRoundSeq(v, ticking, now, hs)
    ensures Heard(n, Claim(job, n, now), now) in hs <==> n in ticking && job in JobsToClaim(v, n, now)
    ensures Heard(n, Release(job, n), now) in hs <==> n in ticking && job in JobsToRelease(v, n, now)
  {
    hide JobsToRelease, JobsToClaim;
    assert forall h :: h in hs <==> h in Elements(hs);
    if n in ticking && job in JobsToClaim(v, n, now) {
      assert Claims1(Elements(hs), job, n, now);
    }
    if n in ticking && job in JobsToRelease(v, n, now) {
      assert Releases1(Elements(hs), job, n, now);
    }
  }

  lemma ClaimantsLeft(v: View, ticking: set<NodeId>, now: u64, hs: seq<Heard>, job: JobId)
    requires TickingAreLive(v, ticking, now) && IsRoundSeq(v, ticking, now, hs) && job in v.jobs
    ensures LiveClaimants(Fold(v, hs), job, now) == LeftBy(v, ticking, now, job)
  {
    var f := Fold(v, hs);
    RoundSeqMessages(v, ticking, now, hs);
    FoldKeepsNodes(v, ticking, now, hs);
    FoldKeepsJobs(v, ticking, now, hs);
    SameNodesPlaceAlike(v, f, now);
    hide JobsToRelease, JobsToClaim, IsRoundSeq, RoundMessages, SameNodes;
    forall n
      ensures n in LiveClaimants(f, job, now) <==> n in LeftBy(v, ticking, now, job)
    {
      ClaimantsAfter(v, ticking, now, hs, job, n);
      SaidExactly(v, ticking, now, hs, job, n);
      assert IsLive(f, n, now) <==> IsLive(v, n, now);
    }
  }

  // ---- replication after a round -----------------------------------------------------------

  /** With more live claimants than the factor: keepers stay, and nobody claims. */
  lemma OverLeft(v: View, ticking: set<NodeId>, now: u64, job: JobId)
    requires job in v.jobs && |LiveClaimants(v, job, now)| >= Factor(v, job)
    ensures Elements(DesignatedKeepers(v, job, now)) <= LeftBy(v, ticking, now, job) <= LiveClaimants(v, job, now)
    ensures LiveClaimants(v, job, now) <= ticking ==>
              LeftBy(v, ticking, now, job) == Elements(DesignatedKeepers(v, job, now))
    ensures |Elements(DesignatedKeepers(v, job, now))| == Factor(v, job)
  {
    KeepersAreBest(v, job, now);
    hide DesignatedKeepers, IsLive, DesignatedClaimers, BestOf;
    KeepersAreBestOf(v, job, now);
    assert forall n :: n in Elements(DesignatedKeepers(v, job, now)) <==> n in DesignatedKeepers(v, job, now);
    assert !IsUnderReplicated(v, job, now);
  }

  lemma KeepersAreBestOf(v: View, job: JobId, now: u64)
    requires BestOf(v, DesignatedKeepers(v, job, now), LiveClaimants(v, job, now), Factor(v, job))
    ensures Elements(DesignatedKeepers(v, job, now)) <= LiveClaimants(v, job, now)
    ensures |Elements(DesignatedKeepers(v, job, now))| == Min(|LiveClaimants(v, job, now)|, Factor(v, job))
  {
  }

  lemma UnderChoices(v: View, now: u64, job: JobId, n: NodeId)
    requires job in v.jobs && |LiveClaimants(v, job, now)| < Factor(v, job)
    ensures n in LiveClaimants(v, job, now) ==> job !in JobsToRelease(v, n, now)
    ensures job in JobsToClaim(v, n, now) <==> n in DesignatedClaimers(v, job, now)
  {
    if n in LiveClaimants(v, job, now) {
      AllKeep(v, now, job, n);
    }
    hide DesignatedKeepers, IsLive, DesignatedClaimers;
    assert IsUnderReplicated(v, job, now);
  }

  lemma DesignatedAreSpare(v: View, now: u64, job: JobId)
    requires job in v.jobs
    ensures Elements(DesignatedClaimers(v, job, now)) <= Spare(v, job, now)
    ensures Elements(DesignatedClaimers(v, job, now)) !! LiveClaimants(v, job, now)
    ensures |Elements(DesignatedClaimers(v, job, now))| == Min(|Spare(v, job, now)|, Need(v, job, now))
  {
    ClaimersAreBest(v, job, now);
    hide DesignatedClaimers, IsLive, RanksBefore;
  }

  /** With fewer: everyone stays, and the designated among the ticking join. */
  lemma UnderLeft(v: View, ticking: set<NodeId>, now: u64, job: JobId)
    requires job in v.jobs && |LiveClaimants(v, job, now)| < Factor(v, job)
    ensures LeftBy(v, ticking, now, job)
         == LiveClaimants(v, job, now) + (Elements(DesignatedClaimers(v, job, now)) * ticking)
  {
    hide JobsToRelease, JobsToClaim, DesignatedClaimers, LiveClaimants;
    forall n
      ensures n in LeftBy(v, ticking, now, job)
         <==> n in LiveClaimants(v, job, now) + (Elements(DesignatedClaimers(v, job, now)) * ticking)
    {
      UnderChoices(v, now, job, n);
    }
  }

  /** Whichever live nodes tick, the live claimants end between what they were and the factor. */
  lemma AnySubsetStaysBetween(v: View, ticking: set<NodeId>, now: u64, hs: seq<Heard>, job: JobId)
    requires TickingAreLive(v, ticking, now) && IsRoundSeq(v, ticking, now, hs) && job in v.jobs
    ensures var before, after := |LiveClaimants(v, job, now)|, |LiveClaimants(Fold(v, hs), job, now)|;
            Min(before, Factor(v, job)) <= after <= Max(before, Factor(v, job))
  {
    ClaimantsLeft(v, ticking, now, hs, job);
    hide LeftBy, LiveClaimants, Spare, IsRoundSeq, TickingAreLive, DesignatedClaimers, DesignatedKeepers;
    var live, left := LiveClaimants(v, job, now), LeftBy(v, ticking, now, job);
    if |live| >= Factor(v, job) {
      OverLeft(v, ticking, now, job);
      CardMono(Elements(DesignatedKeepers(v, job, now)), left);
      CardMono(left, live);
    } else {
      UnderLeft(v, ticking, now, job);
      DesignatedAreSpare(v, now, job);
      var joined := Elements(DesignatedClaimers(v, job, now)) * ticking;
      CardMono(joined, Elements(DesignatedClaimers(v, job, now)));
      assert |left| == |live| + |joined|;
    }
  }

  lemma PoolsAreLive(v: View, now: u64, job: JobId)
    ensures LiveClaimants(v, job, now) <= Live(v, now) && Spare(v, job, now) <= Live(v, now)
  {
  }

  /** When every live node ticks, a job with enough live claimants ends with exactly the factor, and
      any other with the factor or with everyone who has room. */
  lemma AllTickReachFactor(v: View, now: u64, hs: seq<Heard>, job: JobId)
    requires IsRoundSeq(v, Live(v, now), now, hs) && job in v.jobs
    ensures var before, after := |LiveClaimants(v, job, now)|, |LiveClaimants(Fold(v, hs), job, now)|;
            after == if before >= Factor(v, job) then Factor(v, job)
                     else Min(Factor(v, job), before + |Spare(v, job, now)|)
    ensures |LiveClaimants(Fold(v, hs), job, now)| < Factor(v, job) ==> Spare(Fold(v, hs), job, now) == {}
  {
    PoolsAreLive(v, now, job);
    ClaimantsLeft(v, Live(v, now), now, hs, job);
    hide LeftBy, LiveClaimants, DesignatedKeepers, Spare, Fold, IsRoundSeq, Live, Factor;
    if |LiveClaimants(v, job, now)| >= Factor(v, job) {
      OverLeft(v, Live(v, now), now, job);
    } else {
      UnderAllTick(v, now, job);
      if |LeftBy(v, Live(v, now), now, job)| < Factor(v, job) {
        NobodySpare(v, now, hs, job);
      }
    }
  }

  lemma NeedIsMissing(v: View, now: u64, job: JobId)
    requires job in v.jobs && |LiveClaimants(v, job, now)| < Factor(v, job)
    ensures Need(v, job, now) == Factor(v, job) - |LiveClaimants(v, job, now)|
  {
  }

  lemma UnderAllTick(v: View, now: u64, job: JobId)
    requires job in v.jobs && |LiveClaimants(v, job, now)| < Factor(v, job)
    ensures var left := LeftBy(v, Live(v, now), now, job);
            && |left| == Min(Factor(v, job), |LiveClaimants(v, job, now)| + |Spare(v, job, now)|)
            && (|left| < Factor(v, job) ==> Spare(v, job, now) <= left)
  {
    hide LeftBy, LiveClaimants, DesignatedClaimers, Spare, Live, Factor, Elements, EffectiveReplication;
    PoolsAreLive(v, now, job);
    UnderLeft(v, Live(v, now), now, job);
    NeedIsMissing(v, now, job);
    DesignatedAreSpare(v, now, job);
    hide Need;
    var joined := Elements(DesignatedClaimers(v, job, now));
    assert joined * Live(v, now) == joined;
    assert |LiveClaimants(v, job, now) + joined| == |LiveClaimants(v, job, now)| + |joined|;
    if |joined| == |Spare(v, job, now)| {
      SameSizeEqual(joined, Spare(v, job, now));
    }
  }

  lemma RoundAgrees(v: View, ticking: set<NodeId>, now: u64, hs: seq<Heard>)
    requires TickingAreLive(v, ticking, now) && IsRoundSeq(v, ticking, now, hs)
    ensures Agree(v, Fold(v, hs), now)
    ensures Fold(v, hs).jobs.Keys == v.jobs.Keys
  {
    RoundSeqMessages(v, ticking, now, hs);
    FoldKeepsNodes(v, ticking, now, hs);
    FoldKeepsJobs(v, ticking, now, hs);
    SameNodesPlaceAlike(v, Fold(v, hs), now);
  }

  /** When all spare nodes joined, none is left: a node that has room after the round had room before
      it, and a claim it made or kept is still there. */
  lemma NobodySpare(v: View, now: u64, hs: seq<Heard>, job: JobId)
    requires IsRoundSeq(v, Live(v, now), now, hs) && job in v.jobs
    requires Spare(v, job, now) <= LiveClaimants(Fold(v, hs), job, now)
    requires |LiveClaimants(v, job, now)| < Factor(v, job)
    ensures Spare(Fold(v, hs), job, now) == {}
  {
    hide Fold, IsRoundSeq, IsLive, HasCapacity;
    forall n | n in Spare(Fold(v, hs), job, now)
      ensures false
    {
      SpareBefore(v, now, hs, job, n);
    }
  }

  lemma SpareBefore(v: View, now: u64, hs: seq<Heard>, job: JobId, n: NodeId)
    requires IsRoundSeq(v, Live(v, now), now, hs) && job in v.jobs && n in Spare(Fold(v, hs), job, now)
    requires |LiveClaimants(v, job, now)| < Factor(v, job)
    ensures n in Spare(v, job, now)
    ensures n !in LiveClaimants(Fold(v, hs), job, now)
  {
    var ticking, f := Live(v, now), Fold(v, hs);
    RoundAgrees(v, ticking, now, hs);
    RoundSeqMessages(v, ticking, now, hs);
    ClaimantsAfter(v, ticking, now, hs, job, n);
    SaidExactly(v, ticking, now, hs, job, n);
    assert (IsLive(f, n, now) <==> IsLive(v, n, now)) && (HasCapacity(f, n) <==> HasCapacity(v, n));
    hide Fold, IsRoundSeq, RoundMessages, JobsToRelease, JobsToClaim, IsLive, HasCapacity;
    if n in v.jobs[job].claimants {
      UnderChoices(v, now, job, n);
    }
  }
}
