/** Rounds of a cluster that shares a view: over any number of them every job reaches its factor and
    stays there, from any start, and after any of the nodes died. */
module Simulation {
  import opened Octets
  import opened Orders
  import opened Cluster
  import opened Placement
  import opened Gossip
  import opened Node
  import opened Rounds
  import opened SharedView

  // ---- what a live node's tick adds --------------------------------------------------------

  lemma OwnBeatAgrees(v: View, n: NodeId, c: Capacity, now: u64)
    requires IsLive(v, n, now) && AsGossiped(v, n, c)
    ensures SameNodes(v, Own(v, n, c, now), now) && Agree(v, Own(v, n, c, now), now)
  {
    SameNodesPlaceAlike(v, Own(v, n, c, now), now);
  }

  /** Its own beat changes nothing it decides. */
  lemma OwnBeatDecidesAlike(v: View, n: NodeId, c: Capacity, now: u64)
    requires IsLive(v, n, now) && AsGossiped(v, n, c)
    ensures JobsToRelease(Own(v, n, c, now), n, now) == JobsToRelease(v, n, now)
    ensures JobsToClaim(Own(v, n, c, now), n, now) == JobsToClaim(v, n, now)
  {
    var w := Own(v, n, c, now);
    OwnBeatAgrees(v, n, c, now);
    assert IsLive(v, n, now) <==> IsLive(w, n, now);
    hide Agree, SameNodes, IsLive, DesignatedKeepers, IsUnderReplicated, DesignatedClaimers;
    forall j | j in v.jobs
      ensures j in JobsToRelease(w, n, now) <==> j in JobsToRelease(v, n, now)
      ensures j in JobsToClaim(w, n, now) <==> j in JobsToClaim(v, n, now)
    {
      AgreeOnJob(v, w, j, now);
    }
  }

  /** What live nodes publish, each with the capacity it is known by, is what a round consists of. */
  lemma TicksMakeARound(v: View, r: Round)
    requires Played(v, r)
    requires forall n | n in r.caps :: IsLive(v, n, r.now) && AsGossiped(v, n, r.caps[n])
    ensures IsRoundSeq(v, r.caps.Keys, r.now, r.bus)
  {
    hide IsTickOf, JobsToRelease, JobsToClaim, IsLive;
    var hs := Elements(r.bus);
    forall h | h in hs
      ensures h.from in r.caps && SaysInRound(v, h.from, r.now, h)
    {
      PlayedSays(v, r, h);
      OwnBeatDecidesAlike(v, h.from, r.caps[h.from], r.now);
    }
    forall n | n in r.caps
      ensures forall j | j in JobsToRelease(v, n, r.now) :: Releases1(hs, j, n, r.now)
      ensures forall j | j in JobsToClaim(v, n, r.now) :: Claims1(hs, j, n, r.now)
      ensures Beats1(hs, n)
    {
      assert OwnPart(r.bus, n, r.owns[n]);
      OwnBeatDecidesAlike(v, n, r.caps[n], r.now);
      hide SaysInRound, TickSays;
      var beat := TickPublishes(v, n, r.caps[n], r.now, r.owns[n]);
      assert beat in hs && beat.from == n;
    }
  }

  // ---- many rounds -------------------------------------------------------------------------

  /** Every node of `alive` ticks in every round, rounds are no further apart than the time it takes
      to be declared dead, and nobody else speaks. */
  ghost predicate ValidRounds(v: View, alive: set<NodeId>, rounds: seq<Round>)
    decreases |rounds|
  {
    rounds == [] ||
    (&& IsRoundSeq(v, alive, rounds[0].now, rounds[0].bus)
     && (|rounds| > 1 ==> rounds[0].now <= rounds[1].now <= rounds[0].now + Patience(v.config))
     && ValidRounds(Fold(v, rounds[0].bus), alive, rounds[1..]))
  }

  /** No job has too many live claimants, and one with too few has nobody left to ask. */
  ghost predicate Settled(v: View, now: u64) {
    forall j | j in v.jobs :: JobSettled(v, j, now)
  }

  ghost predicate JobSettled(v: View, j: JobId, now: u64) {
    && |LiveClaimants(v, j, now)| <= Factor(v, j)
    && (|LiveClaimants(v, j, now)| < Factor(v, j) ==> Spare(v, j, now) == {})
  }

  /** In a settled view a live node has nothing to release and nothing to claim. */
  lemma SettledIsQuiet(v: View, now: u64, n: NodeId)
    requires Settled(v, now) && IsLive(v, n, now)
    ensures JobsToRelease(v, n, now) == {} && JobsToClaim(v, n, now) == {}
  {
    forall j | j in v.jobs
      ensures j !in JobsToRelease(v, n, now) && j !in JobsToClaim(v, n, now)
    {
      assert JobSettled(v, j, now);
      QuietJob(v, now, n, j);
    }
    hide IsUnderReplicated, ShouldClaim, DesignatedKeepers, IsLive;
  }

  lemma QuietJob(v: View, now: u64, n: NodeId, j: JobId)
    requires j in v.jobs && JobSettled(v, j, now) && IsLive(v, n, now)
    ensures j !in JobsToRelease(v, n, now) && j !in JobsToClaim(v, n, now)
  {
    if n in v.jobs[j].claimants {
      AllKeep(v, now, j, n);
    }
    DesignatedAreSpare(v, now, j);
    hide DesignatedKeepers, DesignatedClaimers, IsLive, Spare;
    assert n !in Elements(DesignatedClaimers(v, j, now)) || !IsUnderReplicated(v, j, now);
  }

  /** The rounds of a settled view publish heartbeats only. */
  ghost predicate QuietRounds(v: View, alive: set<NodeId>, rounds: seq<Round>)
    decreases |rounds|
  {
    rounds == [] ||
    (&& (forall n | n in alive :: JobsToRelease(v, n, rounds[0].now) == {} && JobsToClaim(v, n, rounds[0].now) == {})
     && (forall h | h in rounds[0].bus :: h.msg.Heartbeat?)
     && QuietRounds(Fold(v, rounds[0].bus), alive, rounds[1..]))
  }

  lemma SameLivePools(v: View, j: JobId, t: u64, t': u64)
    requires Live(v, t) == Live(v, t')
    ensures LiveClaimants(v, j, t) == LiveClaimants(v, j, t') && Spare(v, j, t) == Spare(v, j, t')
  {
    assert forall n :: n in Live(v, t) <==> IsLive(v, n, t);
    assert forall n :: n in Live(v, t') <==> IsLive(v, n, t');
  }

  lemma SameLiveSettled(v: View, t: u64, t': u64)
    requires Settled(v, t) && Live(v, t) == Live(v, t')
    ensures Settled(v, t')
  {
    forall j | j in v.jobs
      ensures JobSettled(v, j, t')
    {
      assert JobSettled(v, j, t);
      SameLivePools(v, j, t, t');
    }
  }

  /** After a round in which `alive` ticked, they are alive at the next, and nobody the round counted
      dead comes back. */
  lemma NextLive(v: View, alive: set<NodeId>, now: u64, bus: seq<Heard>, next: u64)
    requires TickingAreLive(v, alive, now) && IsRoundSeq(v, alive, now, bus)
    requires now <= next <= now + Patience(v.config)
    ensures alive <= Live(Fold(v, bus), next) <= Live(v, now)
    ensures Live(Fold(v, bus), now) == Live(v, now)
    ensures Fold(v, bus).config == v.config
  {
    var f := Fold(v, bus);
    RoundSeqMessages(v, alive, now, bus);
    FoldKeepsNodes(v, alive, now, bus);
    SameNodesPlaceAlike(v, f, now);
    hide RoundMessages, SaysInRound;
    forall n | n in alive
      ensures n in Live(f, next)
    {
      assert Beats1(Elements(bus), n);
      var h :| h in Elements(bus) && h.from == n && h.msg.Heartbeat?;
      var i :| 0 <= i < |bus| && bus[i] == h;
      assert f.nodes[n].lastHeartbeat >= now;
    }
    forall n
      ensures n in Live(f, now) <==> n in Live(v, now)
    {
      assert IsLive(f, n, now) <==> IsLive(v, n, now);
    }
  }

  /** A full round settles the view, and a settled view stays settled. */
  lemma RoundSettles(v: View, alive: set<NodeId>, now: u64, bus: seq<Heard>)
    requires Live(v, now) == alive && IsRoundSeq(v, alive, now, bus)
    ensures Settled(Fold(v, bus), now)
  {
    RoundAgrees(v, alive, now, bus);
    hide IsRoundSeq, Fold, Live, Agree;
    forall j | j in Fold(v, bus).jobs
      ensures JobSettled(Fold(v, bus), j, now)
    {
      AllTickReachFactor(v, now, bus, j);
      FactorKept(v, alive, now, bus, j);
    }
  }

  lemma FactorKept(v: View, alive: set<NodeId>, now: u64, bus: seq<Heard>, j: JobId)
    requires TickingAreLive(v, alive, now) && IsRoundSeq(v, alive, now, bus) && j in v.jobs
    ensures Factor(Fold(v, bus), j) == Factor(v, j)
  {
    RoundSeqMessages(v, alive, now, bus);
    FoldKeepsNodes(v, alive, now, bus);
    FoldKeepsJobs(v, alive, now, bus);
  }

  lemma OnlyBeats(v: View, alive: set<NodeId>, now: u64, bus: seq<Heard>)
    requires IsRoundSeq(v, alive, now, bus)
    requires forall n | n in alive :: JobsToRelease(v, n, now) == {} && JobsToClaim(v, n, now) == {}
    ensures forall h | h in bus :: h.msg.Heartbeat?
  {
    hide JobsToRelease, JobsToClaim;
    forall h | h in bus
      ensures h.msg.Heartbeat?
    {
      assert h in Elements(bus);
    }
  }

  lemma {:induction false} SettledRoundsAreQuiet(v: View, alive: set<NodeId>, rounds: seq<Round>)
    requires ValidRounds(v, alive, rounds)
    requires rounds != [] ==> Live(v, rounds[0].now) == alive && Settled(v, rounds[0].now)
    ensures QuietRounds(v, alive, rounds)
    decreases |rounds|
  {
    hide Fold, IsRoundSeq, JobsToRelease, JobsToClaim, Settled;
    if rounds != [] {
      var now, bus := rounds[0].now, rounds[0].bus;
      forall n | n in alive
        ensures JobsToRelease(v, n, now) == {} && JobsToClaim(v, n, now) == {}
      {
        assert n in Live(v, now);
        SettledIsQuiet(v, now, n);
      }
      OnlyBeats(v, alive, now, bus);
      if |rounds| > 1 {
        RoundSettles(v, alive, now, bus);
        NextLive(v, alive, now, bus, rounds[1].now);
        SameLiveSettled(Fold(v, bus), now, rounds[1].now);
      }
      SettledRoundsAreQuiet(Fold(v, bus), alive, rounds[1..]);
    }
  }

  /** In every round the live claimants of every job move towards its factor and not past it; once
      the live nodes are the ticking ones, that round reaches the factor, or takes everyone who has
      room, and every later round publishes heartbeats only. */
  ghost predicate Converges(v: View, alive: set<NodeId>, rounds: seq<Round>)
    decreases |rounds|
  {
    rounds == [] ||
    (var now, f := rounds[0].now, Fold(v, rounds[0].bus);
     && alive <= Live(v, now)
     && (forall j | j in v.jobs :: Approaches(v, f, now, j))
     && (Live(v, now) == alive ==>
           && (forall j | j in v.jobs :: Reaches(v, f, now, j))
           && QuietRounds(f, alive, rounds[1..]))
     && Converges(f, alive, rounds[1..]))
  }

  ghost predicate Approaches(v: View, f: View, now: u64, j: JobId) {
    var before, after := |LiveClaimants(v, j, now)|, |LiveClaimants(f, j, now)|;
    Min(before, Factor(v, j)) <= after <= Max(before, Factor(v, j))
  }

  ghost predicate Reaches(v: View, f: View, now: u64, j: JobId) {
    |LiveClaimants(f, j, now)|
    == if |LiveClaimants(v, j, now)| >= Factor(v, j) then Factor(v, j)
       else Min(Factor(v, j), |LiveClaimants(v, j, now)| + |Spare(v, j, now)|)
  }

  lemma RoundApproaches(v: View, alive: set<NodeId>, now: u64, bus: seq<Heard>)
    requires TickingAreLive(v, alive, now) && IsRoundSeq(v, alive, now, bus)
    ensures forall j | j in v.jobs :: Approaches(v, Fold(v, bus), now, j)
    ensures Live(v, now) == alive ==> forall j | j in v.jobs :: Reaches(v, Fold(v, bus), now, j)
  {
    hide IsRoundSeq, Fold, TickingAreLive, LiveClaimants, Spare, Factor;
    forall j | j in v.jobs
      ensures Approaches(v, Fold(v, bus), now, j)
      ensures Live(v, now) == alive ==> Reaches(v, Fold(v, bus), now, j)
    {
      AnySubsetStaysBetween(v, alive, now, bus, j);
      if Live(v, now) == alive {
        AllTickReachFactor(v, now, bus, j);
      }
    }
  }

  /** From any shared view, whoever died before: the survivors' rounds converge. */
  lemma {:induction false} RoundsConverge(v: View, alive: set<NodeId>, rounds: seq<Round>)
    requires ValidRounds(v, alive, rounds)
    requires rounds != [] ==> alive <= Live(v, rounds[0].now)
    ensures Converges(v, alive, rounds)
    decreases |rounds|
  {
    if rounds != [] {
      var now, bus := rounds[0].now, rounds[0].bus;
      assert TickingAreLive(v, alive, now) by {
        assert forall n :: n in Live(v, now) ==> IsLive(v, n, now);
      }
      hide Fold, IsRoundSeq, Approaches, Reaches, Live, TickingAreLive, QuietRounds;
      RoundApproaches(v, alive, now, bus);
      if |rounds| > 1 {
        NextLive(v, alive, now, bus, rounds[1].now);
      }
      if Live(v, now) == alive {
        QuietAfter(v, alive, rounds);
      }
      RoundsConverge(Fold(v, bus), alive, rounds[1..]);
    }
  }

  lemma QuietAfter(v: View, alive: set<NodeId>, rounds: seq<Round>)
    requires rounds != [] && ValidRounds(v, alive, rounds) && Live(v, rounds[0].now) == alive
    ensures QuietRounds(Fold(v, rounds[0].bus), alive, rounds[1..])
  {
    var now, bus := rounds[0].now, rounds[0].bus;
    assert TickingAreLive(v, alive, now) by {
      assert forall n :: n in Live(v, now) ==> IsLive(v, n, now);
    }
    hide Fold, IsRoundSeq, Live, TickingAreLive, Settled;
    RoundSettles(v, alive, now, bus);
    if |rounds| > 1 {
      NextLive(v, alive, now, bus, rounds[1].now);
      SameLiveSettled(Fold(v, bus), now, rounds[1].now);
    }
    SettledRoundsAreQuiet(Fold(v, bus), alive, rounds[1..]);
  }

  /** Nodes silent for longer than the limit are no longer live, so then the survivors are exactly
      the live nodes. */
  lemma DeadAgeOut(v: View, alive: set<NodeId>, now: u64)
    requires alive <= Live(v, now)
    requires forall n | n in v.nodes && n !in alive :: now > v.nodes[n].lastHeartbeat + Patience(v.config)
    ensures Live(v, now) == alive
  {
  }
}
