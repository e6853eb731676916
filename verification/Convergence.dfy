/** Whole runs of a cluster as the simulator plays them: from any view the nodes share, fresh, stale
    about some of them or with capacities about to change, the first round makes them known to each
    other, and the rounds after it bring every job to its factor. */
module Convergence {
  import opened Octets
  import opened Orders
  import opened Cluster
  import opened Placement
  import opened Gossip
  import opened Rounds
  import opened SharedView
  import opened Simulation

  /** The same nodes tick in every round, with the same capacities, and rounds are no further apart than
      the time it takes to be declared dead. */
  ghost predicate SteadyRounds(v: View, caps: map<NodeId, Capacity>, rounds: seq<Round>)
    decreases |rounds|
  {
    rounds == [] ||
    (&& Played(v, rounds[0]) && rounds[0].caps == caps
     && (|rounds| > 1 ==> rounds[0].now <= rounds[1].now <= rounds[0].now + Patience(v.config))
     && SteadyRounds(Fold(v, rounds[0].bus), caps, rounds[1..]))
  }

  /** Whatever the view and the nodes, there is a run of such rounds at any times no further apart. */
  lemma {:induction false} SteadyRoundsExist(v: View, caps: map<NodeId, Capacity>, times: seq<u64>)
    returns (rounds: seq<Round>)
    requires forall i | 0 < i < |times| :: times[i - 1] <= times[i] <= times[i - 1] + Patience(v.config)
    ensures SteadyRounds(v, caps, rounds) && |rounds| == |times|
    ensures forall i | 0 <= i < |times| :: rounds[i].now == times[i]
    decreases |times|
  {
    rounds := [];
    if times != [] {
      var r := EveryRoundCanBePlayed(v, caps, times[0]);
      FoldKeepsConfig(v, r.bus);
      hide Played, Fold, Patience;
      assert forall i | 0 < i < |times[1..]| :: times[1..][i - 1] == times[i] && times[1..][i] == times[i + 1];
      var rest := SteadyRoundsExist(Fold(v, r.bus), caps, times[1..]);
      rounds := [r] + rest;
      assert rounds[1..] == rest && (rest != [] ==> rest[0].now == times[1..][0] == times[1]);
    }
  }

  predicate KnownAs(v: View, caps: map<NodeId, Capacity>) {
    forall n | n in caps :: AsGossiped(v, n, caps[n])
  }

  /** No heartbeat of theirs is from later than `now`. */
  predicate ClocksForward(v: View, caps: map<NodeId, Capacity>, now: u64) {
    forall n | n in caps && n in v.nodes :: v.nodes[n].lastHeartbeat <= now
  }

  // ---- from the first round on -------------------------------------------------------------

  lemma StillKnown(v: View, r: Round)
    requires Played(v, r) && KnownAs(v, r.caps) && TickingAreLive(v, r.caps.Keys, r.now)
    ensures IsRoundSeq(v, r.caps.Keys, r.now, r.bus) && KnownAs(Fold(v, r.bus), r.caps)
  {
    hide Played, IsLive;
    TicksMakeARound(v, r);
    RoundSeqMessages(v, r.caps.Keys, r.now, r.bus);
    FoldKeepsNodes(v, r.caps.Keys, r.now, r.bus);
  }

  /** Rounds of nodes that know each other are rounds of live nodes. */
  lemma {:induction false} SteadyAreValid(v: View, caps: map<NodeId, Capacity>, rounds: seq<Round>)
    requires SteadyRounds(v, caps, rounds) && KnownAs(v, caps)
    requires rounds != [] ==> caps.Keys <= Live(v, rounds[0].now)
    ensures ValidRounds(v, caps.Keys, rounds)
    decreases |rounds|
  {
    hide Played, Fold, IsRoundSeq, KnownAs;
    if rounds != [] {
      var r := rounds[0];
      LiveTick(v, caps.Keys, r.now);
      StillKnown(v, r);
      if |rounds| > 1 {
        NextLive(v, caps.Keys, r.now, r.bus, rounds[1].now);
      }
      hide Live, TickingAreLive;
      SteadyAreValid(Fold(v, r.bus), caps, rounds[1..]);
    }
  }

  lemma LiveTick(v: View, alive: set<NodeId>, now: u64)
    requires alive <= Live(v, now)
    ensures TickingAreLive(v, alive, now)
  {
    hide IsLive;
    assert forall n :: n in Live(v, now) ==> IsLive(v, n, now);
  }

  /** After any round at all, those who ticked know each other and will be live in the next. */
  lemma RoundIntroduces(v: View, r: Round, next: u64)
    requires Played(v, r) && ClocksForward(v, r.caps, r.now)
    requires r.now <= next <= r.now + Patience(v.config)
    ensures KnownAs(Fold(v, r.bus), r.caps) && r.caps.Keys <= Live(Fold(v, r.bus), next)
  {
    hide Played, Fold;
    FoldKeepsConfig(v, r.bus);
    forall n | n in r.caps
      ensures AsGossiped(Fold(v, r.bus), n, r.caps[n]) && n in Live(Fold(v, r.bus), next)
    {
      TickersAreKnown(v, r, n);
    }
  }

  /** From any view: not one of the nodes need be live in it, or be known with the capacity it has. */
  lemma ConvergesFromAnywhere(v: View, caps: map<NodeId, Capacity>, rounds: seq<Round>)
    requires rounds != [] && SteadyRounds(v, caps, rounds) && ClocksForward(v, caps, rounds[0].now)
    ensures ValidRounds(Fold(v, rounds[0].bus), caps.Keys, rounds[1..])
    ensures |rounds| > 1 ==> caps.Keys <= Live(Fold(v, rounds[0].bus), rounds[1].now)
    ensures Converges(Fold(v, rounds[0].bus), caps.Keys, rounds[1..])
  {
    hide Played, Fold, IsRoundSeq, KnownAs, Live, Converges, IsLive;
    if |rounds| > 1 {
      RoundIntroduces(v, rounds[0], rounds[1].now);
      SteadyAreValid(Fold(v, rounds[0].bus), caps, rounds[1..]);
    } else {
      NoRounds(Fold(v, rounds[0].bus), caps.Keys, rounds[1..]);
    }
    RoundsConverge(Fold(v, rounds[0].bus), caps.Keys, rounds[1..]);
  }

  lemma NoRounds(v: View, alive: set<NodeId>, rounds: seq<Round>)
    requires rounds == []
    ensures ValidRounds(v, alive, rounds)
  {
  }

  lemma {:induction false} SteadyArePlayed(v: View, caps: map<NodeId, Capacity>, rounds: seq<Round>)
    requires SteadyRounds(v, caps, rounds)
    ensures PlayedAll(v, rounds)
    decreases |rounds|
  {
    hide Played, Fold;
    if rounds != [] {
      SteadyArePlayed(Fold(v, rounds[0].bus), caps, rounds[1..]);
    }
  }

  /** The view these theorems speak of is the one every node has, computed from its own ticks and what it
      heard of the others. */
  lemma EveryNodeHasIt(v: View, caps: map<NodeId, Capacity>, rounds: seq<Round>, n: NodeId, i: nat)
    requires SteadyRounds(v, caps, rounds) && i <= |rounds|
    ensures LocalAt(v, n, rounds, i) == ViewAt(v, rounds, i)
  {
    SteadyArePlayed(v, caps, rounds);
    RunKeepsOneView(v, n, rounds, i);
  }

  // ---- failover ----------------------------------------------------------------------------

  /** The round reaches the factor of every job, and afterwards only heartbeats are published. */
  ghost predicate Recovered(x: View, alive: set<NodeId>, r: Round, rest: seq<Round>) {
    && Live(x, r.now) == alive
    && (forall j | j in x.jobs :: Reaches(x, Fold(x, r.bus), r.now, j))
    && QuietRounds(Fold(x, r.bus), alive, rest)
  }

  /** By `now`, everyone else has been silent for longer than the limit. */
  predicate OthersSilent(v: View, alive: set<NodeId>, now: u64) {
    forall n | n in v.nodes && n !in alive :: now > v.nodes[n].lastHeartbeat + Patience(v.config)
  }

  lemma SilentInRound(v: View, alive: set<NodeId>, now: u64, bus: seq<Heard>, later: u64)
    requires IsRoundSeq(v, alive, now, bus) && OthersSilent(v, alive, later)
    ensures OthersSilent(Fold(v, bus), alive, later)
  {
    RoundSeqMessages(v, alive, now, bus);
    hide IsRoundSeq, Fold, JobsToRelease, JobsToClaim;
    FoldKeepsConfig(v, bus);
    forall n | n in Fold(v, bus).nodes && n !in alive
      ensures later > Fold(v, bus).nodes[n].lastHeartbeat + Patience(v.config)
    {
      assert forall h | h in bus :: !BeatOf(h, n);
      SilenceKeepsStatus(v, bus, n);
    }
  }

  /** In the first round by which the nodes that do not tick have been silent for longer than the limit,
      the live nodes are the survivors: that round reaches every factor, or takes everyone who has
      room, and all later ones are quiet. */
  lemma {:induction false} FailoverReaches(v: View, alive: set<NodeId>, rounds: seq<Round>, i: nat)
    requires i < |rounds| && ValidRounds(v, alive, rounds) && alive <= Live(v, rounds[0].now)
    requires OthersSilent(v, alive, rounds[i].now)
    ensures Recovered(ViewAt(v, rounds, i), alive, rounds[i], rounds[i + 1..])
    decreases i
  {
    hide Fold, IsRoundSeq;
    LiveTick(v, alive, rounds[0].now);
    if i == 0 {
      DeadAgeOut(v, alive, rounds[0].now);
      hide Live, TickingAreLive, Reaches, Approaches, QuietRounds;
      QuietAfter(v, alive, rounds);
      RoundApproaches(v, alive, rounds[0].now, rounds[0].bus);
    } else {
      NextLive(v, alive, rounds[0].now, rounds[0].bus, rounds[1].now);
      SilentInRound(v, alive, rounds[0].now, rounds[0].bus, rounds[i].now);
      hide Live, TickingAreLive, Recovered, OthersSilent;
      assert rounds[1..][i - 1] == rounds[i] && rounds[1..][i..] == rounds[i + 1..];
      FailoverReaches(Fold(v, rounds[0].bus), alive, rounds[1..], i - 1);
    }
  }

  /** The same for rounds as they are played, from any view: survivors who may have been thought dead,
      and others who claimed jobs and died. */
  lemma SurvivorsTakeOver(v: View, caps: map<NodeId, Capacity>, rounds: seq<Round>, i: nat)
    requires 0 < i < |rounds| && SteadyRounds(v, caps, rounds) && ClocksForward(v, caps, rounds[0].now)
    requires OthersSilent(v, caps.Keys, rounds[i].now)
    ensures Recovered(ViewAt(v, rounds, i), caps.Keys, rounds[i], rounds[i + 1..])
  {
    var w, rest := Fold(v, rounds[0].bus), rounds[1..];
    hide Played, Fold, Converges, ValidRounds, Recovered, Live;
    ConvergesFromAnywhere(v, caps, rounds);
    StillSilent(v, rounds[0], rounds[i].now);
    assert rest[i - 1] == rounds[i] && rest[i..] == rounds[i + 1..];
    FailoverReaches(w, caps.Keys, rest, i - 1);
  }

  lemma StillSilent(v: View, r: Round, later: u64)
    requires Played(v, r) && OthersSilent(v, r.caps.Keys, later)
    ensures OthersSilent(Fold(v, r.bus), r.caps.Keys, later)
  {
    hide Played, Fold;
    FoldKeepsConfig(v, r.bus);
    forall n | n in Fold(v, r.bus).nodes && n !in r.caps
      ensures later > Fold(v, r.bus).nodes[n].lastHeartbeat + Patience(v.config)
    {
      SilentAreKept(v, r, n);
    }
  }

  // ---- a fresh cluster ---------------------------------------------------------------------

  /** The nodes below the watermark. */
  function Spacious(config: Config, caps: map<NodeId, Capacity>): set<NodeId> {
    set n | n in caps && NodeStatus(0, caps[n].used, caps[n].total).Utilization() < config.highWatermark
  }

  /** Nobody has been heard of and nobody claims anything. */
  predicate IsFresh(v: View) {
    v.nodes == map[] && forall j | j in v.jobs :: v.jobs[j].claimants == map[]
  }

  /** A node that knows only itself takes every job it has room for. */
  lemma AloneTakesAll(v: View, n: NodeId, c: Capacity, now: u64, job: JobId)
    requires IsFresh(v) && job in v.jobs
    ensures job !in JobsToRelease(Own(v, n, c, now), n, now)
    ensures job in JobsToClaim(Own(v, n, c, now), n, now)
       <==> Factor(v, job) > 0 && n in Spacious(v.config, map[n := c])
  {
    var w := Own(v, n, c, now);
    assert Factor(w, job) == Factor(v, job);
    assert LiveClaimants(w, job, now) == {};
    assert Spare(w, job, now) == if n in Spacious(v.config, map[n := c]) then {n} else {};
    DesignatedAreSpare(w, now, job);
    if Factor(v, job) > 0 {
      UnderChoices(w, now, job, n);
      hide DesignatedClaimers;
      if n in Spacious(v.config, map[n := c]) {
        SameSizeEqual(Elements(DesignatedClaimers(w, job, now)), {n});
      }
      assert n in DesignatedClaimers(w, job, now) <==> n in Elements(DesignatedClaimers(w, job, now));
    }
  }

  lemma ClaimsInFirstRound(v: View, r: Round, job: JobId, n: NodeId)
    requires IsFresh(v) && Played(v, r) && job in v.jobs
    ensures n in JobOf(Fold(v, r.bus), job).claimants <==> Factor(v, job) > 0 && n in Spacious(v.config, r.caps)
  {
    hide JobsToRelease, JobsToClaim, Fold, Spacious, Own, IsFresh, Factor;
    assert JobOf(v, job).claimants == map[] by {
      FreshClaims(v, job);
    }
    forall h | h in r.bus
      ensures h.msg != Release(job, n)
      ensures h.msg.Claim? && h.msg.job == job && h.msg.node == n ==>
                n in r.caps && job in JobsToClaim(Own(v, n, r.caps[n], r.now), n, r.now)
    {
      PlayedSays(v, r, h);
      AloneTakesAll(v, h.from, r.caps[h.from], r.now, job);
    }
    LastWordStands(v, r.bus, job, n);
    LastWordIsClaim(r.bus, job, n);
    if n in r.caps {
      AloneTakesAll(v, n, r.caps[n], r.now, job);
      SpaciousAlone(v.config, r.caps, n);
      var beat := TickPublishes(v, n, r.caps[n], r.now, r.owns[n]);
      assert OwnPart(r.bus, n, r.owns[n]);
      assert job in JobsToClaim(Own(v, n, r.caps[n], r.now), n, r.now) ==>
          Heard(n, Claim(job, n, r.now), r.now) in r.bus;
    } else {
      NotSpacious(v.config, r.caps, n);
    }
  }

  lemma FreshClaims(v: View, job: JobId)
    requires IsFresh(v) && job in v.jobs
    ensures JobOf(v, job).claimants == map[]
  {
  }

  lemma SpaciousAlone(config: Config, caps: map<NodeId, Capacity>, n: NodeId)
    requires n in caps
    ensures n in Spacious(config, caps) <==> n in Spacious(config, map[n := caps[n]])
  {
  }

  lemma NotSpacious(config: Config, caps: map<NodeId, Capacity>, n: NodeId)
    requires n !in caps
    ensures n !in Spacious(config, caps)
  {
  }

  lemma FactorStays(v: View, r: Round, job: JobId)
    requires Played(v, r) && job in v.jobs
    ensures job in Fold(v, r.bus).jobs && Factor(Fold(v, r.bus), job) == Factor(v, job)
  {
    hide Played, Fold;
    FoldKeepsConfig(v, r.bus);
    NobodyAnnounces(v, r);
    NothingAnnounced(r.bus, job);
    AnnouncementsStand(v, r.bus, job);
  }

  lemma RoomAsGossiped(v: View, r: Round, n: NodeId, next: u64)
    requires IsFresh(v) && Played(v, r) && n in r.caps && r.now <= next <= r.now + Patience(v.config)
    ensures HasCapacity(Fold(v, r.bus), n) <==> n in Spacious(v.config, r.caps)
  {
    RoundIntroduces(v, r, next);
    hide Played, Fold;
    FoldKeepsConfig(v, r.bus);
    assert AsGossiped(Fold(v, r.bus), n, r.caps[n]);
  }

  /** After it everyone knows everyone, and everyone with room has claimed every job. */
  lemma FirstRoundClaimsAll(v: View, r: Round, job: JobId, next: u64)
    requires IsFresh(v) && Played(v, r) && job in v.jobs
    requires r.now <= next <= r.now + Patience(v.config)
    ensures var w := Fold(v, r.bus);
            && Live(w, next) == r.caps.Keys && job in w.jobs && Factor(w, job) == Factor(v, job)
            && LiveClaimants(w, job, next) == (if Factor(v, job) > 0 then Spacious(v.config, r.caps) else {})
            && (Factor(v, job) > 0 ==> Spare(w, job, next) == {})
  {
    var w := Fold(v, r.bus);
    hide Played, Fold, IsFresh, Factor, HasCapacity, Live, LiveClaimants, Spare;
    LiveAfterFresh(v, r, next);
    FactorStays(v, r, job);
    forall n
      ensures n in JobOf(w, job).claimants <==> Factor(v, job) > 0 && n in Spacious(v.config, r.caps)
      ensures n in r.caps ==> (HasCapacity(w, n) <==> n in Spacious(v.config, r.caps))
    {
      ClaimsInFirstRound(v, r, job, n);
      if n in r.caps {
        RoomAsGossiped(v, r, n, next);
      }
    }
    PoolsOf(w, job, next, r.caps.Keys, Spacious(v.config, r.caps), Factor(v, job) > 0);
  }

  lemma PoolsOf(w: View, job: JobId, now: u64, alive: set<NodeId>, spacious: set<NodeId>, claimed: bool)
    requires Live(w, now) == alive && spacious <= alive && job in w.jobs
    requires forall n :: n in JobOf(w, job).claimants <==> claimed && n in spacious
    requires forall n | n in alive :: HasCapacity(w, n) <==> n in spacious
    ensures LiveClaimants(w, job, now) == if claimed then spacious else {}
    ensures claimed ==> Spare(w, job, now) == {}
  {
    hide IsLive, HasCapacity;
    assert forall n :: IsLive(w, n, now) ==> n in w.nodes by {
      LiveIsKnown(w, now);
    }
    assert forall n :: n in Live(w, now) <==> n in w.nodes && IsLive(w, n, now);
  }

  lemma LiveIsKnown(w: View, now: u64)
    ensures forall n :: IsLive(w, n, now) ==> n in w.nodes
  {
  }

  lemma NobodyAnnounces(v: View, r: Round)
    requires Played(v, r)
    ensures forall h | h in r.bus :: !h.msg.Announce?
  {
    hide Played;
    forall h | h in r.bus
      ensures !h.msg.Announce?
    {
      PlayedSays(v, r, h);
    }
  }

  /** The run of the simulator, for any number of nodes, jobs and rounds: nodes that know nobody, told of
      any jobs, bring each of them in two rounds to exactly its factor, or to as many as have room, and
      publish heartbeats only ever after. */
  lemma FreshClusterReaches(v: View, caps: map<NodeId, Capacity>, rounds: seq<Round>)
    requires IsFresh(v) && |rounds| >= 2 && SteadyRounds(v, caps, rounds)
    ensures var x := ViewAt(v, rounds, 2);
            && (forall j | j in v.jobs ::
                  j in x.jobs
                  && |LiveClaimants(x, j, rounds[1].now)| == Min(Factor(v, j), |Spacious(v.config, caps)|))
            && QuietRounds(x, caps.Keys, rounds[2..])
  {
    var w, x := Fold(v, rounds[0].bus), ViewAt(v, rounds, 2);
    TwoRounds(v, caps, rounds);
    assert x == Fold(w, rounds[1].bus);
    assert ClocksForward(v, caps, rounds[0].now);
    ConvergesFromAnywhere(v, caps, rounds);
    hide SteadyRounds, Played, IsRoundSeq, Live, Spacious, LiveClaimants, Spare, Factor, QuietRounds, Converges, Fold,
      ValidRounds, IsFresh;
    LiveAfterFresh(v, rounds[0], rounds[1].now);
    assert rounds[1..][0] == rounds[1] && rounds[1..][1..] == rounds[2..];
    FirstOfConverging(w, caps.Keys, rounds[1..]);
    forall j | j in v.jobs
      ensures j in x.jobs && |LiveClaimants(x, j, rounds[1].now)| == Min(Factor(v, j), |Spacious(v.config, caps)|)
    {
      FirstRoundClaimsAll(v, rounds[0], j, rounds[1].now);
      assert Reaches(w, x, rounds[1].now, j);
      SecondRoundKnows(w, rounds[1], j);
    }
  }

  lemma TwoRounds(v: View, caps: map<NodeId, Capacity>, rounds: seq<Round>)
    requires |rounds| >= 2 && SteadyRounds(v, caps, rounds)
    ensures Played(v, rounds[0]) && rounds[0].caps == caps && Played(Fold(v, rounds[0].bus), rounds[1])
    ensures rounds[0].now <= rounds[1].now <= rounds[0].now + Patience(v.config)
  {
    hide Played, Fold;
    assert rounds[1..][0] == rounds[1];
  }

  lemma FirstOfConverging(w: View, alive: set<NodeId>, rounds: seq<Round>)
    requires rounds != [] && Converges(w, alive, rounds) && Live(w, rounds[0].now) == alive
    ensures forall j | j in w.jobs :: Reaches(w, Fold(w, rounds[0].bus), rounds[0].now, j)
    ensures QuietRounds(Fold(w, rounds[0].bus), alive, rounds[1..])
  {
    hide Fold, Live, Reaches, QuietRounds, Approaches;
  }

  lemma LiveAfterFresh(v: View, r: Round, next: u64)
    requires IsFresh(v) && Played(v, r)
    requires r.now <= next <= r.now + Patience(v.config)
    ensures Live(Fold(v, r.bus), next) == r.caps.Keys
  {
    var w := Fold(v, r.bus);
    RoundIntroduces(v, r, next);
    forall n | n in w.nodes
      ensures n in r.caps
    {
      if n !in r.caps {
        SilentAreKept(v, r, n);
      }
    }
  }

  lemma SecondRoundKnows(w: View, r: Round, job: JobId)
    requires Played(w, r) && job in w.jobs
    ensures job in Fold(w, r.bus).jobs
  {
    AnnouncementsStand(w, r.bus, job);
  }

  // ---- the factor that is reached ----------------------------------------------------------

  /** How many copies or shards are wanted: the `n` of the last spec announced, or the last copy count
      announced, or what the job had before, or else the configured number. */
  lemma FactorIsAnnounced(v: View, hs: seq<Heard>, job: JobId)
    ensures Factor(Fold(v, hs), job)
         == if LastSpec(hs, job).Some? then LastSpec(hs, job).value.1
            else if JobOf(v, job).erasure.Some? then JobOf(v, job).erasure.value.1
            else if LastFactor(hs, job) != 0 then LastFactor(hs, job)
            else if JobOf(v, job).replication != 0 then JobOf(v, job).replication
            else v.config.replication
  {
    AnnouncementsStand(v, hs, job);
    FoldKeepsConfig(v, hs);
    hide Fold;
  }

  /** A job announced with a copy count ends a round of all live nodes with that many live claimants, one
      announced without with the configured number, and an erasure job with one for each shard: exactly
      so if it had as many, and otherwise as far as there are nodes with room. */
  lemma AnnouncedCountIsReached(v: View, hs: seq<Heard>, job: JobId, now: u64, bus: seq<Heard>)
    requires job !in v.jobs && job in Fold(v, hs).jobs
    requires IsRoundSeq(Fold(v, hs), Live(Fold(v, hs), now), now, bus)
    ensures var w := Fold(v, hs);
            var wanted := if LastSpec(hs, job).Some? then LastSpec(hs, job).value.1
                          else if LastFactor(hs, job) != 0 then LastFactor(hs, job) else v.config.replication;
            var before, after := |LiveClaimants(w, job, now)|, |LiveClaimants(Fold(w, bus), job, now)|;
            after == if before >= wanted then wanted else Min(wanted, before + |Spare(w, job, now)|)
  {
    FactorIsAnnounced(v, hs, job);
    hide Fold, IsRoundSeq, Live, LiveClaimants, Spare, Factor;
    AllTickReachFactor(Fold(v, hs), now, bus, job);
  }
}
