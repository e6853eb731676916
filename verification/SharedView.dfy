/** Nodes that start a round with one view end it with one view: a node that ticked folds the others'
    messages into what its tick left it, a node that did not folds them all. */
module SharedView {
  import opened Octets
  import opened Orders
  import opened Cluster
  import opened Gossip
  import opened Node
  import opened Rounds

  // ---- a tick, heard by the others ---------------------------------------------------------

  lemma {:induction false} FoldReleases(v: View, n: NodeId, jobs: seq<JobId>, now: u64)
    ensures Fold(v, Bus(n, Releases(jobs, n), now)) == ReleasedAll(v, Elements(jobs), n)
  {
    if jobs == [] {
      ReleasedNone(v, n);
    } else {
      hide ReleasedAll, Released;
      var before, last := jobs[..|jobs| - 1], jobs[|jobs| - 1];
      FoldReleases(v, n, before, now);
      ReleasedNext(v, Elements(before), last, n);
      assert jobs == before + [last];
      ElementsSnoc(before, last);
      var hs := Bus(n, Releases(jobs, n), now);
      assert hs[..|hs| - 1] == Bus(n, Releases(before, n), now);
    }
  }

  lemma {:induction false} FoldClaims(v: View, n: NodeId, jobs: seq<JobId>, now: u64)
    requires Elements(jobs) <= v.jobs.Keys
    ensures Fold(v, Bus(n, Claims(jobs, n, now), now)) == ClaimedAll(v, Elements(jobs), n, now)
  {
    if jobs == [] {
      ClaimedNone(v, n, now);
    } else {
      var before, last := jobs[..|jobs| - 1], jobs[|jobs| - 1];
      assert jobs == before + [last];
      ElementsSnoc(before, last);
      FoldClaims(v, n, before, now);
      ClaimedNext(v, Elements(before), last, n, now);
      var hs := Bus(n, Claims(jobs, n, now), now);
      assert hs[..|hs| - 1] == Bus(n, Claims(before, n, now), now);
    }
  }

  /** What a node publishes in a tick, folded into the view it ticked from, is the view it ends with:
      the others see exactly what it did. */
  lemma TickIsWhatItPublished(v: View, n: NodeId, used: u64, total: u64, epoch: nat, now: u64,
                              drop: seq<JobId>, ingest: seq<JobId>)
    requires var w := Beaten(v, n, used, total, now);
             Elements(drop) == JobsToRelease(w, n, now) && Elements(ingest) == TickClaims(w, n, now)
    ensures Fold(v, Bus(n, Published(n, used, total, epoch, now, drop, ingest), now))
         == Ticked(Beaten(v, n, used, total, now), n, now)
  {
    var w := Beaten(v, n, used, total, now);
    var beat := [Heartbeat(n, used, total, epoch % U64_LIMIT)];
    hide JobsToRelease, JobsToClaim;
    BusSplit(n, beat + Releases(drop, n), Claims(ingest, n, now), now);
    BusSplit(n, beat, Releases(drop, n), now);
    FoldSplit(v, Bus(n, beat + Releases(drop, n), now), Bus(n, Claims(ingest, n, now), now));
    FoldSplit(v, Bus(n, beat, now), Bus(n, Releases(drop, n), now));
    assert Bus(n, beat, now) == [Heard(n, beat[0], now)];
    FoldOne(v, Heard(n, beat[0], now));
    FoldReleases(w, n, drop, now);
    ClaimsAreKnown(Shed(w, n, now), n, now);
    FoldClaims(Shed(w, n, now), n, ingest, now);
  }

  lemma BusSplit(n: NodeId, a: seq<ClusterMsg>, b: seq<ClusterMsg>, now: u64)
    ensures Bus(n, a + b, now) == Bus(n, a, now) + Bus(n, b, now)
  {
  }

  // ---- a round as it is played -------------------------------------------------------------

  datatype Capacity = Capacity(used: u64, total: u64)

  /** A round: when it was, who ticked and with what capacity, what went over the bus, and the part of
      it each of them published. */
  datatype Round = Round(now: u64, caps: map<NodeId, Capacity>, bus: seq<Heard>, owns: map<NodeId, seq<Heard>>)

  /** The view a node decides in: its own heartbeat is in, whatever the others knew of it. */
  function Own(v: View, n: NodeId, c: Capacity, now: u64): View {
    Beaten(v, n, c.used, c.total, now)
  }

  /** `own` is what a node's tick from `v` publishes. */
  ghost predicate IsTickOf(v: View, n: NodeId, c: Capacity, now: u64, own: seq<Heard>) {
    exists epoch: nat, drop, ingest :: IsTickWith(v, n, c, now, own, epoch, drop, ingest)
  }

  ghost predicate IsTickWith(v: View, n: NodeId, c: Capacity, now: u64, own: seq<Heard>, epoch: nat,
                             drop: seq<JobId>, ingest: seq<JobId>) {
    && Elements(drop) == JobsToRelease(Own(v, n, c, now), n, now)
    && Elements(ingest) == JobsToClaim(Own(v, n, c, now), n, now)
    && own == Bus(n, Published(n, c.used, c.total, epoch, now, drop, ingest), now)
  }

  /** What others published. */
  function Others(hs: seq<Heard>, n: NodeId): seq<Heard> {
    if hs == [] then []
    else if hs[0].from == n then Others(hs[1..], n)
    else [hs[0]] + Others(hs[1..], n)
  }

  lemma {:induction false} OthersHeard(hs: seq<Heard>, n: NodeId)
    ensures forall h :: h in Others(hs, n) <==> h in hs && h.from != n
  {
    if hs != [] {
      OthersHeard(hs[1..], n);
      assert hs == [hs[0]] + hs[1..];
    }
  }

  ghost predicate OwnPart(bus: seq<Heard>, n: NodeId, own: seq<Heard>) {
    forall h :: h in own <==> h in bus && h.from == n
  }

  /** Every node of the round ticked from `v`, and the bus interleaves what they published in any way. */
  ghost predicate Played(v: View, r: Round) {
    && r.owns.Keys == r.caps.Keys
    && (forall h | h in r.bus :: h.from in r.caps)
    && (forall n | n in r.caps :: IsTickOf(v, n, r.caps[n], r.now, r.owns[n]) && OwnPart(r.bus, n, r.owns[n]))
  }

  lemma PublishedAt(n: NodeId, used: u64, total: u64, epoch: nat, now: u64, drop: seq<JobId>, ingest: seq<JobId>)
    ensures var own := Bus(n, Published(n, used, total, epoch, now, drop, ingest), now);
            && |own| == 1 + |drop| + |ingest|
            && own[0] == Heard(n, Heartbeat(n, used, total, epoch % U64_LIMIT), now)
            && (forall i | 0 <= i < |drop| :: own[1 + i] == Heard(n, Release(drop[i], n), now))
            && forall i | 0 <= i < |ingest| :: own[1 + |drop| + i] == Heard(n, Claim(ingest[i], n, now), now)
  {
  }

  // ---- every round can be played -----------------------------------------------------------

  /** What a node's tick publishes when it goes through its jobs in the order of their names. */
  function OwnOf(v: View, n: NodeId, c: Capacity, now: u64): seq<Heard> {
    var w := Own(v, n, c, now);
    var drop, ingest := Ranked(v, JobsToRelease(w, n, now)), Ranked(v, JobsToClaim(w, n, now));
    Bus(n, Published(n, c.used, c.total, 0, now, drop, ingest), now)
  }

  lemma OwnOfIsTick(v: View, n: NodeId, c: Capacity, now: u64)
    ensures IsTickOf(v, n, c, now, OwnOf(v, n, c, now))
    ensures forall h | h in OwnOf(v, n, c, now) :: h.from == n
  {
    hide JobsToRelease, JobsToClaim, Ranked, Own, Published;
    var w := Own(v, n, c, now);
    assert IsTickWith(v, n, c, now, OwnOf(v, n, c, now), 0, Ranked(v, JobsToRelease(w, n, now)),
                      Ranked(v, JobsToClaim(w, n, now)));
  }

  function OneByOne(q: seq<NodeId>, owns: map<NodeId, seq<Heard>>): seq<Heard>
    requires Elements(q) <= owns.Keys
  {
    if q == [] then []
    else
      assert q[0] in Elements(q) && Elements(q[1..]) <= Elements(q);
      owns[q[0]] + OneByOne(q[1..], owns)
  }

  lemma {:induction false} HeardOneByOne(q: seq<NodeId>, owns: map<NodeId, seq<Heard>>, h: Heard)
    requires Elements(q) <= owns.Keys
    requires forall n, o: Heard | n in owns && o in owns[n] :: o.from == n
    ensures h in OneByOne(q, owns) <==> h.from in Elements(q) && h in owns[h.from]
  {
    if q != [] {
      assert q == [q[0]] + q[1..] && q[0] in Elements(q) && Elements(q[1..]) <= Elements(q);
      HeardOneByOne(q[1..], owns, h);
    }
  }

  /** From any view, any nodes with any capacities can play a round at any time. */
  lemma EveryRoundCanBePlayed(v: View, caps: map<NodeId, Capacity>, now: u64) returns (r: Round)
    ensures Played(v, r) && r.caps == caps && r.now == now
  {
    hide OwnOf, IsTickOf, Ranked, OneByOne, Played;
    var owns := map n | n in caps :: OwnOf(v, n, caps[n], now);
    var q := Ranked(v, caps.Keys);
    forall n | n in caps
      ensures IsTickOf(v, n, caps[n], now, owns[n]) && forall h: Heard | h in owns[n] :: h.from == n
    {
      OwnOfIsTick(v, n, caps[n], now);
    }
    r := Round(now, caps, OneByOne(q, owns), owns);
    forall h: Heard
      ensures h in r.bus <==> h.from in caps && h in owns[h.from]
    {
      HeardOneByOne(q, owns, h);
    }
    TicksArePlayed(v, r);
  }

  lemma TicksArePlayed(v: View, r: Round)
    requires r.owns.Keys == r.caps.Keys
    requires forall n | n in r.caps ::
               IsTickOf(v, n, r.caps[n], r.now, r.owns[n]) && forall h: Heard | h in r.owns[n] :: h.from == n
    requires forall h: Heard :: h in r.bus <==> h.from in r.caps && h in r.owns[h.from]
    ensures Played(v, r)
  {
    hide IsTickOf;
  }

  /** A message a tick may publish. */
  predicate TickSays(v: View, n: NodeId, c: Capacity, now: u64, h: Heard) {
    && h.from == n && h.at == now
    && match h.msg
       case Heartbeat(node, used, total, _) => node == n && used == c.used && total == c.total
       case Release(job, node) => node == n && job in JobsToRelease(Own(v, n, c, now), n, now)
       case Claim(job, node, ts) => node == n && ts == now && job in JobsToClaim(Own(v, n, c, now), n, now)
       case Announce(_, _, _) => false
  }

  lemma SaysOnly(v: View, n: NodeId, c: Capacity, now: u64, own: seq<Heard>, epoch: nat,
                 drop: seq<JobId>, ingest: seq<JobId>)
    requires IsTickWith(v, n, c, now, own, epoch, drop, ingest)
    ensures forall h | h in own :: TickSays(v, n, c, now, h)
    ensures var beat := Heard(n, Heartbeat(n, c.used, c.total, epoch % U64_LIMIT), now);
            beat in own && forall h | h in own && h.msg.Heartbeat? :: h == beat
  {
    PublishedAt(n, c.used, c.total, epoch, now, drop, ingest);
    hide JobsToRelease, JobsToClaim, Published, Bus, Own;
    assert own[0] in own;
    forall i | 0 <= i < |own|
      ensures TickSays(v, n, c, now, own[i]) && (own[i].msg.Heartbeat? ==> i == 0)
    {
      if 0 < i <= |drop| {
        assert own[1 + (i - 1)] == Heard(n, Release(drop[i - 1], n), now);
        assert drop[i - 1] in Elements(drop);
      } else if i > |drop| {
        assert own[1 + |drop| + (i - 1 - |drop|)] == Heard(n, Claim(ingest[i - 1 - |drop|], n, now), now);
        assert ingest[i - 1 - |drop|] in Elements(ingest);
      }
    }
  }

  lemma SaysAll(v: View, n: NodeId, c: Capacity, now: u64, own: seq<Heard>, epoch: nat,
                drop: seq<JobId>, ingest: seq<JobId>)
    requires IsTickWith(v, n, c, now, own, epoch, drop, ingest)
    ensures forall j | j in JobsToRelease(Own(v, n, c, now), n, now) :: Heard(n, Release(j, n), now) in own
    ensures forall j | j in JobsToClaim(Own(v, n, c, now), n, now) :: Heard(n, Claim(j, n, now), now) in own
  {
    PublishedAt(n, c.used, c.total, epoch, now, drop, ingest);
    hide JobsToRelease, JobsToClaim, Published, Bus, Own;
    forall j | j in Elements(drop)
      ensures Heard(n, Release(j, n), now) in own
    {
      var i :| 0 <= i < |drop| && drop[i] == j;
      assert own[1 + i] in own;
    }
    forall j | j in Elements(ingest)
      ensures Heard(n, Claim(j, n, now), now) in own
    {
      var i :| 0 <= i < |ingest| && ingest[i] == j;
      assert own[1 + |drop| + i] in own;
    }
  }

  /** What a tick publishes: one heartbeat, what it owes and what it is designated for, and no more. */
  lemma TickPublishes(v: View, n: NodeId, c: Capacity, now: u64, own: seq<Heard>) returns (beat: Heard)
    requires IsTickOf(v, n, c, now, own)
    ensures forall h | h in own :: TickSays(v, n, c, now, h)
    ensures beat in own && beat.msg.Heartbeat? && forall h | h in own && h.msg.Heartbeat? :: h == beat
    ensures forall j | j in JobsToRelease(Own(v, n, c, now), n, now) :: Heard(n, Release(j, n), now) in own
    ensures forall j | j in JobsToClaim(Own(v, n, c, now), n, now) :: Heard(n, Claim(j, n, now), now) in own
  {
    var epoch: nat, drop, ingest :| IsTickWith(v, n, c, now, own, epoch, drop, ingest);
    hide JobsToRelease, JobsToClaim, IsTickWith, TickSays;
    SaysOnly(v, n, c, now, own, epoch, drop, ingest);
    SaysAll(v, n, c, now, own, epoch, drop, ingest);
    beat := Heard(n, Heartbeat(n, c.used, c.total, epoch % U64_LIMIT), now);
  }

  lemma PlayedSays(v: View, r: Round, h: Heard)
    requires Played(v, r) && h in r.bus
    ensures h.from in r.caps && TickSays(v, h.from, r.caps[h.from], r.now, h)
  {
    hide IsTickOf, TickSays;
    assert OwnPart(r.bus, h.from, r.owns[h.from]) && h in r.owns[h.from];
    var beat := TickPublishes(v, h.from, r.caps[h.from], r.now, r.owns[h.from]);
  }

  /** The messages of a round are pairwise independent, from any view, whatever the capacities. */
  lemma PlayedIsIndependent(v: View, r: Round)
    requires Played(v, r)
    ensures AllIndependent(Elements(r.bus))
  {
    hide JobsToRelease, JobsToClaim, Played, Own;
    forall a, b | a in Elements(r.bus) && b in Elements(r.bus)
      ensures Independent(a, b)
    {
      PlayedSays(v, r, a);
      PlayedSays(v, r, b);
      ShedOrDesignated(Own(v, a.from, r.caps[a.from], r.now), a.from, r.now);
    }
  }

  // ---- everyone ends with the fold of the bus ----------------------------------------------

  /** The view of a node after a round, from its view before. */
  function Local(v: View, n: NodeId, r: Round): View {
    Fold(if n in r.caps then Ticked(Own(v, n, r.caps[n], r.now), n, r.now) else v, Others(r.bus, n))
  }

  lemma TickOfNode(v: View, n: NodeId, c: Capacity, now: u64, own: seq<Heard>)
    requires IsTickOf(v, n, c, now, own)
    ensures Fold(v, own) == Ticked(Own(v, n, c, now), n, now)
  {
    var epoch: nat, drop, ingest :| IsTickWith(v, n, c, now, own, epoch, drop, ingest);
    ClaimsAreDesignated(Own(v, n, c, now), n, now);
    hide JobsToRelease, JobsToClaim, TickClaims, Ticked, Published, Bus;
    TickIsWhatItPublished(v, n, c.used, c.total, epoch, now, drop, ingest);
  }

  lemma SameMessages(bus: seq<Heard>, n: NodeId, own: seq<Heard>)
    requires OwnPart(bus, n, own)
    ensures Elements(own + Others(bus, n)) == Elements(bus)
  {
    OthersHeard(bus, n);
    hide Others;
    assert forall h :: h in own + Others(bus, n) <==> h in bus;
  }

  /** From any view, live in it or not, and whatever capacity each has by now: every node, having
      ticked and heard the others or only having listened, ends the round with the same view. */
  lemma RoundKeepsOneView(v: View, r: Round, n: NodeId)
    requires Played(v, r)
    ensures Local(v, n, r) == Fold(v, r.bus)
  {
    PlayedIsIndependent(v, r);
    assert Fold(v, []) == v;
    assert n in r.caps ==> IsTickOf(v, n, r.caps[n], r.now, r.owns[n]) && OwnPart(r.bus, n, r.owns[n]);
    assert n !in r.caps ==> OwnPart(r.bus, n, []);
    hide IsTickOf, Ticked, Others, Fold, Independent, OwnPart, Played, Own;
    var own := if n in r.caps then r.owns[n] else [];
    SameMessages(r.bus, n, own);
    FoldSplit(v, own, Others(r.bus, n));
    FoldOfSet(v, own + Others(r.bus, n), r.bus);
    if n in r.caps {
      TickOfNode(v, n, r.caps[n], r.now, own);
    }
  }

  // ---- runs --------------------------------------------------------------------------------

  /** Each round is played from the view the ones before it left. */
  ghost predicate PlayedAll(v: View, rounds: seq<Round>)
    decreases |rounds|
  {
    rounds == [] || (Played(v, rounds[0]) && PlayedAll(Fold(v, rounds[0].bus), rounds[1..]))
  }

  /** The view before round `i`. */
  function ViewAt(v: View, rounds: seq<Round>, i: nat): View
    requires i <= |rounds|
    decreases i
  {
    if i == 0 then v else ViewAt(Fold(v, rounds[0].bus), rounds[1..], i - 1)
  }

  /** One node's own view before round `i`, computed from its own ticks and what it heard. */
  function LocalAt(v: View, n: NodeId, rounds: seq<Round>, i: nat): View
    requires i <= |rounds|
    decreases i
  {
    if i == 0 then v else LocalAt(Local(v, n, rounds[0]), n, rounds[1..], i - 1)
  }

  /** Over every run of rounds, with any nodes ticking in each and capacities changing between them,
      all nodes have one view before every round. */
  lemma {:induction false} RunKeepsOneView(v: View, n: NodeId, rounds: seq<Round>, i: nat)
    requires PlayedAll(v, rounds) && i <= |rounds|
    ensures LocalAt(v, n, rounds, i) == ViewAt(v, rounds, i)
    decreases i
  {
    hide Played, Local, Fold;
    if i > 0 {
      RoundKeepsOneView(v, rounds[0], n);
      RunKeepsOneView(Fold(v, rounds[0].bus), n, rounds[1..], i - 1);
    }
  }

  // ---- who is known after a round ----------------------------------------------------------

  /** The others know the node by this capacity. */
  predicate AsGossiped(v: View, n: NodeId, c: Capacity) {
    n in v.nodes && v.nodes[n].used == c.used && v.nodes[n].total == c.total
  }

  /** After a round everyone who ticked is live, and unless its clock went back, is known by the
      capacity it ticked with. */
  lemma TickersAreKnown(v: View, r: Round, n: NodeId)
    requires Played(v, r) && n in r.caps
    ensures n in Fold(v, r.bus).nodes && Fold(v, r.bus).nodes[n].lastHeartbeat >= r.now
    ensures IsLive(Fold(v, r.bus), n, r.now)
    ensures (n in v.nodes ==> v.nodes[n].lastHeartbeat <= r.now) ==> AsGossiped(Fold(v, r.bus), n, r.caps[n])
  {
    var beat := TickPublishes(v, n, r.caps[n], r.now, r.owns[n]);
    assert OwnPart(r.bus, n, r.owns[n]);
    assert beat in r.bus && TickSays(v, n, r.caps[n], r.now, beat);
    forall g | g in r.bus && BeatOf(g, n)
      ensures g == beat
    {
      PlayedSays(v, r, g);
      assert g in r.owns[n];
    }
    BeatIsHeard(v, r.bus, beat);
    hide Played, Fold, JobsToRelease, JobsToClaim;
    if n in v.nodes ==> v.nodes[n].lastHeartbeat <= r.now {
      LatestBeatWins(v, r.bus, beat);
    }
  }

  /** Nobody else's status changes. */
  lemma SilentAreKept(v: View, r: Round, n: NodeId)
    requires Played(v, r) && n !in r.caps
    ensures n in Fold(v, r.bus).nodes <==> n in v.nodes
    ensures n in v.nodes ==> Fold(v, r.bus).nodes[n] == v.nodes[n]
  {
    forall h | h in r.bus
      ensures !BeatOf(h, n)
    {
      PlayedSays(v, r, h);
    }
    SilenceKeepsStatus(v, r.bus, n);
  }
}
