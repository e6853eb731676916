/** Which claimants a view makes let go of a job, and when those are the full ones. */
module Shedding {
  import opened Octets
  import opened Orders
  import opened Names
  import opened Cluster
  import opened Placement

  /** A node sheds a job exactly when it claims it, is live, and at least as many live claimants as the
      factor rank before it: how full it is plays no part beyond its rank. */
  lemma ReleasedExactly(v: View, self: NodeId, now: u64, job: JobId)
    requires job in v.jobs
    ensures job in JobsToRelease(v, self, now)
       <==> self in LiveClaimants(v, job, now)
            && |Smaller(Rank(v), LiveClaimants(v, job, now), self)| >= Factor(v, job)
  {
    hide IsLive, Rank, Smaller;
    RankIsTotal(v, LiveClaimants(v, job, now));
    if self in LiveClaimants(v, job, now) {
      TakenAreEarly(Rank(v), LiveClaimants(v, job, now), Factor(v, job), self);
    }
  }

  /** The live claimants below the watermark. */
  function Roomy(v: View, job: JobId, now: u64): set<NodeId> {
    set n | n in LiveClaimants(v, job, now) && HasCapacity(v, n)
  }

  /** Lower utilisation ranks first, so those with room rank before those without. */
  lemma RoomyFirst(v: View, job: JobId, now: u64)
    ensures forall x, y | x in Roomy(v, job, now) && y in LiveClaimants(v, job, now) && Rank(v)(y, x) ::
              y in Roomy(v, job, now)
  {
    hide KeyLess;
    forall x, y | x in Roomy(v, job, now) && y in LiveClaimants(v, job, now) && Rank(v)(y, x)
      ensures y in Roomy(v, job, now)
    {
      assert IsLive(v, y, now);
    }
  }

  /** In rank order the claimants with room come first, and a claimant's position is how many rank
      before it. */
  lemma Positions(v: View, job: JobId, now: u64, i: nat)
    requires i < |LiveClaimants(v, job, now)|
    ensures var x := Ranked(v, LiveClaimants(v, job, now))[i];
            && x in LiveClaimants(v, job, now)
            && (HasCapacity(v, x) <==> i < |Roomy(v, job, now)|)
            && |Smaller(Rank(v), LiveClaimants(v, job, now), x)| == i
  {
    var live, roomy := LiveClaimants(v, job, now), Roomy(v, job, now);
    RoomyFirst(v, job, now);
    hide Rank, LiveClaimants, Smaller, Sorted, HasCapacity;
    RankIsTotal(v, live);
    RankIsTotal(v, roomy);
    var q, r := SortedSeq(Rank(v), live), SortedSeq(Rank(v), roomy);
    DownClosedPrefix(Rank(v), roomy, live);
    PositionCounts(Rank(v), live, i);
    assert q[i] in Elements(q);
    if i < |r| {
      assert q[i] == r[i] && r[i] in Elements(r);
    } else if q[i] in roomy {
      assert q[i] in Elements(r);
      var j :| 0 <= j < |r| && r[j] == q[i];
      PositionCounts(Rank(v), live, j);
    }
  }

  lemma PositionOf(v: View, job: JobId, now: u64, n: NodeId) returns (i: nat)
    requires n in LiveClaimants(v, job, now)
    ensures i < |LiveClaimants(v, job, now)| && Ranked(v, LiveClaimants(v, job, now))[i] == n
  {
    hide LiveClaimants;
    assert n in Elements(Ranked(v, LiveClaimants(v, job, now)));
    i :| 0 <= i < |LiveClaimants(v, job, now)| && Ranked(v, LiveClaimants(v, job, now))[i] == n;
  }

  /** No claimant with room sheds the job. */
  ghost predicate NoneWithRoomSheds(v: View, job: JobId, now: u64) {
    forall n | HasCapacity(v, n) :: job !in JobsToRelease(v, n, now)
  }

  /** Every live claimant without room sheds it. */
  ghost predicate AllFullShed(v: View, job: JobId, now: u64) {
    forall n | n in LiveClaimants(v, job, now) && !HasCapacity(v, n) :: job in JobsToRelease(v, n, now)
  }

  lemma ShedAt(v: View, job: JobId, now: u64, i: nat)
    requires job in v.jobs && i < |LiveClaimants(v, job, now)|
    ensures var x := Ranked(v, LiveClaimants(v, job, now))[i];
            && x in LiveClaimants(v, job, now)
            && (HasCapacity(v, x) <==> i < |Roomy(v, job, now)|)
            && (job in JobsToRelease(v, x, now) <==> i >= Factor(v, job))
  {
    hide LiveClaimants, JobsToRelease, Smaller, Rank, HasCapacity;
    Positions(v, job, now, i);
    ReleasedExactly(v, Ranked(v, LiveClaimants(v, job, now))[i], now, job);
  }

  /** Nodes below the watermark keep a job exactly when no more of them claim it than its factor. */
  lemma RoomyKeep(v: View, job: JobId, now: u64)
    requires job in v.jobs
    ensures NoneWithRoomSheds(v, job, now) <==> |Roomy(v, job, now)| <= Factor(v, job)
  {
    CardMono(Roomy(v, job, now), LiveClaimants(v, job, now));
    hide LiveClaimants, JobsToRelease, HasCapacity, Roomy;
    if |Roomy(v, job, now)| > Factor(v, job) {
      ShedAt(v, job, now, |Roomy(v, job, now)| - 1);
    } else {
      forall n | HasCapacity(v, n)
        ensures job !in JobsToRelease(v, n, now)
      {
        ReleasedExactly(v, n, now, job);
        if n in LiveClaimants(v, job, now) {
          var i := PositionOf(v, job, now, n);
          ShedAt(v, job, now, i);
        }
      }
    }
  }

  /** Full nodes all shed a job exactly when none of them claims it or those with room reach its factor. */
  lemma FullShed(v: View, job: JobId, now: u64)
    requires job in v.jobs
    ensures AllFullShed(v, job, now)
       <==> |Roomy(v, job, now)| == |LiveClaimants(v, job, now)| || |Roomy(v, job, now)| >= Factor(v, job)
  {
    CardMono(Roomy(v, job, now), LiveClaimants(v, job, now));
    hide LiveClaimants, JobsToRelease, HasCapacity, Roomy;
    if |Roomy(v, job, now)| < |LiveClaimants(v, job, now)| && |Roomy(v, job, now)| < Factor(v, job) {
      ShedAt(v, job, now, |Roomy(v, job, now)|);
    } else {
      forall n | n in LiveClaimants(v, job, now) && !HasCapacity(v, n)
        ensures job in JobsToRelease(v, n, now)
      {
        var i := PositionOf(v, job, now, n);
        ShedAt(v, job, now, i);
      }
    }
  }

  /** A node below the watermark sheds nothing, in the whole view, exactly when every job has no more
      live claimants below the watermark than its factor. */
  lemma NonFullShedNothing(v: View, now: u64)
    ensures (forall n | HasCapacity(v, n) :: JobsToRelease(v, n, now) == {})
       <==> forall job | job in v.jobs :: |Roomy(v, job, now)| <= Factor(v, job)
  {
    forall job | job in v.jobs
      ensures NoneWithRoomSheds(v, job, now) <==> |Roomy(v, job, now)| <= Factor(v, job)
    {
      RoomyKeep(v, job, now);
    }
    hide HasCapacity, Roomy, LiveClaimants, Factor, IsLive, DesignatedKeepers;
    if forall n | HasCapacity(v, n) :: JobsToRelease(v, n, now) == {} {
      forall job | job in v.jobs
        ensures NoneWithRoomSheds(v, job, now)
      {
      }
    } else {
      var n :| HasCapacity(v, n) && JobsToRelease(v, n, now) != {};
      var job :| job in JobsToRelease(v, n, now);
      assert job in v.jobs && !NoneWithRoomSheds(v, job, now);
    }
  }

  // ---- a node that is not full and sheds ---------------------------------------------------

  const FIRST: NodeId := []
  const SECOND: NodeId := [Component(8, [1])]
  const JOB: JobId := [Component(8, [2])]

  /** Two empty nodes claim a job that wants one copy. */
  function TwoForOne(): View {
    View(Config(1, 1, 1, 0.75),
         map[FIRST := NodeStatus(0, 0, 0), SECOND := NodeStatus(0, 0, 0)],
         map[JOB := Job(0, map[FIRST := 0, SECOND := 0], None)])
  }

  /** The second lets the job go although it is empty. */
  lemma EmptyNodeSheds()
    ensures HasCapacity(TwoForOne(), SECOND) && TwoForOne().nodes[SECOND].Utilization() == 0.0
    ensures JOB in JobsToRelease(TwoForOne(), SECOND, 0)
  {
    var v := TwoForOne();
    assert KeyLess(FIRST, SECOND);
    assert Rank(v)(FIRST, SECOND);
    var live := LiveClaimants(v, JOB, 0);
    assert live == {FIRST, SECOND};
    assert FIRST in Smaller(Rank(v), live, SECOND);
    hide Rank, LiveClaimants;
    ReleasedExactly(v, SECOND, 0, JOB);
  }
}
