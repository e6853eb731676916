/** Placement in terms of what nodes gossip: how much of how much they use. */
module Ranking {
  import opened Octets
  import opened Orders
  import opened Names
  import opened Cluster
  import opened Placement

  /** `x` uses a smaller share of its capacity than `y`, or the same and its name's key comes first. */
  ghost predicate Emptier(v: View, x: NodeId, y: NodeId) {
    && x in v.nodes && y in v.nodes && v.nodes[x].total > 0 && v.nodes[y].total > 0
    && (v.nodes[x].used * v.nodes[y].total < v.nodes[y].used * v.nodes[x].total
        || (v.nodes[x].used * v.nodes[y].total == v.nodes[y].used * v.nodes[x].total
            && OctetsBefore(Key(x), Key(y))))
  }

  /** The node's share is below the watermark; a node without capacity counts as empty. */
  predicate HasRoom(v: View, n: NodeId) {
    && n in v.nodes
    && (if v.nodes[n].total > 0 then v.nodes[n].used as real < v.config.highWatermark * v.nodes[n].total as real
        else v.config.highWatermark > 0.0)
  }

  lemma Shares(a: nat, b: nat, c: nat, d: nat)
    requires b > 0 && d > 0
    ensures a as real / b as real < c as real / d as real <==> a * d < c * b
    ensures a as real / b as real == c as real / d as real <==> a * d == c * b
  {
    var x, y := a as real / b as real, c as real / d as real;
    var k := b as real * d as real;
    assert k > 0.0;
    assert x * k == (a * d) as real by {
      assert x * b as real == a as real;
      assert x * k == (x * b as real) * d as real;
    }
    assert y * k == (c * b) as real by {
      assert y * d as real == c as real;
      assert y * k == (y * d as real) * b as real;
    }
    Scaled(x, y, k);
  }

  lemma Scaled(x: real, y: real, k: real)
    requires k > 0.0
    ensures x < y <==> x * k < y * k
    ensures x == y <==> x * k == y * k
  {
    if x < y {
      assert (y - x) * k > 0.0;
    } else if y < x {
      assert (x - y) * k > 0.0;
    }
  }

  lemma EmptierRanksBefore(v: View, x: NodeId, y: NodeId)
    requires Emptier(v, x, y)
    ensures Rank(v)(x, y)
  {
    hide KeyLess, OctetsBefore;
    Shares(v.nodes[x].used, v.nodes[x].total, v.nodes[y].used, v.nodes[y].total);
    KeyLessIsOctetOrder(x, y);
  }

  lemma RoomIsCapacity(v: View, n: NodeId)
    ensures HasCapacity(v, n) <==> HasRoom(v, n)
  {
    if n in v.nodes && v.nodes[n].total > 0 {
      var share, k := v.nodes[n].used as real / v.nodes[n].total as real, v.nodes[n].total as real;
      assert share * k == v.nodes[n].used as real;
      Scaled(share, v.config.highWatermark, k);
    }
  }

  /** `x` stands before `y`. */
  predicate StandsBefore(q: seq<NodeId>, x: NodeId, y: NodeId) {
    exists i, j :: 0 <= i < j < |q| && q[i] == x && q[j] == y
  }

  /** In the best of a pool, an emptier member of the pool stands before every chosen one. */
  lemma EmptierFirst(v: View, chosen: seq<NodeId>, pool: set<NodeId>, count: nat, x: NodeId, y: NodeId)
    requires BestOf(v, chosen, pool, count) && Emptier(v, x, y) && x in pool && y in chosen
    ensures StandsBefore(chosen, x, y)
  {
    EmptierRanksBefore(v, x, y);
    NotBothWays(v, x, y);
    hide Emptier;
    assert x in chosen;
    hide RanksBefore;
    var i :| 0 <= i < |chosen| && chosen[i] == x;
    var j :| 0 <= j < |chosen| && chosen[j] == y;
    assert i < j;
  }

  lemma NotBothWays(v: View, x: NodeId, y: NodeId)
    requires Rank(v)(x, y)
    ensures !Rank(v)(y, x) && !RanksBefore(v, y, x) && x != y
  {
    hide KeyLess;
    KeyOrder({x, y});
  }

  /** Of two live nodes that do not claim a job, the emptier is asked first, if it has room. */
  lemma EmptierClaimsFirst(v: View, job: JobId, now: u64, x: NodeId, y: NodeId)
    requires job in v.jobs && IsLive(v, x, now) && x !in v.jobs[job].claimants && HasRoom(v, x)
    requires Emptier(v, x, y) && y in DesignatedClaimers(v, job, now)
    ensures StandsBefore(DesignatedClaimers(v, job, now), x, y)
  {
    ClaimersAreBest(v, job, now);
    RoomIsCapacity(v, x);
    hide DesignatedClaimers, BestOf, HasRoom, HasCapacity, Emptier;
    assert x in Spare(v, job, now);
    EmptierFirst(v, DesignatedClaimers(v, job, now), Spare(v, job, now), Need(v, job, now), x, y);
  }

  /** Of two live claimants, the emptier keeps the job first, with room or without. */
  lemma EmptierKeepsFirst(v: View, job: JobId, now: u64, x: NodeId, y: NodeId)
    requires job in v.jobs && IsLive(v, x, now) && x in v.jobs[job].claimants
    requires Emptier(v, x, y) && y in DesignatedKeepers(v, job, now)
    ensures StandsBefore(DesignatedKeepers(v, job, now), x, y)
  {
    KeepersAreBest(v, job, now);
    hide DesignatedKeepers, BestOf, IsLive, Emptier;
    EmptierFirst(v, DesignatedKeepers(v, job, now), LiveClaimants(v, job, now), Factor(v, job), x, y);
  }

  /** Of two live nodes, the emptier gets the lower shard index, if it has room. */
  lemma EmptierHoldsFirst(v: View, count: nat, now: u64, x: NodeId, y: NodeId)
    requires IsLive(v, x, now) && HasRoom(v, x) && Emptier(v, x, y) && y in ShardHolders(v, count, now)
    ensures StandsBefore(ShardHolders(v, count, now), x, y)
  {
    HoldersAreBest(v, count, now);
    RoomIsCapacity(v, x);
    hide ShardHolders, BestOf, HasRoom, HasCapacity, Emptier;
    assert x in Eligible(v, now);
    EmptierFirst(v, ShardHolders(v, count, now), Eligible(v, now), count, x, y);
  }

  /** Who can be asked to take more: the live nodes below the watermark, and for a job those of them that
      do not claim it. */
  lemma PoolsHaveRoom(v: View, job: JobId, now: u64, n: NodeId)
    ensures n in Eligible(v, now) <==> IsLive(v, n, now) && HasRoom(v, n)
    ensures job in v.jobs ==>
              (n in Spare(v, job, now) <==> IsLive(v, n, now) && HasRoom(v, n) && n !in v.jobs[job].claimants)
  {
    RoomIsCapacity(v, n);
    hide HasCapacity, HasRoom;
  }

  /** A node at or above the watermark is never asked to take anything. */
  lemma FullTakeNothing(v: View, job: JobId, count: nat, now: u64, n: NodeId)
    requires n in v.nodes && v.nodes[n].total > 0
    requires v.nodes[n].used as real >= v.config.highWatermark * v.nodes[n].total as real
    ensures n !in DesignatedClaimers(v, job, now) && n !in ShardHolders(v, count, now)
  {
    assert !HasRoom(v, n);
    PoolsHaveRoom(v, job, now, n);
    hide HasRoom, IsLive, HasCapacity, DesignatedClaimers, ShardHolders, RanksBefore, Rank;
    HoldersAreBest(v, count, now);
    assert n in ShardHolders(v, count, now) ==> n in Elements(ShardHolders(v, count, now));
    if job in v.jobs {
      ClaimersAreBest(v, job, now);
      assert n in DesignatedClaimers(v, job, now) ==> n in Elements(DesignatedClaimers(v, job, now));
    } else {
      NobodyForUnknown(v, job, now);
    }
  }

  lemma NobodyForUnknown(v: View, job: JobId, now: u64)
    requires job !in v.jobs
    ensures DesignatedClaimers(v, job, now) == []
  {
  }
}
