/** How much damage one packet's row of records survives. */
module Durability {
  import opened Octets
  import opened Orders
  import opened Coding
  import opened Shards

  lemma IndicesSubset(n: nat, s: set<nat>)
    requires forall i | i in s :: i < n
    ensures |s| <= n && |Indices(n) - s| == n - |s|
    ensures |s| == n ==> s == Indices(n)
  {
    assert s <= Indices(n);
    assert |Indices(n)| == |Indices(n) - s| + |s| by {
      assert Indices(n) == (Indices(n) - s) + s;
    }
    if |s| == n {
      assert Indices(n) - s == {};
    }
  }

  /** The stripes that lack a record of `wire`. */
  function Damaged(s: Scheme, row: Row, wire: Bytes): set<nat> {
    set i | 0 <= i < |row| && !Holds(s, row, i, wire)
  }

  lemma HoldersAndDamaged(s: Scheme, row: Row, wire: Bytes)
    ensures |Holders(s, row, wire)| + |Damaged(s, row, wire)| == |row|
  {
    IndicesSubset(|row|, Holders(s, row, wire));
    assert Damaged(s, row, wire) == Indices(|row|) - Holders(s, row, wire);
  }

  /** Up to `n - k` records lost, failing their checks or in the wrong stripe: the packet reads as
      written and exactly the damaged stripes are stale. No assumption on the digest is needed. */
  lemma SurvivesDamage(s: Scheme, row: Row, wire: Bytes)
    requires s.Valid() && |row| == s.n && |wire| < U32_LIMIT
    requires |Damaged(s, row, wire)| <= s.n - s.k
    requires forall i | i in Damaged(s, row, wire) :: ShardAt(s, row, i) == None
    ensures Verdict(s, row).Some? && Verdict(s, row).value.wire == wire
    ensures forall i :: i in Verdict(s, row).value.stale <==> i in Damaged(s, row, wire)
  {
    HoldersAndDamaged(s, row, wire);
    forall i | 0 <= i < |row|
      ensures HonestAt(s, row, i, {wire})
    {
      if Holds(s, row, i, wire) {
        assert wire in {wire};
      } else {
        assert i in Damaged(s, row, wire);
      }
    }
    HonestVerdict(s, row, {wire});
    assert wire in {wire};
  }

  /** A row of `n` records of one wire reads as that wire, with nothing to repair. */
  lemma FullRow(s: Scheme, row: Row, wire: Bytes)
    requires s.Valid() && |row| == s.n && |wire| < U32_LIMIT
    requires forall i | 0 <= i < s.n :: Holds(s, row, i, wire)
    ensures Verdict(s, row) == Some(Assembled(wire, []))
  {
    assert Damaged(s, row, wire) == {};
    SurvivesDamage(s, row, wire);
    var stale := Verdict(s, row).value.stale;
    if stale != [] {
      Inhabited(stale);
    }
  }

  /** With no good shard there is no answer. */
  lemma NothingGood(s: Scheme, row: Row)
    requires s.Valid() && |row| == s.n
    requires forall i | 0 <= i < s.n :: ShardAt(s, row, i) == None
    ensures Verdict(s, row) == None
  {
    assert Honest(s, row, {});
    HonestVerdict(s, row, {});
  }

  /** When more than half the stripes are needed, two wires cannot both qualify, whatever is stored. */
  lemma OneGroupQualifies(s: Scheme, row: Row, a: Tag, b: Tag)
    requires |row| == s.n < 2 * s.k
    requires |Voters(s, row, a, s.n)| >= s.k && |Voters(s, row, b, s.n)| >= s.k
    ensures a == b
  {
    var va, vb := Voters(s, row, a, s.n), Voters(s, row, b, s.n);
    if a != b {
      assert va !! vb;
      IndicesSubset(s.n, va + vb);
    }
  }

  // ---- an insert that stopped part-way -----------------------------------------------------

  /** The row left when the stripes of `done` were rewritten from `was` to `now`. */
  function Interrupted(s: Scheme, was: Bytes, now: Bytes, done: set<nat>): Row
    requires s.n <= 255
  {
    seq(s.n, i requires 0 <= i < s.n => Some(Record(s, if i in done then now else was, i)))
  }

  /** Each stripe holds its record of one of the two wires, and not of the other. */
  lemma InterruptedAt(s: Scheme, was: Bytes, now: Bytes, done: set<nat>, i: nat)
    requires s.Valid() && was != now && |was| < U32_LIMIT && |now| < U32_LIMIT
    requires CollisionFree(s, {was, now}) && i < s.n
    ensures var row := Interrupted(s, was, now, done);
            && HonestAt(s, row, i, {was, now})
            && (Holds(s, row, i, now) <==> i in done)
            && (Holds(s, row, i, was) <==> i !in done)
  {
    assert TagOf(s, was) != TagOf(s, now) by {
      assert was in {was, now} && now in {was, now};
    }
    RecordIsGood(s, was, i);
    RecordIsGood(s, now, i);
    hide Record, TagOf, ShardOf, CollisionFree;
    var w := if i in done then now else was;
    assert w in {was, now} && Holds(s, Interrupted(s, was, now, done), i, w);
  }

  lemma InterruptedHolders(s: Scheme, was: Bytes, now: Bytes, done: set<nat>)
    requires s.Valid() && was != now && |was| < U32_LIMIT && |now| < U32_LIMIT
    requires CollisionFree(s, {was, now})
    requires forall i | i in done :: i < s.n
    ensures var row := Interrupted(s, was, now, done);
            && Honest(s, row, {was, now})
            && Holders(s, row, now) == done
            && Holders(s, row, was) == Indices(s.n) - done
            && |Holders(s, row, was)| == s.n - |done|
  {
    IndicesSubset(s.n, done);
    hide HonestAt, Holds, CollisionFree;
    forall i: nat | i < s.n
      ensures HonestAt(s, Interrupted(s, was, now, done), i, {was, now})
      ensures Holds(s, Interrupted(s, was, now, done), i, now) <==> i in done
      ensures Holds(s, Interrupted(s, was, now, done), i, was) <==> i !in done
    {
      InterruptedAt(s, was, now, done, i);
    }
  }

  /** Interrupted anywhere, the packet reads as the old wire, the new one or nothing: as whichever
      more stripes hold if that is at least `k` of them, as nothing only when neither is. */
  lemma InterruptedInsert(s: Scheme, was: Bytes, now: Bytes, done: set<nat>)
    requires s.Valid() && was != now && |was| < U32_LIMIT && |now| < U32_LIMIT
    requires CollisionFree(s, {was, now})
    requires forall i | i in done :: i < s.n
    ensures match Verdict(s, Interrupted(s, was, now, done))
            case None => |done| < s.k && s.n - |done| < s.k
            case Some(a) =>
              || (a.wire == now && |done| >= s.k && |done| >= s.n - |done|)
              || (a.wire == was && s.n - |done| >= s.k && s.n - |done| >= |done|)
  {
    var row, wires := Interrupted(s, was, now, done), {was, now};
    InterruptedHolders(s, was, now, done);
    hide Verdict, Honest, Holders, Interrupted, CollisionFree;
    HonestVerdict(s, row, wires);
    assert was in wires && now in wires;
    if Verdict(s, row).Some? {
      var w := Verdict(s, row).value.wire;
      assert w == was || w == now;
    }
  }

  /** An interrupted insert always reads as one of the two wires exactly when `n >= 2k - 1`. */
  lemma InterruptedAlwaysReads(s: Scheme, was: Bytes, now: Bytes)
    requires s.Valid() && was != now && |was| < U32_LIMIT && |now| < U32_LIMIT
    requires CollisionFree(s, {was, now})
    ensures (forall done: set<nat> | done <= Indices(s.n) ::
               Verdict(s, Interrupted(s, was, now, done)).Some?)
       <==> s.n >= 2 * s.k - 1
  {
    if s.n >= 2 * s.k - 1 {
      forall done: set<nat> | done <= Indices(s.n)
        ensures Verdict(s, Interrupted(s, was, now, done)).Some?
      {
        InterruptedInsert(s, was, now, done);
      }
    } else {
      var done := Indices(s.k - 1);
      assert done <= Indices(s.n);
      InterruptedInsert(s, was, now, done);
    }
  }
}
