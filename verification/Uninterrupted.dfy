/** The lock holder's steps, taken with nothing in between, are the operations of the store: what the
    interleaved model breaks into stripe accesses is what the store's methods do. */
module Uninterrupted {
  import opened Octets
  import opened Orders
  import opened Names
  import opened Coding
  import opened Shards
  import opened Stripes
  import opened Interleaving
  import opened Held

  /** `m` steps of the lock holder in a row. */
  ghost function Alone(s: Scheme, x: State, m: nat): (r: State)
    requires |x.stripes| == s.n <= 255
    ensures |r.stripes| == s.n
  {
    if m == 0 then x else WriterAfter(s, Alone(s, x, m - 1))
  }

  lemma AllIndices(n: nat)
    ensures Indices(n + 1) == Indices(n) + {n}
    ensures Indices(0) == {}
  {
  }

  // ---- insert ------------------------------------------------------------------------------

  lemma NoneRewritten(s: Scheme, st: Stripes, name: Name, wire: Bytes)
    requires |st| <= 255
    ensures Rewritten(s, st, name, wire, {}) == st
  {
    hide Record;
  }

  /** One more stripe written. */
  lemma OneMoreWritten(s: Scheme, st: Stripes, name: Name, wire: Bytes, m: nat)
    requires m < |st| <= 255
    ensures SetCell(Rewritten(s, st, name, wire, Indices(m)), m, name, Some(Record(s, wire, m)))
         == Rewritten(s, st, name, wire, Indices(m + 1))
  {
    AllIndices(m);
    hide Record, Indices, Rewritten;
    RewrittenOneMore(s, st, name, wire, Indices(m), m);
  }

  lemma {:induction false} InsertSteps(s: Scheme, x: State, name: Name, wire: Bytes, m: nat)
    requires |x.stripes| == s.n <= 255 && x.writer == Inserting(name, wire, 0) && m <= s.n
    ensures Alone(s, x, m)
         == x.(stripes := Rewritten(s, x.stripes, name, wire, Indices(m)), writer := Inserting(name, wire, m))
  {
    hide Record, SetCell, Rewritten, Indices;
    if m == 0 {
      AllIndices(0);
      NoneRewritten(s, x.stripes, name, wire);
    } else {
      InsertSteps(s, x, name, wire, m - 1);
      OneMoreWritten(s, x.stripes, name, wire, m - 1);
    }
  }

  lemma InsertFinishes(s: Scheme, start: State, name: Name, wire: Bytes)
    requires |start.stripes| == s.n <= 255 && start.writer == Inserting(name, wire, 0)
    ensures var end := Alone(s, start, s.n + 1);
            && end.stripes == Inserted(s, start.stripes, name, wire)
            && end.committed == start.committed[name := wire] && end.writer == Free
  {
    InsertSteps(s, start, name, wire, s.n);
  }

  /** An insert nothing interrupts leaves what the store's insert leaves. */
  lemma InsertAlone(s: Scheme, x: State, name: Name, wire: Bytes)
    requires |x.stripes| == s.n <= 255 && x.writer.Free? && |wire| < U32_LIMIT
    ensures var end := Alone(s, Next(s, x, BeginInsert(name, wire)), s.n + 1);
            && end.stripes == Inserted(s, x.stripes, name, wire)
            && end.committed == x.committed[name := wire] && end.writer == Free
  {
    hide Alone, Inserted;
    InsertFinishes(s, Next(s, x, BeginInsert(name, wire)), name, wire);
  }

  // ---- remove ------------------------------------------------------------------------------

  function RemovedTo(st: Stripes, name: Name, m: nat): Stripes {
    seq(|st|, i requires 0 <= i < |st| => if i < m then st[i] - {name} else st[i])
  }

  lemma {:induction false} RemoveSteps(s: Scheme, x: State, name: Name, m: nat)
    requires |x.stripes| == s.n <= 255 && x.writer == Removing(name, 0) && m <= s.n
    ensures Alone(s, x, m) == x.(stripes := RemovedTo(x.stripes, name, m), writer := Removing(name, m))
  {
    if m == 0 {
      assert RemovedTo(x.stripes, name, 0) == x.stripes;
    } else {
      RemoveSteps(s, x, name, m - 1);
      assert SetCell(RemovedTo(x.stripes, name, m - 1), m - 1, name, None) == RemovedTo(x.stripes, name, m);
    }
  }

  lemma RemoveAlone(s: Scheme, x: State, name: Name)
    requires |x.stripes| == s.n <= 255 && x.writer.Free?
    ensures var end := Alone(s, Next(s, x, BeginRemove(name)), s.n + 1);
            && end.stripes == Removed(x.stripes, name)
            && end.committed == x.committed - {name} && end.writer == Free
  {
    RemoveSteps(s, Next(s, x, BeginRemove(name)), name, s.n);
    assert RemovedTo(x.stripes, name, s.n) == Removed(x.stripes, name);
  }

  // ---- repair ------------------------------------------------------------------------------

  lemma {:induction false} JudgeSteps(s: Scheme, x: State, name: Name, m: nat)
    requires |x.stripes| == s.n <= 255 && x.writer == Judging(name, []) && m <= s.n
    ensures Alone(s, x, m) == x.(writer := Judging(name, RowOf(x.stripes, name)[..m]))
  {
    if m > 0 {
      JudgeSteps(s, x, name, m - 1);
      var row := RowOf(x.stripes, name);
      assert row[..m] == row[..m - 1] + [row[m - 1]];
    }
  }

  lemma StaleRewritten(s: Scheme, st: Stripes, name: Name, wire: Bytes, stale: seq<nat>, m: nat)
    requires |st| <= 255 && 0 < m <= |stale| && stale[m - 1] < |st|
    ensures SetCell(Rewritten(s, st, name, wire, Elements(stale[..m - 1])), stale[m - 1], name,
                    Some(Record(s, wire, stale[m - 1])))
         == Rewritten(s, st, name, wire, Elements(stale[..m]))
  {
    hide Record, Rewritten;
    RewrittenNext(s, st, name, wire, stale, m - 1);
  }

  lemma {:induction false} RewriteSteps(s: Scheme, x: State, name: Name, m: nat)
    requires |x.stripes| == s.n <= 255 && x.writer == Judging(name, [])
    requires Verdict(s, RowOf(x.stripes, name)).Some?
    requires m <= |Verdict(s, RowOf(x.stripes, name)).value.stale|
    ensures var a := Verdict(s, RowOf(x.stripes, name)).value;
            Alone(s, x, s.n + 1 + m)
            == x.(stripes := Rewritten(s, x.stripes, name, a.wire, Elements(a.stale[..m])),
                  writer := Rewriting(name, a.wire, a.stale[m..]))
  {
    hide Verdict, Record, Rewritten, SetCell;
    var row := RowOf(x.stripes, name);
    var a := Verdict(s, row).value;
    if m == 0 {
      JudgeSteps(s, x, name, s.n);
      assert row[..s.n] == row;
      assert Elements(a.stale[..0]) == {} && a.stale[0..] == a.stale;
      NoneRewritten(s, x.stripes, name, a.wire);
    } else {
      RewriteSteps(s, x, name, m - 1);
      VerdictStale(s, row);
      StaleRewritten(s, x.stripes, name, a.wire, a.stale, m);
      assert a.stale[m - 1..][0] == a.stale[m - 1] && a.stale[m - 1..][1..] == a.stale[m..];
    }
  }

  /** How many steps a repair takes: every stripe read, every stale one written. */
  ghost function RepairLength(s: Scheme, st: Stripes, name: Name): nat {
    match Verdict(s, RowOf(st, name))
    case None => s.n + 1
    case Some(a) => s.n + 1 + |a.stale| + 1
  }

  lemma RepairAlone(s: Scheme, x: State, name: Name)
    requires |x.stripes| == s.n <= 255 && x.writer.Free?
    ensures var end := Alone(s, Next(s, x, BeginRepair(name)), RepairLength(s, x.stripes, name));
            && end.stripes == Repaired(s, x.stripes, name)
            && end.committed == x.committed && end.writer == Free
  {
    hide Verdict, Rewritten;
    var start, row := Next(s, x, BeginRepair(name)), RowOf(x.stripes, name);
    if Verdict(s, row).None? {
      NothingToRepair(s, x, name);
    } else {
      var stale := Verdict(s, row).value.stale;
      RewriteSteps(s, start, name, |stale|);
      assert stale[..|stale|] == stale && stale[|stale|..] == [];
    }
  }

  lemma NothingToRepair(s: Scheme, x: State, name: Name)
    requires |x.stripes| == s.n <= 255 && x.writer.Free? && Verdict(s, RowOf(x.stripes, name)).None?
    ensures var end := Alone(s, Next(s, x, BeginRepair(name)), RepairLength(s, x.stripes, name));
            && end.stripes == x.stripes && end.committed == x.committed && end.writer == Free
  {
    hide Verdict, Rewritten;
    var row := RowOf(x.stripes, name);
    JudgeSteps(s, Next(s, x, BeginRepair(name)), name, s.n);
    assert row[..s.n] == row;
  }

  // ---- nobody waits for ever ---------------------------------------------------------------

  /** How many steps the lock holder has left, at most. */
  function StepsLeft(s: Scheme, w: Writer): nat {
    match w
    case Free => 0
    case Inserting(_, _, next) => if next < s.n then s.n - next + 1 else 1
    case Removing(_, next) => if next < s.n then s.n - next + 1 else 1
    case Judging(_, row) => (if |row| < s.n then s.n - |row| else 0) + s.n + 2
    case Rewriting(_, _, todo) => |todo| + 1
  }

  lemma StepLeavesLess(s: Scheme, x: State)
    requires s.Valid() && Inv(s, x) && !x.writer.Free?
    ensures |x.stripes| == s.n <= 255 && StepsLeft(s, WriterAfter(s, x).writer) < StepsLeft(s, x.writer)
  {
    hide CellsInv, Record, Verdict, SetCell, Cell;
    assert WriterInv(s, x);
    if x.writer.Judging? && |x.writer.row| == s.n {
      JudgeLeavesLess(s, x);
    }
  }

  lemma JudgeLeavesLess(s: Scheme, x: State)
    requires |x.stripes| == s.n <= 255 && x.writer.Judging? && |x.writer.row| == s.n
    ensures StepsLeft(s, WriterAfter(s, x).writer) < StepsLeft(s, x.writer)
  {
    StaleFits(s, x.writer.row);
    hide Verdict, Record, SetCell, Cell;
  }

  /** No more stripes are stale than there are. */
  lemma StaleFits(s: Scheme, row: Row)
    ensures Verdict(s, row).Some? ==> |Verdict(s, row).value.stale| <= |row|
  {
    if Verdict(s, row).Some? {
      var tag :| Wins(s, row, tag);
      VerdictOfWinner(s, row, tag);
      FewStale(Members(s, row, tag), |row|);
    }
  }

  lemma {:induction false} FewStale(members: seq<Shard>, n: nat)
    ensures |Stale(members, n)| <= n
  {
    if n > 0 {
      FewStale(members, n - 1);
    }
  }

  /** Whoever holds the lock gives it up by its own steps, in every state a run can reach: an insert or a
      remove after at most `n + 1` of them, a repair that is still judging after at most `2n + 2`. */
  lemma {:induction false} LockIsReleased(s: Scheme, x: State) returns (m: nat)
    requires s.Valid() && |x.stripes| == s.n <= 255 && Inv(s, x)
    ensures m <= StepsLeft(s, x.writer) && Alone(s, x, m).writer.Free? && Inv(s, Alone(s, x, m))
    ensures x.writer.Inserting? || x.writer.Removing? ==> m <= s.n + 1
    ensures x.writer.Judging? ==> m <= 2 * s.n + 2
    decreases StepsLeft(s, x.writer)
  {
    if x.writer.Free? {
      m := 0;
    } else {
      hide Inv, StepsLeft, WriterAfter, Alone;
      StepLeavesLess(s, x);
      WriterKeepsInv(s, x);
      var rest := LockIsReleased(s, WriterAfter(s, x));
      OneAlone(s, x);
      AloneShift(s, x, rest);
      m := rest + 1;
    }
  }

  lemma WriterKeepsInv(s: Scheme, x: State)
    requires s.Valid() && |x.stripes| == s.n <= 255 && Inv(s, x) && !x.writer.Free?
    ensures |WriterAfter(s, x).stripes| == s.n && Inv(s, WriterAfter(s, x))
  {
    StepKeepsInv(s, x, WriterStep);
  }

  lemma OneAlone(s: Scheme, x: State)
    requires |x.stripes| == s.n <= 255
    ensures Alone(s, x, 1) == WriterAfter(s, x)
  {
    assert Alone(s, x, 0) == x;
  }

  lemma {:induction false} AloneShift(s: Scheme, x: State, m: nat)
    requires |x.stripes| == s.n <= 255
    ensures Alone(s, x, m + 1) == Alone(s, Alone(s, x, 1), m)
  {
    hide WriterAfter;
    if m > 0 {
      AloneShift(s, x, m - 1);
    }
  }
}
