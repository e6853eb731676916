/** A read that no insert or remove of its name overlaps always answers: whatever repairs run beside it,
    and whatever else happens to up to `n - k` of the packet's stripes. */
module SteadyReads {
  import opened Octets
  import opened Names
  import opened Coding
  import opened Shards
  import opened Durability
  import opened Stripes
  import opened Interleaving
  import opened Uninterrupted
  import Orders

  /** `name` is committed as `wire`, no write of it is under way, and every stripe outside `spoiled`
      holds its record. */
  ghost predicate Steady(s: Scheme, x: State, name: Name, wire: Bytes, spoiled: set<nat>) {
    && Inv(s, x)
    && Lookup(x.committed, name) == Some(wire) && |wire| < U32_LIMIT
    && !WritesTo(x.writer, name)
    && forall i: nat | i < s.n && i !in spoiled :: i < 256 && Cell(x.stripes, i, name) == Some(Record(s, wire, i))
  }

  predicate WritesTo(w: Writer, name: Name) {
    (w.Inserting? || w.Removing?) && w.name == name
  }

  /** A step that begins no insert or remove of `name` and damages only its `spoiled` stripes. */
  predicate Harmless(step: Step, name: Name, spoiled: set<nat>) {
    match step
    case BeginInsert(m, _) => m != name
    case BeginRemove(m) => m != name
    case Damage(i, m, _) => m == name ==> i in spoiled
    case _ => true
  }

  /** The reader has gathered only records of `wire`, save from `spoiled` stripes. */
  ghost predicate Gathering(s: Scheme, x: State, r: nat, name: Name, wire: Bytes, spoiled: set<nat>) {
    && r in x.readers && x.readers[r].name == name && x.readers[r].window == {wire}
    && |x.readers[r].row| <= s.n
    && forall i: nat | i < |x.readers[r].row| && i !in spoiled ::
         i < 256 && x.readers[r].row[i] == Some(Record(s, wire, i))
  }

  lemma CellsOfOthers(s: Scheme, x: State, x': State, i: nat, m: Name, record: Option<Bytes>, name: Name)
    requires i < |x.stripes| && x'.stripes == SetCell(x.stripes, i, m, record)
    ensures forall j: nat | j < |x.stripes| ::
              Cell(x'.stripes, j, name) == if j == i && m == name then record else Cell(x.stripes, j, name)
  {
    forall j: nat | j < |x.stripes|
      ensures Cell(x'.stripes, j, name) == if j == i && m == name then record else Cell(x.stripes, j, name)
    {
      SetCellElsewhere(x.stripes, i, m, record, j, name);
    }
  }

  /** What the lock holder writes under `name`, if anything, is its committed record. */
  lemma WriterKeepsSteady(s: Scheme, x: State, name: Name, wire: Bytes, spoiled: set<nat>)
    requires s.Valid() && Steady(s, x, name, wire, spoiled) && !x.writer.Free?
    ensures Steady(s, WriterAfter(s, x), name, wire, spoiled)
  {
    StepKeepsInv(s, x, WriterStep);
    var x' := WriterAfter(s, x);
    assert WriterInv(s, x);
    hide Inv, CellsInv, Record, Verdict;
    match x.writer {
      case Inserting(m, w, next) =>
        if next < s.n {
          CellsOfOthers(s, x, x', next, m, Some(Record(s, w, next)), name);
        }
      case Removing(m, next) =>
        if next < s.n {
          CellsOfOthers(s, x, x', next, m, None, name);
        }
      case Rewriting(m, w, todo) =>
        if todo != [] {
          CellsOfOthers(s, x, x', todo[0], m, Some(Record(s, w, todo[0])), name);
        }
      case Judging(_, _) =>
    }
  }

  lemma StepKeepsSteady(s: Scheme, x: State, step: Step, name: Name, wire: Bytes, spoiled: set<nat>)
    requires s.Valid() && Steady(s, x, name, wire, spoiled) && Enabled(s, x, step) && Harmless(step, name, spoiled)
    ensures Steady(s, Next(s, x, step), name, wire, spoiled)
  {
    StepKeepsInv(s, x, step);
    if step.WriterStep? {
      WriterKeepsSteady(s, x, name, wire, spoiled);
    } else if step.Damage? {
      hide Inv, Record;
      CellsOfOthers(s, x, Next(s, x, step), step.stripe, step.name, step.record, name);
    } else {
      hide Inv, Record;
    }
  }

  /** The reader takes no part in anybody else's steps, and its own reads find what is there. */
  lemma StepKeepsGathering(s: Scheme, x: State, step: Step, r: nat, name: Name, wire: Bytes, spoiled: set<nat>)
    requires s.Valid() && Steady(s, x, name, wire, spoiled) && Enabled(s, x, step) && Harmless(step, name, spoiled)
    requires Gathering(s, x, r, name, wire, spoiled) && step != EndRead(r)
    ensures Gathering(s, Next(s, x, step), r, name, wire, spoiled)
  {
    assert |x.stripes| == s.n;
    hide Inv, Record, Verdict;
    if step == ReadStripe(r) {
      assert Cell(x.stripes, |x.readers[r].row|, name) == Next(s, x, step).readers[r].row[|x.readers[r].row|];
    } else if step.WriterStep? {
      assert Next(s, x, step).readers == x.readers;
    } else {
      assert Next(s, x, step).readers[r] == x.readers[r];
    }
  }

  /** A gathered row with no more than `n - k` spoiled places reads as the wire. */
  lemma GatheredReads(s: Scheme, x: State, r: nat, name: Name, wire: Bytes, spoiled: set<nat>)
    requires s.Valid() && Inv(s, x) && |wire| < U32_LIMIT
    requires Gathering(s, x, r, name, wire, spoiled) && |x.readers[r].row| == s.n && |spoiled| + s.k <= s.n
    ensures Verdict(s, x.readers[r].row).Some? && Verdict(s, x.readers[r].row).value.wire == wire
  {
    var row := x.readers[r].row;
    assert ReaderInv(s, x, x.readers[r]);
    hide Inv, ReaderInv, Record, Verdict;
    forall i | i in Damaged(s, row, wire)
      ensures i in spoiled && ShardAt(s, row, i) == None
    {
      assert Clean(s, i, row[i], {wire});
    }
    assert Damaged(s, row, wire) <= spoiled;
    Orders.CardMono(Damaged(s, row, wire), spoiled);
    SurvivesDamage(s, row, wire);
  }

  /** The state a sequence of steps leads to, those that cannot be taken left out. */
  ghost function Reached(s: Scheme, x: State, steps: seq<Step>): State
    requires s.Valid() && Inv(s, x)
    decreases |steps|
  {
    if steps == [] then x
    else if Enabled(s, x, steps[0]) then
      StepKeepsInv(s, x, steps[0]);
      Reached(s, Next(s, x, steps[0]), steps[1..])
    else Reached(s, x, steps[1..])
  }

  lemma {:induction false} RunKeepsGathering(s: Scheme, x: State, steps: seq<Step>, r: nat, name: Name, wire: Bytes,
                                            spoiled: set<nat>)
    requires s.Valid() && Steady(s, x, name, wire, spoiled) && Gathering(s, x, r, name, wire, spoiled)
    requires forall i | 0 <= i < |steps| :: Harmless(steps[i], name, spoiled) && steps[i] != EndRead(r)
    ensures Steady(s, Reached(s, x, steps), name, wire, spoiled)
    ensures Gathering(s, Reached(s, x, steps), r, name, wire, spoiled)
    decreases |steps|
  {
    if steps != [] {
      assert Harmless(steps[0], name, spoiled) && steps[0] != EndRead(r);
      if Enabled(s, x, steps[0]) {
        StepKeepsSteady(s, x, steps[0], name, wire, spoiled);
        StepKeepsGathering(s, x, steps[0], r, name, wire, spoiled);
        hide Steady, Gathering, Enabled, Next, Harmless;
        RunKeepsGathering(s, Next(s, x, steps[0]), steps[1..], r, name, wire, spoiled);
      } else {
        hide Gathering, Enabled, Next, Harmless;
        RunKeepsGathering(s, x, steps[1..], r, name, wire, spoiled);
      }
    }
  }

  lemma BeginGathers(s: Scheme, x: State, r: nat, name: Name, wire: Bytes, spoiled: set<nat>)
    requires s.Valid() && Steady(s, x, name, wire, spoiled) && Enabled(s, x, BeginRead(r, name))
    ensures |x.stripes| == s.n && Gathering(s, Next(s, x, BeginRead(r, name)), r, name, wire, spoiled)
  {
    assert |x.stripes| == s.n;
    hide Inv, Record;
  }

  lemma SteadyEnd(s: Scheme, start: State, steps: seq<Step>, r: nat, name: Name, wire: Bytes, spoiled: set<nat>)
    requires s.Valid() && Steady(s, start, name, wire, spoiled) && |spoiled| + s.k <= s.n
    requires Gathering(s, start, r, name, wire, spoiled)
    requires forall i | 0 <= i < |steps| :: Harmless(steps[i], name, spoiled) && steps[i] != EndRead(r)
    ensures Inv(s, start)
    ensures var end := Reached(s, start, steps);
            && r in end.readers && Lookup(end.committed, name) == Some(wire)
            && (|end.readers[r].row| == s.n ==>
                  Verdict(s, end.readers[r].row).Some? && Verdict(s, end.readers[r].row).value.wire == wire)
            && (|end.readers[r].row| != s.n ==> Enabled(s, end, ReadStripe(r)))
  {
    RunKeepsGathering(s, start, steps, r, name, wire, spoiled);
    var end := Reached(s, start, steps);
    hide Inv, Reached, Verdict, Harmless;
    if |end.readers[r].row| == s.n {
      GatheredReads(s, end, r, name, wire, spoiled);
    }
  }

  /** A read begun on a committed packet that no insert or remove overlaps, with damage confined to at
      most `n - k` of its stripes from before it began to its end, answers with exactly the committed
      wire, in whatever order its stripe reads fall among repairs and everything done to other names. */
  lemma SteadyReadAnswers(s: Scheme, x: State, steps: seq<Step>, r: nat, name: Name, wire: Bytes, spoiled: set<nat>)
    requires s.Valid() && Steady(s, x, name, wire, spoiled) && |spoiled| + s.k <= s.n
    requires r !in x.readers
    requires forall step | step in steps ::
               && step != EndRead(r) && step != BeginRemove(name)
               && !(step.BeginInsert? && step.name == name)
               && (step.Damage? && step.name == name ==> step.stripe in spoiled)
    ensures Inv(s, Next(s, x, BeginRead(r, name)))
    ensures var end := Reached(s, Next(s, x, BeginRead(r, name)), steps);
            && r in end.readers && Lookup(end.committed, name) == Some(wire)
            && (|end.readers[r].row| == s.n ==>
                  Verdict(s, end.readers[r].row).Some? && Verdict(s, end.readers[r].row).value.wire == wire)
            && (|end.readers[r].row| != s.n ==> Enabled(s, end, ReadStripe(r)))
  {
    assert forall i | 0 <= i < |steps| :: steps[i] in steps && Harmless(steps[i], name, spoiled);
    StepKeepsSteady(s, x, BeginRead(r, name), name, wire, spoiled);
    BeginGathers(s, x, r, name, wire, spoiled);
    hide Steady, Gathering, Verdict, Reached, Inv, Harmless;
    SteadyEnd(s, Next(s, x, BeginRead(r, name)), steps, r, name, wire, spoiled);
  }

  lemma {:induction false} AloneKeepsInv(s: Scheme, x: State, m: nat)
    requires s.Valid() && |x.stripes| == s.n <= 255 && Inv(s, x)
    ensures Inv(s, Alone(s, x, m))
  {
    hide Inv, WriterAfter;
    if m > 0 {
      AloneKeepsInv(s, x, m - 1);
      OneStepKeepsInv(s, Alone(s, x, m - 1));
    }
  }

  lemma OneStepKeepsInv(s: Scheme, x: State)
    requires s.Valid() && Inv(s, x)
    ensures Inv(s, WriterAfter(s, x))
  {
    if !x.writer.Free? {
      StepKeepsInv(s, x, WriterStep);
    }
  }

  /** An insert that is under way and runs to its end makes the packet steady. */
  lemma InsertMakesSteady(s: Scheme, start: State, name: Name, wire: Bytes)
    requires s.Valid() && |start.stripes| == s.n <= 255 && Inv(s, start) && start.writer == Inserting(name, wire, 0)
    ensures Steady(s, Alone(s, start, s.n + 1), name, wire, {})
  {
    assert |wire| < U32_LIMIT by {
      assert WriterInv(s, start);
    }
    hide *;
    AloneKeepsInv(s, start, s.n + 1);
    InsertFinishes(s, start, name, wire);
    SteadyNow(s, Alone(s, start, s.n + 1), start, name, wire);
  }

  lemma SteadyNow(s: Scheme, end: State, start: State, name: Name, wire: Bytes)
    requires |start.stripes| == s.n <= 255 && Inv(s, end) && |end.stripes| == s.n && |wire| < U32_LIMIT
    requires end.stripes == Inserted(s, start.stripes, name, wire) && end.writer == Free
    requires end.committed == start.committed[name := wire]
    ensures Steady(s, end, name, wire, {})
  {
    InsertedCells(s, start.stripes, name, wire);
    hide Inv, Inserted, Record;
  }

  lemma InsertedCells(s: Scheme, st: Stripes, name: Name, wire: Bytes)
    requires |st| == s.n <= 255
    ensures |Inserted(s, st, name, wire)| == s.n
    ensures forall i: nat | i < s.n :: i < 256 && Cell(Inserted(s, st, name, wire), i, name) == Some(Record(s, wire, i))
  {
    hide Record;
    assert forall i: nat | i < s.n :: i in Indices(s.n);
  }
}
