/** The erasure store under concurrent callers: writers hold one lock, readers hold none, and every
    stripe access is a step of its own. */
module Interleaving {
  import opened Octets
  import opened Names
  import opened Shards
  import opened Stripes

  /** Who holds the write lock and how far it is. */
  datatype Writer =
    | Free
    | Inserting(name: Name, wire: Bytes, next: nat)
    | Removing(name: Name, next: nat)
    | Judging(name: Name, row: Row)
    | Rewriting(name: Name, wire: Bytes, todo: seq<nat>)

  /** A read under way: the records it has, and the wires it may answer with, which are the one
      committed when it began and those whose insert held the lock since. */
  datatype Reader = Reader(name: Name, row: Row, window: set<Bytes>)

  datatype State = State(
    stripes: Stripes,
    writer: Writer,
    committed: map<Name, Bytes>,
    readers: map<nat, Reader>)

  datatype Step =
    | BeginInsert(name: Name, wire: Bytes)
    | BeginRemove(name: Name)
    | BeginRepair(name: Name)
    | WriterStep
    | BeginRead(reader: nat, name: Name)
    | ReadStripe(reader: nat)
    | EndRead(reader: nat)
    | Damage(stripe: nat, name: Name, record: Option<Bytes>)

  function Cell(st: Stripes, i: nat, name: Name): Option<Bytes>
    requires i < |st|
  {
    Lookup(st[i], name)
  }

  /** An insert of `wire` under `name` joins the window of every read of that name. */
  function Widened(readers: map<nat, Reader>, name: Name, wire: Bytes): map<nat, Reader> {
    map r | r in readers ::
      if readers[r].name == name then readers[r].(window := readers[r].window + {wire}) else readers[r]
  }

  /** The wires a read of `name` that begins now may answer with. */
  function Window(x: State, name: Name): set<Bytes> {
    (if name in x.committed then {x.committed[name]} else {})
    + (if x.writer.Inserting? && x.writer.name == name then {x.writer.wire} else {})
  }

  /** The lock holder's next step: its next stripe, or the end of its work. */
  ghost function WriterAfter(s: Scheme, x: State): State
    requires |x.stripes| == s.n <= 255
  {
    match x.writer
    case Free => x
    case Inserting(name, wire, next) =>
      if next < s.n
      then x.(stripes := SetCell(x.stripes, next, name, Some(Record(s, wire, next))),
              writer := Inserting(name, wire, next + 1))
      else x.(writer := Free, committed := x.committed[name := wire])
    case Removing(name, next) =>
      if next < s.n
      then x.(stripes := SetCell(x.stripes, next, name, None), writer := Removing(name, next + 1))
      else x.(writer := Free, committed := x.committed - {name})
    case Judging(name, row) =>
      if |row| < s.n then x.(writer := Judging(name, row + [Cell(x.stripes, |row|, name)]))
      else
        (match Verdict(s, row)
         case None => x.(writer := Free)
         case Some(a) => x.(writer := Rewriting(name, a.wire, a.stale)))
    case Rewriting(name, wire, todo) =>
      if todo == [] then x.(writer := Free)
      else if todo[0] < s.n
      then x.(stripes := SetCell(x.stripes, todo[0], name, Some(Record(s, wire, todo[0]))),
              writer := Rewriting(name, wire, todo[1..]))
      else x
  }

  /** When a step can be taken. Damage never leaves a good shard. */
  predicate Enabled(s: Scheme, x: State, step: Step) {
    match step
    case BeginInsert(name, wire) => x.writer.Free? && |wire| < U32_LIMIT
    case BeginRemove(name) => x.writer.Free?
    case BeginRepair(name) => x.writer.Free?
    case WriterStep => !x.writer.Free?
    case BeginRead(r, name) => r !in x.readers
    case ReadStripe(r) => r in x.readers && |x.readers[r].row| < s.n
    case EndRead(r) => r in x.readers && |x.readers[r].row| == s.n
    case Damage(i, name, record) => i < s.n && (record.Some? ==> ShardOf(s, i, record.value) == None)
  }

  ghost function Next(s: Scheme, x: State, step: Step): State
    requires |x.stripes| == s.n <= 255 && Enabled(s, x, step)
  {
    match step
    case BeginInsert(name, wire) =>
      x.(writer := Inserting(name, wire, 0), readers := Widened(x.readers, name, wire))
    case BeginRemove(name) => x.(writer := Removing(name, 0))
    case BeginRepair(name) => x.(writer := Judging(name, []))
    case WriterStep => WriterAfter(s, x)
    case BeginRead(r, name) => x.(readers := x.readers[r := Reader(name, [], Window(x, name))])
    case ReadStripe(r) =>
      var reader := x.readers[r];
      x.(readers := x.readers[r := reader.(row := reader.row + [Cell(x.stripes, |reader.row|, reader.name)])])
    case EndRead(r) => x.(readers := x.readers - {r})
    case Damage(i, name, record) => x.(stripes := SetCell(x.stripes, i, name, record))
  }

  // ---- the invariant -----------------------------------------------------------------------

  /** `record` fails its own check at stripe `i`, or is that stripe's record of one of `wires`. */
  ghost predicate Clean(s: Scheme, i: nat, record: Option<Bytes>, wires: set<Bytes>) {
    record.Some? && ShardOf(s, i, record.value).Some? ==>
      exists w | w in wires :: i < 256 && |w| < U32_LIMIT && record.value == Record(s, w, i)
  }

  function One(w: Option<Bytes>): set<Bytes> {
    if w.Some? then {w.value} else {}
  }

  /** The wire whose shard stripe `i` may hold under `name`: the committed one, except in stripes the
      lock holder has already rewritten. */
  function Current(x: State, i: nat, name: Name): Option<Bytes> {
    match x.writer
    case Inserting(m, wire, next) => if m == name && i < next then Some(wire) else Lookup(x.committed, name)
    case Removing(m, next) => if m == name && i < next then None else Lookup(x.committed, name)
    case _ => Lookup(x.committed, name)
  }

  ghost predicate CellsInv(s: Scheme, x: State)
    requires |x.stripes| == s.n
  {
    forall i: nat, name: Name | i < s.n :: Clean(s, i, Cell(x.stripes, i, name), One(Current(x, i, name)))
  }

  ghost predicate RowClean(s: Scheme, row: Row, wires: set<Bytes>) {
    |row| <= s.n && forall i | 0 <= i < |row| :: Clean(s, i, row[i], wires)
  }

  ghost predicate WriterInv(s: Scheme, x: State) {
    match x.writer
    case Free => true
    case Inserting(name, wire, next) => next <= s.n && |wire| < U32_LIMIT
    case Removing(name, next) => next <= s.n
    case Judging(name, row) => RowClean(s, row, One(Lookup(x.committed, name)))
    case Rewriting(name, wire, todo) =>
      && Lookup(x.committed, name) == Some(wire) && |wire| < U32_LIMIT
      && forall j | 0 <= j < |todo| :: todo[j] < s.n
  }

  ghost predicate ReaderInv(s: Scheme, x: State, reader: Reader) {
    && RowClean(s, reader.row, reader.window)
    && Window(x, reader.name) <= reader.window
  }

  ghost predicate Inv(s: Scheme, x: State) {
    && |x.stripes| == s.n
    && CellsInv(s, x)
    && WriterInv(s, x)
    && forall r | r in x.readers :: ReaderInv(s, x, x.readers[r])
  }

  lemma CleanMore(s: Scheme, i: nat, record: Option<Bytes>, wires: set<Bytes>, more: set<Bytes>)
    requires Clean(s, i, record, wires) && wires <= more
    ensures Clean(s, i, record, more)
  {
  }

  /** A row of clean records judged: every answer is one of the wires. */
  lemma CleanVerdict(s: Scheme, row: Row, wires: set<Bytes>)
    requires s.Valid() && |row| == s.n && RowClean(s, row, wires) && CollisionFree(s, wires)
    ensures Verdict(s, row).Some? ==>
              && Verdict(s, row).value.wire in wires && |Verdict(s, row).value.wire| < U32_LIMIT
              && forall j | 0 <= j < |Verdict(s, row).value.stale| :: Verdict(s, row).value.stale[j] < s.n
  {
    forall i | 0 <= i < |row|
      ensures HonestAt(s, row, i, wires)
    {
      assert Clean(s, i, row[i], wires);
      if ShardAt(s, row, i).Some? {
        var w :| w in wires && i < 256 && |w| < U32_LIMIT && row[i].value == Record(s, w, i);
        assert Holds(s, row, i, w);
      }
    }
    HonestVerdict(s, row, wires);
    if Verdict(s, row).Some? {
      var stale := Verdict(s, row).value.stale;
      forall j | 0 <= j < |stale|
        ensures stale[j] < s.n
      {
        assert stale[j] in stale;
      }
    }
  }

  // ---- cells -------------------------------------------------------------------------------

  lemma SetCellElsewhere(st: Stripes, i: nat, name: Name, record: Option<Bytes>, j: nat, other: Name)
    requires i < |st| && j < |st|
    ensures Cell(SetCell(st, i, name, record), j, other)
         == if j == i && other == name then record else Cell(st, j, other)
  {
  }

  /** Rewriting one cell with something clean keeps all cells clean, when nothing else's wire changes. */
  lemma CellsAfterSet(s: Scheme, x: State, x': State, i: nat, name: Name, record: Option<Bytes>)
    requires |x.stripes| == s.n && CellsInv(s, x) && i < s.n
    requires x'.stripes == SetCell(x.stripes, i, name, record)
    requires Clean(s, i, record, One(Current(x', i, name)))
    requires forall j: nat, other: Name | j < s.n && !(j == i && other == name) ::
               Current(x', j, other) == Current(x, j, other)
    ensures CellsInv(s, x')
  {
    forall j: nat, other: Name | j < s.n
      ensures Clean(s, j, Cell(x'.stripes, j, other), One(Current(x', j, other)))
    {
      SetCellElsewhere(x.stripes, i, name, record, j, other);
      assert Clean(s, j, Cell(x.stripes, j, other), One(Current(x, j, other)));
    }
  }

  lemma CellsKept(s: Scheme, x: State, x': State)
    requires |x.stripes| == s.n && CellsInv(s, x) && x'.stripes == x.stripes
    requires forall j: nat, other: Name | j < s.n :: Current(x', j, other) == Current(x, j, other)
    ensures CellsInv(s, x')
  {
    forall j: nat, other: Name | j < s.n
      ensures Clean(s, j, Cell(x'.stripes, j, other), One(Current(x', j, other)))
    {
      assert Clean(s, j, Cell(x.stripes, j, other), One(Current(x, j, other)));
    }
  }

  lemma RecordIsClean(s: Scheme, i: nat, wire: Bytes)
    requires i < 256 && |wire| < U32_LIMIT
    ensures Clean(s, i, Some(Record(s, wire, i)), {wire})
  {
    assert wire in {wire};
  }

  lemma ReadersKept(s: Scheme, x: State, x': State)
    requires forall r | r in x.readers :: ReaderInv(s, x, x.readers[r])
    requires x'.readers == x.readers && forall name: Name :: Window(x', name) <= Window(x, name)
    ensures forall r | r in x'.readers :: ReaderInv(s, x', x'.readers[r])
  {
    forall r | r in x'.readers
      ensures ReaderInv(s, x', x'.readers[r])
    {
      assert ReaderInv(s, x, x.readers[r]);
    }
  }

  // ---- every step keeps it -----------------------------------------------------------------

  lemma InsertStep(s: Scheme, x: State)
    requires s.Valid() && Inv(s, x) && x.writer.Inserting?
    ensures Inv(s, WriterAfter(s, x))
  {
    var name, wire, next := x.writer.name, x.writer.wire, x.writer.next;
    var x' := WriterAfter(s, x);
    if next < s.n {
      RecordIsClean(s, next, wire);
      CellsAfterSet(s, x, x', next, name, Some(Record(s, wire, next)));
    } else {
      CellsKept(s, x, x');
    }
    ReadersKept(s, x, x');
  }

  lemma RemoveStep(s: Scheme, x: State)
    requires s.Valid() && Inv(s, x) && x.writer.Removing?
    ensures Inv(s, WriterAfter(s, x))
  {
    var x' := WriterAfter(s, x);
    if x.writer.next < s.n {
      CellsAfterSet(s, x, x', x.writer.next, x.writer.name, None);
    } else {
      CellsKept(s, x, x');
    }
    ReadersKept(s, x, x');
  }

  /** A repair judges only shards of the committed wire, so that is the wire it will write. */
  lemma JudgeStep(s: Scheme, x: State)
    requires s.Valid() && Inv(s, x) && x.writer.Judging?
    ensures Inv(s, WriterAfter(s, x))
  {
    var name, row := x.writer.name, x.writer.row;
    var x' := WriterAfter(s, x);
    if |row| < s.n {
      assert Clean(s, |row|, Cell(x.stripes, |row|, name), One(Current(x, |row|, name)));
    } else {
      CleanVerdict(s, row, One(Lookup(x.committed, name)));
    }
    CellsKept(s, x, x');
    ReadersKept(s, x, x');
  }

  lemma RewriteStep(s: Scheme, x: State)
    requires s.Valid() && Inv(s, x) && x.writer.Rewriting?
    ensures Inv(s, WriterAfter(s, x))
  {
    var name, wire, todo := x.writer.name, x.writer.wire, x.writer.todo;
    var x' := WriterAfter(s, x);
    if todo == [] {
      CellsKept(s, x, x');
    } else {
      RecordIsClean(s, todo[0], wire);
      CellsAfterSet(s, x, x', todo[0], name, Some(Record(s, wire, todo[0])));
    }
    ReadersKept(s, x, x');
  }

  lemma BeginStep(s: Scheme, x: State, step: Step)
    requires s.Valid() && Inv(s, x) && Enabled(s, x, step)
    requires step.BeginInsert? || step.BeginRemove? || step.BeginRepair?
    ensures Inv(s, Next(s, x, step))
  {
    var x' := Next(s, x, step);
    CellsKept(s, x, x');
    if step.BeginInsert? {
      forall r | r in x'.readers
        ensures ReaderInv(s, x', x'.readers[r])
      {
        var reader, reader' := x.readers[r], x'.readers[r];
        assert ReaderInv(s, x, reader);
        forall i | 0 <= i < |reader.row|
          ensures Clean(s, i, reader.row[i], reader'.window)
        {
          CleanMore(s, i, reader.row[i], reader.window, reader'.window);
        }
      }
    } else {
      ReadersKept(s, x, x');
    }
  }

  lemma ReaderStep(s: Scheme, x: State, step: Step)
    requires s.Valid() && Inv(s, x) && Enabled(s, x, step)
    requires step.BeginRead? || step.ReadStripe? || step.EndRead?
    ensures Inv(s, Next(s, x, step))
  {
    hide Clean;
    var x' := Next(s, x, step);
    CellsKept(s, x, x');
    forall r | r in x'.readers
      ensures ReaderInv(s, x', x'.readers[r])
    {
      if step.ReadStripe? && step.reader == r {
        var reader := x.readers[r];
        assert ReaderInv(s, x, reader);
        var i := |reader.row|;
        assert Clean(s, i, Cell(x.stripes, i, reader.name), One(Current(x, i, reader.name)));
        CleanMore(s, i, Cell(x.stripes, i, reader.name), One(Current(x, i, reader.name)), reader.window);
      } else if r in x.readers {
        assert ReaderInv(s, x, x.readers[r]);
      }
    }
  }

  lemma DamageStep(s: Scheme, x: State, step: Step)
    requires s.Valid() && Inv(s, x) && Enabled(s, x, step) && step.Damage?
    ensures Inv(s, Next(s, x, step))
  {
    var x' := Next(s, x, step);
    CellsAfterSet(s, x, x', step.stripe, step.name, step.record);
    ReadersKept(s, x, x');
  }

  lemma StepKeepsInv(s: Scheme, x: State, step: Step)
    requires s.Valid() && Inv(s, x) && Enabled(s, x, step)
    ensures Inv(s, Next(s, x, step))
  {
    match step {
      case WriterStep =>
        match x.writer {
          case Inserting(_, _, _) => InsertStep(s, x);
          case Removing(_, _) => RemoveStep(s, x);
          case Judging(_, _) => JudgeStep(s, x);
          case Rewriting(_, _, _) => RewriteStep(s, x);
        }
      case Damage(_, _, _) => DamageStep(s, x, step);
      case BeginRead(_, _) => ReaderStep(s, x, step);
      case ReadStripe(_) => ReaderStep(s, x, step);
      case EndRead(_) => ReaderStep(s, x, step);
      case _ => BeginStep(s, x, step);
    }
  }

  // ---- every interleaving ------------------------------------------------------------------

  function Fresh(s: Scheme): State {
    State(seq(s.n, i => map[]), Free, map[], map[])
  }

  /** What holds in a state, and of the answer of a read that ends in it. */
  ghost predicate Safe(s: Scheme, x: State)
    requires s.Valid() && |x.stripes| == s.n
  {
    && (x.writer.Free? ==>
          forall i: nat, name: Name | i < s.n :: Clean(s, i, Cell(x.stripes, i, name), One(Lookup(x.committed, name))))
    && (x.writer.Rewriting? ==> Lookup(x.committed, x.writer.name) == Some(x.writer.wire))
    && forall r | r in x.readers && |x.readers[r].row| == s.n && CollisionFree(s, x.readers[r].window) ::
         Verdict(s, x.readers[r].row).Some? ==> Verdict(s, x.readers[r].row).value.wire in x.readers[r].window
  }

  lemma InvIsSafe(s: Scheme, x: State)
    requires s.Valid() && Inv(s, x)
    ensures Safe(s, x)
  {
    if x.writer.Free? {
      forall i: nat, name: Name | i < s.n
        ensures Clean(s, i, Cell(x.stripes, i, name), One(Lookup(x.committed, name)))
      {
        assert Clean(s, i, Cell(x.stripes, i, name), One(Current(x, i, name)));
      }
    }
    forall r | r in x.readers && |x.readers[r].row| == s.n && CollisionFree(s, x.readers[r].window)
      ensures Verdict(s, x.readers[r].row).Some? ==>
                Verdict(s, x.readers[r].row).value.wire in x.readers[r].window
    {
      assert ReaderInv(s, x, x.readers[r]);
      CleanVerdict(s, x.readers[r].row, x.readers[r].window);
    }
  }

  /** Every state on the way of a run is safe. */
  ghost predicate RunSafe(s: Scheme, x: State, steps: seq<Step>)
    requires s.Valid() && |x.stripes| == s.n
    decreases |steps|
  {
    && Safe(s, x)
    && (steps != [] && Enabled(s, x, steps[0]) ==>
          |Next(s, x, steps[0]).stripes| == s.n && RunSafe(s, Next(s, x, steps[0]), steps[1..]))
  }

  lemma {:induction false} RunsAreSafeFrom(s: Scheme, x: State, steps: seq<Step>)
    requires s.Valid() && Inv(s, x)
    ensures RunSafe(s, x, steps)
    decreases |steps|
  {
    hide Safe, Enabled, Next;
    InvIsSafe(s, x);
    if steps != [] && Enabled(s, x, steps[0]) {
      StepKeepsInv(s, x, steps[0]);
      RunsAreSafeFrom(s, Next(s, x, steps[0]), steps[1..]);
    }
  }

  /** Whatever order inserts, removes, repairs, stripe reads and damage interleave in: with the lock
      free every good shard belongs to the last committed wire, a repair only ever writes the
      committed wire, and a read answers with a wire committed when it began or whose insert it
      overlapped. */
  lemma RunsAreSafe(s: Scheme, steps: seq<Step>)
    requires s.Valid()
    ensures RunSafe(s, Fresh(s), steps)
  {
    assert Inv(s, Fresh(s));
    RunsAreSafeFrom(s, Fresh(s), steps);
  }
}
