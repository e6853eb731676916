/** Whole runs of the erasure store against the plain map it must behave like. */
module StoreRuns {
  import opened Octets
  import opened Orders
  import opened Names
  import opened Coding
  import opened Shards
  import opened Durability
  import opened Stripes
  import opened Scans
  import opened ScanExact
  import opened Held

  /** What may happen to a store: its operations, and a stripe's record of a packet being lost or
      replaced by octets the stripe did not write. */
  datatype Event =
    | Insert(name: Name, wire: Bytes)
    | Remove(name: Name)
    | Get(name: Name)
    | Scan(prefix: Name, limit: nat)
    | Damage(stripe: nat, name: Name, record: Option<Bytes>)

  /** A plain map, and the stripes damaged under each name since it was last written or read. */
  datatype Model = Model(contents: map<Name, Bytes>, damage: map<Name, set<nat>>)

  function DamageOf(m: Model, name: Name): set<nat> {
    if name in m.damage then m.damage[name] else {}
  }

  /** The stripes after an event, as the store's methods leave them. */
  ghost function After(s: Scheme, st: Stripes, e: Event): (r: Stripes)
    requires |st| <= 255
    ensures |r| == |st|
  {
    match e
    case Insert(name, wire) => if |wire| < U32_LIMIT then Inserted(s, st, name, wire) else st
    case Remove(name) => Removed(st, name)
    case Get(name) => Repaired(s, st, name)
    case Scan(prefix, limit) => RepairedEach(s, st, ScanRepairs(s, st, prefix, limit))
    case Damage(i, name, record) => if i < |st| then SetCell(st, i, name, record) else st
  }

  function ModelAfter(m: Model, e: Event): Model {
    match e
    case Insert(name, wire) =>
      if |wire| < U32_LIMIT then Model(m.contents[name := wire], m.damage[name := {}]) else m
    case Remove(name) => Model(m.contents - {name}, m.damage[name := {}])
    case Get(name) => m.(damage := m.damage[name := {}])
    case Scan(prefix, limit) => m
    case Damage(i, name, record) => m.(damage := m.damage[name := DamageOf(m, name) + {i}])
  }

  /** Damage leaves no good shard, and spares at least `k` stripes of every packet between its reads. */
  predicate Allowed(s: Scheme, m: Model, e: Event) {
    match e
    case Damage(i, name, record) =>
      && i < s.n
      && (record.Some? ==> ShardOf(s, i, record.value) == None)
      && (name in m.contents ==> |DamageOf(m, name) + {i}| + s.k <= s.n)
    case _ => true
  }

  /** What the runs cover: every operation at any time, any loss or spoiling under a name that is not
      stored, and under one that is as many stripes of it as leave `k`. */
  lemma RunsCover(s: Scheme, m: Model, e: Event)
    ensures !e.Damage? ==> Allowed(s, m, e)
    ensures e.Damage? && e.stripe < s.n && (e.record.Some? ==> ShardOf(s, e.stripe, e.record.value) == None) ==>
              (e.name !in m.contents || |DamageOf(m, e.name) + {e.stripe}| <= s.n - s.k ==> Allowed(s, m, e))
  {
  }

  /** How a name's row may look when the map binds it to `wire` and the stripes of `damage` were hit. */
  ghost predicate RowOk(s: Scheme, row: Row, wire: Option<Bytes>, damage: set<nat>) {
    match wire
    case None => forall i | 0 <= i < |row| :: ShardAt(s, row, i) == None
    case Some(w) =>
      && |w| < U32_LIMIT
      && |damage| + s.k <= s.n
      && forall i | 0 <= i < |row| :: Holds(s, row, i, w) || (i in damage && ShardAt(s, row, i) == None)
  }

  ghost predicate Faithful(s: Scheme, st: Stripes, m: Model) {
    && |st| == s.n
    && forall name: Name :: RowOk(s, RowOf(st, name), Lookup(m.contents, name), DamageOf(m, name))
  }

  /** A row within its budget reads as the map says. */
  lemma RowReads(s: Scheme, row: Row, wire: Option<Bytes>, damage: set<nat>)
    requires s.Valid() && |row| == s.n && RowOk(s, row, wire, damage)
    ensures match wire
            case None => Verdict(s, row) == None
            case Some(w) =>
              && Verdict(s, row).Some? && Verdict(s, row).value.wire == w
              && forall i :: i in Verdict(s, row).value.stale <==> 0 <= i < s.n && !Holds(s, row, i, w)
    ensures Honest(s, row, if wire.Some? then {wire.value} else {})
  {
    match wire {
      case None =>
        NothingGood(s, row);
      case Some(w) =>
        CardMono(Damaged(s, row, w), damage);
        SurvivesDamage(s, row, w);
        forall i | 0 <= i < |row|
          ensures HonestAt(s, row, i, {w})
        {
          assert w in {w};
        }
    }
  }

  /** Within budget the stripes stand for exactly the map, and no digest assumption is needed. */
  lemma FaithfulReads(s: Scheme, st: Stripes, m: Model)
    requires s.Valid() && Faithful(s, st, m)
    ensures Readable(s, st) == m.contents
    ensures HonestStore(s, st, WrittenBy(m)) && NoCollisions(s, WrittenBy(m))
  {
    hide RowOf, RowOk, Verdict, Readable, Honest;
    forall name: Name
      ensures Lookup(Readable(s, st), name) == Lookup(m.contents, name)
      ensures Honest(s, RowOf(st, name), WrittenBy(m)(name))
    {
      RowReads(s, RowOf(st, name), Lookup(m.contents, name), DamageOf(m, name));
      ReadableIsVerdict(s, st, name);
    }
    SameLookups(Readable(s, st), m.contents);
  }

  function WrittenBy(m: Model): Written {
    (name: Name) => if name in m.contents then {m.contents[name]} else {}
  }

  // ---- one event ---------------------------------------------------------------------------

  lemma OtherNames(s: Scheme, st: Stripes, st': Stripes, m: Model, m': Model, name: Name)
    requires Faithful(s, st, m) && |st'| == s.n
    requires forall other: Name | other != name ::
               && RowOf(st', other) == RowOf(st, other)
               && Lookup(m'.contents, other) == Lookup(m.contents, other)
               && DamageOf(m', other) == DamageOf(m, other)
    requires RowOk(s, RowOf(st', name), Lookup(m'.contents, name), DamageOf(m', name))
    ensures Faithful(s, st', m')
  {
    hide RowOf, RowOk;
    forall other: Name
      ensures RowOk(s, RowOf(st', other), Lookup(m'.contents, other), DamageOf(m', other))
    {
      if other != name {
        assert RowOk(s, RowOf(st, other), Lookup(m.contents, other), DamageOf(m, other));
      }
    }
  }

  lemma InsertFaithful(s: Scheme, st: Stripes, m: Model, name: Name, wire: Bytes)
    requires s.Valid() && Faithful(s, st, m) && |wire| < U32_LIMIT
    ensures Faithful(s, Inserted(s, st, name, wire), ModelAfter(m, Insert(name, wire)))
  {
    hide Faithful, RowOk, Record, Inserted, RowOf;
    FaithfulCount(s, st, m);
    var st', m' := Inserted(s, st, name, wire), ModelAfter(m, Insert(name, wire));
    assert st' == Rewritten(s, st, name, wire, Indices(|st|)) by { InsertedIs(s, st, name, wire); }
    forall other: Name | other != name
      ensures RowOf(st', other) == RowOf(st, other)
    {
      RewrittenRow(s, st, name, wire, Indices(|st|), other);
    }
    RewrittenRow(s, st, name, wire, Indices(|st|), name);
    InsertedRow(s, RowOf(st', name), wire);
    OtherNames(s, st, st', m, m', name);
  }

  lemma InsertedIs(s: Scheme, st: Stripes, name: Name, wire: Bytes)
    requires |st| <= 255
    ensures Inserted(s, st, name, wire) == Rewritten(s, st, name, wire, Indices(|st|))
  {
  }

  lemma InsertedRow(s: Scheme, row: Row, wire: Bytes)
    requires s.Valid() && |row| == s.n && |wire| < U32_LIMIT
    requires forall i | 0 <= i < s.n :: row[i] == Some(Record(s, wire, i))
    ensures RowOk(s, row, Some(wire), {})
  {
  }

  lemma RemoveFaithful(s: Scheme, st: Stripes, m: Model, name: Name)
    requires s.Valid() && Faithful(s, st, m)
    ensures Faithful(s, Removed(st, name), ModelAfter(m, Remove(name)))
  {
    var st', m' := Removed(st, name), ModelAfter(m, Remove(name));
    forall other: Name | other != name
      ensures RowOf(st', other) == RowOf(st, other)
    {
      RemovedRow(st, name, other);
    }
    RemovedRow(st, name, name);
    OtherNames(s, st, st', m, m', name);
  }

  /** After a read every stripe holds exactly the encoding of what was read. */
  lemma RepairFaithful(s: Scheme, st: Stripes, m: Model, name: Name)
    requires s.Valid() && Faithful(s, st, m)
    ensures Faithful(s, Repaired(s, st, name), ModelAfter(m, Get(name)))
    ensures name in m.contents ==>
              forall i: nat | i < s.n :: Holds(s, RowOf(Repaired(s, st, name), name), i, m.contents[name])
  {
    var row, m' := RowOf(st, name), ModelAfter(m, Get(name));
    assert RowOk(s, row, Lookup(m.contents, name), DamageOf(m, name));
    RowReads(s, row, Lookup(m.contents, name), DamageOf(m, name));
    hide Verdict, Record;
    if name in m.contents {
      RepairedRow(s, st, name);
    }
    OtherNames(s, st, Repaired(s, st, name), m, m', name);
  }

  lemma DamageFaithful(s: Scheme, st: Stripes, m: Model, i: nat, name: Name, record: Option<Bytes>)
    requires s.Valid() && Faithful(s, st, m) && Allowed(s, m, Damage(i, name, record))
    ensures Faithful(s, SetCell(st, i, name, record), ModelAfter(m, Damage(i, name, record)))
  {
    var st', m' := SetCell(st, i, name, record), ModelAfter(m, Damage(i, name, record));
    forall other: Name | other != name
      ensures RowOf(st', other) == RowOf(st, other)
    {
    }
    assert RowOk(s, RowOf(st, name), Lookup(m.contents, name), DamageOf(m, name));
    forall j | 0 <= j < |st|
      ensures RowOf(st', name)[j] == if j == i then record else RowOf(st, name)[j]
    {
    }
    DamagedRow(s, RowOf(st, name), RowOf(st', name), Lookup(m.contents, name), DamageOf(m, name), i);
    OtherNames(s, st, st', m, m', name);
  }

  lemma DamagedRow(s: Scheme, row: Row, row': Row, wire: Option<Bytes>, damage: set<nat>, i: nat)
    requires RowOk(s, row, wire, damage) && i < |row| == |row'|
    requires forall j | 0 <= j < |row| && j != i :: row'[j] == row[j]
    requires ShardAt(s, row', i) == None && (wire.Some? ==> |damage + {i}| + s.k <= s.n)
    ensures RowOk(s, row', wire, damage + {i})
  {
    forall j | 0 <= j < |row| && j != i
      ensures ShardAt(s, row', j) == ShardAt(s, row, j)
      ensures wire.Some? && Holds(s, row, j, wire.value) ==> Holds(s, row', j, wire.value)
    {
    }
  }

  lemma {:induction false} RepairsFaithful(s: Scheme, st: Stripes, m: Model, names: seq<Name>)
    requires s.Valid() && Faithful(s, st, m)
    ensures Faithful(s, RepairedEach(s, st, names), m)
  {
    if names != [] {
      var before := RepairedEach(s, st, names[..|names| - 1]);
      RepairsFaithful(s, st, m, names[..|names| - 1]);
      RepairFaithful(s, before, m, names[|names| - 1]);
      Forgiven(s, Repaired(s, before, names[|names| - 1]), m, names[|names| - 1]);
    }
  }

  /** A budget not yet spent is also within the one that counts older damage. */
  lemma Forgiven(s: Scheme, st: Stripes, m: Model, name: Name)
    requires Faithful(s, st, ModelAfter(m, Get(name)))
    requires name in m.contents ==> |DamageOf(m, name)| + s.k <= s.n
    ensures Faithful(s, st, m)
  {
    var m' := ModelAfter(m, Get(name));
    forall other: Name
      ensures RowOk(s, RowOf(st, other), Lookup(m.contents, other), DamageOf(m, other))
    {
      assert RowOk(s, RowOf(st, other), Lookup(m'.contents, other), DamageOf(m', other));
    }
  }

  lemma StepFaithful(s: Scheme, st: Stripes, m: Model, e: Event)
    requires s.Valid() && Faithful(s, st, m) && Allowed(s, m, e)
    ensures Faithful(s, After(s, st, e), ModelAfter(m, e))
  {
    hide Faithful;
    FaithfulCount(s, st, m);
    match e {
      case Insert(name, wire) =>
        if |wire| < U32_LIMIT {
          InsertFaithful(s, st, m, name, wire);
        }
      case Remove(name) =>
        RemoveFaithful(s, st, m, name);
      case Get(name) =>
        RepairFaithful(s, st, m, name);
      case Scan(prefix, limit) =>
        RepairsFaithful(s, st, m, ScanRepairs(s, st, prefix, limit));
      case Damage(i, name, record) =>
        DamageFaithful(s, st, m, i, name, record);
    }
  }

  lemma FaithfulCount(s: Scheme, st: Stripes, m: Model)
    requires Faithful(s, st, m)
    ensures |st| == s.n
  {
  }

  // ---- whole runs --------------------------------------------------------------------------

  /** An event is answered as the plain map answers it: a read with the last wire stored, after which
      all `n` stripes hold its encoding; a scan with an initial segment of the map's packets under the
      prefix, and with exactly the map's own scan unless it was starved. */
  ghost predicate AnsweredAsMap(s: Scheme, st: Stripes, contents: map<Name, Bytes>, e: Event)
    requires |st| <= 255
  {
    match e
    case Get(name) =>
      && Lookup(Readable(s, st), name) == Lookup(contents, name)
      && (name in contents ==>
            forall i: nat | i < |st| :: Holds(s, RowOf(After(s, st, e), name), i, contents[name]))
    case Scan(prefix, limit) =>
      && ScanUnder(s, st, prefix, limit) <= MapScan(contents, prefix, 0)
      && (ScanUnder(s, st, prefix, limit) == MapScan(contents, prefix, limit)
          <==> !Starved(s, st, prefix, limit))
    case _ => true
  }

  ghost predicate RunAsMap(s: Scheme, st: Stripes, m: Model, events: seq<Event>)
    requires |st| <= 255
    decreases |events|
  {
    events == [] ||
    (Allowed(s, m, events[0]) ==>
       && AnsweredAsMap(s, st, m.contents, events[0])
       && RunAsMap(s, After(s, st, events[0]), ModelAfter(m, events[0]), events[1..]))
  }

  lemma StepAnswered(s: Scheme, st: Stripes, m: Model, e: Event)
    requires s.Valid() && Faithful(s, st, m)
    ensures AnsweredAsMap(s, st, m.contents, e)
  {
    FaithfulReads(s, st, m);
    match e {
      case Get(name) =>
        RepairFaithful(s, st, m, name);
      case Scan(prefix, limit) =>
        ScanUnderIsMapScan(s, st, WrittenBy(m), prefix, limit);
      case _ =>
    }
  }

  /** Every run in which each packet keeps `k` undamaged stripes between its reads, from any state
      within its budget, is answered as the plain map answers it. */
  lemma {:induction false} RunsRefineMap(s: Scheme, st: Stripes, m: Model, events: seq<Event>)
    requires s.Valid() && Faithful(s, st, m)
    ensures RunAsMap(s, st, m, events)
    decreases |events|
  {
    hide Faithful, AnsweredAsMap, Allowed, After, ModelAfter;
    FaithfulCount(s, st, m);
    if events != [] && Allowed(s, m, events[0]) {
      StepAnswered(s, st, m, events[0]);
      StepFaithful(s, st, m, events[0]);
      RunsRefineMap(s, After(s, st, events[0]), ModelAfter(m, events[0]), events[1..]);
    }
  }

  /** A freshly opened store is within its budget: it stands for the empty map. */
  lemma FreshIsFaithful(s: Scheme)
    ensures Faithful(s, seq(s.n, i => map[]), Model(map[], map[]))
  {
  }

  // ---- an insert that stopped part-way -----------------------------------------------------

  /** The read that follows settles it: all stripes agree on the wire it answered. */
  lemma InterruptedThenRead(s: Scheme, st: Stripes, name: Name, was: Bytes, now: Bytes, done: set<nat>)
    requires s.Valid() && |st| == s.n && was != now && |was| < U32_LIMIT && |now| < U32_LIMIT
    requires CollisionFree(s, {was, now}) && done <= Indices(s.n)
    requires RowOf(st, name) == Interrupted(s, was, now, done)
    ensures match Lookup(Readable(s, st), name)
            case None => Repaired(s, st, name) == st
            case Some(w) =>
              && (w == was || w == now)
              && forall i: nat | i < s.n :: Holds(s, RowOf(Repaired(s, st, name), name), i, w)
  {
    hide Readable, Verdict, Honest, Holders, Record, CollisionFree, RowOf;
    assert |RowOf(st, name)| == s.n;
    ReadableIsVerdict(s, st, name);
    InterruptedHolders(s, was, now, done);
    HonestVerdict(s, RowOf(st, name), {was, now});
    if Verdict(s, RowOf(st, name)).Some? {
      RepairedRow(s, st, name);
    }
  }

  // ---- presence ----------------------------------------------------------------------------

  /** A packet that reads is reported present. */
  lemma ReadImpliesContains(s: Scheme, st: Stripes, name: Name)
    requires s.Valid() && |st| == s.n && name in Readable(s, st)
    ensures |Present(st, name, s.n)| >= s.k
  {
    var row := RowOf(st, name);
    hide Verdict;
    VerdictIsChecked(s, row);
    hide Voters, Wins;
    var voters := Voters(s, row, TagOf(s, Verdict(s, row).value.wire), s.n);
    assert voters <= Present(st, name, s.n) by {
      forall i | i in voters
        ensures i in Present(st, name, s.n)
      {
        assert row[i].Some?;
      }
    }
    CardMono(voters, Present(st, name, s.n));
  }

  /** The converse, when every record present under the name is a good one of the same wire. */
  lemma ContainsImpliesRead(s: Scheme, st: Stripes, name: Name, wire: Bytes)
    requires s.Valid() && |st| == s.n && |wire| < U32_LIMIT
    requires forall i | i in Present(st, name, s.n) :: Holds(s, RowOf(st, name), i, wire)
    ensures |Present(st, name, s.n)| >= s.k <==> Lookup(Readable(s, st), name) == Some(wire)
    ensures |Present(st, name, s.n)| < s.k <==> Lookup(Readable(s, st), name) == None
  {
    var row := RowOf(st, name);
    forall i | 0 <= i < s.n
      ensures Holds(s, row, i, wire) <==> i in Present(st, name, s.n)
      ensures HonestAt(s, row, i, {wire})
    {
      assert wire in {wire};
      assert i in Present(st, name, s.n) || row[i] == None;
    }
    assert Holders(s, row, wire) == Present(st, name, s.n);
    HonestVerdict(s, row, {wire});
    ReadableIsVerdict(s, st, name);
    assert wire in {wire};
  }
}
