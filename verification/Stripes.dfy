/** The `n` stripe stores as values: what each operation of the erasure store leaves in them, and the
    plain `Name -> wire` map they stand for. */
module Stripes {
  import opened Octets
  import opened Orders
  import opened Names
  import opened Coding
  import opened Shards
  import opened Durability

  type Stripe = map<Name, Bytes>
  type Stripes = seq<Stripe>

  /** What the stripes hold under `name`, stripe order. */
  function RowOf(st: Stripes, name: Name): (r: Row)
    ensures |r| == |st|
  {
    seq(|st|, i requires 0 <= i < |st| => if name in st[i] then Some(st[i][name]) else None)
  }

  function StoredNames(st: Stripes): set<Name> {
    set i, n | 0 <= i < |st| && n in st[i] :: n
  }

  /** The map the stripes stand for: every name that rebuilds, with the wire it rebuilds to. */
  ghost function Readable(s: Scheme, st: Stripes): map<Name, Bytes> {
    map n | n in StoredNames(st) && Verdict(s, RowOf(st, n)).Some? :: Verdict(s, RowOf(st, n)).value.wire
  }

  function Lookup(m: map<Name, Bytes>, name: Name): Option<Bytes> {
    if name in m then Some(m[name]) else None
  }

  /** Reading one name is looking it up in that map: a name that reads is stored somewhere. */
  lemma ReadableIsVerdict(s: Scheme, st: Stripes, name: Name)
    requires s.Valid() && |st| == s.n
    ensures name in Readable(s, st) <==> Verdict(s, RowOf(st, name)).Some?
    ensures name in Readable(s, st) ==> Readable(s, st)[name] == Verdict(s, RowOf(st, name)).value.wire
  {
    var row := RowOf(st, name);
    if Verdict(s, row).Some? {
      VerdictIsChecked(s, row);
      var voters := Voters(s, row, TagOf(s, Verdict(s, row).value.wire), s.n);
      var i :| i in voters;
      assert row[i].Some? && name in st[i];
      assert name in StoredNames(st);
    }
  }

  // ---- what the operations leave -----------------------------------------------------------

  /** The stripes of `which` get their record of `wire` under `name`; nothing else changes. */
  function Rewritten(s: Scheme, st: Stripes, name: Name, wire: Bytes, which: set<nat>): (r: Stripes)
    requires |st| <= 255
    ensures |r| == |st|
  {
    seq(|st|, i requires 0 <= i < |st| =>
      if i in which then st[i][name := Record(s, wire, i)] else st[i])
  }

  function Inserted(s: Scheme, st: Stripes, name: Name, wire: Bytes): Stripes
    requires |st| <= 255
  {
    Rewritten(s, st, name, wire, Indices(|st|))
  }

  function Removed(st: Stripes, name: Name): Stripes {
    seq(|st|, i requires 0 <= i < |st| => st[i] - {name})
  }

  ghost function Repaired(s: Scheme, st: Stripes, name: Name): (r: Stripes)
    requires |st| <= 255
    ensures |r| == |st|
  {
    match Verdict(s, RowOf(st, name))
    case None => st
    case Some(a) => Rewritten(s, st, name, a.wire, Elements(a.stale))
  }

  ghost function RepairedEach(s: Scheme, st: Stripes, names: seq<Name>): (r: Stripes)
    requires |st| <= 255
    ensures |r| == |st|
  {
    if names == [] then st
    else Repaired(s, RepairedEach(s, st, names[..|names| - 1]), names[|names| - 1])
  }

  lemma StripesAfterWrites(s: Scheme, st: Stripes, name: Name, wire: Bytes)
    requires |st| <= 255
    ensures |Inserted(s, st, name, wire)| == |Removed(st, name)| == |st|
    ensures forall i | 0 <= i < |st| :: Inserted(s, st, name, wire)[i] == st[i][name := Record(s, wire, i)]
    ensures forall i | 0 <= i < |st| :: Removed(st, name)[i] == st[i] - {name}
  {
    hide Record;
    assert forall i | 0 <= i < |st| :: i in Indices(|st|);
  }

  /** One stripe's record of one name replaced, or lost. */
  function SetCell(st: Stripes, i: nat, name: Name, record: Option<Bytes>): (r: Stripes)
    requires i < |st|
    ensures |r| == |st|
  {
    st[i := match record case None => st[i] - {name} case Some(b) => st[i][name := b]]
  }

  /** Writing one name leaves the row of every other as it was. */
  lemma RewrittenRow(s: Scheme, st: Stripes, name: Name, wire: Bytes, which: set<nat>, other: Name)
    requires |st| <= 255
    ensures other != name ==> RowOf(Rewritten(s, st, name, wire, which), other) == RowOf(st, other)
    ensures forall i | 0 <= i < |st| :: RowOf(Rewritten(s, st, name, wire, which), name)[i]
              == if i in which then Some(Record(s, wire, i)) else RowOf(st, name)[i]
  {
  }

  lemma RemovedRow(st: Stripes, name: Name, other: Name)
    ensures other != name ==> RowOf(Removed(st, name), other) == RowOf(st, other)
    ensures forall i | 0 <= i < |st| :: RowOf(Removed(st, name), name)[i] == None
  {
  }

  /** `m` with `name` bound to what `a` rebuilt, or unbound. */
  function Rebound(m: map<Name, Bytes>, name: Name, a: Option<Assembled>): map<Name, Bytes> {
    match a
    case None => m - {name}
    case Some(x) => m[name := x.wire]
  }

  /** The map of a store that differs from another in at most one name's row. */
  lemma ReadableAfter(s: Scheme, st: Stripes, st': Stripes, name: Name)
    requires s.Valid() && |st| == |st'| == s.n
    requires forall other: Name | other != name :: RowOf(st', other) == RowOf(st, other)
    ensures Readable(s, st') == Rebound(Readable(s, st), name, Verdict(s, RowOf(st', name)))
  {
    ReadableIsVerdict(s, st', name);
    forall n: Name | n != name
      ensures Lookup(Readable(s, st'), n) == Lookup(Readable(s, st), n)
    {
      ReadableIsVerdict(s, st, n);
      ReadableIsVerdict(s, st', n);
    }
    ReboundElsewhereSame(Readable(s, st), Readable(s, st'), name, Verdict(s, RowOf(st', name)));
  }

  lemma ReboundElsewhereSame(m: map<Name, Bytes>, m': map<Name, Bytes>, name: Name, a: Option<Assembled>)
    requires Lookup(m', name) == match a case None => None case Some(x) => Some(x.wire)
    requires forall n: Name | n != name :: Lookup(m', n) == Lookup(m, n)
    ensures m' == Rebound(m, name, a)
  {
    forall n: Name
      ensures Lookup(m', n) == Lookup(Rebound(m, name, a), n)
    {
      assert n != name ==> Lookup(m', n) == Lookup(m, n);
    }
    SameLookups(m', Rebound(m, name, a));
  }

  lemma SameLookups(m: map<Name, Bytes>, m': map<Name, Bytes>)
    requires forall n: Name :: Lookup(m, n) == Lookup(m', n)
    ensures m == m'
  {
    forall n: Name
      ensures n in m <==> n in m'
      ensures n in m ==> m[n] == m'[n]
    {
      assert Lookup(m, n) == Lookup(m', n);
    }
  }

  /** Storing a packet over anything at all makes it the packet that reads. */
  lemma InsertedReads(s: Scheme, st: Stripes, name: Name, wire: Bytes)
    requires s.Valid() && |st| == s.n && |wire| < U32_LIMIT
    ensures Verdict(s, RowOf(Inserted(s, st, name, wire), name)) == Some(Assembled(wire, []))
    ensures Readable(s, Inserted(s, st, name, wire)) == Readable(s, st)[name := wire]
  {
    var st' := Inserted(s, st, name, wire);
    forall other: Name
      ensures other != name ==> RowOf(st', other) == RowOf(st, other)
    {
      RewrittenRow(s, st, name, wire, Indices(|st|), other);
    }
    RewrittenRow(s, st, name, wire, Indices(|st|), name);
    FullRow(s, RowOf(st', name), wire);
    ReadableAfter(s, st, st', name);
  }

  lemma RemovedReads(s: Scheme, st: Stripes, name: Name)
    requires s.Valid() && |st| == s.n
    ensures Verdict(s, RowOf(Removed(st, name), name)) == None
    ensures Readable(s, Removed(st, name)) == Readable(s, st) - {name}
  {
    var st' := Removed(st, name);
    forall other: Name
      ensures other != name ==> RowOf(st', other) == RowOf(st, other)
    {
      RemovedRow(st, name, other);
    }
    RemovedRow(st, name, name);
    NothingGood(s, RowOf(st', name));
    ReadableAfter(s, st, st', name);
  }

  // ---- repair ------------------------------------------------------------------------------

  /** The wires that have been written under each name. */
  type Written = Name -> set<Bytes>

  /** Every good shard stored under a name is the record of a wire written under it, at its own
      stripe. */
  ghost predicate HonestStore(s: Scheme, st: Stripes, written: Written) {
    forall name: Name :: Honest(s, RowOf(st, name), written(name))
  }

  /** No two wires written under one name share a length and a digest. */
  ghost predicate NoCollisions(s: Scheme, written: Written) {
    forall name: Name :: CollisionFree(s, written(name))
  }

  /** For some record of what was written under each name, the store is honest and free of collisions. */
  ghost predicate Sound(s: Scheme, st: Stripes) {
    exists written: Written :: HonestStore(s, st, written) && NoCollisions(s, written)
  }

  lemma RewrittenHonest(s: Scheme, st: Stripes, written: Written, name: Name, wire: Bytes, which: set<nat>)
    requires s.Valid() && |st| == s.n && HonestStore(s, st, written) && wire in written(name) && |wire| < U32_LIMIT
    ensures HonestStore(s, Rewritten(s, st, name, wire, which), written)
  {
    var st' := Rewritten(s, st, name, wire, which);
    forall m: Name
      ensures Honest(s, RowOf(st', m), written(m))
    {
      RewrittenRow(s, st, name, wire, which, m);
      assert Honest(s, RowOf(st, m), written(m));
      forall i | 0 <= i < |st'|
        ensures HonestAt(s, RowOf(st', m), i, written(m))
      {
        assert HonestAt(s, RowOf(st, m), i, written(m));
        if m == name && i in which {
          assert Holds(s, RowOf(st', m), i, wire);
        } else {
          assert RowOf(st', m)[i] == RowOf(st, m)[i];
          HonestElsewhere(s, RowOf(st, m), RowOf(st', m), i, written(m));
        }
      }
    }
  }

  lemma HonestElsewhere(s: Scheme, row: Row, row': Row, i: nat, wires: set<Bytes>)
    requires i < |row| == |row'| && row[i] == row'[i] && HonestAt(s, row, i, wires)
    ensures HonestAt(s, row', i, wires)
  {
    if ShardAt(s, row', i).Some? {
      var w :| w in wires && |w| < U32_LIMIT && Holds(s, row, i, w);
      assert Holds(s, row', i, w);
    }
  }

  lemma RepairedRow(s: Scheme, st: Stripes, name: Name)
    requires s.Valid() && |st| == s.n && Verdict(s, RowOf(st, name)).Some?
    requires var a := Verdict(s, RowOf(st, name)).value;
             forall i :: i in a.stale <==> 0 <= i < s.n && !Holds(s, RowOf(st, name), i, a.wire)
    ensures forall other: Name | other != name :: RowOf(Repaired(s, st, name), other) == RowOf(st, other)
    ensures forall i: nat | i < s.n ::
              Holds(s, RowOf(Repaired(s, st, name), name), i, Verdict(s, RowOf(st, name)).value.wire)
  {
    var a := Verdict(s, RowOf(st, name)).value;
    forall other: Name | other != name
      ensures RowOf(Repaired(s, st, name), other) == RowOf(st, other)
    {
      RewrittenRow(s, st, name, a.wire, Elements(a.stale), other);
    }
    RewrittenRow(s, st, name, a.wire, Elements(a.stale), name);
    forall i: nat | i < s.n
      ensures Holds(s, RowOf(Repaired(s, st, name), name), i, a.wire)
    {
      assert i in Elements(a.stale) <==> i in a.stale;
    }
  }

  /** A repair makes all `n` stripes hold the record of what the packet read as. */
  lemma RepairFills(s: Scheme, st: Stripes, written: Written, name: Name)
    requires s.Valid() && |st| == s.n && HonestStore(s, st, written) && NoCollisions(s, written)
    requires Verdict(s, RowOf(st, name)).Some?
    ensures var wire := Verdict(s, RowOf(st, name)).value.wire;
            && wire in written(name) && |wire| < U32_LIMIT
            && Verdict(s, RowOf(Repaired(s, st, name), name)) == Some(Assembled(wire, []))
            && forall i: nat | i < s.n :: Holds(s, RowOf(Repaired(s, st, name), name), i, wire)
  {
    assert Honest(s, RowOf(st, name), written(name)) && CollisionFree(s, written(name));
    HonestVerdict(s, RowOf(st, name), written(name));
    RepairedRow(s, st, name);
    FullRow(s, RowOf(Repaired(s, st, name), name), Verdict(s, RowOf(st, name)).value.wire);
  }

  /** It changes no packet: the map the stripes stand for is the same after it. */
  lemma RepairKeepsMap(s: Scheme, st: Stripes, written: Written, name: Name)
    requires s.Valid() && |st| == s.n && HonestStore(s, st, written) && NoCollisions(s, written)
    ensures HonestStore(s, Repaired(s, st, name), written)
    ensures Readable(s, Repaired(s, st, name)) == Readable(s, st)
  {
    if Verdict(s, RowOf(st, name)).Some? {
      var a := Verdict(s, RowOf(st, name)).value;
      RepairFills(s, st, written, name);
      RewrittenHonest(s, st, written, name, a.wire, Elements(a.stale));
      forall other: Name | other != name
        ensures RowOf(Repaired(s, st, name), other) == RowOf(st, other)
      {
        RewrittenRow(s, st, name, a.wire, Elements(a.stale), other);
      }
      ReadableAfter(s, st, Repaired(s, st, name), name);
      ReadableIsVerdict(s, st, name);
      ReboundSame(Readable(s, st), name, a.wire);
    }
  }

  lemma ReboundSame(m: map<Name, Bytes>, name: Name, wire: Bytes)
    requires Lookup(m, name) == Some(wire)
    ensures m[name := wire] == m
  {
  }

  lemma {:induction false} RepairsKeepMap(s: Scheme, st: Stripes, written: Written, names: seq<Name>)
    requires s.Valid() && |st| == s.n && HonestStore(s, st, written) && NoCollisions(s, written)
    ensures HonestStore(s, RepairedEach(s, st, names), written)
    ensures Readable(s, RepairedEach(s, st, names)) == Readable(s, st)
  {
    if names != [] {
      RepairsKeepMap(s, st, written, names[..|names| - 1]);
      RepairKeepsMap(s, RepairedEach(s, st, names[..|names| - 1]), written, names[|names| - 1]);
    }
  }

  /** So reading and scanning a sound store, whatever they repair, leave its map as it was. */
  lemma SoundRepairs(s: Scheme, st: Stripes, names: seq<Name>)
    requires s.Valid() && |st| == s.n && Sound(s, st)
    ensures Sound(s, RepairedEach(s, st, names))
    ensures Readable(s, RepairedEach(s, st, names)) == Readable(s, st)
  {
    hide HonestStore, NoCollisions, Readable;
    var written: Written :| HonestStore(s, st, written) && NoCollisions(s, written);
    RepairsKeepMap(s, st, written, names);
  }

  lemma SoundRepair(s: Scheme, st: Stripes, name: Name)
    requires s.Valid() && |st| == s.n && Sound(s, st)
    ensures Sound(s, Repaired(s, st, name)) && Readable(s, Repaired(s, st, name)) == Readable(s, st)
  {
    hide HonestStore, NoCollisions, Readable;
    var written: Written :| HonestStore(s, st, written) && NoCollisions(s, written);
    RepairKeepsMap(s, st, written, name);
  }

  function WrittenNow(written: Written, name: Name, wires: set<Bytes>): Written {
    (n: Name) => if n == name then wires else written(n)
  }

  lemma SoundElsewhere(s: Scheme, st: Stripes, st': Stripes, name: Name, wires: set<Bytes>)
    requires Sound(s, st) && forall other: Name | other != name :: RowOf(st', other) == RowOf(st, other)
    requires Honest(s, RowOf(st', name), wires) && CollisionFree(s, wires)
    ensures Sound(s, st')
  {
    hide Honest, CollisionFree, RowOf;
    var written: Written :| HonestStore(s, st, written) && NoCollisions(s, written);
    var now := WrittenNow(written, name, wires);
    assert forall n: Name :: Honest(s, RowOf(st', n), now(n));
    assert HonestStore(s, st', now) && NoCollisions(s, now);
  }

  /** Whatever a sound store held under a name, storing or removing the packet leaves it sound. */
  lemma WritesKeepSound(s: Scheme, st: Stripes, name: Name, wire: Bytes)
    requires s.Valid() && |st| == s.n && Sound(s, st)
    ensures |wire| < U32_LIMIT ==> Sound(s, Inserted(s, st, name, wire))
    ensures Sound(s, Removed(st, name))
  {
    hide Sound, RowOf, Inserted, Removed;
    if |wire| < U32_LIMIT {
      InsertedRowHonest(s, st, name, wire);
      SoundElsewhere(s, st, Inserted(s, st, name, wire), name, {wire});
    }
    RemovedRowHonest(s, st, name);
    SoundElsewhere(s, st, Removed(st, name), name, {});
  }

  lemma InsertedRowHonest(s: Scheme, st: Stripes, name: Name, wire: Bytes)
    requires |st| == s.n <= 255 && |wire| < U32_LIMIT
    ensures Honest(s, RowOf(Inserted(s, st, name, wire), name), {wire}) && CollisionFree(s, {wire})
    ensures forall other: Name | other != name :: RowOf(Inserted(s, st, name, wire), other) == RowOf(st, other)
  {
    forall other: Name
      ensures other != name ==> RowOf(Inserted(s, st, name, wire), other) == RowOf(st, other)
    {
      RewrittenRow(s, st, name, wire, Indices(|st|), other);
    }
    RewrittenRow(s, st, name, wire, Indices(|st|), name);
    hide Record, ShardOf;
    var row := RowOf(Inserted(s, st, name, wire), name);
    forall i | 0 <= i < |row|
      ensures HonestAt(s, row, i, {wire})
    {
      assert wire in {wire} && Holds(s, row, i, wire);
    }
  }

  lemma RemovedRowHonest(s: Scheme, st: Stripes, name: Name)
    ensures Honest(s, RowOf(Removed(st, name), name), {}) && CollisionFree(s, {})
    ensures forall other: Name | other != name :: RowOf(Removed(st, name), other) == RowOf(st, other)
  {
    forall other: Name
      ensures other != name ==> RowOf(Removed(st, name), other) == RowOf(st, other)
    {
      RemovedRow(st, name, other);
    }
    RemovedRow(st, name, name);
  }

  /** A store nothing was written to. */
  lemma EmptyIsSound(s: Scheme)
    ensures Sound(s, seq(s.n, i => map[]))
  {
    var st: Stripes := seq(s.n, i => map[]);
    var written: Written := (n: Name) => {};
    assert HonestStore(s, st, written) && NoCollisions(s, written);
  }
}
