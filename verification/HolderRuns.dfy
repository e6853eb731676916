/** What a holder never loses: its own packets, whatever becomes of the stripes, and the others', as long
    as `k` stripes are left. */
module HolderRuns {
  import opened Octets
  import opened Orders
  import opened Names
  import opened Coding
  import opened Shards
  import opened Durability
  import opened Stripes
  import opened Scans
  import opened ScanExact
  import opened Holder
  import StoreRuns

  /** The operations of a holder's store, and anything at all happening to its stripes. */
  datatype Event =
    | Insert(name: Name, wire: Bytes)
    | Remove(name: Name)
    | Get(name: Name)
    | Scan(prefix: Name, limit: nat)
    | Befall(stripes: Stripes)

  datatype State = State(own: map<Name, Bytes>, stripes: Stripes)

  /** The device's own names, and the local ones. */
  predicate IsPlain(device: Name, name: Name) {
    device <= name || LOCALHOST <= name
  }

  /** The state after an event, as the store's methods leave it. */
  ghost function After(device: Name, s: Scheme, x: State, e: Event): (r: State)
    requires |x.stripes| == s.n <= 255
    ensures |r.stripes| == s.n
  {
    match e
    case Insert(name, wire) =>
      if IsPlain(device, name) then x.(own := x.own[name := wire])
      else if |wire| < U32_LIMIT then x.(stripes := Inserted(s, x.stripes, name, wire))
      else x
    case Remove(name) =>
      if IsPlain(device, name) then x.(own := x.own - {name}) else x.(stripes := Removed(x.stripes, name))
    case Get(name) =>
      if IsPlain(device, name) then x else x.(stripes := Repaired(s, x.stripes, name))
    case Scan(prefix, limit) =>
      if IsPlain(device, prefix) then x
      else x.(stripes := RepairedEach(s, x.stripes, ScanRepairs(s, x.stripes, prefix, limit)))
    case Befall(stripes) => if |stripes| == s.n then x.(stripes := stripes) else x
  }

  ghost function RunAll(device: Name, s: Scheme, x: State, es: seq<Event>): (r: State)
    requires |x.stripes| == s.n <= 255
    ensures |r.stripes| == s.n
    decreases |es|
  {
    if es == [] then x else RunAll(device, s, After(device, s, x, es[0]), es[1..])
  }

  /** What a read of the name answers. */
  ghost function Answer(device: Name, s: Scheme, x: State, name: Name): Option<Bytes> {
    if IsPlain(device, name) then Lookup(x.own, name) else Lookup(Readable(s, x.stripes), name)
  }

  /** What was last done to the name. */
  function LastWritten(es: seq<Event>, name: Name, before: Option<Bytes>): Option<Bytes>
    decreases |es|
  {
    if es == [] then before
    else
      LastWritten(es[1..], name,
                  match es[0]
                  case Insert(m, wire) => if m == name then Some(wire) else before
                  case Remove(m) => if m == name then None else before
                  case _ => before)
  }

  /** Over every run, a name of the device or under `/localhost` reads as it was last written, even if all
      stripes are lost, swapped or overwritten in between. */
  lemma {:induction false} OwnNamesAreNeverLost(device: Name, s: Scheme, x: State, es: seq<Event>, name: Name)
    requires |x.stripes| == s.n <= 255 && (device <= name || LOCALHOST <= name)
    ensures Answer(device, s, RunAll(device, s, x, es), name) == LastWritten(es, name, Answer(device, s, x, name))
    decreases |es|
  {
    hide Inserted, Removed, Repaired, RepairedEach, Readable;
    if es != [] {
      OwnNamesAreNeverLost(device, s, After(device, s, x, es[0]), es[1..], name);
    }
  }

  // ---- losing stripes ----------------------------------------------------------------------

  /** The stripes of `lost` replaced by empty ones. */
  function Without(st: Stripes, lost: set<nat>): (r: Stripes)
    ensures |r| == |st|
  {
    seq(|st|, i requires 0 <= i < |st| => if i in lost then map[] else st[i])
  }

  lemma RowWithout(st: Stripes, lost: set<nat>, name: Name)
    ensures forall i | 0 <= i < |st| ::
              RowOf(Without(st, lost), name)[i] == if i in lost then None else RowOf(st, name)[i]
  {
  }

  /** A packet all of whose stripes are good, with up to `n - k` of them lost, is still within its budget. */
  lemma RowLoses(s: Scheme, row: Row, row': Row, wire: Option<Bytes>, lost: set<nat>)
    requires StoreRuns.RowOk(s, row, wire, {}) && |row| == |row'| && |lost| + s.k <= s.n
    requires forall i | 0 <= i < |row| :: row'[i] == if i in lost then None else row[i]
    ensures StoreRuns.RowOk(s, row', wire, lost)
  {
    hide Record, ShardOf;
    forall i | 0 <= i < |row|
      ensures i in lost ==> ShardAt(s, row', i) == None
      ensures i !in lost ==> ShardAt(s, row', i) == ShardAt(s, row, i)
      ensures i !in lost && wire.Some? ==> Holds(s, row', i, wire.value)
    {
      assert row'[i] == if i in lost then None else row[i];
      assert wire.Some? ==> Holds(s, row, i, wire.value);
    }
  }

  /** Losing any `n - k` whole stripes of a store with nothing else wrong loses no packet and brings none
      back. */
  lemma LostStripesLoseNothing(s: Scheme, st: Stripes, contents: map<Name, Bytes>, lost: set<nat>)
    requires s.Valid() && StoreRuns.Faithful(s, st, StoreRuns.Model(contents, map[])) && |lost| + s.k <= s.n
    ensures Readable(s, Without(st, lost)) == contents
  {
    var m := StoreRuns.Model(contents, map[]);
    StoreRuns.FaithfulCount(s, st, m);
    hide Readable, RowOf, Without;
    forall name: Name
      ensures Lookup(Readable(s, Without(st, lost)), name) == Lookup(contents, name)
    {
      assert StoreRuns.RowOk(s, RowOf(st, name), Lookup(contents, name), StoreRuns.DamageOf(m, name));
      RowWithout(st, lost, name);
      RowLoses(s, RowOf(st, name), RowOf(Without(st, lost), name), Lookup(contents, name), lost);
      hide StoreRuns.RowOk, StoreRuns.Faithful, Verdict;
      StoreRuns.RowReads(s, RowOf(Without(st, lost), name), Lookup(contents, name), lost);
      ReadableIsVerdict(s, Without(st, lost), name);
    }
    SameLookups(Readable(s, Without(st, lost)), contents);
  }

  /** In particular a packet stored for another device reads after any `n - k` stripes are lost, whatever
      the store held before. */
  lemma StoredSurvivesLoss(device: Name, s: Scheme, x: State, name: Name, wire: Bytes, lost: set<nat>)
    requires s.Valid() && |x.stripes| == s.n && |wire| < U32_LIMIT && |lost| + s.k <= s.n
    requires !(device <= name) && !(LOCALHOST <= name)
    ensures var y := After(device, s, x, Insert(name, wire));
            && y.own == x.own
            && Answer(device, s, y.(stripes := Without(y.stripes, lost)), name) == Some(wire)
  {
    var st := Inserted(s, x.stripes, name, wire);
    RewrittenRow(s, x.stripes, name, wire, Indices(s.n), name);
    hide Readable, Inserted, Without, Record;
    InsertedRow(s, x.stripes, name, wire);
    RowWithout(st, lost, name);
    RowLoses(s, RowOf(st, name), RowOf(Without(st, lost), name), Some(wire), lost);
    hide RowOf, Verdict, StoreRuns.RowOk;
    StoreRuns.RowReads(s, RowOf(Without(st, lost), name), Some(wire), lost);
    ReadableIsVerdict(s, Without(st, lost), name);
  }

  lemma InsertedRow(s: Scheme, st: Stripes, name: Name, wire: Bytes)
    requires s.Valid() && |st| == s.n && |wire| < U32_LIMIT
    ensures |Inserted(s, st, name, wire)| == s.n
    ensures StoreRuns.RowOk(s, RowOf(Inserted(s, st, name, wire), name), Some(wire), {})
  {
    StripesAfterWrites(s, st, name, wire);
    hide Inserted, Record;
    StoreRuns.InsertedRow(s, RowOf(Inserted(s, st, name, wire), name), wire);
  }
}
