/** Ingesting a sync group: fetch what a gap announces, store what arrives, and in the two-phase mode
    acknowledge only what is stored, up to the first hole. */
module Ingest {
  import opened Octets
  import opened Names
  import opened Scans

  /** A gap: `publisher` has published `low` to `high` under `name`. */
  datatype Update = Update(publisher: Name, name: Name, low: nat, high: nat)

  /** The store, and the vector the node advertises: how far it holds each publisher. */
  datatype State = State(stored: set<Name>, vector: map<Name, nat>) {
    function Advertised(publisher: Name): nat {
      if publisher in vector then vector[publisher] else 0
    }
  }

  /** How publications are named: by publisher's name, group and number. */
  type Naming = (Name, Name, nat) -> Name

  /** The store's presence check: some packet is stored under the publication's name. */
  predicate Holds(naming: Naming, group: Name, stored: set<Name>, name: Name, i: nat) {
    exists n | n in stored :: naming(name, group, i) <= n
  }

  /** An acknowledgement raises the vector to its number, and never lowers it. */
  function Acked(st: State, publisher: Name, i: nat): State {
    st.(vector := st.vector[publisher := Max(st.Advertised(publisher), i)])
  }

  /** What a fetch of publication `i` leaves in the store: nothing when it fails or is rejected. */
  type Fetches = nat -> set<Name>

  /** The update from number `i` on. */
  function Ingested(naming: Naming, group: Name, twoPhase: bool, st: State, u: Update, fetched: Fetches, i: nat): State
    decreases u.high + 1 - i
  {
    if i > u.high then st
    else
      var landed := st.(stored := st.stored + fetched(i));
      if !twoPhase then Ingested(naming, group, twoPhase, landed, u, fetched, i + 1)
      else if Holds(naming, group, landed.stored, u.name, i)
      then Ingested(naming, group, twoPhase, Acked(landed, u.publisher, i), u, fetched, i + 1)
      else landed
  }

  class GroupIngester {
    const naming: Naming
    const group: Name
    const twoPhase: bool
    var stored: set<Name>
    var vector: map<Name, nat>

    constructor (naming: Naming, group: Name, twoPhase: bool, stored: set<Name>, vector: map<Name, nat>)
      ensures Contents() == State(stored, vector)
      ensures this.naming == naming && this.group == group && this.twoPhase == twoPhase
    {
      this.naming, this.group, this.twoPhase := naming, group, twoPhase;
      this.stored, this.vector := stored, vector;
    }

    function Contents(): State
      reads this
    {
      State(stored, vector)
    }

    method Ack(publisher: Name, i: nat)
      modifies `vector
      ensures Contents() == Acked(old(Contents()), publisher, i)
    {
      vector := vector[publisher := Max(Contents().Advertised(publisher), i)];
    }

    /** Handle one update. */
    method IngestUpdate(u: Update, fetched: Fetches)
      modifies this
      ensures Contents() == Ingested(naming, group, twoPhase, old(Contents()), u, fetched, u.low)
    {
      var i := u.low;
      while i <= u.high
        invariant Ingested(naming, group, twoPhase, Contents(), u, fetched, i)
               == Ingested(naming, group, twoPhase, old(Contents()), u, fetched, u.low)
        decreases u.high + 1 - i
      {
        stored := stored + fetched(i);
        if twoPhase {
          if Holds(naming, group, stored, u.name, i) {
            Ack(u.publisher, i);
          } else {
            break;
          }
        }
        i := i + 1;
      }
    }
  }

  // ---- one update --------------------------------------------------------------------------

  /** The first number from `i` to `high` that is not held, or `high + 1`. */
  function FirstHole(naming: Naming, group: Name, stored: set<Name>, name: Name, i: nat, high: nat): (r: nat)
    requires i <= high + 1
    ensures i <= r <= high + 1
    ensures forall s | i <= s < r :: Holds(naming, group, stored, name, s)
    ensures r <= high ==> !Holds(naming, group, stored, name, r)
    decreases high + 1 - i
  {
    if i > high || !Holds(naming, group, stored, name, i) then i
    else FirstHole(naming, group, stored, name, i + 1, high)
  }

  lemma HoldsMore(naming: Naming, group: Name, stored: set<Name>, more: set<Name>, name: Name, i: nat)
    requires stored <= more && Holds(naming, group, stored, name, i)
    ensures Holds(naming, group, more, name, i)
  {
  }

  lemma {:induction false} StoreGrows(naming: Naming, group: Name, twoPhase: bool, st: State, u: Update,
                                    fetched: Fetches, i: nat)
    ensures st.stored <= Ingested(naming, group, twoPhase, st, u, fetched, i).stored
    decreases u.high + 1 - i
  {
    if i <= u.high {
      var landed := st.(stored := st.stored + fetched(i));
      StoreGrows(naming, group, twoPhase, landed, u, fetched, i + 1);
      StoreGrows(naming, group, twoPhase, Acked(landed, u.publisher, i), u, fetched, i + 1);
    }
  }

  /** Where the vector stands after a two-phase update whose first unheld number is `hole`. */
  function RaisedTo(vector: map<Name, nat>, publisher: Name, before: nat, low: nat, hole: nat): map<Name, nat>
    requires low <= hole
  {
    if hole == low then vector else vector[publisher := Max(before, hole - 1)]
  }

  lemma RaisedOnce(vector: map<Name, nat>, publisher: Name, before: nat, i: nat, hole: nat)
    requires i < hole
    ensures RaisedTo(vector[publisher := Max(before, i)], publisher, Max(before, i), i + 1, hole)
         == RaisedTo(vector, publisher, before, i, hole)
  {
    var a: nat, b: nat := Max(before, i), Max(before, hole - 1);
    assert vector[publisher := a][publisher := b] == vector[publisher := b];
  }

  /** A two-phase update acknowledges exactly the run of publications that are in the store when it
      ends, from its first number to its first hole: none past the hole, all before it, whether this
      update fetched them or an earlier one did, and no other publisher's. */
  lemma {:induction false} AcksUpToTheHole(naming: Naming, group: Name, st: State, u: Update, fetched: Fetches, i: nat)
    requires i <= u.high + 1
    ensures var r := Ingested(naming, group, true, st, u, fetched, i);
            r.vector == RaisedTo(st.vector, u.publisher, st.Advertised(u.publisher), i,
                                 FirstHole(naming, group, r.stored, u.name, i, u.high))
    decreases u.high + 1 - i
  {
    if i <= u.high {
      hide Holds, RaisedTo;
      var landed := st.(stored := st.stored + fetched(i));
      var before := st.Advertised(u.publisher);
      if Holds(naming, group, landed.stored, u.name, i) {
        var next := Acked(landed, u.publisher, i);
        AcksUpToTheHole(naming, group, next, u, fetched, i + 1);
        StoreGrows(naming, group, true, next, u, fetched, i + 1);
        var r := Ingested(naming, group, true, next, u, fetched, i + 1);
        HoldsMore(naming, group, landed.stored, r.stored, u.name, i);
        RaisedOnce(st.vector, u.publisher, before, i, FirstHole(naming, group, r.stored, u.name, i + 1, u.high));
      } else {
        NotRaised(st.vector, u.publisher, before, i);
      }
    } else {
      NotRaised(st.vector, u.publisher, st.Advertised(u.publisher), i);
    }
  }

  lemma NotRaised(vector: map<Name, nat>, publisher: Name, before: nat, i: nat)
    ensures RaisedTo(vector, publisher, before, i, i) == vector
  {
  }

  // ---- what is stored ----------------------------------------------------------------------

  /** All that the fetches of `low` to `upTo` brought. */
  function Fetched(fetched: Fetches, low: nat, upTo: nat): set<Name> {
    set i, n | low <= i <= upTo && n in fetched(i) :: n
  }

  lemma FetchedMore(fetched: Fetches, low: nat, upTo: nat)
    requires low <= upTo
    ensures Fetched(fetched, low, upTo) == fetched(low) + Fetched(fetched, low + 1, upTo)
  {
    forall n
      ensures n in Fetched(fetched, low, upTo) <==> n in fetched(low) + Fetched(fetched, low + 1, upTo)
    {
      if i :| low <= i <= upTo && n in fetched(i) && i != low {
        assert low + 1 <= i;
      }
    }
  }

  lemma FetchedOne(fetched: Fetches, i: nat)
    ensures Fetched(fetched, i, i) == fetched(i)
  {
    FetchedMore(fetched, i, i);
    assert Fetched(fetched, i + 1, i) == {};
  }

  /** An eager update stores whatever any of its fetches brings, past failures and rejections, and leaves
      the vector to the merge that moved it. */
  lemma {:induction false} EagerStoresAll(naming: Naming, group: Name, st: State, u: Update, fetched: Fetches, i: nat)
    ensures Ingested(naming, group, false, st, u, fetched, i)
         == State(st.stored + Fetched(fetched, i, u.high), st.vector)
    decreases u.high + 1 - i
  {
    if i <= u.high {
      var landed := st.(stored := st.stored + fetched(i));
      EagerStoresAll(naming, group, landed, u, fetched, i + 1);
      FetchedMore(fetched, i, u.high);
      assert landed.stored + Fetched(fetched, i + 1, u.high) == st.stored + Fetched(fetched, i, u.high);
    } else {
      assert Fetched(fetched, i, u.high) == {};
      assert st.stored + {} == st.stored;
    }
  }

  /** A two-phase update stores what its fetches bring up to the first hole, that hole's included, and
      fetches nothing behind it. */
  lemma {:induction false} TwoPhaseStores(naming: Naming, group: Name, st: State, u: Update, fetched: Fetches, i: nat)
    requires i <= u.high + 1
    ensures var r := Ingested(naming, group, true, st, u, fetched, i);
            r.stored
            == st.stored + Fetched(fetched, i, Min(FirstHole(naming, group, r.stored, u.name, i, u.high), u.high))
    decreases u.high + 1 - i
  {
    if i <= u.high {
      hide Holds, Fetched;
      var landed := st.(stored := st.stored + fetched(i));
      if Holds(naming, group, landed.stored, u.name, i) {
        var next := Acked(landed, u.publisher, i);
        TwoPhaseStores(naming, group, next, u, fetched, i + 1);
        StoreGrows(naming, group, true, next, u, fetched, i + 1);
        var r := Ingested(naming, group, true, next, u, fetched, i + 1);
        HoldsMore(naming, group, landed.stored, r.stored, u.name, i);
        FetchedMore(fetched, i, Min(FirstHole(naming, group, r.stored, u.name, i + 1, u.high), u.high));
      } else {
        FetchedOne(fetched, i);
      }
    } else {
      assert Fetched(fetched, i, u.high) == {};
      assert st.stored + {} == st.stored;
    }
  }

  /** Presence is what a lookup by prefix finds: a packet stored under the publication's name, whatever
      comes after it. */
  lemma HoldsIsFindUnder(naming: Naming, group: Name, packets: map<Name, Bytes>, name: Name, i: nat)
    ensures Holds(naming, group, packets.Keys, name, i) <==> MapScan(packets, naming(name, group, i), 1) != []
  {
    var prefix := naming(name, group, i);
    var under := NamesUnder(packets, prefix);
    forall n | n in packets
      ensures n in under <==> prefix <= n
    {
      KeyPrefix(prefix, n);
    }
    if MapScan(packets, prefix, 1) != [] {
      assert ScanNames(packets, prefix, 1)[0] in ScanNames(packets, prefix, 1);
    }
    if Holds(naming, group, packets.Keys, name, i) {
      var n :| n in packets.Keys && prefix <= n;
      assert n in InKeyOrder(under);
    }
  }

  /** Eagerly, the vector has moved to `high` before anything is fetched: it covers only held publications
      afterwards if and only if each number it moved over was in the store already or came in with one of
      the fetches. */
  lemma EagerPromise(naming: Naming, group: Name, st: State, u: Update, fetched: Fetches)
    requires 1 <= u.low <= u.high + 1 && PrefixHeld(naming, group, st.stored, u.name, u.low - 1)
    ensures var r := Ingested(naming, group, false, Acked(st, u.publisher, u.high), u, fetched, u.low);
            && r.Advertised(u.publisher) == Max(st.Advertised(u.publisher), u.high)
            && (PrefixHeld(naming, group, r.stored, u.name, u.high)
                <==> forall i | u.low <= i <= u.high ::
                       Holds(naming, group, st.stored + Fetched(fetched, u.low, u.high), u.name, i))
  {
    hide Holds, Fetched;
    EagerStoresAll(naming, group, Acked(st, u.publisher, u.high), u, fetched, u.low);
    forall i | 1 <= i < u.low
      ensures Holds(naming, group, st.stored + Fetched(fetched, u.low, u.high), u.name, i)
    {
      HoldsMore(naming, group, st.stored, st.stored + Fetched(fetched, u.low, u.high), u.name, i);
    }
  }

  /** Each fetch brings only packets of its own publication. */
  ghost predicate OwnFetches(naming: Naming, group: Name, u: Update, fetched: Fetches) {
    && (forall i: nat, n | n in fetched(i) :: naming(u.name, group, i) <= n)
    && (forall i: nat, j: nat, n | n in fetched(i) && naming(u.name, group, j) <= n :: i == j)
  }

  lemma HeldOrFetched(naming: Naming, group: Name, stored: set<Name>, u: Update, fetched: Fetches, i: nat)
    requires OwnFetches(naming, group, u, fetched) && u.low <= i <= u.high
    ensures Holds(naming, group, stored + Fetched(fetched, u.low, u.high), u.name, i)
       <==> Holds(naming, group, stored, u.name, i) || fetched(i) != {}
  {
    var all := stored + Fetched(fetched, u.low, u.high);
    if fetched(i) != {} {
      var n :| n in fetched(i);
      assert n in all && naming(u.name, group, i) <= n;
    }
    if Holds(naming, group, all, u.name, i) {
      var n :| n in all && naming(u.name, group, i) <= n;
      if n !in stored {
        var j :| u.low <= j <= u.high && n in fetched(j);
        assert i == j;
      }
    }
  }

  /** When fetches bring nothing but their own publications, the vector covers only held ones if and only
      if every fetch of one not yet in the store succeeded: one that failed or was rejected leaves a hole
      the node advertises as held. */
  lemma EagerPromiseByFetch(naming: Naming, group: Name, st: State, u: Update, fetched: Fetches)
    requires 1 <= u.low <= u.high + 1 && PrefixHeld(naming, group, st.stored, u.name, u.low - 1)
    requires OwnFetches(naming, group, u, fetched)
    ensures var r := Ingested(naming, group, false, Acked(st, u.publisher, u.high), u, fetched, u.low);
            && r.Advertised(u.publisher) >= u.high
            && (PrefixHeld(naming, group, r.stored, u.name, u.high)
                <==> forall i | u.low <= i <= u.high :: Holds(naming, group, st.stored, u.name, i) || fetched(i) != {})
  {
    hide Holds, Fetched, OwnFetches, Ingested, PrefixHeld;
    EagerPromise(naming, group, st, u, fetched);
    forall i | u.low <= i <= u.high
      ensures Holds(naming, group, st.stored + Fetched(fetched, u.low, u.high), u.name, i)
         <==> Holds(naming, group, st.stored, u.name, i) || fetched(i) != {}
    {
      HeldOrFetched(naming, group, st.stored, u, fetched, i);
    }
  }

  // ---- what the vector promises ------------------------------------------------------------

  /** All publications of a publisher up to `upTo` are held. */
  predicate PrefixHeld(naming: Naming, group: Name, stored: set<Name>, name: Name, upTo: nat) {
    forall i | 1 <= i <= upTo :: Holds(naming, group, stored, name, i)
  }

  /** The vector stays within what is held. */
  ghost predicate Honest(naming: Naming, group: Name, names: Name -> Name, st: State) {
    forall p :: PrefixHeld(naming, group, st.stored, names(p), st.Advertised(p))
  }

  /** After an update of a publisher whose vector was honest, it still is exactly when the update
      acknowledged nothing new, or when nothing between the vector and the update was missing. A gap is
      derived from the vector, so it starts no higher than the number after it. */
  lemma UpdateKeepsPromise(naming: Naming, group: Name, st: State, u: Update, fetched: Fetches)
    requires u.low <= u.high + 1
    requires PrefixHeld(naming, group, st.stored, u.name, st.Advertised(u.publisher))
    ensures var r := Ingested(naming, group, true, st, u, fetched, u.low);
            PrefixHeld(naming, group, r.stored, u.name, r.Advertised(u.publisher))
            <==> r.Advertised(u.publisher) == st.Advertised(u.publisher)
                 || forall i | st.Advertised(u.publisher) < i < u.low :: Holds(naming, group, r.stored, u.name, i)
  {
    hide Holds, Ingested;
    var r := Ingested(naming, group, true, st, u, fetched, u.low);
    var v, hole := st.Advertised(u.publisher), FirstHole(naming, group, r.stored, u.name, u.low, u.high);
    AcksUpToTheHole(naming, group, st, u, fetched, u.low);
    StoreGrows(naming, group, true, st, u, fetched, u.low);
    forall i | 1 <= i <= v
      ensures Holds(naming, group, r.stored, u.name, i)
    {
      HoldsMore(naming, group, st.stored, r.stored, u.name, i);
    }
  }

  // ---- runs --------------------------------------------------------------------------------

  /** What happens to the node: an update is handled, or something else is stored. */
  datatype Event =
    | Gap(update: Update, fetched: Fetches)
    | Stored(names: set<Name>)

  function After(naming: Naming, group: Name, st: State, e: Event): State {
    match e
    case Gap(u, fetched) => Ingested(naming, group, true, st, u, fetched, u.low)
    case Stored(names) => st.(stored := st.stored + names)
  }

  /** An update is about publications of its publisher, and starts no higher than the gap. */
  predicate FromTheVector(names: Name -> Name, st: State, e: Event) {
    e.Gap? ==>
      && e.update.name == names(e.update.publisher)
      && e.update.low <= st.Advertised(e.update.publisher) + 1 && e.update.low <= e.update.high + 1
  }

  ghost predicate ValidRun(naming: Naming, group: Name, names: Name -> Name, st: State, es: seq<Event>)
    decreases |es|
  {
    es == [] ||
    (FromTheVector(names, st, es[0]) && ValidRun(naming, group, names, After(naming, group, st, es[0]), es[1..]))
  }

  function RunAll(naming: Naming, group: Name, st: State, es: seq<Event>): State
    decreases |es|
  {
    if es == [] then st else RunAll(naming, group, After(naming, group, st, es[0]), es[1..])
  }

  /** A node that advertises nothing promises nothing. */
  lemma NothingPromised(naming: Naming, group: Name, names: Name -> Name, stored: set<Name>)
    ensures Honest(naming, group, names, State(stored, map[]))
    ensures forall p :: State(stored, map[]).Advertised(p) == 0
  {
  }

  lemma EventKeepsHonest(naming: Naming, group: Name, names: Name -> Name, st: State, e: Event)
    requires Honest(naming, group, names, st) && FromTheVector(names, st, e)
    ensures Honest(naming, group, names, After(naming, group, st, e))
    ensures forall p :: st.Advertised(p) <= After(naming, group, st, e).Advertised(p)
    ensures st.stored <= After(naming, group, st, e).stored
  {
    hide Holds, Ingested;
    var r := After(naming, group, st, e);
    if e.Gap? {
      var u := e.update;
      StoreGrows(naming, group, true, st, u, e.fetched, u.low);
      AcksUpToTheHole(naming, group, st, u, e.fetched, u.low);
      UpdateKeepsPromise(naming, group, st, u, e.fetched);
    }
    forall p
      ensures PrefixHeld(naming, group, r.stored, names(p), r.Advertised(p))
    {
      assert PrefixHeld(naming, group, st.stored, names(p), st.Advertised(p));
      forall i | 1 <= i <= st.Advertised(p)
        ensures Holds(naming, group, r.stored, names(p), i)
      {
        HoldsMore(naming, group, st.stored, r.stored, names(p), i);
      }
    }
  }

  /** Over every run of updates, failed and rejected fetches, re-emitted gaps and other writes, the node
      advertises for each publisher no more than the prefix it holds, and never takes anything back. */
  lemma {:induction false} RunsStayHonest(naming: Naming, group: Name, names: Name -> Name, st: State, es: seq<Event>)
    requires Honest(naming, group, names, st) && ValidRun(naming, group, names, st, es)
    ensures Honest(naming, group, names, RunAll(naming, group, st, es))
    ensures forall p :: st.Advertised(p) <= RunAll(naming, group, st, es).Advertised(p)
    decreases |es|
  {
    if es != [] {
      hide Honest, After, FromTheVector;
      EventKeepsHonest(naming, group, names, st, es[0]);
      RunsStayHonest(naming, group, names, After(naming, group, st, es[0]), es[1..]);
    }
  }

  /** A rejected publication does no lasting harm: once it is stored, the re-emitted gap advances the
      vector past it and over everything held behind it. */
  lemma HoleHeals(naming: Naming, group: Name, st: State, u: Update, fetched: Fetches)
    requires u.low <= u.high
    requires forall i | u.low <= i <= u.high ::
               Holds(naming, group, Ingested(naming, group, true, st, u, fetched, u.low).stored, u.name, i)
    ensures Ingested(naming, group, true, st, u, fetched, u.low).Advertised(u.publisher)
         == Max(st.Advertised(u.publisher), u.high)
  {
    hide Holds, Ingested;
    AcksUpToTheHole(naming, group, st, u, fetched, u.low);
  }
}
