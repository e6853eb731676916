/** The two halves of a holder's storage, plain and erasure-coded, as one map. */
module Holder {
  import opened Octets
  import opened Orders
  import opened Names
  import opened Shards
  import opened Stripes
  import opened Scans
  import opened ScanExact
  import opened Held

  /** Whether `name` lies under `prefix`. */
  predicate HasPrefix(name: Name, prefix: Name) {
    prefix <= name
  }

  predicate IsOwn(device: Name, localhost: Name, name: Name) {
    HasPrefix(name, device) || HasPrefix(name, localhost)
  }

  predicate AllOwn(device: Name, localhost: Name, names: set<Name>) {
    forall n | n in names :: IsOwn(device, localhost, n)
  }

  predicate NoneOwn(device: Name, localhost: Name, names: set<Name>) {
    forall n | n in names :: !IsOwn(device, localhost, n)
  }

  // ---- merging two listings ----------------------------------------------------------------

  /** Two-way merge in key order, up to `limit` (0 = all) of them; the first list wins ties. */
  function Merge(a: Listing, b: Listing, limit: nat, sofar: nat): Listing
    decreases |a| + |b|
  {
    if limit > 0 && sofar >= limit then []
    else if a == [] && b == [] then []
    else if b == [] || (a != [] && !KeyLess(b[0].0, a[0].0))
    then [a[0]] + Merge(a[1..], b, limit, sofar + 1)
    else [b[0]] + Merge(a, b[1..], limit, sofar + 1)
  }

  /** A bounded merge takes nothing beyond the first rows of each list that still fit. */
  lemma {:induction false} MergeShorter(a: Listing, b: Listing, limit: nat, sofar: nat, p: nat, q: nat)
    requires limit > 0 && sofar + p >= limit && sofar + q >= limit
    ensures Merge(First(a, p), First(b, q), limit, sofar) == Merge(a, b, limit, sofar)
    decreases |a| + |b|
  {
    hide KeyLess;
    if sofar < limit && (a != [] || b != []) {
      if b == [] || (a != [] && !KeyLess(b[0].0, a[0].0)) {
        MergeShorter(a[1..], b, limit, sofar + 1, p - 1, q);
        assert First(a, p)[1..] == First(a[1..], p - 1);
      } else {
        MergeShorter(a, b[1..], limit, sofar + 1, p, q - 1);
        assert First(b, q)[1..] == First(b[1..], q - 1);
      }
    }
  }

  /** A bounded merge is the beginning of the whole one. */
  lemma {:induction false} MergeBounded(a: Listing, b: Listing, limit: nat, sofar: nat)
    requires limit > 0 && sofar <= limit
    ensures Merge(a, b, limit, sofar) == First(Merge(a, b, 0, 0), limit - sofar)
    decreases |a| + |b|
  {
    hide KeyLess;
    MergeUnbounded(a, b, 0, 1);
    if sofar < limit && (a != [] || b != []) {
      if b == [] || (a != [] && !KeyLess(b[0].0, a[0].0)) {
        MergeBounded(a[1..], b, limit, sofar + 1);
        MergeUnbounded(a[1..], b, 0, 1);
      } else {
        MergeBounded(a, b[1..], limit, sofar + 1);
        MergeUnbounded(a, b[1..], 0, 1);
      }
    }
  }

  lemma {:induction false} MergeUnbounded(a: Listing, b: Listing, p: nat, q: nat)
    ensures Merge(a, b, 0, p) == Merge(a, b, 0, q)
    decreases |a| + |b|
  {
    if a == [] && b == [] {
    } else if b == [] || (a != [] && !KeyLess(b[0].0, a[0].0)) {
      MergeUnbounded(a[1..], b, p + 1, q + 1);
    } else {
      MergeUnbounded(a, b[1..], p + 1, q + 1);
    }
  }

  /** Every row of either list, and nothing else. */
  lemma {:induction false} MergeRows(a: Listing, b: Listing, x: (Name, Bytes))
    ensures x in Merge(a, b, 0, 0) <==> x in a || x in b
    decreases |a| + |b|
  {
    hide KeyLess;
    if a == [] && b == [] {
    } else if b == [] || (a != [] && !KeyLess(b[0].0, a[0].0)) {
      MergeRows(a[1..], b, x);
      MergeUnbounded(a[1..], b, 0, 1);
      assert a == [a[0]] + a[1..];
    } else {
      MergeRows(a, b[1..], x);
      MergeUnbounded(a, b[1..], 0, 1);
      assert b == [b[0]] + b[1..];
    }
  }

  /** `first` comes before every row of `l`. */
  predicate Before(first: Name, l: Listing) {
    forall i | 0 <= i < |l| :: KeyLess(first, l[i].0)
  }

  lemma {:induction false} MergeBefore(first: Name, a: Listing, b: Listing)
    requires Before(first, a) && Before(first, b)
    ensures Before(first, Merge(a, b, 0, 0))
  {
    forall i | 0 <= i < |Merge(a, b, 0, 0)|
      ensures KeyLess(first, Merge(a, b, 0, 0)[i].0)
    {
      MergeRows(a, b, Merge(a, b, 0, 0)[i]);
    }
  }

  lemma OrderedTail(l: Listing)
    requires l != [] && InOrder(l)
    ensures InOrder(l[1..]) && Before(l[0].0, l[1..])
  {
  }

  lemma OrderedCons(first: (Name, Bytes), l: Listing)
    requires InOrder(l) && Before(first.0, l)
    ensures InOrder([first] + l)
  {
  }

  lemma BeforeAll(x: Name, l: Listing)
    requires InOrder(l) && (l != [] ==> KeyLess(x, l[0].0))
    ensures Before(x, l)
  {
    forall i | 0 <= i < |l|
      ensures KeyLess(x, l[i].0)
    {
      KeyOrder({x, l[0].0, l[i].0});
    }
  }

  predicate Apart(a: Listing, b: Listing) {
    forall i, j | 0 <= i < |a| && 0 <= j < |b| :: a[i].0 != b[j].0
  }

  lemma {:induction false} MergeOrdered(a: Listing, b: Listing)
    requires InOrder(a) && InOrder(b) && Apart(a, b)
    ensures InOrder(Merge(a, b, 0, 0))
    decreases |a| + |b|
  {
    hide InOrder, Before;
    if a == [] && b == [] {
      assert Merge(a, b, 0, 0) == [];
      EmptyOrdered();
    } else if b == [] || (a != [] && !KeyLess(b[0].0, a[0].0)) {
      OrderedTail(a);
      if b != [] {
        KeyOrder({a[0].0, b[0].0});
      }
      BeforeAll(a[0].0, b);
      MergeOrdered(a[1..], b);
      MergeUnbounded(a[1..], b, 0, 1);
      MergeBefore(a[0].0, a[1..], b);
      OrderedCons(a[0], Merge(a[1..], b, 0, 0));
    } else {
      OrderedTail(b);
      BeforeAll(b[0].0, a);
      MergeOrdered(a, b[1..]);
      MergeUnbounded(a, b[1..], 0, 1);
      MergeBefore(b[0].0, a, b[1..]);
      OrderedCons(b[0], Merge(a, b[1..], 0, 0));
    }
  }

  lemma EmptyOrdered()
    ensures InOrder([])
  {
  }

  lemma PairsOrdered(m: map<Name, Bytes>, prefix: Name)
    ensures InOrder(MapScan(m, prefix, 0))
    ensures forall x | x in MapScan(m, prefix, 0) :: x.0 in NamesUnder(m, prefix) && x.1 == m[x.0]
    ensures forall n | n in NamesUnder(m, prefix) :: (n, m[n]) in MapScan(m, prefix, 0)
  {
    var q := ScanNames(m, prefix, 0);
    forall n | n in NamesUnder(m, prefix)
      ensures (n, m[n]) in MapScan(m, prefix, 0)
    {
      assert n in q;
      var i :| 0 <= i < |q| && q[i] == n;
      assert MapScan(m, prefix, 0)[i] == (n, m[n]);
    }
  }

  /** Merging the scans of two maps without a common name is the scan of their union. */
  lemma MergeIsUnionScan(a: map<Name, Bytes>, b: map<Name, Bytes>, prefix: Name)
    requires a.Keys !! b.Keys
    ensures Merge(MapScan(a, prefix, 0), MapScan(b, prefix, 0), 0, 0) == MapScan(a + b, prefix, 0)
  {
    hide KeyLess, Merge, MapScan, InOrder;
    var la, lb := MapScan(a, prefix, 0), MapScan(b, prefix, 0);
    var l := Merge(la, lb, 0, 0);
    PairsOrdered(a, prefix);
    PairsOrdered(b, prefix);
    PairsOrdered(a + b, prefix);
    forall x
      ensures x in l <==> x in MapScan(a + b, prefix, 0)
    {
      MergeRows(la, lb, x);
      UnionRow(a, b, prefix, x);
    }
    assert Apart(la, lb) by {
      forall i, j | 0 <= i < |la| && 0 <= j < |lb|
        ensures la[i].0 != lb[j].0
      {
        assert la[i] in la && lb[j] in lb;
      }
    }
    MergeOrdered(la, lb);
    OrderedUnique(l, MapScan(a + b, prefix, 0));
  }

  lemma UnionRow(a: map<Name, Bytes>, b: map<Name, Bytes>, prefix: Name, x: (Name, Bytes))
    requires a.Keys !! b.Keys
    ensures x in MapScan(a + b, prefix, 0) <==> x in MapScan(a, prefix, 0) || x in MapScan(b, prefix, 0)
  {
    hide MapScan;
    PairsOrdered(a, prefix);
    PairsOrdered(b, prefix);
    PairsOrdered(a + b, prefix);
    assert NamesUnder(a + b, prefix) == NamesUnder(a, prefix) + NamesUnder(b, prefix);
  }

  predicate RowLess(x: (Name, Bytes), y: (Name, Bytes)) {
    KeyLess(x.0, y.0)
  }

  lemma OrderedUnique(p: Listing, q: Listing)
    requires InOrder(p) && InOrder(q) && forall x :: x in p <==> x in q
    ensures p == q
  {
    assert Elements(p) == Elements(q);
    RowsTotal(p);
    SortedUnique(RowLess, p, q);
  }

  lemma RowsTotal(p: Listing)
    requires InOrder(p)
    ensures StrictTotal(RowLess, Elements(p))
  {
    hide KeyLess;
    var names := set i | 0 <= i < |p| :: p[i].0;
    KeyOrder(names);
    forall x, y | x in Elements(p) && y in Elements(p) && x != y
      ensures RowLess(x, y) || RowLess(y, x)
    {
      var i :| 0 <= i < |p| && p[i] == x;
      var j :| 0 <= j < |p| && p[j] == y;
      if i < j {
        assert KeyLess(p[i].0, p[j].0);
      } else {
        assert KeyLess(p[j].0, p[i].0);
      }
    }
    forall x | x in Elements(p)
      ensures x.0 in names
    {
      var i :| 0 <= i < |p| && p[i] == x;
    }
  }

  // ---- which half answers ------------------------------------------------------------------

  /** The answer of a holder's scan, given what the held half's scan returns. */
  function HolderListing(device: Name, localhost: Name, own: map<Name, Bytes>, held: Listing, prefix: Name,
                         limit: nat): Listing {
    if IsOwn(device, localhost, prefix) then MapScan(own, prefix, limit)
    else if !HasPrefix(device, prefix) && !HasPrefix(localhost, prefix) then held
    else Merge(MapScan(own, prefix, limit), held, limit, 0)
  }

  /** Two prefixes of one name are comparable. */
  lemma Comparable(p: Name, q: Name, name: Name)
    requires p <= name && q <= name
    ensures p <= q || q <= p
  {
    if |p| <= |q| {
      assert p == name[..|p|] && q[..|p|] == name[..|p|];
    } else {
      assert q == name[..|q|] && p[..|q|] == name[..|q|];
    }
  }

  lemma UnderOwnPrefix(device: Name, localhost: Name, prefix: Name, name: Name)
    requires Key(prefix) <= Key(name)
    ensures IsOwn(device, localhost, prefix) ==> IsOwn(device, localhost, name)
    ensures IsOwn(device, localhost, name) ==>
              IsOwn(device, localhost, prefix) || HasPrefix(device, prefix) || HasPrefix(localhost, prefix)
  {
    KeyPrefix(prefix, name);
    if HasPrefix(name, device) {
      Comparable(prefix, device, name);
    }
    if HasPrefix(name, localhost) {
      Comparable(prefix, localhost, name);
    }
  }

  lemma SameUnder(a: map<Name, Bytes>, b: map<Name, Bytes>, prefix: Name, limit: nat)
    requires NamesUnder(a, prefix) == NamesUnder(b, prefix)
    requires forall n | n in NamesUnder(a, prefix) :: a[n] == b[n]
    ensures MapScan(a, prefix, limit) == MapScan(b, prefix, limit)
  {
    assert ScanNames(a, prefix, limit) == ScanNames(b, prefix, limit);
  }

  /** Whichever half or merge answers, it is the scan of the one map both halves form, given that the
      held half returned its own first `limit`. */
  lemma HolderScanIsMapScan(device: Name, localhost: Name, own: map<Name, Bytes>, held: map<Name, Bytes>,
                            prefix: Name, limit: nat)
    requires AllOwn(device, localhost, own.Keys) && NoneOwn(device, localhost, held.Keys)
    ensures HolderListing(device, localhost, own, MapScan(held, prefix, limit), prefix, limit)
         == MapScan(own + held, prefix, limit)
  {
    hide MapScan, Merge, IsOwn;
    if IsOwn(device, localhost, prefix) {
      OwnPrefixScan(device, localhost, own, held, prefix, limit);
    } else if !HasPrefix(device, prefix) && !HasPrefix(localhost, prefix) {
      HeldPrefixScan(device, localhost, own, held, prefix, limit);
    } else {
      assert own.Keys !! held.Keys;
      MergedScan(own, held, prefix, limit);
    }
  }

  lemma OwnPrefixScan(device: Name, localhost: Name, own: map<Name, Bytes>, held: map<Name, Bytes>, prefix: Name,
                      limit: nat)
    requires NoneOwn(device, localhost, held.Keys) && IsOwn(device, localhost, prefix)
    ensures MapScan(own, prefix, limit) == MapScan(own + held, prefix, limit)
  {
    forall n | n in NamesUnder(own + held, prefix)
      ensures n !in held
    {
      UnderOwnPrefix(device, localhost, prefix, n);
    }
    assert NamesUnder(own + held, prefix) == NamesUnder(own, prefix);
    SameUnder(own, own + held, prefix, limit);
  }

  lemma HeldPrefixScan(device: Name, localhost: Name, own: map<Name, Bytes>, held: map<Name, Bytes>, prefix: Name,
                       limit: nat)
    requires AllOwn(device, localhost, own.Keys) && !IsOwn(device, localhost, prefix)
    requires !HasPrefix(device, prefix) && !HasPrefix(localhost, prefix)
    ensures MapScan(held, prefix, limit) == MapScan(own + held, prefix, limit)
  {
    forall n | n in NamesUnder(own + held, prefix)
      ensures n !in own
    {
      UnderOwnPrefix(device, localhost, prefix, n);
    }
    assert NamesUnder(own + held, prefix) == NamesUnder(held, prefix);
    SameUnder(held, own + held, prefix, limit);
  }

  lemma MergedScan(own: map<Name, Bytes>, held: map<Name, Bytes>, prefix: Name, limit: nat)
    requires own.Keys !! held.Keys
    ensures Merge(MapScan(own, prefix, limit), MapScan(held, prefix, limit), limit, 0)
         == MapScan(own + held, prefix, limit)
  {
    hide MapScan, Merge;
    var a, b := MapScan(own, prefix, 0), MapScan(held, prefix, 0);
    MapScanTake(own, prefix, limit);
    MapScanTake(held, prefix, limit);
    MapScanTake(own + held, prefix, limit);
    MergeIsUnionScan(own, held, prefix);
    if limit > 0 {
      MergeShorter(a, b, limit, 0, limit, limit);
      MergeBounded(a, b, limit, 0);
    }
  }

  /** Whatever the stripes hold, a holder's listing is in the octet order of the keys. */
  lemma HolderListingInOrder(device: Name, localhost: Name, own: map<Name, Bytes>, theirs: Listing, prefix: Name,
                             limit: nat)
    requires AllOwn(device, localhost, own.Keys) && InOrder(theirs)
    requires forall i | 0 <= i < |theirs| :: !IsOwn(device, localhost, theirs[i].0)
    ensures OctetOrdered(HolderListing(device, localhost, own, theirs, prefix, limit))
  {
    hide Merge, MapScan, IsOwn, OctetOrdered, InOrder;
    MapScanInOrder(own, prefix, limit);
    InOctetOrder(theirs);
    var mine := MapScan(own, prefix, limit);
    assert Apart(mine, theirs) by {
      assert forall i | 0 <= i < |mine| :: mine[i].0 in own && IsOwn(device, localhost, mine[i].0);
    }
    MergeOrdered(mine, theirs);
    InOctetOrder(Merge(mine, theirs, 0, 0));
    if limit > 0 {
      MergeBounded(mine, theirs, limit, 0);
      PrefixInOrder(First(Merge(mine, theirs, 0, 0), limit), Merge(mine, theirs, 0, 0));
    }
  }

  // ---- the store ---------------------------------------------------------------------------

  /** The name `/localhost`. */
  const LOCALHOST: Name := [Component(8, Ascii("localhost"))]

  lemma OwnIsPrefix(device: Name, localhost: Name, name: Name)
    ensures IsOwn(device, localhost, name) <==> device <= name || localhost <= name
  {
  }

  lemma RepairedNames(s: Scheme, st: Stripes, name: Name)
    requires s.Valid() && |st| == s.n
    ensures StoredNames(Repaired(s, st, name)) <= StoredNames(st)
  {
    var st' := Repaired(s, st, name);
    ReadableIsVerdict(s, st, name);
    forall x | x in StoredNames(st')
      ensures x in StoredNames(st)
    {
      var i :| 0 <= i < |st'| && x in st'[i];
      if x != name {
        assert x in st[i];
      } else if Verdict(s, RowOf(st, name)).Some? {
        assert name in StoredNames(st);
      }
    }
  }

  lemma {:induction false} RepairedEachNames(s: Scheme, st: Stripes, names: seq<Name>)
    requires s.Valid() && |st| == s.n
    ensures StoredNames(RepairedEach(s, st, names)) <= StoredNames(st)
  {
    if names != [] {
      RepairedEachNames(s, st, names[..|names| - 1]);
      RepairedNames(s, RepairedEach(s, st, names[..|names| - 1]), names[|names| - 1]);
    }
  }

  lemma FewerNames(device: Name, localhost: Name, all: set<Name>, some: set<Name>)
    requires NoneOwn(device, localhost, all) && some <= all
    ensures NoneOwn(device, localhost, some)
  {
    hide IsOwn;
  }

  lemma HeldRowsAreNotOwn(device: Name, localhost: Name, s: Scheme, st: Stripes, prefix: Name, limit: nat)
    requires s.Valid() && |st| == s.n && NoneOwn(device, localhost, StoredNames(st))
    ensures InOrder(ScanExact.ScanUnder(s, st, prefix, limit))
    ensures forall i | 0 <= i < |ScanExact.ScanUnder(s, st, prefix, limit)| ::
              !IsOwn(device, localhost, ScanExact.ScanUnder(s, st, prefix, limit)[i].0)
  {
    ScanUnderInOrder(s, st, prefix, limit);
    var first := Scan(s, st, prefix, limit, limit);
    var now := if first.answer.Some? then st else RepairedEach(s, st, first.repaired);
    RepairedEachNames(s, st, first.repaired);
    ReadableIsStored(s, now);
    hide IsOwn, Readable, StoredNames, Scan, ScanExact.ScanUnder, RepairedEach, OctetOrdered, InOrder;
    forall i | 0 <= i < |ScanExact.ScanUnder(s, st, prefix, limit)|
      ensures !IsOwn(device, localhost, ScanExact.ScanUnder(s, st, prefix, limit)[i].0)
    {
      assert ScanExact.ScanUnder(s, st, prefix, limit)[i].0 in StoredNames(st);
    }
  }

  lemma ReadableIsStored(s: Scheme, st: Stripes)
    ensures Readable(s, st).Keys <= StoredNames(st)
  {
    hide Verdict;
  }

  lemma InsertedNames(s: Scheme, st: Stripes, name: Name, wire: Bytes)
    requires |st| <= 255
    ensures StoredNames(Inserted(s, st, name, wire)) <= StoredNames(st) + {name}
  {
  }

  lemma RemovedNames(st: Stripes, name: Name)
    ensures StoredNames(Removed(st, name)) <= StoredNames(st)
  {
  }

  lemma Rejoin(out: Listing, row: (Name, Bytes), rest: Listing)
    ensures out + ([row] + rest) == (out + [row]) + rest
  {
  }

  lemma MergeNext(a: Listing, b: Listing, i: nat, j: nat, limit: nat, sofar: nat)
    requires i <= |a| && j <= |b|
    ensures Merge(a[i..], b[j..], limit, sofar)
         == if limit > 0 && sofar >= limit then []
            else if i == |a| && j == |b| then []
            else if i < |a| && (j == |b| || !KeyLess(b[j].0, a[i].0))
            then [a[i]] + Merge(a[i + 1..], b[j..], limit, sofar + 1)
            else [b[j]] + Merge(a[i..], b[j + 1..], limit, sofar + 1)
  {
    hide KeyLess;
    assert i < |a| ==> a[i..][1..] == a[i + 1..];
    assert j < |b| ==> b[j..][1..] == b[j + 1..];
  }

  class HolderStore {
    const device: Name
    var own: map<Name, Bytes>
    const held: ErasureStore

    constructor (device: Name, s: Scheme)
      requires s.Valid()
      ensures Valid() && fresh(held) && this.device == device && Contents() == map[]
      ensures Sound(held.s, held.stripes)
    {
      this.device := device;
      own := map[];
      held := new ErasureStore(s);
    }

    /** No name is in both halves, and each is in the half its prefix says. */
    ghost predicate Valid()
      reads this, held
    {
      && held.Valid()
      && AllOwn(device, LOCALHOST, own.Keys)
      && NoneOwn(device, LOCALHOST, StoredNames(held.stripes))
    }

    /** The one map the two halves form. */
    ghost function Contents(): map<Name, Bytes>
      reads this, held
    {
      own + Readable(held.s, held.stripes)
    }

    /** A name under the device's own or under `/localhost` is kept plainly and no stripe is touched; any
        other is coded, each stripe getting its record, and the plain half is not touched. */
    method Insert(name: Name, wire: Bytes)
      requires Valid()
      modifies this`own, held
      ensures Valid()
      ensures device <= name || LOCALHOST <= name ==>
                own == old(own)[name := wire] && held.stripes == old(held.stripes) && held.refused == old(held.refused)
      ensures !(device <= name || LOCALHOST <= name) ==>
                && own == old(own) && held.refused == (old(held.refused) || |wire| >= U32_LIMIT)
                && (|wire| >= U32_LIMIT ==> held.stripes == old(held.stripes))
                && (|wire| < U32_LIMIT ==> forall i | 0 <= i < held.s.n ::
                      held.stripes[i] == old(held.stripes)[i][name := Record(held.s, wire, i)])
      ensures Contents()
           == if IsOwn(device, LOCALHOST, name) || |wire| < U32_LIMIT then old(Contents())[name := wire]
              else old(Contents())
      ensures Sound(held.s, old(held.stripes)) ==> Sound(held.s, held.stripes)
    {
      OwnIsPrefix(device, LOCALHOST, name);
      hide IsOwn, Readable, Inserted, Sound, StoredNames, Record;
      if IsOwn(device, LOCALHOST, name) {
        OwnNotHeld(name);
        own := own[name := wire];
      } else {
        InsertedNames(held.s, held.stripes, name, wire);
        StripesAfterWrites(held.s, held.stripes, name, wire);
        held.Insert(name, wire);
      }
    }

    lemma OwnNotHeld(name: Name)
      requires IsOwn(device, LOCALHOST, name)
      requires NoneOwn(device, LOCALHOST, StoredNames(held.stripes))
      ensures name !in Readable(held.s, held.stripes)
      ensures name !in StoredNames(held.stripes)
    {
    }

    lemma HeldIsNotOwn()
      requires NoneOwn(device, LOCALHOST, StoredNames(held.stripes))
      ensures NoneOwn(device, LOCALHOST, Readable(held.s, held.stripes).Keys)
    {
    }

    /** Read a packet from the half its name belongs to. */
    method Get(name: Name) returns (r: Option<Bytes>)
      requires Valid()
      modifies held`stripes
      ensures Valid()
      ensures r == Lookup(old(Contents()), name)
      ensures device <= name || LOCALHOST <= name ==>
                r == Lookup(own, name) && held.stripes == old(held.stripes)
      ensures !(device <= name || LOCALHOST <= name) ==> r == Lookup(Readable(held.s, old(held.stripes)), name)
      ensures held.stripes
           == if IsOwn(device, LOCALHOST, name) then old(held.stripes) else Repaired(held.s, old(held.stripes), name)
      ensures Sound(held.s, old(held.stripes)) ==> Sound(held.s, held.stripes) && Contents() == old(Contents())
    {
      hide Sound;
      if IsOwn(device, LOCALHOST, name) {
        OwnNotHeld(name);
        return if name in own then Some(own[name]) else None;
      } else {
        RepairedNames(held.s, held.stripes, name);
        r := held.Get(name);
      }
    }

    method Remove(name: Name)
      requires Valid()
      modifies this`own, held`stripes
      ensures Valid()
      ensures device <= name || LOCALHOST <= name ==> own == old(own) - {name} && held.stripes == old(held.stripes)
      ensures !(device <= name || LOCALHOST <= name) ==>
                && own == old(own)
                && forall i | 0 <= i < held.s.n :: held.stripes[i] == old(held.stripes)[i] - {name}
      ensures Contents() == old(Contents()) - {name}
      ensures Sound(held.s, old(held.stripes)) ==> Sound(held.s, held.stripes)
    {
      OwnIsPrefix(device, LOCALHOST, name);
      hide IsOwn, Readable, Removed, Sound;
      if IsOwn(device, LOCALHOST, name) {
        OwnNotHeld(name);
        own := own - {name};
      } else {
        RemovedNames(held.stripes, name);
        StripesAfterWrites(held.s, held.stripes, name, []);
        held.Remove(name);
      }
    }

    /** The held half's rows. */
    method ScanHeld(prefix: Name, limit: nat) returns (theirs: Listing)
      requires Valid()
      modifies held`stripes
      ensures Valid()
      ensures theirs == ScanExact.ScanUnder(held.s, old(held.stripes), prefix, limit)
      ensures held.stripes
           == RepairedEach(held.s, old(held.stripes), ScanRepairs(held.s, old(held.stripes), prefix, limit))
      ensures Sound(held.s, old(held.stripes)) ==> Sound(held.s, held.stripes) && Contents() == old(Contents())
    {
      hide Sound, Readable, RepairedEach, StoredNames, ScanRepairs, NoneOwn;
      ghost var repaired := ScanRepairs(held.s, held.stripes, prefix, limit);
      RepairedEachNames(held.s, held.stripes, repaired);
      FewerNames(device, LOCALHOST, StoredNames(held.stripes),
                 StoredNames(RepairedEach(held.s, held.stripes, repaired)));
      theirs := held.ScanUnder(prefix, limit);
    }

    /** The first `limit` (0 = all) packets under `prefix`, in name order, of both halves. */
    method ScanUnder(prefix: Name, limit: nat) returns (out: Listing)
      requires Valid()
      modifies held`stripes
      ensures Valid()
      ensures out == HolderListing(device, LOCALHOST, own,
                                   ScanExact.ScanUnder(held.s, old(held.stripes), prefix, limit), prefix, limit)
      ensures ScanExact.ScanUnder(held.s, old(held.stripes), prefix, limit)
           == MapScan(Readable(held.s, old(held.stripes)), prefix, limit)
          ==> out == MapScan(old(Contents()), prefix, limit)
      ensures OctetOrdered(out)
      ensures held.stripes
           == if IsOwn(device, LOCALHOST, prefix) then old(held.stripes)
              else RepairedEach(held.s, old(held.stripes), ScanRepairs(held.s, old(held.stripes), prefix, limit))
      ensures Sound(held.s, old(held.stripes)) ==> Sound(held.s, held.stripes) && Contents() == old(Contents())
    {
      HeldIsNotOwn();
      HeldRowsAreNotOwn(device, LOCALHOST, held.s, held.stripes, prefix, limit);
      HolderListingInOrder(device, LOCALHOST, own, ScanExact.ScanUnder(held.s, held.stripes, prefix, limit),
                           prefix, limit);
      hide OctetOrdered, InOrder, Sound, Readable, MapScan, RepairedEach, StoredNames, ScanRepairs;
      hide IsOwn, AllOwn, NoneOwn, Merge, HasPrefix;
      HolderScanIsMapScan(device, LOCALHOST, own, Readable(held.s, held.stripes), prefix, limit);
      if IsOwn(device, LOCALHOST, prefix) {
        return MapScan(own, prefix, limit);
      }
      var theirs := ScanHeld(prefix, limit);
      if !HasPrefix(device, prefix) && !HasPrefix(LOCALHOST, prefix) {
        return theirs;
      }
      out := MergeBoth(MapScan(own, prefix, limit), theirs, limit);
    }

    method MergeBoth(mine: Listing, theirs: Listing, limit: nat) returns (out: Listing)
      ensures out == Merge(mine, theirs, limit, 0)
    {
      hide KeyLess, Merge;
      out := [];
      var i, j := 0, 0;
      assert mine[0..] == mine && theirs[0..] == theirs;
      while limit == 0 || |out| < limit
        invariant i <= |mine| && j <= |theirs|
        invariant out + Merge(mine[i..], theirs[j..], limit, |out|) == Merge(mine, theirs, limit, 0)
        decreases |mine| - i + |theirs| - j
      {
        MergeNext(mine, theirs, i, j, limit, |out|);
        ghost var before := out;
        if i < |mine| && (j == |theirs| || !KeyLess(theirs[j].0, mine[i].0)) {
          Rejoin(before, mine[i], Merge(mine[i + 1..], theirs[j..], limit, |out| + 1));
          out := out + [mine[i]];
          i := i + 1;
        } else if j < |theirs| {
          Rejoin(before, theirs[j], Merge(mine[i..], theirs[j + 1..], limit, |out| + 1));
          out := out + [theirs[j]];
          j := j + 1;
        } else {
          break;
        }
      }
      MergeNext(mine, theirs, i, j, limit, |out|);
    }
  }
}
