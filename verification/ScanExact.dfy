/** When a limited scan of the erasure store is the scan of the map it stands for. */
module ScanExact {
  import opened Octets
  import opened Orders
  import opened Names
  import opened Shards
  import opened Stripes
  import opened Scans

  /** The cut-short scan, or the full one when that gave up; repairs of the first are already in the
      stripes the second reads. */
  ghost function ScanUnder(s: Scheme, st: Stripes, prefix: Name, limit: nat): Listing
    requires |st| <= 255
  {
    var first := Scan(s, st, prefix, limit, limit);
    match first.answer
    case Some(r) => r
    case None => FullScan(s, RepairedEach(s, st, first.repaired), prefix, limit)
  }

  /** The packets the scan and its fallback repair. */
  ghost function ScanRepairs(s: Scheme, st: Stripes, prefix: Name, limit: nat): seq<Name>
    requires |st| <= 255
  {
    var first := Scan(s, st, prefix, limit, limit);
    match first.answer
    case Some(r) => first.repaired
    case None => first.repaired + Scan(s, RepairedEach(s, st, first.repaired), prefix, 0, limit).repaired
  }

  ghost function FullScan(s: Scheme, st: Stripes, prefix: Name, limit: nat): Listing {
    match Scan(s, st, prefix, 0, limit).answer
    case Some(r) => r
    case None => []
  }

  // ---- a finished scan against the list of all packets that read ---------------------------

  /** How the answer `r` of a scan relates to `all`, the packets that read: it is an initial segment;
      short of `limit`, nothing judged lay beyond the watermark and the first packet it lacks does;
      at `limit`, none of its packets does. */
  ghost predicate Answers(mark: Option<Name>, q: seq<Name>, all: Listing, r: Listing, limit: nat) {
    && r <= all
    && (limit > 0 ==> |r| <= limit)
    && (limit == 0 || |r| < limit ==>
          && (forall x | x in q :: !Beyond(mark, x))
          && (|r| < |all| ==> Beyond(mark, all[|r|].0))
          && (|r| == |all| ==> forall i | 0 <= i < |all| :: !Beyond(mark, all[i].0)))
    && (0 < limit == |r| ==> forall i | 0 <= i < limit :: !Beyond(mark, all[i].0))
  }

  /** Nothing the scans brought back lies beyond the watermark, and yet one of the first `limit`
      packets does. */
  ghost predicate StarvedOn(mark: Option<Name>, q: seq<Name>, all: Listing, limit: nat) {
    && (forall x | x in q :: !Beyond(mark, x))
    && exists m | 0 <= m < |all| && m < limit :: Beyond(mark, all[m].0)
  }

  lemma AnswersExact(mark: Option<Name>, q: seq<Name>, all: Listing, r: Listing, limit: nat)
    requires Answers(mark, q, all, r, limit) && (limit == 0 ==> mark == None)
    ensures r == Take(all, limit) <==> !StarvedOn(mark, q, all, limit)
  {
  }

  lemma AnswersFound(mark: Option<Name>, q: seq<Name>, all: Listing, r: Listing, limit: nat)
    requires Answers(mark, q, all, r, limit) && (limit == 0 ==> mark == None)
    requires mark == None || |r| >= limit
    ensures r == Take(all, limit)
  {
    AnswersExact(mark, q, all, r, limit);
  }

  /** `l` lists packets of `m` with names among `names`, in key order. */
  ghost predicate ListsFrom(m: map<Name, Bytes>, names: set<Name>, l: Listing) {
    && (forall i | 0 <= i < |l| :: l[i].0 in names && l[i].0 in m && l[i].1 == m[l[i].0])
    && InOrder(l)
  }

  lemma ReadsListsFrom(m: map<Name, Bytes>, names: set<Name>, q: seq<Name>)
    requires Sorted(KeyLess, q) && forall x | x in q :: x in names
    ensures ListsFrom(m, names, Reads(m, q))
  {
    ReadsSound(m, q);
    ReadsInOrder(m, q);
  }

  lemma AllFacts(s: Scheme, st: Stripes, prefix: Name)
    ensures ListsFrom(Readable(s, st), StoredUnder(st, prefix), All(s, st, prefix))
  {
    AllIsReads(s, st, prefix);
    ReadsListsFrom(Readable(s, st), StoredUnder(st, prefix), InKeyOrder(StoredUnder(st, prefix)));
  }

  /** The first packet a finished, cut-short scan lacks lies beyond the watermark. */
  lemma NextIsBeyond(s: Scheme, st: Stripes, prefix: Name, stripeLimit: nat, r: Listing)
    requires r == Reads(Readable(s, st), Queue(st, prefix, stripeLimit))
    requires r <= All(s, st, prefix) && |r| < |All(s, st, prefix)|
    ensures Beyond(Mark(st, prefix, stripeLimit), All(s, st, prefix)[|r|].0)
  {
    var m, all, q := Readable(s, st), All(s, st, prefix), Queue(st, prefix, stripeLimit);
    AllFacts(s, st, prefix);
    var x := all[|r|].0;
    if !Beyond(Mark(st, prefix, stripeLimit), x) {
      StoredIsSeen(st, prefix, stripeLimit, x);
      ReadsComplete(m, q, x);
      NotListedTwice(all, r, x, m[x]);
    }
  }

  lemma NotListedTwice(all: Listing, r: Listing, x: Name, wire: Bytes)
    requires r <= all && |r| < |all| && all[|r|].0 == x
    requires InOrder(all)
    ensures (x, wire) !in r
  {
    KeyOrder({x});
    forall i | 0 <= i < |r|
      ensures r[i].0 != x
    {
      assert KeyLess(all[i].0, all[|r|].0);
    }
  }

  lemma JudgedAreWithin(m: map<Name, Bytes>, mark: Option<Name>, q: seq<Name>, k: nat, all: Listing, r: Listing)
    requires k <= |q| && forall i | 0 <= i < k :: !Beyond(mark, q[i])
    requires r == Reads(m, q[..k]) && r <= all
    ensures forall i | 0 <= i < |r| :: !Beyond(mark, all[i].0)
    ensures k == |q| ==> forall x | x in q :: !Beyond(mark, x)
  {
    ReadsSound(m, q[..k]);
    forall i | 0 <= i < |r|
      ensures !Beyond(mark, all[i].0)
    {
      assert all[i] == r[i] && r[i].0 in q[..k];
    }
  }

  lemma Answered(mark: Option<Name>, q: seq<Name>, k: nat, all: Listing, r: Listing, limit: nat)
    requires r <= all && (limit > 0 ==> |r| <= limit)
    requires k == |q| || (limit > 0 && |r| == limit)
    requires k == |q| ==> forall x | x in q :: !Beyond(mark, x)
    requires k == |q| && |r| < |all| ==> Beyond(mark, all[|r|].0)
    requires forall i | 0 <= i < |r| :: !Beyond(mark, all[i].0)
    ensures Answers(mark, q, all, r, limit)
  {
  }

  lemma ScanAnswers(s: Scheme, st: Stripes, prefix: Name, stripeLimit: nat, limit: nat)
    requires s.Valid() && |st| == s.n
    ensures var mark, q := Mark(st, prefix, stripeLimit), Queue(st, prefix, stripeLimit);
            match Scan(s, st, prefix, stripeLimit, limit).answer
            case None => exists x | x in q :: Beyond(mark, x)
            case Some(r) => Answers(mark, q, All(s, st, prefix), r, limit)
  {
    hide Readable, Scan, Mark, Queue, All, Reads, Beyond;
    var mark, q := Mark(st, prefix, stripeLimit), Queue(st, prefix, stripeLimit);
    var k := ScanIsInitialSegment(s, st, prefix, stripeLimit, limit);
    match Scan(s, st, prefix, stripeLimit, limit).answer {
      case None =>
        assert q[k] in q;
      case Some(r) =>
        var all := All(s, st, prefix);
        JudgedAreWithin(Readable(s, st), mark, q, k, all, r);
        assert k == |q| ==> q[..k] == q;
        if k == |q| && |r| < |all| {
          NextIsBeyond(s, st, prefix, stripeLimit, r);
        }
        Answered(mark, q, k, all, r, limit);
    }
  }

  lemma NoMarkWithoutLimit(st: Stripes, prefix: Name, limit: nat)
    ensures limit == 0 ==> Mark(st, prefix, limit) == None
  {
    if limit == 0 {
      WatermarkCut(Seen(st, prefix, 0), 0, |st|);
    }
  }

  // ---- exactness ---------------------------------------------------------------------------

  ghost predicate Starved(s: Scheme, st: Stripes, prefix: Name, limit: nat) {
    StarvedOn(Mark(st, prefix, limit), Queue(st, prefix, limit), All(s, st, prefix), limit)
  }

  /** A scan no stripe's limit cut short is exact. */
  lemma FullScanIsExact(s: Scheme, st: Stripes, prefix: Name, limit: nat)
    requires s.Valid() && |st| == s.n
    ensures Scan(s, st, prefix, 0, limit).answer == Some(MapScan(Readable(s, st), prefix, limit))
    ensures FullScan(s, st, prefix, limit) == MapScan(Readable(s, st), prefix, limit)
  {
    hide Readable, Scan, MapScan;
    ScanAnswers(s, st, prefix, 0, limit);
    NoMarkWithoutLimit(st, prefix, 0);
    var r := Scan(s, st, prefix, 0, limit).answer.value;
    AnswersExact(None, Queue(st, prefix, 0), All(s, st, prefix), r, limit);
    MapScanTake(Readable(s, st), prefix, limit);
  }

  /** The answer of a cut-short scan: the first `limit` packets exactly unless it was starved. */
  lemma AnswerIsExact(s: Scheme, st: Stripes, prefix: Name, limit: nat)
    requires s.Valid() && |st| == s.n
    requires Scan(s, st, prefix, limit, limit).answer.Some?
    ensures var r := Scan(s, st, prefix, limit, limit).answer.value;
            && r <= All(s, st, prefix)
            && (limit > 0 ==> |r| <= limit)
            && (r == MapScan(Readable(s, st), prefix, limit) <==> !Starved(s, st, prefix, limit))
  {
    ScanAnswers(s, st, prefix, limit, limit);
    NoMarkWithoutLimit(st, prefix, limit);
    AnswersExact(Mark(st, prefix, limit), Queue(st, prefix, limit), All(s, st, prefix),
                 Scan(s, st, prefix, limit, limit).answer.value, limit);
    MapScanTake(Readable(s, st), prefix, limit);
  }

  /** The scan of the erasure store is an initial segment of the packets that read, whatever it
      repaired on the way, and exactly the plain map's scan if and only if it was not starved. */
  lemma ScanUnderIsMapScan(s: Scheme, st: Stripes, written: Written, prefix: Name, limit: nat)
    requires s.Valid() && |st| == s.n && HonestStore(s, st, written) && NoCollisions(s, written)
    ensures ScanUnder(s, st, prefix, limit) <= All(s, st, prefix)
    ensures limit > 0 ==> |ScanUnder(s, st, prefix, limit)| <= limit
    ensures ScanUnder(s, st, prefix, limit) == MapScan(Readable(s, st), prefix, limit)
       <==> !Starved(s, st, prefix, limit)
  {
    var first := Scan(s, st, prefix, limit, limit);
    if first.answer.Some? {
      AnswerIsExact(s, st, prefix, limit);
    } else {
      FallbackIsExact(s, st, written, prefix, limit, first.repaired);
      ScanAnswers(s, st, prefix, limit, limit);
    }
  }

  /** Whatever the stripes hold, the listing is in the octet order of the keys, of stored names under the
      prefix. */
  lemma ScanUnderInOrder(s: Scheme, st: Stripes, prefix: Name, limit: nat)
    requires s.Valid() && |st| == s.n
    ensures var r := ScanUnder(s, st, prefix, limit);
            InOrder(r) && OctetOrdered(r)
    ensures forall i | 0 <= i < |ScanUnder(s, st, prefix, limit)| ::
              var first := Scan(s, st, prefix, limit, limit);
              var now := if first.answer.Some? then st else RepairedEach(s, st, first.repaired);
              ScanUnder(s, st, prefix, limit)[i].0 in Readable(s, now) && prefix <= ScanUnder(s, st, prefix, limit)[i].0
  {
    hide Readable, Scan, MapScan, OctetOrdered, InOrder, Starved;
    var first := Scan(s, st, prefix, limit, limit);
    if first.answer.Some? {
      AnswerIsExact(s, st, prefix, limit);
      MapScanInOrder(Readable(s, st), prefix, 0);
      PrefixInOrder(first.answer.value, All(s, st, prefix));
    } else {
      var now := RepairedEach(s, st, first.repaired);
      FullScanIsExact(s, now, prefix, limit);
      MapScanInOrder(Readable(s, now), prefix, limit);
    }
  }

  lemma PrefixInOrder(r: Listing, l: Listing)
    requires r <= l && InOrder(l) && OctetOrdered(l)
    ensures InOrder(r) && OctetOrdered(r)
    ensures forall i | 0 <= i < |r| :: r[i] == l[i]
  {
    hide KeyLess, OctetsBefore;
    assert forall i | 0 <= i < |r| :: r[i] == l[i];
  }

  /** Repairs made before it leave the full scan's answer as it was. */
  lemma FallbackIsExact(s: Scheme, st: Stripes, written: Written, prefix: Name, limit: nat, repaired: seq<Name>)
    requires s.Valid() && |st| == s.n && HonestStore(s, st, written) && NoCollisions(s, written)
    ensures FullScan(s, RepairedEach(s, st, repaired), prefix, limit) == MapScan(Readable(s, st), prefix, limit)
    ensures MapScan(Readable(s, st), prefix, limit) == Take(All(s, st, prefix), limit) <= All(s, st, prefix)
  {
    RepairsKeepMap(s, st, written, repaired);
    FullScanIsExact(s, RepairedEach(s, st, repaired), prefix, limit);
    MapScanTake(Readable(s, st), prefix, limit);
  }

  /** When every stored name under the prefix rebuilds, no scan is starved. */
  lemma AllReadableNeverStarved(s: Scheme, st: Stripes, prefix: Name, limit: nat)
    requires forall x | x in StoredUnder(st, prefix) :: x in Readable(s, st)
    ensures !Starved(s, st, prefix, limit)
  {
    var mark, all, seen := Mark(st, prefix, limit), All(s, st, prefix), Seen(st, prefix, limit);
    if m :| 0 <= m < |all| && m < limit && Beyond(mark, all[m].0) {
      var i := MarkedStripe(seen, limit, |st|);
      forall x | x in seen[i]
        ensures exists t | 0 <= t < m :: all[t].0 == x
      {
        MarkIsLast(seen, st, prefix, limit, i, x);
        WithinIsEarly(s, st, prefix, mark, m, x);
      }
      FewNames(seen[i], all, m);
    }
  }

  lemma ReadableIsListed(s: Scheme, st: Stripes, prefix: Name, x: Name) returns (t: nat)
    requires x in StoredUnder(st, prefix) && x in Readable(s, st)
    ensures t < |All(s, st, prefix)| && All(s, st, prefix)[t].0 == x
  {
    AllIsReads(s, st, prefix);
    ReadsComplete(Readable(s, st), InKeyOrder(StoredUnder(st, prefix)), x);
    t :| 0 <= t < |All(s, st, prefix)| && All(s, st, prefix)[t] == (x, Readable(s, st)[x]);
  }

  lemma WithinIsEarly(s: Scheme, st: Stripes, prefix: Name, mark: Option<Name>, m: nat, x: Name)
    requires m < |All(s, st, prefix)| && Beyond(mark, All(s, st, prefix)[m].0)
    requires !Beyond(mark, x) && x in StoredUnder(st, prefix) && x in Readable(s, st)
    ensures exists t | 0 <= t < m :: All(s, st, prefix)[t].0 == x
  {
    AllFacts(s, st, prefix);
    var t := ReadableIsListed(s, st, prefix, x);
    EarlyWhenWithin(All(s, st, prefix), mark, m, t);
  }

  lemma EarlyWhenWithin(all: Listing, mark: Option<Name>, m: nat, t: nat)
    requires m < |all| && t < |all| && Beyond(mark, all[m].0) && !Beyond(mark, all[t].0)
    requires InOrder(all)
    ensures t < m
  {
    KeyOrder({mark.value, all[m].0, all[t].0});
  }

  lemma {:induction false} MarkedStripe(seen: seq<seq<Name>>, stripeLimit: nat, m: nat) returns (i: nat)
    requires m <= |seen| && Watermark(seen, stripeLimit, m).Some?
    ensures i < m && CutShort(seen[i], stripeLimit)
    ensures seen[i][|seen[i]| - 1] == Watermark(seen, stripeLimit, m).value
  {
    if Watermark(seen, stripeLimit, m) == Watermark(seen, stripeLimit, m - 1) {
      i := MarkedStripe(seen, stripeLimit, m - 1);
    } else {
      i := m - 1;
    }
  }

  lemma MarkIsLast(seen: seq<seq<Name>>, st: Stripes, prefix: Name, limit: nat, i: nat, x: Name)
    requires seen == Seen(st, prefix, limit) && i < |st| && x in seen[i]
    requires Mark(st, prefix, limit) == Some(seen[i][|seen[i]| - 1])
    ensures !Beyond(Mark(st, prefix, limit), x)
    ensures x in StoredUnder(st, prefix)
  {
    var t :| 0 <= t < |seen[i]| && seen[i][t] == x;
    var last := seen[i][|seen[i]| - 1];
    KeyOrder({x, last});
    assert x in NamesUnder(st[i], prefix);
  }

  /** More distinct names than places cannot all be among them. */
  lemma FewNames(q: seq<Name>, all: Listing, m: nat)
    requires Sorted(KeyLess, q) && m <= |all|
    requires forall x | x in q :: exists t | 0 <= t < m :: all[t].0 == x
    ensures |q| <= m
  {
    var firsts := set t | 0 <= t < m :: all[t].0;
    FirstsBound(all, m);
    KeyOrder(Elements(q));
    assert |Elements(q)| == |q| by {
      SortedUnique(KeyLess, q, InKeyOrder(Elements(q)));
    }
    assert Elements(q) <= firsts;
    CardMono(Elements(q), firsts);
  }

  lemma {:induction false} FirstsBound(all: Listing, m: nat)
    requires m <= |all|
    ensures |set t | 0 <= t < m :: all[t].0| <= m
  {
    if m > 0 {
      FirstsBound(all, m - 1);
      assert (set t | 0 <= t < m :: all[t].0) == (set t | 0 <= t < m - 1 :: all[t].0) + {all[m - 1].0};
    }
  }

  // ---- the scan that gives up in time ------------------------------------------------------

  /** A cut-short answer is used only when no stripe was cut short or `limit` packets were found. */
  ghost function CarefulScanUnder(s: Scheme, st: Stripes, prefix: Name, limit: nat): Listing
    requires |st| <= 255
  {
    var first := Scan(s, st, prefix, limit, limit);
    if first.answer.Some? && (Mark(st, prefix, limit).None? || |first.answer.value| >= limit)
    then first.answer.value
    else FullScan(s, RepairedEach(s, st, first.repaired), prefix, limit)
  }

  lemma FoundIsExact(s: Scheme, st: Stripes, prefix: Name, limit: nat)
    requires s.Valid() && |st| == s.n && Scan(s, st, prefix, limit, limit).answer.Some?
    requires Mark(st, prefix, limit).None? || |Scan(s, st, prefix, limit, limit).answer.value| >= limit
    ensures Scan(s, st, prefix, limit, limit).answer.value == MapScan(Readable(s, st), prefix, limit)
  {
    hide Scan, Readable, Queue, Seen, MapScan, Mark, Answers;
    NoMarkWithoutLimit(st, prefix, limit);
    ScanAnswers(s, st, prefix, limit, limit);
    AnswersFound(Mark(st, prefix, limit), Queue(st, prefix, limit), All(s, st, prefix),
                 Scan(s, st, prefix, limit, limit).answer.value, limit);
    MapScanTake(Readable(s, st), prefix, limit);
  }

  /** With that check the scan is the plain map's scan on every honest store. */
  lemma CarefulScanIsExact(s: Scheme, st: Stripes, written: Written, prefix: Name, limit: nat)
    requires s.Valid() && |st| == s.n && HonestStore(s, st, written) && NoCollisions(s, written)
    ensures CarefulScanUnder(s, st, prefix, limit) == MapScan(Readable(s, st), prefix, limit)
  {
    hide Scan, Readable, Mark, FullScan, MapScan, All;
    var first := Scan(s, st, prefix, limit, limit);
    if first.answer.Some? && (Mark(st, prefix, limit).None? || |first.answer.value| >= limit) {
      FoundIsExact(s, st, prefix, limit);
    } else {
      FallbackIsExact(s, st, written, prefix, limit, first.repaired);
    }
  }
}
