/** Listing the packets under a prefix from scans of the stripes that may each be cut short. */
module Scans {
  import opened Octets
  import opened Orders
  import opened Names
  import opened Shards
  import opened Stripes

  type Listing = seq<(Name, Bytes)>

  predicate InOrder(l: Listing) {
    forall i, j | 0 <= i < j < |l| :: KeyLess(l[i].0, l[j].0)
  }

  /** Neighbouring rows in the octet order of their keys. */
  ghost predicate OctetOrdered(l: Listing) {
    forall i | 0 <= i < |l| - 1 :: OctetsBefore(Key(l[i].0), Key(l[i + 1].0))
  }

  lemma InOctetOrder(l: Listing)
    requires InOrder(l)
    ensures OctetOrdered(l)
  {
    forall i | 0 <= i < |l| - 1
      ensures OctetsBefore(Key(l[i].0), Key(l[i + 1].0))
    {
      KeyLessIsOctetOrder(l[i].0, l[i + 1].0);
    }
  }

  /** The rows under `p` stand together. */
  ghost predicate Together(l: Listing, p: Name) {
    forall i, j, k | 0 <= i <= j <= k < |l| && p <= l[i].0 && p <= l[k].0 :: p <= l[j].0
  }

  /** In key order the rows under any one prefix stand together. */
  lemma SubtreesAreContiguous(l: Listing, p: Name)
    requires InOrder(l)
    ensures Together(l, p)
  {
    forall i, j, k | 0 <= i <= j <= k < |l| && p <= l[i].0 && p <= l[k].0
      ensures p <= l[j].0
    {
      if i < j < k {
        NothingBetween(p, l[i].0, l[j].0, l[k].0);
      }
    }
  }

  // ---- scans of one plain store ------------------------------------------------------------

  /** The stored names whose key begins with the prefix's key. */
  function NamesUnder(rows: map<Name, Bytes>, prefix: Name): set<Name> {
    set n | n in rows && Key(prefix) <= Key(n)
  }

  /** The names a store's prefix scan returns. */
  function ScanNames(rows: map<Name, Bytes>, prefix: Name, limit: nat): (q: seq<Name>)
    ensures forall x | x in q :: x in NamesUnder(rows, prefix)
    ensures Sorted(KeyLess, q)
  {
    var all := InKeyOrder(NamesUnder(rows, prefix));
    Take(all, limit)
  }

  function Pairs(m: map<Name, Bytes>, q: seq<Name>): (r: Listing)
    requires forall x | x in q :: x in m
    ensures |r| == |q|
  {
    seq(|q|, i requires 0 <= i < |q| => (q[i], m[q[i]]))
  }

  /** A plain store's scan: the first `limit` (0 = all) packets under the prefix, in key order. */
  function MapScan(m: map<Name, Bytes>, prefix: Name, limit: nat): Listing {
    Pairs(m, ScanNames(m, prefix, limit))
  }

  lemma MapScanTake(m: map<Name, Bytes>, prefix: Name, limit: nat)
    ensures MapScan(m, prefix, limit) == Take(MapScan(m, prefix, 0), limit)
  {
  }

  lemma ListsAllUnder(m: map<Name, Bytes>, prefix: Name)
    ensures forall n | n in m && prefix <= n :: (n, m[n]) in MapScan(m, prefix, 0)
  {
    hide KeyLess, Key;
    var q := ScanNames(m, prefix, 0);
    forall n | n in m && prefix <= n
      ensures (n, m[n]) in MapScan(m, prefix, 0)
    {
      KeyPrefix(prefix, n);
      assert n in q;
      var i :| 0 <= i < |q| && q[i] == n;
      assert MapScan(m, prefix, 0)[i] == (n, m[n]);
    }
  }

  /** A plain store's scan lists packets under the prefix, in the octet order of their keys, those under
      any longer prefix together. */
  lemma MapScanInOrder(m: map<Name, Bytes>, prefix: Name, limit: nat)
    ensures InOrder(MapScan(m, prefix, limit)) && OctetOrdered(MapScan(m, prefix, limit))
    ensures forall i | 0 <= i < |MapScan(m, prefix, limit)| ::
              prefix <= MapScan(m, prefix, limit)[i].0 && MapScan(m, prefix, limit)[i].0 in m
    ensures forall p: Name :: Together(MapScan(m, prefix, limit), p)
    ensures limit == 0 ==> forall n | n in m && prefix <= n :: (n, m[n]) in MapScan(m, prefix, limit)
  {
    ListsAllUnder(m, prefix);
    var q := ScanNames(m, prefix, limit);
    hide KeyLess, OctetOrdered, Together, ScanNames;
    forall i | 0 <= i < |q|
      ensures prefix <= q[i] && q[i] in m
    {
      assert q[i] in q;
      KeyPrefix(prefix, q[i]);
    }
    assert InOrder(Pairs(m, q));
    InOctetOrder(Pairs(m, q));
    forall p: Name
      ensures Together(Pairs(m, q), p)
    {
      SubtreesAreContiguous(Pairs(m, q), p);
    }
  }

  // ---- scanning the stripes ----------------------------------------------------------------

  /** What each stripe's scan returned, by name. */
  function Seen(st: Stripes, prefix: Name, stripeLimit: nat): (r: seq<seq<Name>>)
    ensures |r| == |st|
    ensures forall i | 0 <= i < |st| :: r[i] == ScanNames(st[i], prefix, stripeLimit)
  {
    seq(|st|, i requires 0 <= i < |st| => ScanNames(st[i], prefix, stripeLimit))
  }

  predicate CutShort(got: seq<Name>, stripeLimit: nat) {
    stripeLimit > 0 && |got| >= stripeLimit
  }

  /** The smallest last key of the cut-short scans among the first `m`. */
  function Watermark(seen: seq<seq<Name>>, stripeLimit: nat, m: nat): Option<Name>
    requires m <= |seen|
  {
    if m == 0 then None
    else
      var before := Watermark(seen, stripeLimit, m - 1);
      var got := seen[m - 1];
      if CutShort(got, stripeLimit) && (before.None? || KeyLess(got[|got| - 1], before.value))
      then Some(got[|got| - 1])
      else before
  }

  function SeenNames(seen: seq<seq<Name>>, m: nat): set<Name>
    requires m <= |seen|
  {
    set i, x | 0 <= i < m && x in seen[i] :: x
  }

  /** The records the scans brought back for `name`. */
  function SeenRow(st: Stripes, seen: seq<seq<Name>>, name: Name): (r: Row)
    requires |seen| == |st|
    ensures |r| == |st|
  {
    seq(|st|, i requires 0 <= i < |st| =>
      if name in seen[i] && name in st[i] then Some(st[i][name]) else None)
  }

  predicate Beyond(mark: Option<Name>, name: Name) {
    mark.Some? && KeyLess(mark.value, name)
  }

  /** A scan's answer, nothing when it gave up, and the packets it repaired on the way. */
  datatype Outcome = Outcome(answer: Option<Listing>, repaired: seq<Name>)

  ghost function Judge(s: Scheme, st: Stripes, seen: seq<seq<Name>>, names: seq<Name>, mark: Option<Name>,
                       limit: nat, out: Listing, repaired: seq<Name>): Outcome
    requires |seen| == |st|
  {
    if names == [] || (limit > 0 && |out| >= limit) then Outcome(Some(out), repaired)
    else if Beyond(mark, names[0]) then Outcome(None, repaired)
    else
      match Verdict(s, SeenRow(st, seen, names[0]))
      case None => Judge(s, st, seen, names[1..], mark, limit, out, repaired)
      case Some(a) =>
        Judge(s, st, seen, names[1..], mark, limit, out + [(names[0], a.wire)],
              if a.stale == [] then repaired else repaired + [names[0]])
  }

  /** The names scans cut at `stripeLimit` brought back, in the order they are judged. */
  function Queue(st: Stripes, prefix: Name, stripeLimit: nat): (q: seq<Name>)
    ensures Sorted(KeyLess, q) && forall x :: x in q <==> x in SeenNames(Seen(st, prefix, stripeLimit), |st|)
  {
    InKeyOrder(SeenNames(Seen(st, prefix, stripeLimit), |st|))
  }

  function Mark(st: Stripes, prefix: Name, stripeLimit: nat): Option<Name> {
    Watermark(Seen(st, prefix, stripeLimit), stripeLimit, |st|)
  }

  /** Scan every stripe up to `stripeLimit`, then judge the names in key order. */
  ghost function Scan(s: Scheme, st: Stripes, prefix: Name, stripeLimit: nat, limit: nat): Outcome {
    Judge(s, st, Seen(st, prefix, stripeLimit), Queue(st, prefix, stripeLimit), Mark(st, prefix, stripeLimit),
          limit, [], [])
  }

  // ---- what the scan has seen --------------------------------------------------------------

  lemma {:induction false} WatermarkBelow(seen: seq<seq<Name>>, stripeLimit: nat, m: nat, i: nat)
    requires i < m <= |seen| && CutShort(seen[i], stripeLimit)
    ensures Watermark(seen, stripeLimit, m).Some?
    ensures !KeyLess(seen[i][|seen[i]| - 1], Watermark(seen, stripeLimit, m).value)
  {
    var last := seen[i][|seen[i]| - 1];
    if i < m - 1 {
      WatermarkBelow(seen, stripeLimit, m - 1, i);
      var before, w := Watermark(seen, stripeLimit, m - 1).value, Watermark(seen, stripeLimit, m).value;
      KeyOrder({last, before, w});
    } else {
      KeyOrder({last});
    }
  }

  lemma {:induction false} WatermarkCut(seen: seq<seq<Name>>, stripeLimit: nat, m: nat)
    requires m <= |seen| && stripeLimit == 0
    ensures Watermark(seen, stripeLimit, m) == None
  {
    if m > 0 {
      WatermarkCut(seen, stripeLimit, m - 1);
    }
  }

  /** A name a cut-short scan leaves out comes after the last it returned. */
  lemma LeftOutIsLater(rows: map<Name, Bytes>, prefix: Name, limit: nat, name: Name)
    requires name in NamesUnder(rows, prefix) && name !in ScanNames(rows, prefix, limit)
    ensures CutShort(ScanNames(rows, prefix, limit), limit)
    ensures KeyLess(ScanNames(rows, prefix, limit)[|ScanNames(rows, prefix, limit)| - 1], name)
  {
    var all, got := InKeyOrder(NamesUnder(rows, prefix)), ScanNames(rows, prefix, limit);
    var t :| 0 <= t < |all| && all[t] == name;
    assert forall u | 0 <= u < |got| :: got[u] == all[u] && got[u] in got;
  }

  /** Every stripe that holds a name not beyond the watermark has returned it. */
  lemma SeenCompletely(st: Stripes, prefix: Name, stripeLimit: nat, name: Name, i: nat)
    requires i < |st|
    requires !Beyond(Mark(st, prefix, stripeLimit), name)
    ensures name in Seen(st, prefix, stripeLimit)[i] <==> name in NamesUnder(st[i], prefix)
  {
    var seen := Seen(st, prefix, stripeLimit);
    if name in NamesUnder(st[i], prefix) && name !in seen[i] {
      LeftOutIsLater(st[i], prefix, stripeLimit, name);
      WatermarkBelow(seen, stripeLimit, |st|, i);
      KeyOrder({seen[i][|seen[i]| - 1], Mark(st, prefix, stripeLimit).value, name});
      assert false;
    }
  }

  lemma SeenRowComplete(st: Stripes, prefix: Name, stripeLimit: nat, name: Name)
    requires Key(prefix) <= Key(name)
    requires !Beyond(Mark(st, prefix, stripeLimit), name)
    ensures SeenRow(st, Seen(st, prefix, stripeLimit), name) == RowOf(st, name)
  {
    forall i | 0 <= i < |st|
      ensures SeenRow(st, Seen(st, prefix, stripeLimit), name)[i] == RowOf(st, name)[i]
    {
      SeenCompletely(st, prefix, stripeLimit, name, i);
    }
  }

  // ---- the answer --------------------------------------------------------------------------

  /** The names of `q` that read, with their wires. */
  function Reads(m: map<Name, Bytes>, q: seq<Name>): Listing {
    if q == [] then []
    else
      var before := Reads(m, q[..|q| - 1]);
      var x := q[|q| - 1];
      if x in m then before + [(x, m[x])] else before
  }

  lemma ReadsNext(m: map<Name, Bytes>, q: seq<Name>, j: nat)
    requires j < |q|
    ensures Reads(m, q[..j + 1]) == Reads(m, q[..j]) + if q[j] in m then [(q[j], m[q[j]])] else []
  {
    assert q[..j + 1][..j] == q[..j];
  }

  /** Judging one more name on what the scans brought back is reading it. */
  lemma JudgedNext(s: Scheme, st: Stripes, prefix: Name, stripeLimit: nat, name: Name)
    requires s.Valid() && |st| == s.n && Key(prefix) <= Key(name)
    requires !Beyond(Mark(st, prefix, stripeLimit), name)
    ensures match Verdict(s, SeenRow(st, Seen(st, prefix, stripeLimit), name))
            case None => name !in Readable(s, st)
            case Some(a) => name in Readable(s, st) && Readable(s, st)[name] == a.wire
  {
    SeenRowComplete(st, prefix, stripeLimit, name);
    ReadableIsVerdict(s, st, name);
  }

  /** How far `Judge` got: it answers with what reads among the names it judged, none of them beyond
      the watermark, and stops early only at `limit` packets; it gives up only on a name beyond. */
  lemma {:induction false} JudgedSoFar(s: Scheme, st: Stripes, prefix: Name, stripeLimit: nat, limit: nat,
                                      q: seq<Name>, j: nat, out: Listing, repaired: seq<Name>)
    returns (k: nat)
    requires s.Valid() && |st| == s.n && j <= |q|
    requires forall x | x in q :: Key(prefix) <= Key(x)
    requires out == Reads(Readable(s, st), q[..j])
    requires limit > 0 ==> |out| <= limit
    requires forall i | 0 <= i < j :: !Beyond(Mark(st, prefix, stripeLimit), q[i])
    ensures j <= k <= |q|
    ensures var mark := Mark(st, prefix, stripeLimit);
            var answer := Judge(s, st, Seen(st, prefix, stripeLimit), q[j..], mark, limit, out, repaired).answer;
            && (forall i | 0 <= i < k :: !Beyond(mark, q[i]))
            && match answer
               case None => k < |q| && Beyond(mark, q[k])
               case Some(r) =>
                 && r == Reads(Readable(s, st), q[..k])
                 && (limit > 0 ==> |r| <= limit)
                 && (k == |q| || (limit > 0 && |r| == limit))
    decreases |q| - j
  {
    var seen, mark := Seen(st, prefix, stripeLimit), Mark(st, prefix, stripeLimit);
    k := j;
    if j == |q| || (limit > 0 && |out| >= limit) {
    } else if Beyond(mark, q[j]) {
    } else {
      assert q[j] in q;
      JudgedNext(s, st, prefix, stripeLimit, q[j]);
      ReadsNext(Readable(s, st), q, j);
      assert q[j..][1..] == q[j + 1..];
      match Verdict(s, SeenRow(st, seen, q[j])) {
        case None =>
          k := JudgedSoFar(s, st, prefix, stripeLimit, limit, q, j + 1, out, repaired);
        case Some(a) =>
          var more := if a.stale == [] then repaired else repaired + [q[j]];
          k := JudgedSoFar(s, st, prefix, stripeLimit, limit, q, j + 1, out + [(q[j], a.wire)], more);
      }
    }
  }

  lemma {:induction false} ReadsPrefix(m: map<Name, Bytes>, p: seq<Name>, q: seq<Name>)
    requires p <= q
    ensures Reads(m, p) <= Reads(m, q)
  {
    if |p| < |q| {
      assert p <= q[..|q| - 1];
      ReadsPrefix(m, p, q[..|q| - 1]);
    } else {
      assert p == q;
    }
  }

  /** Every packet that reads under the prefix, in key order. */
  ghost function All(s: Scheme, st: Stripes, prefix: Name): Listing {
    MapScan(Readable(s, st), prefix, 0)
  }

  function StoredUnder(st: Stripes, prefix: Name): set<Name> {
    set n | n in StoredNames(st) && Key(prefix) <= Key(n)
  }

  lemma {:induction false} ReadsSound(m: map<Name, Bytes>, q: seq<Name>)
    ensures forall i | 0 <= i < |Reads(m, q)| ::
              Reads(m, q)[i].0 in q && Reads(m, q)[i].0 in m && Reads(m, q)[i].1 == m[Reads(m, q)[i].0]
  {
    if q != [] {
      ReadsSound(m, q[..|q| - 1]);
    }
  }

  lemma {:induction false} ReadsInOrder(m: map<Name, Bytes>, q: seq<Name>)
    requires Sorted(KeyLess, q)
    ensures forall i, j | 0 <= i < j < |Reads(m, q)| :: KeyLess(Reads(m, q)[i].0, Reads(m, q)[j].0)
  {
    if q != [] {
      var before, last := q[..|q| - 1], q[|q| - 1];
      ReadsInOrder(m, before);
      ReadsSound(m, before);
      assert forall x | x in before :: KeyLess(x, last);
    }
  }

  lemma {:induction false} ReadsComplete(m: map<Name, Bytes>, q: seq<Name>, x: Name)
    requires x in q && x in m
    ensures (x, m[x]) in Reads(m, q)
  {
    var before, last := q[..|q| - 1], q[|q| - 1];
    if x in before {
      ReadsComplete(m, before, x);
    } else {
      assert Reads(m, q)[|Reads(m, before)|] == (x, m[x]);
    }
  }

  /** Sorted listings of the same packets are the same listing. */
  lemma ListingUnique(m: map<Name, Bytes>, p: Listing, q: seq<Name>)
    requires Sorted(KeyLess, q) && forall x | x in q :: x in m
    requires forall i | 0 <= i < |p| :: p[i].0 in q && p[i].1 == m[p[i].0]
    requires forall i, j | 0 <= i < j < |p| :: KeyLess(p[i].0, p[j].0)
    requires forall x | x in q :: (x, m[x]) in p
    ensures p == Pairs(m, q)
  {
    var names := seq(|p|, i requires 0 <= i < |p| => p[i].0);
    forall x | x in q
      ensures x in names
    {
      var i :| 0 <= i < |p| && p[i] == (x, m[x]);
      assert names[i] == x;
    }
    KeyOrder(Elements(names));
    SortedUnique(KeyLess, names, q);
  }

  /** Judging all stored names in order lists exactly the packets that read. */
  lemma AllIsReads(s: Scheme, st: Stripes, prefix: Name)
    ensures All(s, st, prefix) == Reads(Readable(s, st), InKeyOrder(StoredUnder(st, prefix)))
  {
    var m, q := Readable(s, st), InKeyOrder(StoredUnder(st, prefix));
    var names := InKeyOrder(NamesUnder(m, prefix));
    ReadsSound(m, q);
    ReadsInOrder(m, q);
    forall x | x in names
      ensures (x, m[x]) in Reads(m, q)
    {
      assert x in StoredUnder(st, prefix);
      ReadsComplete(m, q, x);
    }
    forall i | 0 <= i < |Reads(m, q)|
      ensures Reads(m, q)[i].0 in names
    {
      assert Reads(m, q)[i].0 in NamesUnder(m, prefix);
    }
    ListingUnique(m, Reads(m, q), names);
  }

  lemma SeenAreStored(st: Stripes, prefix: Name, stripeLimit: nat)
    ensures SeenNames(Seen(st, prefix, stripeLimit), |st|) <= StoredUnder(st, prefix)
  {
    var seen := Seen(st, prefix, stripeLimit);
    forall x | x in SeenNames(seen, |st|)
      ensures x in StoredUnder(st, prefix)
    {
      var i :| 0 <= i < |st| && x in seen[i];
      assert x in NamesUnder(st[i], prefix);
    }
  }

  lemma StoredIsSeen(st: Stripes, prefix: Name, stripeLimit: nat, y: Name)
    requires y in StoredUnder(st, prefix)
    requires !Beyond(Mark(st, prefix, stripeLimit), y)
    ensures y in SeenNames(Seen(st, prefix, stripeLimit), |st|)
  {
    var i :| 0 <= i < |st| && y in st[i];
    SeenCompletely(st, prefix, stripeLimit, y, i);
  }

  lemma NotBeyondBelow(mark: Option<Name>, x: Name, y: Name)
    requires !Beyond(mark, x) && KeyLess(y, x)
    ensures !Beyond(mark, y)
  {
    KeyOrder({x, y} + if mark.Some? then {mark.value} else {});
  }

  lemma EarlierInPrefix(q: seq<Name>, k: nat, x: Name, y: Name)
    requires Sorted(KeyLess, q) && k <= |q| && x in q[..k] && y in q && KeyLess(y, x)
    ensures y in q[..k]
  {
    KeyOrder(Elements(q));
    var j :| 0 <= j < k && q[..k][j] == x;
    var t :| 0 <= t < |q| && q[t] == y;
    assert q[j] in Elements(q) && q[t] in Elements(q);
    assert t < j;
    assert q[..k][t] == y;
  }

  lemma EarlierIsJudged(st: Stripes, prefix: Name, stripeLimit: nat, k: nat, x: Name, y: Name)
    requires k <= |Queue(st, prefix, stripeLimit)| && x in Queue(st, prefix, stripeLimit)[..k]
    requires !Beyond(Mark(st, prefix, stripeLimit), x) && y in StoredUnder(st, prefix) && KeyLess(y, x)
    ensures y in Queue(st, prefix, stripeLimit)[..k]
  {
    var q := Queue(st, prefix, stripeLimit);
    NotBeyondBelow(Mark(st, prefix, stripeLimit), x, y);
    StoredIsSeen(st, prefix, stripeLimit, y);
    EarlierInPrefix(q, k, x, y);
  }

  /** The names judged are an initial segment of all stored names. */
  lemma JudgedArePrefix(st: Stripes, prefix: Name, stripeLimit: nat, k: nat)
    requires k <= |Queue(st, prefix, stripeLimit)|
    requires forall i | 0 <= i < k :: !Beyond(Mark(st, prefix, stripeLimit), Queue(st, prefix, stripeLimit)[i])
    ensures Queue(st, prefix, stripeLimit)[..k] <= InKeyOrder(StoredUnder(st, prefix))
  {
    hide Queue, Mark, Seen, SeenNames, StoredUnder, Beyond, KeyLess, InKeyOrder;
    var q := Queue(st, prefix, stripeLimit);
    SeenAreStored(st, prefix, stripeLimit);
    forall x, y | x in q[..k] && y in StoredUnder(st, prefix) && KeyLess(y, x)
      ensures y in q[..k]
    {
      EarlierIsJudged(st, prefix, stripeLimit, k, x, y);
    }
    ClosedPrefix(q[..k], StoredUnder(st, prefix));
  }

  lemma ClosedPrefix(part: seq<Name>, whole: set<Name>)
    requires Sorted(KeyLess, part) && forall x | x in part :: x in whole
    requires forall x, y | x in part && y in whole && KeyLess(y, x) :: y in part
    ensures part <= InKeyOrder(whole)
  {
    KeyOrder(whole);
    DownClosedPrefix(KeyLess, Elements(part), whole);
    SortedUnique(KeyLess, part, InKeyOrder(Elements(part)));
  }

  /** What one scan promises: an initial segment of the packets that read, never more than `limit`;
      the first `limit` of them when no stripe was cut short or `limit` were found. */
  lemma ScanIsInitialSegment(s: Scheme, st: Stripes, prefix: Name, stripeLimit: nat, limit: nat)
    returns (k: nat)
    requires s.Valid() && |st| == s.n
    ensures var mark, q := Mark(st, prefix, stripeLimit), Queue(st, prefix, stripeLimit);
            && k <= |q|
            && match Scan(s, st, prefix, stripeLimit, limit).answer
               case None => k < |q| && Beyond(mark, q[k])
               case Some(r) =>
                 && r <= All(s, st, prefix)
                 && r == Reads(Readable(s, st), q[..k])
                 && (forall i | 0 <= i < k :: !Beyond(mark, q[i]))
                 && (limit > 0 ==> |r| <= limit)
                 && (k == |q| || (limit > 0 && |r| == limit))
  {
    var q := Queue(st, prefix, stripeLimit);
    SeenAreStored(st, prefix, stripeLimit);
    assert q[..0] == [] && q[0..] == q;
    k := JudgedSoFar(s, st, prefix, stripeLimit, limit, q, 0, [], []);
    JudgedArePrefix(st, prefix, stripeLimit, k);
    ReadsPrefix(Readable(s, st), q[..k], InKeyOrder(StoredUnder(st, prefix)));
    AllIsReads(s, st, prefix);
  }
}
