/** The erasure-coded holder store: every packet spread over `n` stripes, any `k` of which rebuild it. */
module Held {
  import opened Octets
  import opened Orders
  import opened Names
  import opened Coding
  import opened Shards
  import opened Stripes
  import opened Scans
  import opened ScanExact

  /** The good shards of one wire found so far. */
  datatype Group = Group(tag: Tag, members: seq<Shard>)

  /** The groups of the first `m` stripes' good shards, in order of appearance. */
  ghost predicate Grouped(s: Scheme, row: Row, groups: seq<Group>, m: nat)
    requires m <= |row|
  {
    && Matched(s, row, groups, m)
    && InTurn(groups)
    && forall i | 0 <= i < m :: Covered(s, row, groups, i)
  }

  predicate Matched(s: Scheme, row: Row, groups: seq<Group>, m: nat)
    requires m <= |row|
  {
    forall g | 0 <= g < |groups| ::
      groups[g].members != [] && groups[g].members == MembersTo(s, row, groups[g].tag, m)
  }

  predicate InTurn(groups: seq<Group>) {
    && (forall g | 0 <= g < |groups| :: groups[g].members != [])
    && forall g, h | 0 <= g < h < |groups| :: groups[g].members[0].index < groups[h].members[0].index
  }

  predicate Covered(s: Scheme, row: Row, groups: seq<Group>, i: nat)
    requires i < |row|
  {
    ShardAt(s, row, i).Some? ==> exists g | 0 <= g < |groups| :: groups[g].tag == ShardAt(s, row, i).value.tag
  }

  /** The position of `tag`'s group, or past the end. */
  method FindGroup(groups: seq<Group>, tag: Tag) returns (g: nat)
    ensures g <= |groups| && forall h | 0 <= h < g :: groups[h].tag != tag
    ensures g < |groups| ==> groups[g].tag == tag
  {
    g := 0;
    while g < |groups| && groups[g].tag != tag
      invariant g <= |groups| && forall h | 0 <= h < g :: groups[h].tag != tag
    {
      g := g + 1;
    }
  }

  lemma TagsDiffer(s: Scheme, row: Row, groups: seq<Group>, m: nat)
    requires m <= |row| && Grouped(s, row, groups, m)
    ensures forall g, h | 0 <= g < h < |groups| :: groups[g].tag != groups[h].tag
  {
  }

  /** `groups` after the good shard `shard` joined group `g`, or started the last one. */
  function Joined(groups: seq<Group>, shard: Shard, g: nat): seq<Group> {
    if g < |groups| then groups[g := Group(shard.tag, groups[g].members + [shard])]
    else groups + [Group(shard.tag, [shard])]
  }

  ghost predicate Place(groups: seq<Group>, shard: Shard, g: nat) {
    && g <= |groups| && (g < |groups| ==> groups[g].tag == shard.tag)
    && forall h | 0 <= h < g :: groups[h].tag != shard.tag
  }

  /** A tag without a group has no member yet. */
  lemma NoGroupNoMember(s: Scheme, row: Row, groups: seq<Group>, m: nat, tag: Tag)
    requires m <= |row| && (forall i | 0 <= i < m :: Covered(s, row, groups, i))
    requires forall h | 0 <= h < |groups| :: groups[h].tag != tag
    ensures MembersTo(s, row, tag, m) == []
  {
    forall i | 0 <= i < m
      ensures !Votes(s, row, i, tag)
    {
      assert Covered(s, row, groups, i);
    }
    MembersAreVoters(s, row, tag, m);
    assert Voters(s, row, tag, m) == {};
  }

  lemma MatchedNext(s: Scheme, row: Row, groups: seq<Group>, m: nat, g: nat)
    requires m < |row| && Grouped(s, row, groups, m) && ShardAt(s, row, m).Some?
    requires Place(groups, ShardAt(s, row, m).value, g)
    ensures Matched(s, row, Joined(groups, ShardAt(s, row, m).value, g), m + 1)
  {
    var shard := ShardAt(s, row, m).value;
    var groups' := Joined(groups, shard, g);
    TagsDiffer(s, row, groups, m);
    if g == |groups| {
      NoGroupNoMember(s, row, groups, m, shard.tag);
    }
    forall h | 0 <= h < |groups'|
      ensures groups'[h].members != [] && groups'[h].members == MembersTo(s, row, groups'[h].tag, m + 1)
    {
      if h != g {
        assert groups'[h] == groups[h] && groups[h].tag != shard.tag;
      }
    }
  }

  lemma InTurnNext(s: Scheme, row: Row, groups: seq<Group>, m: nat, g: nat)
    requires m < |row| && Grouped(s, row, groups, m) && ShardAt(s, row, m).Some?
    requires g <= |groups|
    ensures InTurn(Joined(groups, ShardAt(s, row, m).value, g))
  {
    var shard := ShardAt(s, row, m).value;
    var groups' := Joined(groups, shard, g);
    forall h | 0 <= h < |groups|
      ensures groups'[h].members != [] && groups'[h].members[0] == groups[h].members[0]
      ensures groups[h].members[0].index < m
    {
      assert groups[h].members == MembersTo(s, row, groups[h].tag, m);
    }
  }

  lemma CoveredNext(s: Scheme, row: Row, groups: seq<Group>, m: nat, g: nat, i: nat)
    requires m < |row| && ShardAt(s, row, m).Some? && Place(groups, ShardAt(s, row, m).value, g)
    requires i <= m && (i < m ==> Covered(s, row, groups, i))
    ensures Covered(s, row, Joined(groups, ShardAt(s, row, m).value, g), i)
  {
    var groups' := Joined(groups, ShardAt(s, row, m).value, g);
    if i == m {
      assert groups'[g].tag == ShardAt(s, row, m).value.tag;
    } else if ShardAt(s, row, i).Some? {
      var h :| 0 <= h < |groups| && groups[h].tag == ShardAt(s, row, i).value.tag;
      assert groups'[h].tag == groups[h].tag;
    }
  }

  lemma GroupedNext(s: Scheme, row: Row, groups: seq<Group>, m: nat, g: nat)
    requires m < |row| && Grouped(s, row, groups, m) && ShardAt(s, row, m).Some?
    requires Place(groups, ShardAt(s, row, m).value, g)
    ensures Grouped(s, row, Joined(groups, ShardAt(s, row, m).value, g), m + 1)
  {
    hide Matched, InTurn, Covered, Joined;
    MatchedNext(s, row, groups, m, g);
    InTurnNext(s, row, groups, m, g);
    forall i | 0 <= i < m + 1
      ensures Covered(s, row, Joined(groups, ShardAt(s, row, m).value, g), i)
    {
      CoveredNext(s, row, groups, m, g, i);
    }
  }

  lemma GroupedSkip(s: Scheme, row: Row, groups: seq<Group>, m: nat)
    requires m < |row| && Grouped(s, row, groups, m) && ShardAt(s, row, m).None?
    ensures Grouped(s, row, groups, m + 1)
  {
  }

  /** Every good shard has its group when all stripes are in. */
  lemma GroupOf(s: Scheme, row: Row, groups: seq<Group>, tag: Tag)
    requires Grouped(s, row, groups, |row|) && Members(s, row, tag) != []
    ensures exists g | 0 <= g < |groups| :: groups[g].tag == tag && groups[g].members == Members(s, row, tag)
  {
    var i := Members(s, row, tag)[0].index;
    assert Covered(s, row, groups, i);
    var g :| 0 <= g < |groups| && groups[g].tag == ShardAt(s, row, i).value.tag;
    assert groups[g].tag == tag;
  }

  /** The group kept by a left-to-right search for the largest, later ones winning ties. */
  ghost predicate BestAmong(groups: seq<Group>, k: nat, m: nat, best: nat)
    requires m <= |groups|
  {
    if best < m
    then
      && |groups[best].members| >= k
      && (forall g | 0 <= g < best :: |groups[g].members| <= |groups[best].members|)
      && forall g | best < g < m :: |groups[g].members| < |groups[best].members|
    else forall g | 0 <= g < m :: |groups[g].members| < k
  }

  lemma BestWins(s: Scheme, row: Row, groups: seq<Group>, best: nat)
    requires s.Valid() && Grouped(s, row, groups, |row|) && BestAmong(groups, s.k, |groups|, best)
    ensures best < |groups| ==> Wins(s, row, groups[best].tag)
    ensures best >= |groups| ==> Verdict(s, row) == None
  {
    if best < |groups| {
      var m := groups[best].members;
      forall other: Tag
        ensures Outvoted(Members(s, row, other), m)
      {
        if Members(s, row, other) != [] {
          GroupOf(s, row, groups, other);
          var g :| 0 <= g < |groups| && groups[g].tag == other && groups[g].members == Members(s, row, other);
        }
      }
    } else {
      forall tag: Tag
        ensures !Wins(s, row, tag)
      {
        if Members(s, row, tag) != [] {
          GroupOf(s, row, groups, tag);
        }
      }
    }
  }

  class ErasureStore {
    const s: Scheme
    var stripes: Stripes
    /** An insert was refused: a packet given to the store is not kept. */
    var refused: bool

    ghost predicate Valid()
      reads this
    {
      s.Valid() && |stripes| == s.n
    }

    /** Open `n` empty stripes. */
    constructor (s: Scheme)
      requires s.Valid()
      ensures Valid() && this.s == s && !refused && stripes == seq(s.n, i => map[]) && Sound(s, stripes)
    {
      EmptyIsSound(s);
      this.s := s;
      stripes := seq(s.n, i => map[]);
      refused := false;
    }

    /** The `n` shard records of `wire`, stripe order. */
    method Encode(wire: Bytes) returns (out: seq<Bytes>)
      requires s.Valid()
      ensures |out| == s.n && forall i | 0 <= i < s.n :: out[i] == Record(s, wire, i)
    {
      var k, n := s.k, s.n;
      var shardLen := ShardLen(|wire|, k);
      var enc := new Encoder(s.codec, k, n);
      out := [];
      for i := 0 to k
        invariant enc.codec == s.codec && enc.k == k && enc.n == n && fresh(enc)
        invariant |out| == i && enc.sources == Sources(wire, k)[..i]
        invariant forall j | 0 <= j < i :: out[j] == Record(s, wire, j)
      {
        MulMono(i, i + 1, shardLen);
        var start, end := Min(i * shardLen, |wire|), Min((i + 1) * shardLen, |wire|);
        var segment := wire[start..end] + Zeros(shardLen - (end - start));
        assert segment == Sources(wire, k)[i] == Body(s, wire, i);
        out := out + [NewRecord(i, wire, segment)];
        var fed := enc.Feed(segment);
        assert fed;
      }
      for i := k to n
        invariant |out| == i && enc.sources == Sources(wire, k)
        invariant forall j | 0 <= j < i :: out[j] == Record(s, wire, j)
      {
        var parity := enc.Parity(i);
        out := out + [NewRecord(i, wire, parity.value)];
      }
    }

    function NewRecord(index: nat, wire: Bytes, shard: Bytes): (r: Bytes)
      requires index < 256
      ensures shard == Body(s, wire, index) ==> r == Record(s, wire, index)
    {
      [index] + BigEndian(4, |wire|) + s.hash(wire) + s.hash(shard) + shard
    }

    /** Rebuild a packet from its stripes' records: group the good shards by wire, take the largest
        group of at least `k`, decode it and check the result. */
    method Assemble(row: Row) returns (r: Option<Assembled>)
      requires s.Valid() && |row| == s.n
      ensures r == Verdict(s, row)
    {
      var groups: seq<Group> := [];
      for i := 0 to |row|
        invariant Grouped(s, row, groups, i)
      {
        match ShardAt(s, row, i) {
          case None =>
            GroupedSkip(s, row, groups, i);
          case Some(shard) =>
            var g := FindGroup(groups, shard.tag);
            ghost var before := groups;
            if g < |groups| {
              groups := groups[g := Group(shard.tag, groups[g].members + [shard])];
            } else {
              groups := groups + [Group(shard.tag, [shard])];
            }
            GroupedNext(s, row, before, i, g);
        }
      }
      var best := FindBest(groups);
      BestWins(s, row, groups, best);
      if best >= |groups| {
        return None;
      }
      var tag, members := groups[best].tag, groups[best].members;
      VerdictOfWinner(s, row, tag);
      r := Decode(row, tag, members);
    }

    method FindBest(groups: seq<Group>) returns (best: nat)
      ensures BestAmong(groups, s.k, |groups|, best)
    {
      best := |groups|;
      for g := 0 to |groups|
        invariant BestAmong(groups, s.k, g, best) && best <= |groups| && (best < g || best == |groups|)
      {
        if |groups[g].members| >= s.k && (best >= g || |groups[g].members| >= |groups[best].members|) {
          best := g;
        }
      }
    }

    method Decode(row: Row, tag: Tag, members: seq<Shard>) returns (r: Option<Assembled>)
      requires s.Valid() && |row| == s.n && members == Members(s, row, tag) && |members| >= s.k
      ensures r == DecodeGroup(s, row, tag)
    {
      var dec := new Decoder(s.codec, s.k, s.n);
      var j := 0;
      while j < |members| && !dec.IsComplete()
        invariant j <= s.k <= |members| && fresh(dec)
        invariant dec.codec == s.codec && dec.k == s.k && dec.n == s.n
        invariant dec.held == Picked(members[..j]) && |dec.held| == j
      {
        OfferedNext(s, row, tag, j);
        dec.Offer(members[j].index, members[j].body);
        j := j + 1;
      }
      var segments := dec.Recover();
      if segments.None? {
        return None;
      }
      var wire := First(Concat(segments.value), tag.len);
      if s.hash(wire) != tag.digest {
        return None;
      }
      return Some(Assembled(wire, Stale(members, |row|)));
    }

    // ---- reading and repairing -------------------------------------------------------------

    /** Judge the name afresh and write the record of the verdict to every stripe outside its group. */
    method Repair(name: Name)
      requires Valid()
      modifies this`stripes
      ensures Valid() && stripes == Repaired(s, old(stripes), name)
    {
      var now := Assemble(RowOf(stripes, name));
      if now.None? || now.value.stale == [] {
        NothingRewritten(s, stripes, name);
        return;
      }
      var wire, stale := now.value.wire, now.value.stale;
      VerdictStale(s, RowOf(stripes, name));
      var records := Encode(wire);
      assert stripes == Rewritten(s, stripes, name, wire, Elements(stale[..0]));
      for j := 0 to |stale|
        invariant |stripes| == s.n
        invariant stripes == Rewritten(s, old(stripes), name, wire, Elements(stale[..j]))
      {
        RewrittenNext(s, old(stripes), name, wire, stale, j);
        stripes := stripes[stale[j] := stripes[stale[j]][name := records[stale[j]]]];
      }
      assert stale[..|stale|] == stale;
    }

    /** Rebuild a packet from `row`, repairing it on the way when a stripe lacked a good shard. */
    method Rebuild(name: Name, row: Row) returns (r: Option<Bytes>)
      requires Valid() && |row| == s.n
      modifies this`stripes
      ensures Valid()
      ensures match Verdict(s, row)
              case None => r == None && stripes == old(stripes)
              case Some(a) =>
                && r == Some(a.wire)
                && stripes == if a.stale == [] then old(stripes) else Repaired(s, old(stripes), name)
    {
      var got := Assemble(row);
      if got.None? {
        return None;
      }
      if got.value.stale != [] {
        Repair(name);
      }
      return Some(got.value.wire);
    }

    /** Read a packet: the lookup of its name in the map the stripes stand for. */
    method Get(name: Name) returns (r: Option<Bytes>)
      requires Valid()
      modifies this`stripes
      ensures Valid()
      ensures r == Lookup(Readable(s, old(stripes)), name)
      ensures stripes == Repaired(s, old(stripes), name)
      ensures Sound(s, old(stripes)) ==> Sound(s, stripes) && Readable(s, stripes) == Readable(s, old(stripes))
    {
      hide Sound, Readable;
      if Sound(s, stripes) {
        SoundRepair(s, stripes, name);
      }
      ReadableIsVerdict(s, stripes, name);
      NothingRewritten(s, stripes, name);
      r := Rebuild(name, RowOf(stripes, name));
    }

    /** Whether at least `k` stripes hold something under `name`, looked up and not read. */
    method Contains(name: Name) returns (r: bool)
      requires Valid()
      ensures r == (|Present(stripes, name, s.n)| >= s.k)
    {
      var count := 0;
      for i := 0 to s.n
        invariant count == |Present(stripes, name, i)|
      {
        assert Present(stripes, name, i + 1)
            == Present(stripes, name, i) + if name in stripes[i] then {i} else {};
        if name in stripes[i] {
          count := count + 1;
        }
      }
      return count >= s.k;
    }

    // ---- writing ---------------------------------------------------------------------------

    /** Store a packet; one whose length does not fit 32 bits is refused, and stays refused. */
    method Insert(name: Name, wire: Bytes)
      requires Valid()
      modifies this
      ensures Valid()
      ensures |wire| >= U32_LIMIT ==> stripes == old(stripes) && refused
      ensures |wire| < U32_LIMIT ==> stripes == Inserted(s, old(stripes), name, wire) && refused == old(refused)
      ensures Readable(s, stripes)
           == if |wire| < U32_LIMIT then Readable(s, old(stripes))[name := wire] else Readable(s, old(stripes))
      ensures Sound(s, old(stripes)) ==> Sound(s, stripes)
    {
      hide Record, Readable, Inserted, Sound;
      if Sound(s, stripes) {
        WritesKeepSound(s, stripes, name, wire);
      }
      if |wire| >= U32_LIMIT {
        refused := true;
        return;
      }
      var records := Encode(wire);
      for i := 0 to s.n
        invariant |stripes| == s.n && refused == old(refused)
        invariant forall j | 0 <= j < i :: stripes[j] == old(stripes)[j][name := Record(s, wire, j)]
        invariant forall j | i <= j < s.n :: stripes[j] == old(stripes)[j]
      {
        stripes := stripes[i := stripes[i][name := records[i]]];
      }
      InsertedReads(s, old(stripes), name, wire);
      IsInserted(s, old(stripes), stripes, name, wire);
    }

    method Remove(name: Name)
      requires Valid()
      modifies this`stripes
      ensures Valid() && stripes == Removed(old(stripes), name)
      ensures Readable(s, stripes) == Readable(s, old(stripes)) - {name}
      ensures Sound(s, old(stripes)) ==> Sound(s, stripes)
    {
      hide Sound, Readable;
      if Sound(s, stripes) {
        WritesKeepSound(s, stripes, name, []);
      }
      for i := 0 to s.n
        invariant |stripes| == s.n
        invariant forall j | 0 <= j < i :: stripes[j] == old(stripes)[j] - {name}
        invariant forall j | i <= j < s.n :: stripes[j] == old(stripes)[j]
      {
        stripes := stripes[i := stripes[i] - {name}];
      }
      RemovedReads(s, old(stripes), name);
      assert stripes == Removed(old(stripes), name);
    }

    // ---- scanning --------------------------------------------------------------------------

    /** What the stripes' scans brought back, by name, and the watermark. */
    method Gather(prefix: Name, stripeLimit: nat) returns (rows: map<Name, Row>, completeTo: Option<Name>)
      requires Valid()
      ensures RowsTo(stripes, Seen(stripes, prefix, stripeLimit), rows, s.n)
      ensures completeTo == Mark(stripes, prefix, stripeLimit)
    {
      hide RowsTo, ScanNames, KeyLess;
      rows, completeTo := map[], None;
      RowsNone(stripes, Seen(stripes, prefix, stripeLimit));
      for i := 0 to s.n
        invariant RowsTo(stripes, Seen(stripes, prefix, stripeLimit), rows, i)
        invariant completeTo == Watermark(Seen(stripes, prefix, stripeLimit), stripeLimit, i)
      {
        var got := ScanNames(stripes[i], prefix, stripeLimit);
        if CutShort(got, stripeLimit) {
          var last := got[|got| - 1];
          if completeTo.None? || KeyLess(last, completeTo.value) {
            completeTo := Some(last);
          }
        }
        rows := AddRows(prefix, stripeLimit, rows, i, got);
      }
    }

    /** Enter the rows of stripe `i`'s scan. */
    method AddRows(prefix: Name, stripeLimit: nat, before: map<Name, Row>, i: nat, got: seq<Name>)
      returns (rows: map<Name, Row>)
      requires Valid() && i < s.n && got == ScanNames(stripes[i], prefix, stripeLimit)
      requires RowsTo(stripes, Seen(stripes, prefix, stripeLimit), before, i)
      ensures RowsTo(stripes, Seen(stripes, prefix, stripeLimit), rows, i + 1)
    {
      hide RowsWithin, RowsTo, ScanNames, KeyLess;
      ghost var seen := Seen(stripes, prefix, stripeLimit);
      rows := before;
      RowsWithinNone(stripes, seen, rows, i);
      for t := 0 to |got|
        invariant RowsWithin(stripes, seen, rows, i, t)
      {
        assert got[t] in got && got[t] in NamesUnder(stripes[i], prefix);
        NotBefore(got, t);
        RowsWithinNext(stripes, seen, rows, i, t);
        var row := if got[t] in rows then rows[got[t]] else seq(s.n, j => None);
        rows := rows[got[t] := row[i := Some(stripes[i][got[t]])]];
      }
      RowsWithinAll(stripes, seen, rows, i);
    }

    /** The first `limit` (0 = all) packets under `prefix` that rebuild, each stripe scanned up to
        `stripeLimit` (0 = all); nothing when a name beyond the watermark comes up too soon. */
    method Scan(prefix: Name, stripeLimit: nat, limit: nat) returns (r: Option<Listing>)
      requires Valid()
      modifies this`stripes
      ensures Valid()
      ensures r == Scans.Scan(s, old(stripes), prefix, stripeLimit, limit).answer
      ensures stripes
           == RepairedEach(s, old(stripes), Scans.Scan(s, old(stripes), prefix, stripeLimit, limit).repaired)
    {
      var rows, completeTo := Gather(prefix, stripeLimit);
      RowsComplete(stripes, Seen(stripes, prefix, stripeLimit), rows);
      r := JudgeRows(Seen(stripes, prefix, stripeLimit), InKeyOrder(rows.Keys), rows, completeTo, limit);
    }

    /** Rebuild the rows in key order, repairing on the way. */
    method JudgeRows(ghost seen: seq<seq<Name>>, names: seq<Name>, rows: map<Name, Row>, completeTo: Option<Name>,
                     limit: nat) returns (r: Option<Listing>)
      requires Valid() && |seen| == s.n
      requires forall x | x in names :: x in rows && rows[x] == SeenRow(stripes, seen, x)
      modifies this`stripes
      ensures Valid()
      ensures var end := Judge(s, old(stripes), seen, names, completeTo, limit, [], []);
              r == end.answer && stripes == RepairedEach(s, old(stripes), end.repaired)
    {
      hide Judge, Verdict, SeenRow, Repaired, RepairedEach;
      ghost var st := stripes;
      var out: Listing := [];
      ghost var repaired: seq<Name> := [];
      RepairedNone(s, st);
      assert names[0..] == names;
      for j := 0 to |names|
        invariant |stripes| == s.n && stripes == RepairedEach(s, st, repaired)
        invariant Judge(s, st, seen, names[j..], completeTo, limit, out, repaired)
               == Judge(s, st, seen, names, completeTo, limit, [], [])
      {
        JudgeNext(s, st, seen, names, j, completeTo, limit, out, repaired);
        if limit > 0 && |out| >= limit {
          return Some(out);
        }
        if Beyond(completeTo, names[j]) {
          return None;
        }
        var wire := Rebuild(names[j], rows[names[j]]);
        if wire.Some? {
          out := out + [(names[j], wire.value)];
          if Verdict(s, SeenRow(st, seen, names[j])).value.stale != [] {
            RepairedEachNext(s, st, repaired, names[j]);
            repaired := repaired + [names[j]];
          }
        }
      }
      JudgeEnd(s, st, seen, names, completeTo, limit, out, repaired);
      return Some(out);
    }

    method ScanUnder(prefix: Name, limit: nat) returns (r: Listing)
      requires Valid()
      modifies this`stripes
      ensures Valid()
      ensures r == ScanExact.ScanUnder(s, old(stripes), prefix, limit)
      ensures OctetOrdered(r) && forall i | 0 <= i < |r| :: prefix <= r[i].0
      ensures stripes == RepairedEach(s, old(stripes), ScanRepairs(s, old(stripes), prefix, limit))
      ensures Sound(s, old(stripes)) ==> Sound(s, stripes) && Readable(s, stripes) == Readable(s, old(stripes))
    {
      ScanUnderInOrder(s, stripes, prefix, limit);
      hide Scans.Scan, RepairedEach, Sound, Readable, OctetOrdered;
      if Sound(s, stripes) {
        SoundRepairs(s, stripes, ScanRepairs(s, stripes, prefix, limit));
      }
      var first := Scan(prefix, limit, limit);
      if first.Some? {
        return first.value;
      }
      RepairedTwice(s, old(stripes), Scans.Scan(s, old(stripes), prefix, limit, limit).repaired,
                    Scans.Scan(s, stripes, prefix, 0, limit).repaired);
      var full := Scan(prefix, 0, limit);
      return match full case Some(x) => x case None => [];
    }
  }

  lemma RepairedNone(s: Scheme, st: Stripes)
    requires |st| <= 255
    ensures RepairedEach(s, st, []) == st
  {
  }

  lemma {:induction false} RepairedTwice(s: Scheme, st: Stripes, a: seq<Name>, b: seq<Name>)
    requires |st| <= 255
    ensures RepairedEach(s, st, a + b) == RepairedEach(s, RepairedEach(s, st, a), b)
  {
    if b == [] {
      assert a + b == a;
    } else {
      RepairedTwice(s, st, a, b[..|b| - 1]);
      assert (a + b)[..|a + b| - 1] == a + b[..|b| - 1];
    }
  }

  lemma JudgeEnd(s: Scheme, st: Stripes, seen: seq<seq<Name>>, names: seq<Name>, mark: Option<Name>, limit: nat,
                 out: Listing, repaired: seq<Name>)
    requires |seen| == |st|
    ensures Judge(s, st, seen, names[|names|..], mark, limit, out, repaired) == Outcome(Some(out), repaired)
  {
  }

  lemma JudgeNext(s: Scheme, st: Stripes, seen: seq<seq<Name>>, names: seq<Name>, j: nat, mark: Option<Name>,
                  limit: nat, out: Listing, repaired: seq<Name>)
    requires |seen| == |st| && j < |names|
    ensures Judge(s, st, seen, names[j..], mark, limit, out, repaired)
         == if limit > 0 && |out| >= limit then Outcome(Some(out), repaired)
            else if Beyond(mark, names[j]) then Outcome(None, repaired)
            else match Verdict(s, SeenRow(st, seen, names[j]))
                 case None => Judge(s, st, seen, names[j + 1..], mark, limit, out, repaired)
                 case Some(a) =>
                   Judge(s, st, seen, names[j + 1..], mark, limit, out + [(names[j], a.wire)],
                         if a.stale == [] then repaired else repaired + [names[j]])
  {
    hide Verdict, SeenRow;
    assert names[j..][1..] == names[j + 1..];
  }

  lemma NotBefore(q: seq<Name>, t: nat)
    requires Sorted(KeyLess, q) && t < |q|
    ensures q[t] !in q[..t]
  {
    KeyOrder({q[t]});
  }

  function Present(st: Stripes, name: Name, m: nat): set<nat>
    requires m <= |st|
  {
    set i | 0 <= i < m && name in st[i]
  }

  lemma NothingRewritten(s: Scheme, st: Stripes, name: Name)
    requires |st| <= 255
    ensures Verdict(s, RowOf(st, name)).Some? && Verdict(s, RowOf(st, name)).value.stale == []
        ==> Repaired(s, st, name) == st
  {
  }

  lemma VerdictStale(s: Scheme, row: Row)
    requires Verdict(s, row).Some?
    ensures forall j | 0 <= j < |Verdict(s, row).value.stale| :: Verdict(s, row).value.stale[j] < |row|
  {
    var tag :| Wins(s, row, tag);
    VerdictOfWinner(s, row, tag);
  }

  lemma RewrittenNext(s: Scheme, st: Stripes, name: Name, wire: Bytes, which: seq<nat>, j: nat)
    requires |st| <= 255 && j < |which| && which[j] < |st|
    ensures Rewritten(s, st, name, wire, Elements(which[..j + 1]))
         == OneMore(s, Rewritten(s, st, name, wire, Elements(which[..j])), name, wire, which[j])
  {
    assert Elements(which[..j + 1]) == Elements(which[..j]) + {which[j]};
    RewrittenOneMore(s, st, name, wire, Elements(which[..j]), which[j]);
  }

  function OneMore(s: Scheme, st: Stripes, name: Name, wire: Bytes, i: nat): Stripes
    requires i < |st| <= 255
  {
    st[i := st[i][name := Record(s, wire, i)]]
  }

  lemma RewrittenOneMore(s: Scheme, st: Stripes, name: Name, wire: Bytes, which: set<nat>, i: nat)
    requires i < |st| <= 255
    ensures Rewritten(s, st, name, wire, which + {i}) == OneMore(s, Rewritten(s, st, name, wire, which), name, wire, i)
  {
    hide Record;
    var record := Record(s, wire, i);
    assert i in which ==> st[i][name := record][name := record] == st[i][name := record];
  }

  lemma RepairedEachNext(s: Scheme, st: Stripes, names: seq<Name>, name: Name)
    requires |st| <= 255
    ensures RepairedEach(s, st, names + [name]) == Repaired(s, RepairedEach(s, st, names), name)
  {
    assert (names + [name])[..|names|] == names;
  }

  // ---- the rows gathered so far ------------------------------------------------------------

  /** What the scans of the first `m` stripes brought back for `name`. */
  function RowTo(st: Stripes, seen: seq<seq<Name>>, name: Name, m: nat): (r: Row)
    requires |seen| == |st|
    ensures |r| == |st|
  {
    seq(|st|, i requires 0 <= i < |st| =>
      if i < m && name in seen[i] && name in st[i] then Some(st[i][name]) else None)
  }

  ghost predicate RowsTo(st: Stripes, seen: seq<seq<Name>>, rows: map<Name, Row>, m: nat)
    requires |seen| == |st| && m <= |st|
  {
    rows.Keys == SeenNames(seen, m) && forall x | x in rows :: rows[x] == RowTo(st, seen, x, m)
  }

  /** The first `m` stripes' scans and the first `t` rows of the next one are in. */
  ghost predicate RowsWithin(st: Stripes, seen: seq<seq<Name>>, rows: map<Name, Row>, m: nat, t: nat)
    requires |seen| == |st| && m < |st| && t <= |seen[m]|
  {
    && rows.Keys == SeenNames(seen, m) + Elements(seen[m][..t])
    && forall x | x in rows :: rows[x] == RowTo(st, seen, x, if x in seen[m][..t] then m + 1 else m)
  }

  lemma RowsNone(st: Stripes, seen: seq<seq<Name>>)
    requires |seen| == |st|
    ensures RowsTo(st, seen, map[], 0)
  {
  }

  lemma RowsWithinNone(st: Stripes, seen: seq<seq<Name>>, rows: map<Name, Row>, m: nat)
    requires |seen| == |st| && m < |st| && RowsTo(st, seen, rows, m)
    ensures RowsWithin(st, seen, rows, m, 0)
  {
    assert Elements(seen[m][..0]) == {};
  }

  lemma RowsWithinNext(st: Stripes, seen: seq<seq<Name>>, rows: map<Name, Row>, m: nat, t: nat)
    requires |seen| == |st| && m < |st| && t < |seen[m]| && seen[m][t] in st[m]
    requires RowsWithin(st, seen, rows, m, t) && seen[m][t] !in seen[m][..t]
    ensures var name := seen[m][t];
            var row := if name in rows then rows[name] else seq(|st|, j => None);
            && |row| == |st|
            && RowsWithin(st, seen, rows[name := row[m := Some(st[m][name])]], m, t + 1)
  {
    var name := seen[m][t];
    var row := if name in rows then rows[name] else seq(|st|, j => None);
    RowOneMore(st, seen, name, row, m);
    assert seen[m][..t + 1] == seen[m][..t] + [name];
    assert Elements(seen[m][..t + 1]) == Elements(seen[m][..t]) + {name};
  }

  lemma RowOneMore(st: Stripes, seen: seq<seq<Name>>, name: Name, row: Row, m: nat)
    requires |seen| == |st| == |row| && m < |st| && name in seen[m] && name in st[m]
    requires row == RowTo(st, seen, name, m)
    ensures row[m := Some(st[m][name])] == RowTo(st, seen, name, m + 1)
  {
  }

  lemma RowsWithinAll(st: Stripes, seen: seq<seq<Name>>, rows: map<Name, Row>, m: nat)
    requires |seen| == |st| && m < |st| && RowsWithin(st, seen, rows, m, |seen[m]|)
    ensures RowsTo(st, seen, rows, m + 1)
  {
    assert seen[m][..|seen[m]|] == seen[m];
    assert SeenNames(seen, m + 1) == SeenNames(seen, m) + Elements(seen[m]);
    forall x | x in rows && x !in seen[m]
      ensures RowTo(st, seen, x, m + 1) == RowTo(st, seen, x, m)
    {
    }
  }

  lemma RowsComplete(st: Stripes, seen: seq<seq<Name>>, rows: map<Name, Row>)
    requires |seen| == |st| && RowsTo(st, seen, rows, |st|)
    ensures forall x | x in rows :: rows[x] == SeenRow(st, seen, x)
  {
  }

  /** The bodies of one group have one length. */
  lemma MemberLength(s: Scheme, row: Row, tag: Tag, j: nat)
    requires j < |Members(s, row, tag)|
    ensures s.k >= 1 && |Members(s, row, tag)[j].body| == ShardLen(tag.len, s.k)
  {
    hide ShardLen;
    var shard := Members(s, row, tag)[j];
    assert Some(shard) == ShardAt(s, row, shard.index);
  }

  lemma SameLengths(s: Scheme, row: Row, tag: Tag, j: nat)
    requires j < |Members(s, row, tag)|
    ensures var m := Members(s, row, tag);
            forall i | i in Picked(m[..j]) :: |Picked(m[..j])[i]| == |m[j].body|
  {
    var m := Members(s, row, tag);
    var before := m[..j];
    assert Ascending(before);
    hide Members, ShardLen;
    PickedKeys(before);
    MemberLength(s, row, tag, j);
    forall i | i in Picked(before)
      ensures |Picked(before)[i]| == |m[j].body|
    {
      assert i in Held(before);
      var t :| 0 <= t < j && before[t].index == i;
      PickedBodies(before, t);
      MemberLength(s, row, tag, t);
    }
  }

  /** The decoder takes each member of a group until it has `k`. */
  lemma OfferedNext(s: Scheme, row: Row, tag: Tag, j: nat)
    requires s.Valid() && |row| == s.n && j < s.k <= |Members(s, row, tag)|
    ensures var m := Members(s, row, tag);
            && |Picked(m[..j])| == j
            && |Picked(m[..j + 1])| == j + 1
            && Absorb(s.k, s.n, Picked(m[..j]), m[j].index, m[j].body) == Picked(m[..j + 1])
  {
    hide Held;
    var m := Members(s, row, tag);
    var before := m[..j];
    assert m[..j + 1] == before + [m[j]];
    assert (before + [m[j]])[..j] == before;
    PickedKeys(before);
    PickedKeys(m[..j + 1]);
    LastIsNew(before, m[j]);
    SameLengths(s, row, tag, j);
  }

  lemma IsInserted(s: Scheme, before: Stripes, after: Stripes, name: Name, wire: Bytes)
    requires |before| == |after| == s.n <= 255
    requires forall j | 0 <= j < s.n :: after[j] == before[j][name := Record(s, wire, j)]
    ensures after == Inserted(s, before, name, wire)
  {
    hide Record;
  }
}
