/** The self-describing shard records of one packet: writing them, checking them, and judging which
    wire a row of stripes holds. */
module Shards {
  import opened Octets
  import opened Orders
  import opened Coding

  /** Where the coded octets begin in a record: after its index, a length and two digests. */
  const HEADER: nat := 1 + 4 + 32 + 32

  /** `k` of `n`, with the codec and the digest the records are made with. */
  datatype Scheme = Scheme(k: nat, n: nat, codec: Codec, hash: Bytes -> Bytes) {
    ghost predicate Valid() {
      && Parameters(k, n)
      && Lawful(codec, k, n)
      && forall b :: |hash(b)| == 32
    }
  }

  // ---- splitting a wire --------------------------------------------------------------------

  /** The length of each of the `k` segments of `len` octets. */
  function ShardLen(len: nat, k: nat): (r: nat)
    requires k >= 1
  {
    var q := (len + (k - 1)) / k;
    if q < 1 then 1 else q
  }

  /** Source segment `i`: the octets of its range that exist, then zeros. */
  function Segment(wire: Bytes, k: nat, i: nat): (r: Bytes)
    requires i < k
    ensures |r| == ShardLen(|wire|, k)
  {
    var len := ShardLen(|wire|, k);
    MulMono(i, i + 1, len);
    var start, end := Min(i * len, |wire|), Min((i + 1) * len, |wire|);
    assert (i + 1) * len == i * len + len;
    wire[start..end] + Zeros(len - (end - start))
  }

  function Sources(wire: Bytes, k: nat): (r: seq<Bytes>)
    ensures |r| == k
    ensures k >= 1 ==> Uniform(r, ShardLen(|wire|, k))
  {
    seq(k, i requires 0 <= i < k => Segment(wire, k, i))
  }

  lemma MulMono(a: nat, b: nat, c: nat)
    requires a <= b
    ensures a * c <= b * c
  {
    assert b * c == a * c + (b - a) * c;
    assert (b - a) * c >= 0;
  }

  /** `k` segments hold the wire; a wire that is not empty leaves fewer than `k` octets of padding. */
  lemma Padding(len: nat, k: nat)
    requires k >= 1
    ensures len <= k * ShardLen(len, k)
    ensures len > 0 ==> k * ShardLen(len, k) - len < k
    ensures len == 0 ==> ShardLen(len, k) == 1
  {
    var q, r := (len + (k - 1)) / k, (len + (k - 1)) % k;
    assert len + (k - 1) == k * q + r;
    if len > 0 && q < 1 {
      MulMono(q, 0, k);
    }
  }

  function Padded(wire: Bytes, k: nat): (r: Bytes)
    requires k >= 1
    ensures |r| == k * ShardLen(|wire|, k)
  {
    Padding(|wire|, k);
    wire + Zeros(k * ShardLen(|wire|, k) - |wire|)
  }

  /** Slice `i` of `b` cut into pieces of `len`. */
  function Slice(b: Bytes, len: nat, i: nat): Bytes
    requires (i + 1) * len <= |b|
  {
    assert (i + 1) * len == i * len + len;
    b[i * len..(i + 1) * len]
  }

  /** Clamping each segment to the wire, or padding the wire and then cutting it, is the same split. */
  lemma SegmentIsSlice(wire: Bytes, k: nat, i: nat)
    requires i < k
    ensures (i + 1) * ShardLen(|wire|, k) <= |Padded(wire, k)|
    ensures Segment(wire, k, i) == Slice(Padded(wire, k), ShardLen(|wire|, k), i)
  {
    var len := ShardLen(|wire|, k);
    MulMono(i + 1, k, len);
    assert (i + 1) * len == i * len + len;
  }

  lemma SliceExtends(b: Bytes, len: nat, i: nat)
    requires (i + 1) * len <= |b|
    ensures i * len <= (i + 1) * len
    ensures b[..i * len] + Slice(b, len, i) == b[..(i + 1) * len]
  {
    assert (i + 1) * len == i * len + len;
  }

  lemma {:induction false} JoinSegments(wire: Bytes, k: nat, m: nat)
    requires m <= k && k >= 1
    ensures m * ShardLen(|wire|, k) <= |Padded(wire, k)|
    ensures Concat(Sources(wire, k)[..m]) == Padded(wire, k)[..m * ShardLen(|wire|, k)]
  {
    hide ShardLen, Padded, Segment, Slice;
    var len, sources := ShardLen(|wire|, k), Sources(wire, k);
    MulMono(m, k, len);
    if m > 0 {
      JoinSegments(wire, k, m - 1);
      SegmentIsSlice(wire, k, m - 1);
      assert sources[..m] == sources[..m - 1] + [sources[m - 1]];
      ConcatSplit(sources[..m - 1], [sources[m - 1]]);
      assert Concat([sources[m - 1]]) == sources[m - 1];
      SliceExtends(Padded(wire, k), len, m - 1);
    } else {
      assert sources[..0] == [];
    }
  }

  /** The segments put end to end and cut to length are the wire again. */
  lemma SourcesRejoin(wire: Bytes, k: nat)
    requires k >= 1
    ensures First(Concat(Sources(wire, k)), |wire|) == wire
  {
    JoinSegments(wire, k, k);
    var joined, padded := Concat(Sources(wire, k)), Padded(wire, k);
    assert Sources(wire, k)[..k] == Sources(wire, k);
    assert joined == padded[..|padded|] == padded;
    assert padded[..|wire|] == wire;
  }

  lemma {:induction false} UniformConcat(parts: seq<Bytes>, len: nat)
    requires Uniform(parts, len)
    ensures |Concat(parts)| == |parts| * len
  {
    if parts != [] {
      UniformConcat(parts[1..], len);
      assert |parts| * len == (|parts| - 1) * len + len;
    }
  }

  // ---- records -----------------------------------------------------------------------------

  /** Which wire a shard says it is part of. */
  datatype Tag = Tag(len: nat, digest: Bytes)

  function TagOf(s: Scheme, wire: Bytes): Tag {
    Tag(|wire|, s.hash(wire))
  }

  function Body(s: Scheme, wire: Bytes, i: nat): Bytes {
    ShardBody(s.codec, s.k, s.n, Sources(wire, s.k), i)
  }

  /** The record stripe `i` stores of `wire`. */
  function Record(s: Scheme, wire: Bytes, i: nat): Bytes
    requires i < 256
  {
    [i] + BigEndian(4, |wire|) + s.hash(wire) + s.hash(Body(s, wire, i)) + Body(s, wire, i)
  }

  datatype Shard = Shard(index: nat, tag: Tag, body: Bytes)

  /** The shard a record holds, when it belongs to this stripe and passes the checks it carries. */
  function ShardOf(s: Scheme, stripe: nat, record: Bytes): Option<Shard> {
    if |record| < HEADER || record[0] != stripe || s.k == 0 then None
    else
      var len := FromBigEndian(record[1..5]);
      var body := record[HEADER..];
      if |body| != ShardLen(len, s.k) || s.hash(body) != record[37..HEADER] then None
      else Some(Shard(stripe, Tag(len, record[5..37]), body))
  }

  /** A written record is a good shard of the wire it was written for, at its own stripe only. */
  lemma RecordIsGood(s: Scheme, wire: Bytes, i: nat)
    requires s.Valid() && |wire| < U32_LIMIT && i < s.n
    ensures ShardOf(s, i, Record(s, wire, i)) == Some(Shard(i, TagOf(s, wire), Body(s, wire, i)))
    ensures forall j: nat | j != i :: ShardOf(s, j, Record(s, wire, i)) == None
  {
    var r := Record(s, wire, i);
    Limits();
    BigEndianRoundTrip(4, |wire|);
    ShardLength(s.codec, s.k, s.n, Sources(wire, s.k), ShardLen(|wire|, s.k), i);
    assert r[1..5] == BigEndian(4, |wire|);
    assert r[5..37] == s.hash(wire);
    assert r[37..HEADER] == s.hash(Body(s, wire, i));
    assert r[HEADER..] == Body(s, wire, i);
  }

  /** A record passes at a stripe exactly when it has the form in which one is written there: the stripe's
      number, the wire's length and digest, the digest of the body, and as much body as a wire of that
      length has in a shard. */
  lemma PassesExactly(s: Scheme, stripe: nat, record: Bytes, shard: Shard)
    requires s.Valid()
    ensures ShardOf(s, stripe, record) == Some(shard)
       <==> && shard.index == stripe < 256
            && shard.tag.len < U32_LIMIT && |shard.tag.digest| == 32
            && |shard.body| == ShardLen(shard.tag.len, s.k)
            && record == [stripe] + BigEndian(4, shard.tag.len) + shard.tag.digest + s.hash(shard.body) + shard.body
  {
    hide ShardLen;
    Limits();
    if shard.tag.len < U32_LIMIT && stripe < 256 && |shard.tag.digest| == 32 {
      BigEndianRoundTrip(4, shard.tag.len);
      var r := [stripe] + BigEndian(4, shard.tag.len) + shard.tag.digest + s.hash(shard.body) + shard.body;
      assert r[1..5] == BigEndian(4, shard.tag.len);
      assert r[5..37] == shard.tag.digest;
      assert r[37..HEADER] == s.hash(shard.body);
      assert r[HEADER..] == shard.body;
    }
    if ShardOf(s, stripe, record) == Some(shard) {
      BigEndianOfRead(record[1..5]);
      FromBigEndianBound(record[1..5]);
      assert record == [record[0]] + record[1..5] + record[5..37] + record[37..HEADER] + record[HEADER..];
    }
  }

  // ---- judging a row of records ------------------------------------------------------------

  type Row = seq<Option<Bytes>>

  function ShardAt(s: Scheme, row: Row, i: nat): Option<Shard>
    requires i < |row|
  {
    match row[i]
    case None => None
    case Some(record) => ShardOf(s, i, record)
  }

  predicate Votes(s: Scheme, row: Row, i: nat, tag: Tag)
    requires i < |row|
  {
    var shard := ShardAt(s, row, i);
    shard.Some? && shard.value.tag == tag
  }

  /** The good shards of `tag` among the first `m` stripes, in stripe order. */
  function MembersTo(s: Scheme, row: Row, tag: Tag, m: nat): (r: seq<Shard>)
    requires m <= |row|
    ensures |r| <= m
    ensures forall j | 0 <= j < |r| :: r[j].index < m && Some(r[j]) == ShardAt(s, row, r[j].index) && r[j].tag == tag
    ensures Ascending(r)
  {
    if m == 0 then []
    else
      var before := MembersTo(s, row, tag, m - 1);
      if Votes(s, row, m - 1, tag) then before + [ShardAt(s, row, m - 1).value] else before
  }

  function Members(s: Scheme, row: Row, tag: Tag): (r: seq<Shard>) {
    MembersTo(s, row, tag, |row|)
  }

  predicate Ascending(members: seq<Shard>) {
    forall i, j | 0 <= i < j < |members| :: members[i].index < members[j].index
  }

  function Held(members: seq<Shard>): set<nat> {
    set j | 0 <= j < |members| :: members[j].index
  }

  lemma HeldSnoc(members: seq<Shard>, last: Shard)
    ensures Held(members + [last]) == Held(members) + {last.index}
  {
    var all := members + [last];
    assert all[|members|] == last;
    assert forall j | 0 <= j < |members| :: all[j] == members[j];
  }

  /** The stripes that vote for `tag`. */
  function Voters(s: Scheme, row: Row, tag: Tag, m: nat): set<nat>
    requires m <= |row|
  {
    set i | 0 <= i < m && Votes(s, row, i, tag)
  }

  lemma VotersNext(s: Scheme, row: Row, tag: Tag, m: nat)
    requires 0 < m <= |row|
    ensures Voters(s, row, tag, m) == Voters(s, row, tag, m - 1) + if Votes(s, row, m - 1, tag) then {m - 1} else {}
    ensures m - 1 !in Voters(s, row, tag, m - 1)
  {
    hide Votes;
  }

  lemma NoVotersYet(s: Scheme, row: Row, tag: Tag)
    ensures MembersTo(s, row, tag, 0) == [] && Voters(s, row, tag, 0) == {} && Held([]) == {}
  {
  }

  /** The shard of stripe `m - 1` joins its group, if it votes for it. */
  lemma GroupNext(s: Scheme, row: Row, tag: Tag, m: nat)
    requires 0 < m <= |row|
    ensures if Votes(s, row, m - 1, tag)
            then ShardAt(s, row, m - 1).Some? && ShardAt(s, row, m - 1).value.index == m - 1
              && MembersTo(s, row, tag, m) == MembersTo(s, row, tag, m - 1) + [ShardAt(s, row, m - 1).value]
            else MembersTo(s, row, tag, m) == MembersTo(s, row, tag, m - 1)
  {
    hide Held, Ascending;
  }

  lemma OneMoreVoter(before: seq<Shard>, last: Shard, voters: set<nat>)
    requires Held(before) == voters && |before| == |voters| && last.index !in voters
    ensures Held(before + [last]) == voters + {last.index} && |before + [last]| == |voters + {last.index}|
  {
    HeldSnoc(before, last);
    hide Held;
  }

  lemma {:induction false} MembersAreVoters(s: Scheme, row: Row, tag: Tag, m: nat)
    requires m <= |row|
    ensures Held(MembersTo(s, row, tag, m)) == Voters(s, row, tag, m)
    ensures |MembersTo(s, row, tag, m)| == |Voters(s, row, tag, m)|
  {
    hide *;
    if m == 0 {
      NoVotersYet(s, row, tag);
    } else {
      MembersAreVoters(s, row, tag, m - 1);
      VotersNext(s, row, tag, m);
      GroupNext(s, row, tag, m);
      if Votes(s, row, m - 1, tag) {
        OneMoreVoter(MembersTo(s, row, tag, m - 1), ShardAt(s, row, m - 1).value, Voters(s, row, tag, m - 1));
      }
    }
  }

  /** The largest group of at least `k` good shards; of equal ones, the one that appears last. */
  ghost predicate Wins(s: Scheme, row: Row, tag: Tag) {
    var m := Members(s, row, tag);
    && |m| >= s.k && |m| > 0
    && forall other: Tag :: Outvoted(Members(s, row, other), m)
  }

  /** A group `m` beats: smaller, or as large and with an earlier first stripe, or the same. */
  predicate Outvoted(o: seq<Shard>, m: seq<Shard>)
    requires |m| > 0
  {
    |o| < |m| || (|o| == |m| && o[0].index <= m[0].index)
  }

  lemma WinnerUnique(s: Scheme, row: Row, a: Tag, b: Tag)
    requires Wins(s, row, a) && Wins(s, row, b)
    ensures a == b
  {
    var ma, mb := Members(s, row, a), Members(s, row, b);
    assert Outvoted(ma, mb) && Outvoted(mb, ma);
    assert ma[0].tag == a && mb[0].tag == b;
  }

  /** The bodies of `members`, by index: what the decoder is given. */
  function Picked(members: seq<Shard>): map<nat, Bytes>
    requires Ascending(members)
  {
    if members == [] then map[]
    else Picked(members[..|members| - 1])[members[|members| - 1].index := members[|members| - 1].body]
  }

  lemma LastIsNew(before: seq<Shard>, last: Shard)
    requires Ascending(before + [last])
    ensures last.index !in Held(before)
  {
    var all := before + [last];
    assert forall j | 0 <= j < |before| :: all[j] == before[j] && all[j].index < all[|before|].index;
  }

  lemma PickedStep(before: seq<Shard>, last: Shard)
    requires Ascending(before) && Ascending(before + [last])
    requires |Picked(before)| == |before| && Picked(before).Keys == Held(before)
    ensures |Picked(before + [last])| == |before| + 1 && Picked(before + [last]).Keys == Held(before + [last])
  {
    hide Held, Ascending;
    LastIsNew(before, last);
    HeldSnoc(before, last);
    assert (before + [last])[..|before|] == before;
  }

  lemma {:induction false} PickedKeys(members: seq<Shard>)
    requires Ascending(members)
    ensures |Picked(members)| == |members| && Picked(members).Keys == Held(members)
  {
    if members != [] {
      var before, last := members[..|members| - 1], members[|members| - 1];
      assert members == before + [last];
      PickedKeys(before);
      PickedStep(before, last);
    }
  }

  lemma {:induction false} PickedBodies(members: seq<Shard>, j: nat)
    requires Ascending(members) && j < |members|
    ensures members[j].index in Picked(members) && Picked(members)[members[j].index] == members[j].body
  {
    if j < |members| - 1 {
      PickedBodies(members[..|members| - 1], j);
    }
  }

  /** The stripes of `0..n` that are not among `members`, in order. */
  function Stale(members: seq<Shard>, n: nat): (r: seq<nat>)
    ensures forall i :: i in r <==> 0 <= i < n && i !in Held(members)
    ensures forall j | 0 <= j < |r| :: r[j] < n
    ensures forall i, j | 0 <= i < j < |r| :: r[i] < r[j]
  {
    if n == 0 then []
    else
      var before := Stale(members, n - 1);
      if n - 1 in Held(members) then before else before + [n - 1]
  }

  /** The answer for one name: the wire, and which stripes a repair would have to write. */
  datatype Assembled = Assembled(wire: Bytes, stale: seq<nat>)

  /** Decode the first `k` of a group and check the result against the group's digest. */
  function DecodeGroup(s: Scheme, row: Row, tag: Tag): Option<Assembled>
    requires |Members(s, row, tag)| >= s.k
  {
    var m := Members(s, row, tag);
    match s.codec.solve(s.k, s.n, Picked(m[..s.k]))
    case None => None
    case Some(segments) =>
      var wire := First(Concat(segments), tag.len);
      if s.hash(wire) == tag.digest then Some(Assembled(wire, Stale(m, |row|))) else None
  }

  /** What a row of records reads as. */
  ghost function Verdict(s: Scheme, row: Row): Option<Assembled> {
    if exists tag :: Wins(s, row, tag)
    then var tag :| Wins(s, row, tag); DecodeGroup(s, row, tag)
    else None
  }

  lemma VerdictOfWinner(s: Scheme, row: Row, tag: Tag)
    requires Wins(s, row, tag)
    ensures Verdict(s, row) == DecodeGroup(s, row, tag)
  {
    forall other | Wins(s, row, other)
      ensures other == tag
    {
      WinnerUnique(s, row, other, tag);
    }
  }

  /** What the decoder is given: `k` voters' bodies. */
  lemma FirstPicks(s: Scheme, row: Row, tag: Tag)
    requires |Members(s, row, tag)| >= s.k
    ensures var picked := Picked(Members(s, row, tag)[..s.k]);
            && |picked| == s.k
            && forall i | i in picked ::
                 i < |row| && Votes(s, row, i, tag) && picked[i] == ShardAt(s, row, i).value.body
  {
    var first := Members(s, row, tag)[..s.k];
    PickedKeys(first);
    forall i | i in Picked(first)
      ensures i < |row| && Votes(s, row, i, tag) && Picked(first)[i] == ShardAt(s, row, i).value.body
    {
      assert i in Held(first);
      var j :| 0 <= j < |first| && first[j].index == i;
      PickedBodies(first, j);
      assert Some(first[j]) == ShardAt(s, row, i);
    }
  }

  /** Whatever a group decodes to has the length and digest the group's records carry. */
  lemma DecodedLength(s: Scheme, row: Row, tag: Tag)
    requires s.Valid() && |Members(s, row, tag)| >= s.k
    requires DecodeGroup(s, row, tag).Some?
    ensures TagOf(s, DecodeGroup(s, row, tag).value.wire) == tag
  {
    FirstPicks(s, row, tag);
    var picked := Picked(Members(s, row, tag)[..s.k]);
    var len := ShardLen(tag.len, s.k);
    assert ShapeLaw(s.codec, s.k, s.n, picked, len);
    UniformConcat(s.codec.solve(s.k, s.n, picked).value, len);
    Padding(tag.len, s.k);
  }

  /** Whatever the stripes hold, an answer has the recorded length and digest of at least `k` records
      that pass their own checks, and the stale stripes are exactly the others. */
  lemma VerdictIsChecked(s: Scheme, row: Row)
    requires s.Valid() && |row| == s.n
    requires Verdict(s, row).Some?
    ensures var a := Verdict(s, row).value;
            var tag := TagOf(s, a.wire);
            && s.k <= |Voters(s, row, tag, s.n)|
            && (forall i :: i in a.stale <==> 0 <= i < s.n && !Votes(s, row, i, tag))
            && forall other: Tag :: |Voters(s, row, other, s.n)| <= |Voters(s, row, tag, s.n)|
  {
    var tag :| Wins(s, row, tag);
    VerdictOfWinner(s, row, tag);
    DecodedLength(s, row, tag);
    MembersAreVoters(s, row, tag, s.n);
    forall other: Tag
      ensures |Voters(s, row, other, s.n)| <= |Voters(s, row, tag, s.n)|
    {
      MembersAreVoters(s, row, other, s.n);
      assert Outvoted(Members(s, row, other), Members(s, row, tag));
    }
  }

  /** Between groups of one size the one that appears last is taken: some stripe votes for the other
      before any votes for it. */
  lemma TiesGoToTheLater(s: Scheme, row: Row, other: Tag)
    requires s.Valid() && |row| == s.n && Verdict(s, row).Some?
    requires var tag := TagOf(s, Verdict(s, row).value.wire);
             other != tag && |Voters(s, row, other, s.n)| == |Voters(s, row, tag, s.n)|
    ensures var tag := TagOf(s, Verdict(s, row).value.wire);
            exists i | i in Voters(s, row, other, s.n) :: forall j | j in Voters(s, row, tag, s.n) :: i < j
  {
    var tag :| Wins(s, row, tag);
    VerdictOfWinner(s, row, tag);
    DecodedLength(s, row, tag);
    MembersAreVoters(s, row, tag, s.n);
    MembersAreVoters(s, row, other, s.n);
    var o, m := Members(s, row, other), Members(s, row, tag);
    assert Outvoted(o, m);
    hide Verdict, Wins, Outvoted, MembersTo, ShardOf;
    var i := o[0].index;
    assert i in Held(o);
    assert o[0].tag == other && m[0].tag == tag && Some(o[0]) == ShardAt(s, row, i);
    forall j | j in Held(m)
      ensures i < j
    {
      var t :| 0 <= t < |m| && m[t].index == j;
      assert m[0].index <= j && i != m[0].index;
    }
  }

  // ---- rows of honest records --------------------------------------------------------------

  /** Stripe `i` of the row holds its record of `wire`. */
  predicate Holds(s: Scheme, row: Row, i: nat, wire: Bytes)
    requires i < |row|
  {
    i < 256 && row[i] == Some(Record(s, wire, i))
  }

  /** No two of `wires` share a length and a digest. */
  ghost predicate CollisionFree(s: Scheme, wires: set<Bytes>) {
    forall a, b | a in wires && b in wires && TagOf(s, a) == TagOf(s, b) :: a == b
  }

  /** The record of stripe `i` fails its own check, or is the record of one of `wires`. */
  ghost predicate HonestAt(s: Scheme, row: Row, i: nat, wires: set<Bytes>)
    requires i < |row|
  {
    ShardAt(s, row, i).Some? ==> exists w | w in wires :: |w| < U32_LIMIT && Holds(s, row, i, w)
  }

  ghost predicate Honest(s: Scheme, row: Row, wires: set<Bytes>) {
    forall i | 0 <= i < |row| :: HonestAt(s, row, i, wires)
  }

  function Holders(s: Scheme, row: Row, wire: Bytes): set<nat> {
    set i | 0 <= i < |row| && Holds(s, row, i, wire)
  }

  lemma HonestVoters(s: Scheme, row: Row, wires: set<Bytes>, w: Bytes)
    requires s.Valid() && |row| == s.n && Honest(s, row, wires) && CollisionFree(s, wires)
    requires w in wires && |w| < U32_LIMIT
    ensures Voters(s, row, TagOf(s, w), s.n) == Holders(s, row, w)
  {
    forall i | 0 <= i < s.n
      ensures Votes(s, row, i, TagOf(s, w)) <==> Holds(s, row, i, w)
    {
      RecordIsGood(s, w, i);
      if Votes(s, row, i, TagOf(s, w)) {
        assert HonestAt(s, row, i, wires);
        var v :| v in wires && |v| < U32_LIMIT && Holds(s, row, i, v);
        RecordIsGood(s, v, i);
      }
    }
  }

  lemma HonestPicks(s: Scheme, row: Row, wires: set<Bytes>, w: Bytes)
    requires s.Valid() && |row| == s.n && Honest(s, row, wires) && CollisionFree(s, wires)
    requires w in wires && |w| < U32_LIMIT && s.k <= |Holders(s, row, w)|
    ensures |Members(s, row, TagOf(s, w))| >= s.k
    ensures Genuine(s.codec, s.k, s.n, Sources(w, s.k), Picked(Members(s, row, TagOf(s, w))[..s.k]))
  {
    var tag := TagOf(s, w);
    HonestVoters(s, row, wires, w);
    MembersAreVoters(s, row, tag, s.n);
    FirstPicks(s, row, tag);
    var picked := Picked(Members(s, row, tag)[..s.k]);
    forall i | i in picked
      ensures i < s.n && picked[i] == Body(s, w, i)
    {
      assert i in Voters(s, row, tag, s.n);
      RecordIsGood(s, w, i);
    }
  }

  lemma HonestDecodes(s: Scheme, row: Row, wires: set<Bytes>, w: Bytes)
    requires s.Valid() && |row| == s.n && Honest(s, row, wires) && CollisionFree(s, wires)
    requires w in wires && |w| < U32_LIMIT && s.k <= |Holders(s, row, w)|
    ensures |Members(s, row, TagOf(s, w))| >= s.k
    ensures DecodeGroup(s, row, TagOf(s, w))
         == Some(Assembled(w, Stale(Members(s, row, TagOf(s, w)), s.n)))
  {
    var tag := TagOf(s, w);
    HonestPicks(s, row, wires, w);
    FirstPicks(s, row, tag);
    SolveGenuine(s.codec, s.k, s.n, Sources(w, s.k), ShardLen(|w|, s.k),
                 Picked(Members(s, row, tag)[..s.k]));
    SourcesDecode(s, row, w);
  }

  lemma SourcesDecode(s: Scheme, row: Row, w: Bytes)
    requires s.k >= 1 && |row| == s.n && |Members(s, row, TagOf(s, w))| >= s.k
    requires s.codec.solve(s.k, s.n, Picked(Members(s, row, TagOf(s, w))[..s.k])) == Some(Sources(w, s.k))
    ensures DecodeGroup(s, row, TagOf(s, w))
         == Some(Assembled(w, Stale(Members(s, row, TagOf(s, w)), s.n)))
  {
    SourcesRejoin(w, s.k);
  }

  /** `a` is one of the wires written to the row, held by at least `k` stripes and by no fewer than
      any other, and exactly the stripes that do not hold it are stale. */
  ghost predicate HonestAnswer(s: Scheme, row: Row, wires: set<Bytes>, a: Assembled) {
    && a.wire in wires && |a.wire| < U32_LIMIT
    && s.k <= |Holders(s, row, a.wire)|
    && (forall i :: i in a.stale <==> 0 <= i < |row| && !Holds(s, row, i, a.wire))
    && forall w | w in wires && |w| < U32_LIMIT :: |Holders(s, row, w)| <= |Holders(s, row, a.wire)|
  }

  lemma HonestWinner(s: Scheme, row: Row, wires: set<Bytes>, tag: Tag)
    requires s.Valid() && |row| == s.n && Honest(s, row, wires) && CollisionFree(s, wires)
    requires Wins(s, row, tag)
    ensures DecodeGroup(s, row, tag).Some? && HonestAnswer(s, row, wires, DecodeGroup(s, row, tag).value)
  {
    var w := WireOfTag(s, row, wires, tag);
    HonestVoters(s, row, wires, w);
    MembersAreVoters(s, row, tag, s.n);
    HonestDecodes(s, row, wires, w);
    forall v | v in wires && |v| < U32_LIMIT
      ensures |Holders(s, row, v)| <= |Holders(s, row, w)|
    {
      HonestVoters(s, row, wires, v);
      MembersAreVoters(s, row, TagOf(s, v), s.n);
      assert Outvoted(Members(s, row, TagOf(s, v)), Members(s, row, tag));
    }
  }

  lemma HonestLoser(s: Scheme, row: Row, wires: set<Bytes>, w: Bytes)
    requires s.Valid() && |row| == s.n && Honest(s, row, wires) && CollisionFree(s, wires)
    requires forall tag :: !Wins(s, row, tag)
    requires w in wires && |w| < U32_LIMIT
    ensures |Holders(s, row, w)| < s.k
  {
    HonestVoters(s, row, wires, w);
    MembersAreVoters(s, row, TagOf(s, w), s.n);
    if |Holders(s, row, w)| >= s.k {
      var tag := WinnerExists(s, row, TagOf(s, w));
    }
  }

  /** An honest row never reads as a mixture: it reads as a wire enough stripes hold, or as nothing
      when no wire is held by enough. */
  lemma HonestVerdict(s: Scheme, row: Row, wires: set<Bytes>)
    requires s.Valid() && |row| == s.n && Honest(s, row, wires) && CollisionFree(s, wires)
    ensures match Verdict(s, row)
            case None => forall w | w in wires && |w| < U32_LIMIT :: |Holders(s, row, w)| < s.k
            case Some(a) => HonestAnswer(s, row, wires, a)
  {
    if tag :| Wins(s, row, tag) {
      VerdictOfWinner(s, row, tag);
      HonestWinner(s, row, wires, tag);
    } else {
      forall w | w in wires && |w| < U32_LIMIT
        ensures |Holders(s, row, w)| < s.k
      {
        HonestLoser(s, row, wires, w);
      }
    }
  }

  /** A tag some stripe votes for is the tag of an honest wire. */
  lemma WireOfTag(s: Scheme, row: Row, wires: set<Bytes>, tag: Tag) returns (w: Bytes)
    requires s.Valid() && |row| == s.n && Honest(s, row, wires)
    requires Members(s, row, tag) != []
    ensures w in wires && |w| < U32_LIMIT && TagOf(s, w) == tag
  {
    var i := Members(s, row, tag)[0].index;
    assert HonestAt(s, row, i, wires);
    w :| w in wires && |w| < U32_LIMIT && Holds(s, row, i, w);
    RecordIsGood(s, w, i);
  }

  /** The labels the row's good shards carry: finitely many groups. */
  function TagsTo(s: Scheme, row: Row, m: nat): set<Tag>
    requires m <= |row|
  {
    set i | 0 <= i < m && ShardAt(s, row, i).Some? :: ShardAt(s, row, i).value.tag
  }

  /** When some group is large enough, one wins. */
  lemma WinnerExists(s: Scheme, row: Row, seed: Tag) returns (tag: Tag)
    requires s.k >= 1 && |Members(s, row, seed)| >= s.k
    ensures Wins(s, row, tag)
  {
    tag := seed;
    var rest := TagsTo(s, row, |row|);
    while rest != {}
      invariant |Members(s, row, tag)| >= s.k
      invariant forall o | o in TagsTo(s, row, |row|) && o !in rest ::
                  Outvoted(Members(s, row, o), Members(s, row, tag))
    {
      var o :| o in rest;
      rest := rest - {o};
      if !Outvoted(Members(s, row, o), Members(s, row, tag)) {
        tag := o;
      }
    }
    forall o: Tag
      ensures Outvoted(Members(s, row, o), Members(s, row, tag))
    {
      if Members(s, row, o) != [] {
        assert Members(s, row, o)[0].tag in TagsTo(s, row, |row|);
      }
    }
  }
}
