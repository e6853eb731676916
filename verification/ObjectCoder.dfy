/** Erasure-coding one object across cluster nodes: `k + redundancy` shards, any `k` of which give the
    object back. */
module ObjectCoder {
  import opened Octets
  import opened Orders
  import opened Names
  import opened Coding
  import opened Shards

  /** What is needed to find the shards, to check each of them and to trim the result. */
  datatype Manifest = Manifest(target: Name, k: u16, n: u16, originalLen: u64, shardLen: u32, shardHashes: seq<Bytes>)

  datatype ObjectShard = ObjectShard(index: u16, name: Name, bytes: Bytes)

  // ---- names -------------------------------------------------------------------------------

  const EC: Component := Component(8, Ascii("EC"))
  const MANIFEST: Component := Component(8, Ascii("manifest"))

  function Decimal(n: nat): (b: Bytes)
    ensures |b| >= 1 && |b| <= n + 1
    ensures forall i | 0 <= i < |b| :: 48 <= b[i] <= 57
    ensures n > 0 ==> b[0] != 48
  {
    if n < 10 then [48 + n] else Decimal(n / 10) + [48 + n % 10]
  }

  function FromDecimal(b: Bytes): int {
    if b == [] then 0
    else
      var digit: int := b[|b| - 1];
      10 * FromDecimal(b[..|b| - 1]) + (digit - 48)
  }

  lemma {:induction false} DecimalRoundTrip(n: nat)
    ensures FromDecimal(Decimal(n)) == n
  {
    if n >= 10 {
      DecimalRoundTrip(n / 10);
      assert Decimal(n)[..|Decimal(n)| - 1] == Decimal(n / 10);
    }
  }

  /** `<object>/EC/<index>`. */
  function ShardName(target: Name, index: u16): Name {
    target + [EC, Component(8, Decimal(index))]
  }

  function ManifestName(target: Name): Name {
    target + [EC, MANIFEST]
  }

  /** Shards of one object have names of their own, and none has the manifest's. */
  lemma ShardNamesDiffer(target: Name, i: u16, j: u16)
    ensures ShardName(target, i) == ShardName(target, j) ==> i == j
    ensures ShardName(target, i) != ManifestName(target)
  {
    var end := |target| + 1;
    assert ShardName(target, i)[end] == Component(8, Decimal(i));
    assert ShardName(target, j)[end] == Component(8, Decimal(j));
    assert ManifestName(target)[end] == MANIFEST && MANIFEST.value[0] == 109;
    DecimalRoundTrip(i);
    DecimalRoundTrip(j);
  }

  // ---- encoding ----------------------------------------------------------------------------

  /** The parameters an object can be coded with. */
  predicate Codable(k: u16, redundancy: u16) {
    k >= 1 && k + redundancy <= 255
  }

  /** Shard `i` of `data`. */
  function ShardOfData(codec: Codec, data: Bytes, k: nat, n: nat, i: nat): Bytes {
    ShardBody(codec, k, n, Sources(data, k), i)
  }

  /** The manifest of `data` coded with `(k, n)`. */
  predicate Describes(m: Manifest, codec: Codec, hash: Bytes -> Bytes, target: Name, data: Bytes, k: u16, n: u16) {
    && m.target == target && m.k == k && m.n == n
    && m.originalLen == |data| % U64_LIMIT && (k >= 1 ==> m.shardLen == ShardLen(|data|, k) % U32_LIMIT)
    && |m.shardHashes| == n
    && forall i | 0 <= i < n :: m.shardHashes[i] == hash(ShardOfData(codec, data, k, n, i))
  }

  datatype Coded = Coded(shards: seq<ObjectShard>, manifest: Manifest)

  /** Split, pad, feed the codec and hash: refused exactly for parameters out of range. */
  method EncodeObject(codec: Codec, hash: Bytes -> Bytes, target: Name, data: Bytes, k: u16, redundancy: u16)
    returns (r: Option<Coded>)
    ensures r.None? <==> k < 1 || k + redundancy > 255
    ensures r.Some? ==>
              && |r.value.shards| == k + redundancy
              && r.value.manifest.originalLen == |data| % U64_LIMIT
              && r.value.manifest.shardLen == ShardLen(|data|, k) % U32_LIMIT
              && (forall i | 0 <= i < k + redundancy ::
                    r.value.shards[i]
                    == ObjectShard(i, ShardName(target, i), ShardOfData(codec, data, k, k + redundancy, i)))
              && Describes(r.value.manifest, codec, hash, target, data, k, k + redundancy)
  {
    if !Codable(k, redundancy) {
      return None;
    }
    hide Produced, Segment, Padded, ShardLen, Slice;
    var n := k + redundancy;
    ProducedNone(codec, hash, target, data, k, n);
    var shardLen := ShardLen(|data|, k);
    var padded := Padded(data, k);
    var enc := new Encoder(codec, k, n);
    var shards: seq<ObjectShard> := [];
    var hashes: seq<Bytes> := [];
    for i := 0 to k
      invariant fresh(enc) && enc.codec == codec && enc.k == k && enc.n == n
      invariant enc.sources == Sources(data, k)[..i]
      invariant Produced(codec, hash, target, data, k, n, shards, hashes, i)
    {
      SegmentIsSlice(data, k, i);
      var segment := Slice(padded, shardLen, i);
      assert segment == Sources(data, k)[i];
      var fed := enc.Feed(segment);
      assert fed;
      ProducedNext(codec, hash, target, data, k, n, shards, hashes, i, segment);
      hashes := hashes + [hash(segment)];
      shards := shards + [ObjectShard(i, ShardName(target, i), segment)];
    }
    for i := k to n
      invariant enc.sources == Sources(data, k)
      invariant Produced(codec, hash, target, data, k, n, shards, hashes, i)
    {
      var parity := enc.Parity(i);
      ProducedNext(codec, hash, target, data, k, n, shards, hashes, i, parity.value);
      hashes := hashes + [hash(parity.value)];
      shards := shards + [ObjectShard(i, ShardName(target, i), parity.value)];
    }
    AllProduced(codec, hash, target, data, k, n, shards, hashes);
    r := Some(Coded(shards, Manifest(target, k, n, |data| % U64_LIMIT, shardLen % U32_LIMIT, hashes)));
  }

  /** The first `m` shards and hashes are made. */
  predicate Produced(codec: Codec, hash: Bytes -> Bytes, target: Name, data: Bytes, k: nat, n: nat,
                     shards: seq<ObjectShard>, hashes: seq<Bytes>, m: nat) {
    && n <= 255 && |shards| == |hashes| == m <= n
    && forall i | 0 <= i < m ::
         && shards[i] == ObjectShard(i, ShardName(target, i), ShardOfData(codec, data, k, n, i))
         && hashes[i] == hash(ShardOfData(codec, data, k, n, i))
  }

  lemma ProducedNone(codec: Codec, hash: Bytes -> Bytes, target: Name, data: Bytes, k: nat, n: nat)
    requires n <= 255
    ensures Produced(codec, hash, target, data, k, n, [], [], 0)
  {
  }

  lemma ProducedNext(codec: Codec, hash: Bytes -> Bytes, target: Name, data: Bytes, k: nat, n: nat,
                     shards: seq<ObjectShard>, hashes: seq<Bytes>, m: nat, bytes: Bytes)
    requires Produced(codec, hash, target, data, k, n, shards, hashes, m) && m < n <= 255
    requires bytes == ShardOfData(codec, data, k, n, m)
    ensures Produced(codec, hash, target, data, k, n, shards + [ObjectShard(m, ShardName(target, m), bytes)],
                     hashes + [hash(bytes)], m + 1)
  {
    hide ShardOfData, ShardName;
  }

  lemma AllProduced(codec: Codec, hash: Bytes -> Bytes, target: Name, data: Bytes, k: nat, n: nat,
                    shards: seq<ObjectShard>, hashes: seq<Bytes>)
    requires Produced(codec, hash, target, data, k, n, shards, hashes, n)
    ensures n <= 255 && |shards| == |hashes| == n
    ensures forall i | 0 <= i < n ::
              && shards[i] == ObjectShard(i, ShardName(target, i), ShardOfData(codec, data, k, n, i))
              && hashes[i] == hash(ShardOfData(codec, data, k, n, i))
  {
  }

  // ---- reconstructing ----------------------------------------------------------------------

  /** A shard as a reader has it: where it claims to belong, and its octets. */
  datatype Offered = Offered(index: u16, bytes: Bytes)

  predicate Verified(m: Manifest, hash: Bytes -> Bytes, o: Offered) {
    o.index < |m.shardHashes| && hash(o.bytes) == m.shardHashes[o.index]
  }

  /** What the decoder holds after the first offers: only shards that match their hash are fed to it. */
  function FedTo(m: Manifest, hash: Bytes -> Bytes, offers: seq<Offered>): map<nat, Bytes> {
    if offers == [] then map[]
    else
      var before, o := FedTo(m, hash, offers[..|offers| - 1]), offers[|offers| - 1];
      if Verified(m, hash, o) then Absorb(m.k, m.n, before, o.index, o.bytes) else before
  }

  function Reconstruction(codec: Codec, hash: Bytes -> Bytes, m: Manifest, offers: seq<Offered>): Option<Bytes> {
    var held := FedTo(m, hash, offers);
    if !Parameters(m.k, m.n) || |held| != m.k then None
    else
      match codec.solve(m.k, m.n, held)
      case None => None
      case Some(segments) => Some(First(Concat(First(segments, m.k)), m.originalLen))
  }

  lemma {:induction false} FedStays(m: Manifest, hash: Bytes -> Bytes, offers: seq<Offered>, i: nat)
    requires i <= |offers| && |FedTo(m, hash, offers[..i])| == m.k
    ensures FedTo(m, hash, offers) == FedTo(m, hash, offers[..i])
    decreases |offers|
  {
    if i < |offers| {
      assert offers[..|offers| - 1][..i] == offers[..i];
      FedStays(m, hash, offers[..|offers| - 1], i);
    } else {
      assert offers[..i] == offers;
    }
  }

  lemma {:induction false} FedBound(m: Manifest, hash: Bytes -> Bytes, offers: seq<Offered>)
    ensures |FedTo(m, hash, offers)| <= m.k
  {
    if offers != [] {
      FedBound(m, hash, offers[..|offers| - 1]);
    }
  }

  lemma NoneFed(m: Manifest, hash: Bytes -> Bytes)
    ensures FedTo(m, hash, []) == map[]
  {
  }

  lemma FedNext(m: Manifest, hash: Bytes -> Bytes, offers: seq<Offered>, i: nat)
    requires i < |offers|
    ensures FedTo(m, hash, offers[..i + 1])
         == if Verified(m, hash, offers[i])
            then Absorb(m.k, m.n, FedTo(m, hash, offers[..i]), offers[i].index, offers[i].bytes)
            else FedTo(m, hash, offers[..i])
  {
    assert offers[..i + 1][..i] == offers[..i];
  }

  /** Feed the verified shards until `k` are in, then decode. */
  method Reconstruct(codec: Codec, hash: Bytes -> Bytes, m: Manifest, offers: seq<Offered>) returns (r: Option<Bytes>)
    ensures r == Reconstruction(codec, hash, m, offers)
  {
    hide Verified, Absorb, Concat, FedTo;
    NoneFed(m, hash);
    assert offers[..0] == [];
    if !Parameters(m.k, m.n) {
      return None;
    }
    var dec := new Decoder(codec, m.k, m.n);
    var i := 0;
    while i < |offers| && !dec.IsComplete()
      invariant i <= |offers| && fresh(dec) && dec.codec == codec && dec.k == m.k && dec.n == m.n
      invariant dec.held == FedTo(m, hash, offers[..i])
    {
      FedNext(m, hash, offers, i);
      if Verified(m, hash, offers[i]) {
        dec.Offer(offers[i].index, offers[i].bytes);
      }
      i := i + 1;
    }
    assert offers[..|offers|] == offers;
    if !dec.IsComplete() {
      return None;
    }
    FedStays(m, hash, offers, i);
    var segments := dec.Recover();
    if segments.None? {
      return None;
    }
    return Some(First(Concat(First(segments.value, m.k)), m.originalLen));
  }

  // ---- the round trip ----------------------------------------------------------------------

  /** The indices of which a genuine shard is among the offers. */
  function GenuineIndices(codec: Codec, data: Bytes, k: nat, n: nat, offers: seq<Offered>): set<nat> {
    set i | 0 <= i < |offers| && offers[i].index < n
            && offers[i].bytes == ShardOfData(codec, data, k, n, offers[i].index) :: offers[i].index as nat
  }

  /** No offered junk has the digest of the shard it is offered as. */
  predicate NoForgery(codec: Codec, hash: Bytes -> Bytes, data: Bytes, k: nat, n: nat, offers: seq<Offered>) {
    forall i | 0 <= i < |offers| && offers[i].index < n ::
      hash(offers[i].bytes) == hash(ShardOfData(codec, data, k, n, offers[i].index)) ==>
        offers[i].bytes == ShardOfData(codec, data, k, n, offers[i].index)
  }

  lemma GenuineNext(codec: Codec, data: Bytes, k: nat, n: nat, offers: seq<Offered>, o: Offered)
    ensures GenuineIndices(codec, data, k, n, offers + [o])
         == GenuineIndices(codec, data, k, n, offers)
            + if o.index < n && o.bytes == ShardOfData(codec, data, k, n, o.index) then {o.index as nat} else {}
  {
    var all := offers + [o];
    assert all[|offers|] == o && forall i | 0 <= i < |offers| :: all[i] == offers[i];
  }

  /** The decoder holds genuine shards only, and until it has `k`, all that were offered. */
  lemma {:induction false} FedIsGenuine(m: Manifest, codec: Codec, hash: Bytes -> Bytes, target: Name, data: Bytes,
                                       k: u16, n: u16, offers: seq<Offered>)
    requires Parameters(k, n) && Lawful(codec, k, n) && Describes(m, codec, hash, target, data, k, n)
    requires NoForgery(codec, hash, data, k, n, offers)
    ensures var held := FedTo(m, hash, offers);
            && Genuine(codec, k, n, Sources(data, k), held)
            && held.Keys <= GenuineIndices(codec, data, k, n, offers)
            && (|held| < k ==> held.Keys == GenuineIndices(codec, data, k, n, offers))
  {
    if offers != [] {
      var before, o := offers[..|offers| - 1], offers[|offers| - 1];
      hide ShardOfData, ShardBody, Sources, Genuine, GenuineIndices, Absorb, Lawful;
      FedIsGenuine(m, codec, hash, target, data, k, n, before);
      assert offers == before + [o];
      GenuineNext(codec, data, k, n, before, o);
      VerifiedIsGenuine(m, codec, hash, target, data, k, n, offers, |offers| - 1);
      AbsorbKeeps(codec, data, k, n, FedTo(m, hash, before), GenuineIndices(codec, data, k, n, before), o);
    }
  }

  /** A shard passes its hash exactly when it is the genuine one. */
  lemma VerifiedIsGenuine(m: Manifest, codec: Codec, hash: Bytes -> Bytes, target: Name, data: Bytes, k: u16, n: u16,
                          offers: seq<Offered>, i: nat)
    requires Describes(m, codec, hash, target, data, k, n) && NoForgery(codec, hash, data, k, n, offers)
    requires i < |offers|
    ensures Verified(m, hash, offers[i])
       <==> offers[i].index < n && offers[i].bytes == ShardOfData(codec, data, k, n, offers[i].index)
  {
    hide ShardOfData;
  }

  /** Offering a genuine shard to a decoder that held all that were offered before. */
  lemma AbsorbKeeps(codec: Codec, data: Bytes, k: u16, n: u16, held: map<nat, Bytes>, offered: set<nat>, o: Offered)
    requires Parameters(k, n) && Lawful(codec, k, n) && Genuine(codec, k, n, Sources(data, k), held)
    requires held.Keys <= offered && (|held| < k ==> held.Keys == offered)
    ensures o.index < n && o.bytes == ShardOfData(codec, data, k, n, o.index) ==>
              var now := Absorb(k, n, held, o.index, o.bytes);
              && Genuine(codec, k, n, Sources(data, k), now)
              && now.Keys <= offered + {o.index as nat}
              && (|now| < k ==> now.Keys == offered + {o.index as nat})
  {
    hide ShardBody, Sources, Lawful;
    SameShardLengths(codec, data, k, n, held, o);
  }

  lemma SameShardLengths(codec: Codec, data: Bytes, k: nat, n: nat, held: map<nat, Bytes>, o: Offered)
    requires Parameters(k, n) && Lawful(codec, k, n) && Genuine(codec, k, n, Sources(data, k), held)
    ensures o.index < n && o.bytes == ShardOfData(codec, data, k, n, o.index) ==>
              forall j | j in held :: |held[j]| == |o.bytes|
    ensures forall i | 0 <= i < n :: ShardOfData(codec, data, k, n, i) == ShardBody(codec, k, n, Sources(data, k), i)
  {
    forall i: nat | i < n
      ensures |ShardBody(codec, k, n, Sources(data, k), i)| == ShardLen(|data|, k)
    {
      ShardLength(codec, k, n, Sources(data, k), ShardLen(|data|, k), i);
    }
  }

  lemma HeldDecodes(codec: Codec, data: Bytes, k: nat, n: nat, held: map<nat, Bytes>)
    requires Parameters(k, n) && Lawful(codec, k, n) && |held| == k
    requires Genuine(codec, k, n, Sources(data, k), held)
    ensures codec.solve(k, n, held) == Some(Sources(data, k))
    ensures First(Concat(First(Sources(data, k), k)), |data|) == data
  {
    SolveGenuine(codec, k, n, Sources(data, k), ShardLen(|data|, k), held);
    SourcesRejoin(data, k);
  }

  /** What the decoder makes of genuine shards. */
  lemma GenuineReconstruction(m: Manifest, codec: Codec, hash: Bytes -> Bytes, data: Bytes,
                              k: u16, n: u16, offers: seq<Offered>)
    requires Parameters(k, n) && Lawful(codec, k, n)
    requires m.k == k && m.n == n && m.originalLen == |data|
    requires Genuine(codec, k, n, Sources(data, k), FedTo(m, hash, offers))
    ensures Reconstruction(codec, hash, m, offers) == if |FedTo(m, hash, offers)| == k then Some(data) else None
  {
    hide FedTo, Genuine, Lawful, Sources, First, Concat;
    if |FedTo(m, hash, offers)| == k {
      HeldDecodes(codec, data, k, n, FedTo(m, hash, offers));
    }
  }

  lemma SameSize<T>(held: map<T, Bytes>, all: set<T>, k: nat)
    requires held.Keys <= all && |held| <= k && (|held| < k ==> held.Keys == all)
    ensures |held| == k <==> |all| >= k
  {
    assert |held.Keys| == |held|;
    assert all == held.Keys + (all - held.Keys);
  }

  lemma DescribedSizes(m: Manifest, codec: Codec, hash: Bytes -> Bytes, target: Name, data: Bytes, k: u16, n: u16)
    requires Describes(m, codec, hash, target, data, k, n) && |data| < U64_LIMIT
    ensures m.k == k && m.n == n && m.originalLen == |data|
  {
    hide ShardOfData, ShardLen;
  }

  /** Whatever list of shards a reader collected, in any order, with repeats and with junk that fails
      its hash: it gets exactly the object back when at least `k` distinct shards are genuine, and
      nothing otherwise. */
  lemma ReconstructsExactly(m: Manifest, codec: Codec, hash: Bytes -> Bytes, target: Name, data: Bytes,
                            k: u16, n: u16, offers: seq<Offered>)
    requires 1 <= k <= n <= 255 && Lawful(codec, k, n) && |data| < U64_LIMIT
    requires Describes(m, codec, hash, target, data, k, n) && NoForgery(codec, hash, data, k, n, offers)
    ensures Reconstruction(codec, hash, m, offers)
         == if |GenuineIndices(codec, data, k, n, offers)| >= k then Some(data) else None
  {
    assert Parameters(k, n);
    hide *;
    FedIsGenuine(m, codec, hash, target, data, k, n, offers);
    FedBound(m, hash, offers);
    DescribedSizes(m, codec, hash, target, data, k, n);
    SameSize(FedTo(m, hash, offers), GenuineIndices(codec, data, k, n, offers), k);
    GenuineReconstruction(m, codec, hash, data, k, n, offers);
  }
}
