/** The wire form of an erasure manifest: a fixed header, the object's name as a TLV, and the digests
    of the shards. */
module Manifests {
  import opened Octets
  import opened Tlv
  import opened Names
  import opened Coding
  import opened ObjectCoder

  const DIGEST: nat := 32
  const HEADER: nat := 20

  /** Digests are 32 octets wide, and the name has a TLV. */
  predicate Encodes(m: Manifest) {
    Encodable(m.target) && forall h | h in m.shardHashes :: |h| == DIGEST
  }

  /** The five fixed-width numbers in front; only the low 32 bits of the name's length are kept. */
  function Header(m: Manifest, nameLen: nat): (b: Bytes)
    ensures |b| == HEADER
  {
    BigEndian(2, m.k) + BigEndian(2, m.n) + BigEndian(8, m.originalLen) + BigEndian(4, m.shardLen)
    + BigEndian(4, nameLen % U32_LIMIT)
  }

  function Encoded(m: Manifest): Bytes
    requires Encodes(m)
  {
    Header(m, |NameTlv(m.target)|) + NameTlv(m.target) + Concat(m.shardHashes)
  }

  method ToBytes(m: Manifest) returns (b: Bytes)
    requires Encodes(m)
    ensures b == Encoded(m)
  {
    var nameTlv := NameTlv(m.target);
    b := Header(m, |nameTlv|) + nameTlv;
    ghost var start := b;
    for i := 0 to |m.shardHashes|
      invariant b == start + Concat(m.shardHashes[..i])
    {
      assert m.shardHashes[..i + 1] == m.shardHashes[..i] + [m.shardHashes[i]];
      ConcatSplit(m.shardHashes[..i], [m.shardHashes[i]]);
      b := b + m.shardHashes[i];
    }
    assert m.shardHashes[..|m.shardHashes|] == m.shardHashes;
  }

  function Read16(b: Bytes): u16
    requires |b| == 2
  {
    FromBigEndianBound(b); Limits();
    FromBigEndian(b)
  }

  function Read32(b: Bytes): u32
    requires |b| == 4
  {
    FromBigEndianBound(b); Limits();
    FromBigEndian(b)
  }

  function Read64(b: Bytes): u64
    requires |b| == 8
  {
    FromBigEndianBound(b); Limits();
    FromBigEndian(b)
  }

  /** Cut into digests. */
  function Chunks(b: Bytes): seq<Bytes>
    requires |b| % DIGEST == 0
  {
    if b == [] then [] else [b[..DIGEST]] + Chunks(b[DIGEST..])
  }

  function FromBytes(b: Bytes): Option<Manifest> {
    if |b| < HEADER then None
    else
      FromParts(Read16(b[0..2]), Read16(b[2..4]), Read64(b[4..12]), Read32(b[12..16]), Read32(b[16..20]), b[HEADER..])
  }

  /** What follows the header: as many octets of name as it says, and digests to the end. */
  function FromParts(k: u16, n: u16, originalLen: u64, shardLen: u32, nameLen: u32, rest: Bytes): Option<Manifest> {
    if |rest| < nameLen then None
    else
      match FromNameTlv(rest[..nameLen])
      case None => None
      case Some(target) =>
        var hashes := rest[nameLen..];
        if |hashes| != DIGEST * n then None
        else Some(Manifest(target, k, n, originalLen, shardLen, Chunks(hashes)))
  }

  // ---- what reading gives back -------------------------------------------------------------

  lemma {:induction false} ChunksOfConcat(hs: seq<Bytes>)
    requires forall h | h in hs :: |h| == DIGEST
    ensures |Concat(hs)| == DIGEST * |hs| && Chunks(Concat(hs)) == hs
  {
    if hs != [] {
      ChunksOfConcat(hs[1..]);
      assert Concat(hs)[DIGEST..] == Concat(hs[1..]) && Concat(hs)[..DIGEST] == hs[0];
      assert hs == [hs[0]] + hs[1..];
    }
  }

  lemma FiveParts(a: Bytes, b: Bytes, c: Bytes, d: Bytes, e: Bytes, rest: Bytes)
    requires |a| == 2 && |b| == 2 && |c| == 8 && |d| == 4 && |e| == 4
    ensures var x := a + b + c + d + e + rest;
            x[0..2] == a && x[2..4] == b && x[4..12] == c && x[12..16] == d && x[16..20] == e && x[20..] == rest
  {
    var x := a + b + c + d + e + rest;
    assert x[0..2] == a;
    assert x[2..4] == b;
    assert x[4..12] == c;
    assert x[12..16] == d;
    assert x[16..20] == e;
    assert x[20..] == rest;
  }

  lemma HeaderOctets(m: Manifest, nameLen: nat, rest: Bytes)
    ensures var b := Header(m, nameLen) + rest;
            && FromBigEndian(b[0..2]) == m.k && FromBigEndian(b[2..4]) == m.n
            && FromBigEndian(b[4..12]) == m.originalLen && FromBigEndian(b[12..16]) == m.shardLen
            && FromBigEndian(b[16..20]) == nameLen % U32_LIMIT && b[20..] == rest
  {
    Limits();
    BigEndianRoundTrip(2, m.k);
    BigEndianRoundTrip(2, m.n);
    BigEndianRoundTrip(8, m.originalLen);
    BigEndianRoundTrip(4, m.shardLen);
    BigEndianRoundTrip(4, nameLen % U32_LIMIT);
    hide BigEndian, FromBigEndian, Limit;
    FiveParts(BigEndian(2, m.k), BigEndian(2, m.n), BigEndian(8, m.originalLen), BigEndian(4, m.shardLen),
              BigEndian(4, nameLen % U32_LIMIT), rest);
  }

  /** The header's fields are read back, whatever follows it. */
  lemma HeaderRoundTrip(m: Manifest, nameLen: nat, rest: Bytes)
    ensures FromBytes(Header(m, nameLen) + rest)
         == FromParts(m.k, m.n, m.originalLen, m.shardLen, nameLen % U32_LIMIT, rest)
  {
    HeaderOctets(m, nameLen, rest);
    hide Header, FromBigEndian, FromParts;
  }

  lemma WholeHeader(m: Manifest, tlv: Bytes, tail: Bytes)
    requires |tlv| < U32_LIMIT
    ensures FromBytes(Header(m, |tlv|) + tlv + tail)
         == FromParts(m.k, m.n, m.originalLen, m.shardLen, |tlv|, tlv + tail)
  {
    hide *;
    HeaderRoundTrip(m, |tlv|, tlv + tail);
    Associative(Header(m, |tlv|), tlv, tail);
  }

  lemma TailOctets(header: Bytes, tlv: Bytes, hashes: Bytes)
    requires |header| == 20
    ensures header + (tlv + hashes) == header + tlv + hashes
    ensures var b := header + tlv + hashes;
            |b| == 20 + |tlv| + |hashes| && b[20..20 + |tlv|] == tlv && b[20 + |tlv|..] == hashes
  {
  }

  /** Where each field lies, most significant octet first. */
  lemma ManifestOctets(m: Manifest)
    requires Encodes(m)
    ensures var b, tlv := Encoded(m), NameTlv(m.target);
            && |b| == 20 + |tlv| + |Concat(m.shardHashes)|
            && FromBigEndian(b[0..2]) == m.k && FromBigEndian(b[2..4]) == m.n
            && FromBigEndian(b[4..12]) == m.originalLen && FromBigEndian(b[12..16]) == m.shardLen
            && FromBigEndian(b[16..20]) == |tlv| % U32_LIMIT
            && b[20..20 + |tlv|] == tlv && b[20 + |tlv|..] == Concat(m.shardHashes)
  {
    var tlv, hashes := NameTlv(m.target), Concat(m.shardHashes);
    hide FromBigEndian, Header, NameTlv, Concat;
    TailOctets(Header(m, |tlv|), tlv, hashes);
    HeaderOctets(m, |tlv|, tlv + hashes);
  }

  lemma PartsReadBack(m: Manifest, tail: Bytes)
    requires Encodes(m) && |NameTlv(m.target)| < U32_LIMIT
    ensures FromParts(m.k, m.n, m.originalLen, m.shardLen, |NameTlv(m.target)|, NameTlv(m.target) + tail)
         == if |tail| == DIGEST * m.n then Some(m.(shardHashes := Chunks(tail))) else None
  {
    var tlv := NameTlv(m.target);
    NameTlvRoundTrip(m.target);
    hide NameTlv, FromNameTlv, Chunks;
    assert (tlv + tail)[..|tlv|] == tlv && (tlv + tail)[|tlv|..] == tail;
  }

  /** The header and the name, followed by any octets, read as this manifest with those octets for
      digests when there are `n` of them, and are refused otherwise. */
  lemma ReadsBack(m: Manifest, tail: Bytes)
    requires Encodes(m) && |NameTlv(m.target)| < U32_LIMIT
    ensures FromBytes(Header(m, |NameTlv(m.target)|) + NameTlv(m.target) + tail)
         == if |tail| == DIGEST * m.n then Some(m.(shardHashes := Chunks(tail))) else None
  {
    hide FromBytes, FromParts, Header, NameTlv, Chunks, Concat, FromNameTlv;
    WholeHeader(m, NameTlv(m.target), tail);
    PartsReadBack(m, tail);
  }

  /** A manifest comes back from its bytes exactly when it has `n` digests and its name's length fits
      the field it is cast to. */
  lemma ManifestRoundTrip(m: Manifest)
    requires Encodes(m)
    ensures FromBytes(Encoded(m)) == Some(m) <==> |m.shardHashes| == m.n && |NameTlv(m.target)| < U32_LIMIT
  {
    var tlv := NameTlv(m.target);
    hide FromBytes, FromParts, Header, NameTlv, Chunks, Concat;
    ChunksOfConcat(m.shardHashes);
    if |tlv| < U32_LIMIT {
      ReadsBack(m, Concat(m.shardHashes));
    } else {
      Associative(Header(m, |tlv|), tlv, Concat(m.shardHashes));
      HeaderRoundTrip(m, |tlv|, tlv + Concat(m.shardHashes));
      CutPartsRefused(m, |tlv| % U32_LIMIT, Concat(m.shardHashes));
    }
  }

  lemma CutPartsRefused(m: Manifest, cut: u32, tail: Bytes)
    requires Encodes(m) && cut < |NameTlv(m.target)|
    ensures FromParts(m.k, m.n, m.originalLen, m.shardLen, cut, NameTlv(m.target) + tail) == None
  {
    var tlv := NameTlv(m.target);
    CutNameRefused(m.target, cut);
    hide NameTlv, FromNameTlv, Chunks;
    assert (tlv + tail)[..cut] == tlv[..cut];
  }

  lemma CutNameRefused(n: Name, cut: nat)
    requires Encodable(n) && cut < |NameTlv(n)|
    ensures FromNameTlv(NameTlv(n)[..cut]) == None
  {
    TlvPrefixRefused(Tlv.Field(NAME_TYPE, Key(n)), NameTlv(n)[..cut]);
  }

  lemma LongerRefused(m: Manifest, tail: Bytes)
    requires Encodes(m) && |m.shardHashes| == m.n && |NameTlv(m.target)| < U32_LIMIT
    ensures tail != [] ==> FromBytes(Encoded(m) + tail) == None
  {
    hide FromBytes, FromParts, Header, NameTlv, Chunks, Concat, FromNameTlv, Key;
    var tlv, hashes := NameTlv(m.target), Concat(m.shardHashes);
    ChunksOfConcat(m.shardHashes);
    ReadsBack(m, hashes + tail);
    Associative(Header(m, |tlv|) + tlv, hashes, tail);
  }

  lemma CutAfter(start: Bytes, hashes: Bytes, cut: nat)
    requires |start| <= cut <= |start| + |hashes|
    ensures (start + hashes)[..cut] == start + hashes[..cut - |start|]
  {
  }

  lemma CutInDigests(m: Manifest, cut: nat)
    requires Encodes(m) && |m.shardHashes| == m.n && |NameTlv(m.target)| < U32_LIMIT
    requires HEADER + |NameTlv(m.target)| <= cut < |Encoded(m)|
    ensures FromBytes(Encoded(m)[..cut]) == None
  {
    hide FromBytes, FromParts, Header, NameTlv, Chunks, Concat, FromNameTlv, Key;
    var start, hashes := Header(m, |NameTlv(m.target)|) + NameTlv(m.target), Concat(m.shardHashes);
    ChunksOfConcat(m.shardHashes);
    ReadsBack(m, hashes[..cut - |start|]);
    CutAfter(start, hashes, cut);
  }

  lemma TooShort(b: Bytes)
    requires |b| < HEADER
    ensures FromBytes(b) == None
  {
  }

  lemma PartsTooShort(m: Manifest, nameLen: u32, rest: Bytes)
    requires |rest| < nameLen
    ensures FromParts(m.k, m.n, m.originalLen, m.shardLen, nameLen, rest) == None
  {
  }

  lemma StartOfEncoded(header: Bytes, tlv: Bytes, hashes: Bytes, cut: nat)
    requires |header| <= cut < |header| + |tlv|
    ensures (header + tlv + hashes)[..cut] == header + tlv[..cut - |header|]
  {
  }

  lemma CutInName(m: Manifest, cut: nat)
    requires Encodes(m) && |NameTlv(m.target)| < U32_LIMIT && HEADER <= cut < HEADER + |NameTlv(m.target)|
    ensures cut <= |Encoded(m)| && FromBytes(Encoded(m)[..cut]) == None
  {
    hide FromBytes, FromParts, Header, NameTlv, Concat, FromNameTlv, Key;
    var tlv := NameTlv(m.target);
    PartsTooShort(m, |tlv|, tlv[..cut - HEADER]);
    HeaderRoundTrip(m, |tlv|, tlv[..cut - HEADER]);
    StartOfEncoded(Header(m, |tlv|), tlv, Concat(m.shardHashes), cut);
  }

  /** The bytes of a manifest with all its digests, cut short anywhere or followed by anything, are
      refused. */
  lemma OnlyWholeManifestsRead(m: Manifest, cut: nat, tail: Bytes)
    requires Encodes(m) && |m.shardHashes| == m.n && |NameTlv(m.target)| < U32_LIMIT
    ensures cut < |Encoded(m)| ==> FromBytes(Encoded(m)[..cut]) == None
    ensures tail != [] ==> FromBytes(Encoded(m) + tail) == None
  {
    hide FromBytes, FromParts, Header, NameTlv, Chunks, Concat, FromNameTlv, Key;
    LongerRefused(m, tail);
    if cut < |Encoded(m)| {
      if HEADER + |NameTlv(m.target)| <= cut {
        CutInDigests(m, cut);
      } else if HEADER <= cut {
        CutInName(m, cut);
      } else {
        TooShort(Encoded(m)[..cut]);
      }
    }
  }

  /** What encoding an object publishes as its manifest is what a reader gets. */
  lemma PublishedManifestReads(m: Manifest, codec: Codec, hash: Bytes -> Bytes, data: Bytes, k: u16, n: u16)
    requires Describes(m, codec, hash, m.target, data, k, n)
    requires Encodable(m.target) && |NameTlv(m.target)| < U32_LIMIT && forall b: Bytes :: |hash(b)| == DIGEST
    ensures Encodes(m) && FromBytes(Encoded(m)) == Some(m)
  {
    hide ShardOfData, FromBytes, NameTlv;
    ManifestRoundTrip(m);
  }
}
