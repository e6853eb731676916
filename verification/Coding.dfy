/** The erasure codec the stores are written against: what they rely on, stated as laws, and a codec
    that satisfies the laws. */
module Coding {
  import opened Octets

  /** A systematic `k`-of-`n` codec: the parity shard of an index, and the sources behind `k` shards. */
  datatype Codec = Codec(
    parity: (nat, nat, seq<Bytes>, nat) -> Bytes,
    solve: (nat, nat, map<nat, Bytes>) -> Option<seq<Bytes>>)

  /** The parameters the codec accepts (it works over GF(2^8)). */
  predicate Parameters(k: nat, n: nat) {
    1 <= k <= n <= 255
  }

  predicate Uniform(bodies: seq<Bytes>, len: nat) {
    forall i | 0 <= i < |bodies| :: |bodies[i]| == len
  }

  /** Shard `i` of the object whose source segments are `sources`. */
  function ShardBody(c: Codec, k: nat, n: nat, sources: seq<Bytes>, i: nat): Bytes {
    if i < |sources| then sources[i] else c.parity(k, n, sources, i)
  }

  ghost predicate Genuine(c: Codec, k: nat, n: nat, sources: seq<Bytes>, picked: map<nat, Bytes>) {
    forall i | i in picked :: i < n && picked[i] == ShardBody(c, k, n, sources, i)
  }

  ghost predicate ParityLaw(c: Codec, k: nat, n: nat, sources: seq<Bytes>, len: nat) {
    forall i | k <= i < n :: |c.parity(k, n, sources, i)| == len
  }

  ghost predicate RecoveryLaw(c: Codec, k: nat, n: nat, sources: seq<Bytes>) {
    forall picked: map<nat, Bytes> | |picked| == k && Genuine(c, k, n, sources, picked) ::
      c.solve(k, n, picked) == Some(sources)
  }

  ghost predicate ShapeLaw(c: Codec, k: nat, n: nat, picked: map<nat, Bytes>, len: nat) {
    match c.solve(k, n, picked)
    case None => true
    case Some(segments) => |segments| == k && Uniform(segments, len)
  }

  ghost predicate Lawful(c: Codec, k: nat, n: nat) {
    && (forall sources: seq<Bytes>, len: nat {:trigger ParityLaw(c, k, n, sources, len)} |
          |sources| == k && Uniform(sources, len) ::
          ParityLaw(c, k, n, sources, len))
    && (forall sources: seq<Bytes>, len: nat {:trigger RecoveryLaw(c, k, n, sources), Uniform(sources, len)} |
          |sources| == k && Uniform(sources, len) ::
          RecoveryLaw(c, k, n, sources))
    && (forall picked: map<nat, Bytes>, len: nat {:trigger ShapeLaw(c, k, n, picked, len)} |
          |picked| == k && forall i | i in picked :: |picked[i]| == len ::
          ShapeLaw(c, k, n, picked, len))
  }

  lemma ShardLength(c: Codec, k: nat, n: nat, sources: seq<Bytes>, len: nat, i: nat)
    requires Lawful(c, k, n) && |sources| == k && Uniform(sources, len) && i < n
    ensures |ShardBody(c, k, n, sources, i)| == len
  {
    assert ParityLaw(c, k, n, sources, len);
  }

  lemma SolveGenuine(c: Codec, k: nat, n: nat, sources: seq<Bytes>, len: nat, picked: map<nat, Bytes>)
    requires Lawful(c, k, n) && |sources| == k && Uniform(sources, len)
    requires |picked| == k && Genuine(c, k, n, sources, picked)
    ensures c.solve(k, n, picked) == Some(sources)
  {
    assert RecoveryLaw(c, k, n, sources);
  }

  // ---- the codec's two stateful halves -----------------------------------------------------

  class Encoder {
    const codec: Codec
    const k: nat
    const n: nat
    var sources: seq<Bytes>

    constructor (codec: Codec, k: nat, n: nat)
      requires Parameters(k, n)
      ensures this.codec == codec && this.k == k && this.n == n && sources == []
    {
      this.codec, this.k, this.n := codec, k, n;
      sources := [];
    }

    /** Give the next source segment; refused past the `k`-th or when its length differs. */
    method Feed(segment: Bytes) returns (ok: bool)
      modifies this
      ensures ok == (old(|sources|) < k && (old(sources) == [] || |segment| == old(|sources[0]|)))
      ensures sources == if ok then old(sources) + [segment] else old(sources)
    {
      ok := |sources| < k && (sources == [] || |segment| == |sources[0]|);
      if ok {
        sources := sources + [segment];
      }
    }

    method Parity(i: nat) returns (r: Option<Bytes>)
      ensures r == if |sources| == k <= i < n then Some(codec.parity(k, n, sources, i)) else None
    {
      r := if |sources| == k <= i < n then Some(codec.parity(k, n, sources, i)) else None;
    }
  }

  /** What a decoder holds after it is offered shard `i`: an index out of range, one already held or
      a body of another length changes nothing, and neither does anything once `k` are held. */
  function Absorb(k: nat, n: nat, held: map<nat, Bytes>, i: nat, body: Bytes): map<nat, Bytes> {
    if i < n && |held| < k && i !in held && forall j | j in held :: |held[j]| == |body|
    then held[i := body]
    else held
  }

  class Decoder {
    const codec: Codec
    const k: nat
    const n: nat
    var held: map<nat, Bytes>

    constructor (codec: Codec, k: nat, n: nat)
      requires Parameters(k, n)
      ensures this.codec == codec && this.k == k && this.n == n && held == map[]
    {
      this.codec, this.k, this.n := codec, k, n;
      held := map[];
    }

    method Offer(i: nat, body: Bytes)
      modifies this
      ensures held == Absorb(k, n, old(held), i, body)
    {
      held := Absorb(k, n, held, i, body);
    }

    predicate IsComplete()
      reads this
    {
      |held| == k
    }

    method Recover() returns (r: Option<seq<Bytes>>)
      ensures r == if IsComplete() then codec.solve(k, n, held) else None
    {
      r := if IsComplete() then codec.solve(k, n, held) else None;
    }
  }

  // ---- a lawful codec ----------------------------------------------------------------------

  function At(b: Bytes, p: nat): Byte {
    if p < |b| then b[p] else 0
  }

  function ColumnSum(rows: seq<Bytes>, p: nat): nat {
    if rows == [] then 0 else At(rows[0], p) + ColumnSum(rows[1..], p)
  }

  function Len(rows: seq<Bytes>): nat {
    if rows == [] then 0 else |rows[0]|
  }

  function SumParity(k: nat, n: nat, sources: seq<Bytes>, i: nat): Bytes {
    seq(Len(sources), (p: nat) => ColumnSum(sources, p) % 256)
  }

  /** The segments held, zeros of length `len` standing in for the missing one. */
  function Known(k: nat, held: map<nat, Bytes>, len: nat): (r: seq<Bytes>)
    ensures |r| == k
  {
    seq(k, i requires 0 <= i < k => if i in held then held[i] else Zeros(len))
  }

  function SumSolve(k: nat, n: nat, held: map<nat, Bytes>): Option<seq<Bytes>> {
    if !(held.Keys <= Indices(k + 1)) then None
    else if k !in held then Some(Known(k, held, 0))
    else
      var len := |held[k]|;
      var known := Known(k, held, len);
      var missing := seq(len, (p: nat) => (At(held[k], p) - ColumnSum(known, p)) % 256);
      Some(seq(k, i requires 0 <= i < k => if i in held then held[i] else missing))
  }

  /** One parity shard holding the column sums modulo 256: it survives one loss. */
  const SUM_CODEC: Codec := Codec(
    (k: nat, n: nat, sources: seq<Bytes>, i: nat) => SumParity(k, n, sources, i),
    (k: nat, n: nat, held: map<nat, Bytes>) => SumSolve(k, n, held))

  lemma {:induction false} ColumnSumUpdate(rows: seq<Bytes>, j: nat, v: Bytes, p: nat)
    requires j < |rows|
    ensures ColumnSum(rows[j := v], p) + At(rows[j], p) == ColumnSum(rows, p) + At(v, p)
  {
    if j == 0 {
      assert rows[j := v][1..] == rows[1..];
    } else {
      ColumnSumUpdate(rows[1..], j - 1, v, p);
      assert rows[j := v][1..] == rows[1..][j - 1 := v];
    }
  }

  function Indices(n: nat): (s: set<nat>)
    ensures |s| == n
    ensures forall i: nat :: i in s <==> i < n
  {
    if n == 0 then {} else Indices(n - 1) + {n - 1}
  }

  /** Of `k + 1` indices, `k` distinct ones miss exactly one. */
  lemma OneMissing(k: nat, s: set<nat>) returns (j: nat)
    requires |s| == k && s <= Indices(k + 1)
    ensures j <= k && s == Indices(k + 1) - {j}
  {
    var rest := Indices(k + 1) - s;
    assert |rest| == 1;
    j :| j in rest;
    assert |rest - {j}| == 0;
    assert rest == {j};
  }

  lemma SumSolveRecovers(k: nat, n: nat, sources: seq<Bytes>, len: nat, held: map<nat, Bytes>)
    requires Parameters(k, n) && n <= k + 1 && |sources| == k && Uniform(sources, len)
    requires |held| == k && Genuine(SUM_CODEC, k, n, sources, held)
    ensures SumSolve(k, n, held) == Some(sources)
  {
    hide ColumnSum, Zeros;
    assert |held.Keys| == k;
    var j := OneMissing(k, held.Keys);
    assert forall i | 0 <= i < k && i != j :: i in held.Keys;
    if j == k {
      assert k !in held;
      assert Known(k, held, 0) == sources;
    } else {
      assert k in held.Keys && held[k] == SumParity(k, n, sources, k);
      var known := Known(k, held, len);
      assert known == sources[j := Zeros(len)];
      forall p | 0 <= p < len
        ensures (At(held[k], p) - ColumnSum(known, p)) % 256 == sources[j][p]
      {
        ColumnSumUpdate(sources, j, Zeros(len), p);
        assert At(held[k], p) == ColumnSum(sources, p) % 256;
        Cancel(ColumnSum(sources, p), ColumnSum(known, p), sources[j][p]);
      }
      var missing := seq(len, (p: nat) => (At(held[k], p) - ColumnSum(known, p)) % 256);
      assert missing == sources[j];
      assert SumSolve(k, n, held).value == sources;
    }
  }

  lemma Cancel(total: nat, part: nat, b: Byte)
    requires total == part + b
    ensures (total % 256 - part) % 256 == b
  {
    assert total % 256 - part == b - 256 * (total / 256);
  }

  /** The laws can be met: for every `k` with one shard to spare, or none. */
  lemma SumCodecIsLawful(k: nat, n: nat)
    requires Parameters(k, n) && n <= k + 1
    ensures Lawful(SUM_CODEC, k, n)
  {
    forall sources: seq<Bytes>, len: nat | |sources| == k && Uniform(sources, len)
      ensures ParityLaw(SUM_CODEC, k, n, sources, len)
    {
      assert Len(sources) == len;
    }
    forall sources: seq<Bytes>, len: nat | |sources| == k && Uniform(sources, len)
      ensures RecoveryLaw(SUM_CODEC, k, n, sources)
    {
      forall picked: map<nat, Bytes> | |picked| == k && Genuine(SUM_CODEC, k, n, sources, picked)
        ensures SUM_CODEC.solve(k, n, picked) == Some(sources)
      {
        SumSolveRecovers(k, n, sources, len, picked);
      }
    }
    forall picked: map<nat, Bytes>, len: nat |
      |picked| == k && forall i | i in picked :: |picked[i]| == len
      ensures ShapeLaw(SUM_CODEC, k, n, picked, len)
    {
      if picked.Keys <= Indices(k + 1) {
        assert |picked.Keys| == k;
        var j := OneMissing(k, picked.Keys);
        assert forall i | 0 <= i < k && i != j :: i in picked.Keys;
      }
    }
  }
}
