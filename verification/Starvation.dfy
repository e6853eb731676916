/** A store on which a limited scan of the erasure store answers with too little. */
module Starvation {
  import opened Octets
  import opened Orders
  import opened Names
  import opened Coding
  import opened Shards
  import opened Stripes
  import opened Scans
  import opened ScanExact
  import Tlv

  const A: Name := [Component(8, [1])]
  const B: Name := [Component(8, [2])]
  const M: Name := [Component(8, [3])]
  const Z: Name := [Component(8, [4])]
  const WIRE: Bytes := [7]

  function TwoOfThree(hash: Bytes -> Bytes): Scheme {
    Scheme(2, 3, SUM_CODEC, hash)
  }

  /** Stripe 0 holds A, M and Z, stripe 1 holds B, M and Z, and stripe 2 was lost. */
  function Store(s: Scheme): (st: Stripes)
    ensures |st| == 3
  {
    var x, y := Record(s, WIRE, 0), Record(s, WIRE, 1);
    [map[A := x, M := x, Z := x], map[B := y, M := y, Z := y], map[]]
  }

  lemma KeysOf(c: Byte)
    ensures Key([Component(8, [c])]) == [8, 1, c]
  {
    var n: Name := [Component(8, [c])];
    assert n[1..] == [];
    assert WriteTlvOf(c) == [8, 1, c];
  }

  function WriteTlvOf(c: Byte): Bytes {
    Tlv.WriteTlv(ComponentField(Component(8, [c])))
  }

  lemma InOrder4()
    ensures KeyLess(A, B) && KeyLess(A, M) && KeyLess(A, Z)
    ensures KeyLess(B, M) && KeyLess(B, Z) && KeyLess(M, Z)
    ensures A != B && A != M && A != Z && B != M && B != Z && M != Z
  {
    KeysOf(1);
    KeysOf(2);
    KeysOf(3);
    KeysOf(4);
    LexThird(1, 2);
    LexThird(1, 3);
    LexThird(1, 4);
    LexThird(2, 3);
    LexThird(2, 4);
    LexThird(3, 4);
  }

  lemma LexThird(x: Byte, y: Byte)
    requires x < y
    ensures LexLess([8, 1, x], [8, 1, y])
  {
    var p, q: Bytes := [8, 1, x], [8, 1, y];
    assert p[1..][1..] == [x] && q[1..][1..] == [y];
  }

  lemma Order(q: seq<Name>)
    requires Sorted(KeyLess, q)
    ensures InKeyOrder(Elements(q)) == q
  {
    KeyOrder(Elements(q));
    SortedUnique(KeyLess, InKeyOrder(Elements(q)), q);
  }

  /** A scan of at most two rows of a store whose names are `q`. */
  lemma FirstTwo(rows: map<Name, Bytes>, q: seq<Name>)
    requires Sorted(KeyLess, q) && rows.Keys == Elements(q)
    ensures ScanNames(rows, [], 2) == Take(q, 2)
  {
    hide KeyLess;
    assert NamesUnder(rows, []) == Elements(q);
    Order(q);
  }

  lemma StoreSeen(s: Scheme)
    ensures Seen(Store(s), [], 2) == [[A, M], [B, M], []]
  {
    var st := Store(s);
    InOrder4();
    hide KeyLess, Record, ScanNames;
    FirstTwo(st[0], [A, M, Z]);
    FirstTwo(st[1], [B, M, Z]);
    FirstTwo(st[2], []);
    assert [A, M, Z][..2] == [A, M] && [B, M, Z][..2] == [B, M];
  }

  lemma LowestLast(a: Name, b: Name, m: Name)
    ensures Watermark([[a, m], [b, m], []], 2, 3) == Some(m)
  {
    var seen := [[a, m], [b, m], []];
    KeyOrder({m});
    assert Watermark(seen, 2, 1) == Some(m);
    assert Watermark(seen, 2, 2) == Some(m);
  }

  lemma NamesSeen(a: Name, b: Name, m: Name)
    ensures SeenNames([[a, m], [b, m], []], 3) == Elements([a, b, m])
  {
    var seen := [[a, m], [b, m], []];
    assert a in seen[0] && m in seen[0] && b in seen[1];
  }

  lemma QueueOf(q: seq<Name>, names: set<Name>)
    requires Sorted(KeyLess, q) && names == Elements(q)
    ensures InKeyOrder(names) == q
  {
    Order(q);
  }

  /** Both stripe scans stop at M. */
  lemma CutAtM(s: Scheme)
    ensures Mark(Store(s), [], 2) == Some(M) && Queue(Store(s), [], 2) == [A, B, M]
  {
    hide KeyLess, Store, Watermark, Key, InKeyOrder, SeenNames, Seen;
    StoreSeen(s);
    LowestLast(A, B, M);
    InOrder4();
    NamesSeen(A, B, M);
    QueueOf([A, B, M], SeenNames([[A, M], [B, M], []], 3));
  }

  predicate TwoCells(s: Scheme, row: Row, w: Bytes) {
    && |row| == 3 && row[2] == None
    && (row[0] == None || Holds(s, row, 0, w))
    && (row[1] == None || Holds(s, row, 1, w))
  }

  lemma TwoCellsHonest(s: Scheme, row: Row, w: Bytes)
    requires TwoCells(s, row, w) && |w| < U32_LIMIT
    ensures Honest(s, row, {w})
    ensures Holders(s, row, w) == (if row[0].Some? then {0} else {}) + (if row[1].Some? then {1} else {})
  {
    hide Record, ShardOf;
    assert w in {w};
    assert forall i | 0 <= i < 3 && row[i].Some? :: Holds(s, row, i, w);
  }

  /** A row with two of three records of a wire reads as it; with one, as nothing. */
  lemma TwoOrFewer(s: Scheme, row: Row, w: Bytes)
    requires s.Valid() && s.k == 2 && s.n == |row| == 3 && TwoCells(s, row, w) && |w| < U32_LIMIT
    ensures match Verdict(s, row)
            case None => row[0] == None || row[1] == None
            case Some(a) => a.wire == w && row[0].Some? && row[1].Some?
  {
    hide Holds, TwoCells, Verdict, Honest, Holders;
    TwoCellsHonest(s, row, w);
    HonestVerdict(s, row, {w});
    assert w in {w};
  }

  /** Only M and Z have the two shards they need. */
  lemma TwoReadable(s: Scheme, name: Name)
    requires s.Valid() && s.k == 2 && s.n == 3
    ensures Lookup(Readable(s, Store(s)), name) == if name == M || name == Z then Some(WIRE) else None
  {
    var st := Store(s);
    var row := RowOf(st, name);
    InOrder4();
    hide KeyLess, Record;
    assert row[0].Some? <==> name in {A, M, Z};
    assert row[1].Some? <==> name in {B, M, Z};
    TwoOrFewer(s, row, WIRE);
    ReadableIsVerdict(s, st, name);
  }

  lemma AllOfStore(s: Scheme)
    requires s.Valid() && s.k == 2 && s.n == 3
    ensures All(s, Store(s), []) == [(M, WIRE), (Z, WIRE)]
  {
    hide Readable, Store;
    var m: map<Name, Bytes> := map[M := WIRE, Z := WIRE];
    forall name: Name
      ensures Lookup(Readable(s, Store(s)), name) == Lookup(m, name)
    {
      TwoReadable(s, name);
    }
    SameLookups(Readable(s, Store(s)), m);
    InOrder4();
    hide KeyLess;
    assert NamesUnder(m, []) == Elements([M, Z]);
    Order([M, Z]);
  }

  /** Asked for two packets, the scan answers with M alone although Z also rebuilds: the rows ran out
      at the watermark, and nothing made it scan again. */
  lemma ScanMissesZ(hash: Bytes -> Bytes)
    requires forall b :: |hash(b)| == 32
    ensures var s := TwoOfThree(hash);
            && s.Valid()
            && Starved(s, Store(s), [], 2)
            && ScanExact.ScanUnder(s, Store(s), [], 2) == [(M, WIRE)]
            && MapScan(Readable(s, Store(s)), [], 2) == [(M, WIRE), (Z, WIRE)]
  {
    var s := TwoOfThree(hash);
    SumCodecIsLawful(2, 3);
    hide Readable, Store, MapScan, Scan, Starved;
    AllOfStore(s);
    StoreAnswers(s);
    MapScanTake(Readable(s, Store(s)), [], 2);
  }

  lemma StoreAnswers(s: Scheme)
    requires s.Valid() && s.k == 2 && s.n == 3
    ensures Starved(s, Store(s), [], 2)
    ensures Scan(s, Store(s), [], 2, 2).answer == Some([(M, WIRE)])
  {
    hide Readable, Store, Scan, Mark, Queue, All, Answers, StarvedOn;
    CutAtM(s);
    AllOfStore(s);
    ScanAnswers(s, Store(s), [], 2, 2);
    OnlyTheFirst(s, Scan(s, Store(s), [], 2, 2).answer);
  }

  lemma OnlyTheFirst(s: Scheme, answer: Option<Listing>)
    requires match answer
             case None => exists x | x in [A, B, M] :: Beyond(Some(M), x)
             case Some(r) => Answers(Some(M), [A, B, M], [(M, WIRE), (Z, WIRE)], r, 2)
    ensures answer == Some([(M, WIRE)])
    ensures StarvedOn(Some(M), [A, B, M], [(M, WIRE), (Z, WIRE)], 2)
  {
    InOrder4();
    hide KeyLess;
    var all: Listing := [(M, WIRE), (Z, WIRE)];
    KeyOrder({A, B, M});
    assert Beyond(Some(M), all[1].0) && !Beyond(Some(M), all[0].0);
    assert answer.Some?;
    AnswersExact(Some(M), [A, B, M], all, answer.value, 2);
    assert |answer.value| == 1;
    assert answer.value == all[..1] == [all[0]];
  }
}
