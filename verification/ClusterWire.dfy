/** The cluster's gossip messages as TLVs. */
module ClusterWire {
  import opened Octets
  import opened Tlv
  import opened Names
  import opened Cluster
  import opened Gossip
  import F = FieldLoops
  import C = Commands

  const HEARTBEAT: u64 := 0x1E00
  const JOB: u64 := 0x1E01
  const CLAIM: u64 := 0x1E02
  const RELEASE: u64 := 0x1E03
  const NODE: u64 := 0x1E10
  const TARGET: u64 := 0x1E11
  const JOB_REF: u64 := 0x1E12
  const CAP_USED: u64 := 0x1E14
  const CAP_TOTAL: u64 := 0x1E15
  const EPOCH: u64 := 0x1E16
  const REPL: u64 := 0x1E17
  const TS: u64 := 0x1E18
  const EC_K: u64 := 0x1E19
  const EC_N: u64 := 0x1E1A

  // ---- what is written ---------------------------------------------------------------------

  predicate FieldsFit(m: ClusterMsg) {
    match m
    case Heartbeat(node, _, _, _) => C.Nestable(node)
    case Announce(target, _, _) => C.Nestable(target)
    case Claim(job, node, _) => C.Nestable(job) && C.Nestable(node)
    case Release(job, node) => C.Nestable(job) && C.Nestable(node)
  }

  predicate Fits(m: ClusterMsg) {
    FieldsFit(m) && |Serialize(Body(m))| < U64_LIMIT
  }

  function ErasureFields(erasure: Option<(u16, u16)>): seq<Field> {
    match erasure
    case None => []
    case Some(spec) => [NniField(EC_K, spec.0), NniField(EC_N, spec.1)]
  }

  function Body(m: ClusterMsg): seq<Field>
    requires FieldsFit(m)
  {
    match m
    case Heartbeat(node, used, total, epoch) =>
      [C.NameContainer(NODE, node), NniField(CAP_USED, used), NniField(CAP_TOTAL, total), NniField(EPOCH, epoch)]
    case Announce(target, replication, erasure) =>
      [C.NameContainer(TARGET, target), NniField(REPL, replication)] + ErasureFields(erasure)
    case Claim(job, node, ts) =>
      [C.NameContainer(JOB_REF, job), C.NameContainer(NODE, node), NniField(TS, ts)]
    case Release(job, node) =>
      [C.NameContainer(JOB_REF, job), C.NameContainer(NODE, node)]
  }

  function TypeOf(m: ClusterMsg): u64 {
    match m
    case Heartbeat(_, _, _, _) => HEARTBEAT
    case Announce(_, _, _) => JOB
    case Claim(_, _, _) => CLAIM
    case Release(_, _) => RELEASE
  }

  function Wire(m: ClusterMsg): Bytes
    requires Fits(m)
  {
    WriteTlv(Field(TypeOf(m), Serialize(Body(m))))
  }

  lemma SerializeMore(fs: seq<Field>, f: Field)
    ensures Serialize(fs + [f]) == Serialize(fs) + WriteTlv(f)
  {
    SerializeSplit(fs, [f]);
    C.SerializeOne(f);
  }

  /** One more field of the message being written. */
  method WriteField(w: TlvWriter, f: Field, ghost before: seq<Field>, ghost after: seq<Field>)
    requires w.out == Serialize(before) && after == before + [f]
    modifies w
    ensures w.out == Serialize(after)
  {
    SerializeMore(before, f);
    w.Write(f);
  }

  method WriteBody(w: TlvWriter, m: ClusterMsg)
    requires FieldsFit(m) && w.out == []
    modifies w
    ensures w.out == Serialize(Body(m))
  {
    hide Nni, C.NameContainer, Serialize;
    NoFields();
    match m {
      case Heartbeat(node, used, total, epoch) =>
        var a, b := C.NameContainer(NODE, node), NniField(CAP_USED, used);
        var c, d := NniField(CAP_TOTAL, total), NniField(EPOCH, epoch);
        WriteField(w, a, [], [a]);
        WriteField(w, b, [a], [a, b]);
        WriteField(w, c, [a, b], [a, b, c]);
        WriteField(w, d, [a, b, c], [a, b, c, d]);
      case Announce(target, replication, erasure) =>
        var a, b := C.NameContainer(TARGET, target), NniField(REPL, replication);
        WriteField(w, a, [], [a]);
        WriteField(w, b, [a], [a, b]);
        if erasure.Some? {
          var c, d := NniField(EC_K, erasure.value.0), NniField(EC_N, erasure.value.1);
          WriteField(w, c, [a, b], [a, b, c]);
          WriteField(w, d, [a, b, c], [a, b, c, d]);
          assert [a, b, c, d] == [a, b] + [c, d];
        } else {
          assert [a, b] == [a, b] + [];
        }
      case Claim(job, node, ts) =>
        var a, b, c := C.NameContainer(JOB_REF, job), C.NameContainer(NODE, node), NniField(TS, ts);
        WriteField(w, a, [], [a]);
        WriteField(w, b, [a], [a, b]);
        WriteField(w, c, [a, b], [a, b, c]);
      case Release(job, node) =>
        var a, b := C.NameContainer(JOB_REF, job), C.NameContainer(NODE, node);
        WriteField(w, a, [], [a]);
        WriteField(w, b, [a], [a, b]);
    }
  }

  lemma NoFields()
    ensures Serialize([]) == []
  {
  }

  method Encode(m: ClusterMsg) returns (b: Bytes)
    requires Fits(m)
    ensures b == Wire(m)
  {
    hide WriteTlv, Serialize, Body;
    var nested := new TlvWriter();
    WriteBody(nested, m);
    var w := new TlvWriter();
    w.Write(Field(TypeOf(m), nested.out));
    b := w.out;
  }

  // ---- what is read ------------------------------------------------------------------------

  datatype Fields = Fields(node: Option<Name>, target: Option<Name>, job: Option<Name>, capUsed: u64, capTotal: u64,
                           epoch: u64, repl: u64, ts: u64, ecK: u64, ecN: u64)

  const NO_FIELDS: Fields := Fields(None, None, None, 0, 0, 0, 0, 0, 0, 0)

  function FieldStep(f: Fields, x: Field): Fields {
    if x.typ == NODE then f.(node := FromNameTlv(x.value))
    else if x.typ == TARGET then f.(target := FromNameTlv(x.value))
    else if x.typ == JOB_REF then f.(job := FromNameTlv(x.value))
    else if x.typ == CAP_USED then f.(capUsed := NniValue(x.value))
    else if x.typ == CAP_TOTAL then f.(capTotal := NniValue(x.value))
    else if x.typ == EPOCH then f.(epoch := NniValue(x.value))
    else if x.typ == REPL then f.(repl := NniValue(x.value))
    else if x.typ == TS then f.(ts := NniValue(x.value))
    else if x.typ == EC_K then f.(ecK := NniValue(x.value))
    else if x.typ == EC_N then f.(ecN := NniValue(x.value))
    else f
  }

  function FieldsOf(value: Bytes): Fields {
    F.RunWhileOk(FieldStep, NO_FIELDS, value)
  }

  /** The message a record of fields is, if it has the names it needs; the spec's parts are cast to 16
      bits, and a zero part is no spec. */
  function MsgOf(typ: u64, f: Fields): Option<ClusterMsg> {
    if typ == HEARTBEAT then
      if f.node.Some? then Some(Heartbeat(f.node.value, f.capUsed, f.capTotal, f.epoch)) else None
    else if typ == JOB then
      var erasure := if f.ecK != 0 && f.ecN != 0 then Some((f.ecK % U16_LIMIT, f.ecN % U16_LIMIT)) else None;
      if f.target.Some? then Some(Announce(f.target.value, f.repl, erasure)) else None
    else if typ == CLAIM then
      if f.job.Some? && f.node.Some? then Some(Claim(f.job.value, f.node.value, f.ts)) else None
    else if typ == RELEASE then
      if f.job.Some? && f.node.Some? then Some(Release(f.job.value, f.node.value)) else None
    else None
  }

  function Decoded(b: Bytes): Option<ClusterMsg> {
    match ReadTlv(b)
    case None => None
    case Some(r) => MsgOf(r.field.typ, FieldsOf(r.field.value))
  }

  method SetField(f: Fields, x: Field) returns (g: Fields)
    ensures g == FieldStep(f, x)
  {
    hide NniValue, FromNameTlv;
    if x.typ in {NODE, TARGET, JOB_REF} {
      var n := FromNameTlv(x.value);
      g := if x.typ == NODE then f.(node := n) else if x.typ == TARGET then f.(target := n) else f.(job := n);
    } else {
      var v := DecodeNni(x.value);
      g := if x.typ == CAP_USED then f.(capUsed := v)
           else if x.typ == CAP_TOTAL then f.(capTotal := v)
           else if x.typ == EPOCH then f.(epoch := v)
           else if x.typ == REPL then f.(repl := v)
           else if x.typ == TS then f.(ts := v)
           else if x.typ == EC_K then f.(ecK := v)
           else if x.typ == EC_N then f.(ecN := v)
           else f;
    }
  }

  /** Read until a field does not read, or nothing is left. */
  method ParseFields(value: Bytes) returns (f: Fields)
    ensures f == FieldsOf(value)
  {
    hide ReadTlv, FieldStep;
    f := NO_FIELDS;
    var reader := new TlvReader(value);
    var next := reader.ReadNext();
    while next.Some?
      invariant fresh(reader)
      invariant (if next.Some? then F.RunWhileOk(FieldStep, FieldStep(f, next.value), reader.rest) else f)
             == FieldsOf(value)
      decreases next.Some?, |reader.rest|
    {
      f := SetField(f, next.value);
      if reader.rest == [] {
        NothingReads();
        return;
      }
      next := reader.ReadNext();
    }
  }

  lemma NothingReads()
    ensures ReadTlv([]) == None
  {
  }

  method Decode(value: Bytes) returns (r: Option<ClusterMsg>)
    ensures r == Decoded(value)
  {
    hide ReadTlv, FieldsOf, MsgOf;
    var reader := new TlvReader(value);
    var next := reader.ReadNext();
    if next.None? {
      return None;
    }
    var f := ParseFields(next.value.value);
    r := MsgOf(next.value.typ, f);
  }

  // ---- the round trip ----------------------------------------------------------------------

  /** What a message reads as: a spec with a zero part does not survive. */
  function AsRead(m: ClusterMsg): ClusterMsg {
    if m.Announce? && m.erasure.Some? && (m.erasure.value.0 == 0 || m.erasure.value.1 == 0)
    then m.(erasure := None)
    else m
  }

  lemma NniStep(f: Fields, typ: u64, v: u64)
    ensures typ == CAP_USED ==> FieldStep(f, NniField(typ, v)) == f.(capUsed := v)
    ensures typ == CAP_TOTAL ==> FieldStep(f, NniField(typ, v)) == f.(capTotal := v)
    ensures typ == EPOCH ==> FieldStep(f, NniField(typ, v)) == f.(epoch := v)
    ensures typ == REPL ==> FieldStep(f, NniField(typ, v)) == f.(repl := v)
    ensures typ == TS ==> FieldStep(f, NniField(typ, v)) == f.(ts := v)
    ensures typ == EC_K ==> FieldStep(f, NniField(typ, v)) == f.(ecK := v)
    ensures typ == EC_N ==> FieldStep(f, NniField(typ, v)) == f.(ecN := v)
  {
    hide Nni, NniValue, FromNameTlv;
    NniRoundTrip(v);
  }

  lemma NameStep(f: Fields, typ: u64, n: Name)
    requires C.Nestable(n)
    ensures typ == NODE ==> FieldStep(f, C.NameContainer(typ, n)) == f.(node := Some(n))
    ensures typ == TARGET ==> FieldStep(f, C.NameContainer(typ, n)) == f.(target := Some(n))
    ensures typ == JOB_REF ==> FieldStep(f, C.NameContainer(typ, n)) == f.(job := Some(n))
  {
    hide NameTlv, FromNameTlv, NniValue;
    NameTlvRoundTrip(n);
  }

  lemma FoldTwo(f: Fields, a: Field, b: Field, rest: seq<Field>)
    ensures F.FoldAll(FieldStep, f, [a, b] + rest) == F.FoldAll(FieldStep, FieldStep(FieldStep(f, a), b), rest)
  {
    hide FieldStep;
    var all := [a, b] + rest;
    assert all[1..] == [b] + rest && ([b] + rest)[1..] == rest;
  }

  lemma FoldLast(f: Fields, a: Field)
    ensures F.FoldAll(FieldStep, f, [a]) == FieldStep(f, a)
    ensures F.FoldAll(FieldStep, f, []) == f
  {
    hide FieldStep;
    assert [a][1..] == [];
  }

  lemma HeartbeatFields(node: Name, used: u64, total: u64, epoch: u64)
    requires C.Nestable(node)
    ensures F.FoldAll(FieldStep, NO_FIELDS, Body(Heartbeat(node, used, total, epoch)))
         == Fields(Some(node), None, None, used, total, epoch, 0, 0, 0, 0)
  {
    hide FieldStep, NniField, C.NameContainer, F.FoldAll, C.Nestable;
    var a, b := C.NameContainer(NODE, node), NniField(CAP_USED, used);
    var c, d := NniField(CAP_TOTAL, total), NniField(EPOCH, epoch);
    assert [a, b, c, d] == [a, b] + [c, d] && [c, d] == [c, d] + [];
    FoldTwo(NO_FIELDS, a, b, [c, d]);
    NameStep(NO_FIELDS, NODE, node);
    var f := NO_FIELDS.(node := Some(node));
    NniStep(f, CAP_USED, used);
    var g := f.(capUsed := used);
    FoldTwo(g, c, d, []);
    NniStep(g, CAP_TOTAL, total);
    NniStep(g.(capTotal := total), EPOCH, epoch);
    FoldLast(g.(capTotal := total, epoch := epoch), a);
  }

  lemma AnnounceFields(target: Name, replication: u64, erasure: Option<(u16, u16)>)
    requires C.Nestable(target)
    ensures F.FoldAll(FieldStep, NO_FIELDS, Body(Announce(target, replication, erasure)))
         == Fields(None, Some(target), None, 0, 0, 0, replication, 0,
                   if erasure.Some? then erasure.value.0 else 0, if erasure.Some? then erasure.value.1 else 0)
  {
    hide FieldStep, NniField, C.NameContainer, F.FoldAll, C.Nestable;
    var a, b := C.NameContainer(TARGET, target), NniField(REPL, replication);
    FoldTwo(NO_FIELDS, a, b, ErasureFields(erasure));
    NameStep(NO_FIELDS, TARGET, target);
    var f := NO_FIELDS.(target := Some(target));
    NniStep(f, REPL, replication);
    var g := f.(repl := replication);
    if erasure.Some? {
      var c, d := NniField(EC_K, erasure.value.0), NniField(EC_N, erasure.value.1);
      assert [c, d] == [c, d] + [];
      FoldTwo(g, c, d, []);
      NniStep(g, EC_K, erasure.value.0);
      NniStep(g.(ecK := erasure.value.0), EC_N, erasure.value.1);
      FoldLast(g.(ecK := erasure.value.0, ecN := erasure.value.1), a);
    } else {
      FoldLast(g, a);
    }
  }

  lemma ClaimFields(job: Name, node: Name, ts: u64)
    requires C.Nestable(job) && C.Nestable(node)
    ensures F.FoldAll(FieldStep, NO_FIELDS, Body(Claim(job, node, ts)))
         == Fields(Some(node), None, Some(job), 0, 0, 0, 0, ts, 0, 0)
    ensures F.FoldAll(FieldStep, NO_FIELDS, Body(Release(job, node)))
         == Fields(Some(node), None, Some(job), 0, 0, 0, 0, 0, 0, 0)
  {
    hide FieldStep, NniField, C.NameContainer, F.FoldAll, C.Nestable;
    var a, b, c := C.NameContainer(JOB_REF, job), C.NameContainer(NODE, node), NniField(TS, ts);
    assert [a, b, c] == [a, b] + [c] && [a, b] == [a, b] + [];
    FoldTwo(NO_FIELDS, a, b, [c]);
    FoldTwo(NO_FIELDS, a, b, []);
    NameStep(NO_FIELDS, JOB_REF, job);
    var f := NO_FIELDS.(job := Some(job));
    NameStep(f, NODE, node);
    var g := f.(node := Some(node));
    FoldLast(g, c);
    NniStep(g, TS, ts);
  }

  lemma BodyReads(m: ClusterMsg)
    requires FieldsFit(m)
    ensures MsgOf(TypeOf(m), F.FoldAll(FieldStep, NO_FIELDS, Body(m))) == Some(AsRead(m))
  {
    hide FieldStep, F.FoldAll, Body, C.Nestable;
    match m
    case Heartbeat(node, used, total, epoch) => HeartbeatFields(node, used, total, epoch);
    case Announce(target, replication, erasure) => AnnounceFields(target, replication, erasure);
    case Claim(job, node, ts) => ClaimFields(job, node, ts);
    case Release(job, node) => ClaimFields(job, node, 0);
  }

  /** A message comes back from its encoding, whatever unreadable octets follow its fields or the
      message itself, but for an erasure spec with a zero part, which is dropped. */
  lemma DecodesAsRead(m: ClusterMsg, junk: Bytes, tail: Bytes)
    requires FieldsFit(m) && ReadTlv(junk) == None && |Serialize(Body(m)) + junk| < U64_LIMIT
    ensures Decoded(WriteTlv(Field(TypeOf(m), Serialize(Body(m)) + junk)) + tail) == Some(AsRead(m))
  {
    hide FieldStep, F.FoldAll, Body, WriteTlv, ReadTlv, MsgOf, AsRead, Serialize;
    TlvRoundTrip(Field(TypeOf(m), Serialize(Body(m)) + junk), tail);
    F.RunWhileOkStops(FieldStep, NO_FIELDS, Body(m), junk);
    BodyReads(m);
  }

  /** A message decodes from its encoding to itself exactly when it carries no erasure spec or one with
      no zero part, and no strict prefix of the encoding decodes to anything. */
  lemma MessageRoundTrip(m: ClusterMsg, cut: Bytes)
    requires Fits(m)
    ensures Decoded(Wire(m)) == Some(m)
       <==> (m.Announce? && m.erasure.Some? ==> m.erasure.value.0 != 0 && m.erasure.value.1 != 0)
    ensures cut < Wire(m) ==> Decoded(cut) == None
  {
    hide FieldsOf, Body, WriteTlv, MsgOf, Serialize, FieldsFit;
    NothingReads();
    hide ReadTlv;
    assert Serialize(Body(m)) + [] == Serialize(Body(m)) && Wire(m) + [] == Wire(m);
    DecodesAsRead(m, [], []);
    if cut < Wire(m) {
      TlvPrefixRefused(Field(TypeOf(m), Serialize(Body(m))), cut);
    }
  }

  /** The octets every message begins with. */
  lemma MessageBegins(m: ClusterMsg)
    requires Fits(m)
    ensures Wire(m)[..2] == [0xFD, 0x1E]
    ensures Wire(m)[2] == (match m
                           case Heartbeat(_, _, _, _) => 0 case Announce(_, _, _) => 1
                           case Claim(_, _, _) => 2 case Release(_, _) => 3)
  {
    C.TypeOctets(0x1E, match m
                       case Heartbeat(_, _, _, _) => 0 case Announce(_, _, _) => 1
                       case Claim(_, _, _) => 2 case Release(_, _) => 3);
    hide VarNum, Serialize, Body;
  }

  /** The number the last field of a type holds. */
  function NumberIn(fs: seq<Field>, typ: u64, before: u64): u64 {
    match C.LastOf(fs, typ)
    case None => before
    case Some(b) => NniValue(b)
  }

  lemma NumberInNext(fs: seq<Field>, typ: u64, before: u64)
    requires fs != []
    ensures NumberIn(fs, typ, before)
         == NumberIn(fs[1..], typ, if fs[0].typ == typ then NniValue(fs[0].value) else before)
  {
    hide NniValue;
  }

  /** What the fields say, over what was known before. */
  function Meaning(f: Fields, fs: seq<Field>): Fields {
    Fields(C.NameIn(fs, 0x1E10, f.node), C.NameIn(fs, 0x1E11, f.target), C.NameIn(fs, 0x1E12, f.job),
           NumberIn(fs, 0x1E14, f.capUsed), NumberIn(fs, 0x1E15, f.capTotal),
           NumberIn(fs, 0x1E16, f.epoch), NumberIn(fs, 0x1E17, f.repl), NumberIn(fs, 0x1E18, f.ts),
           NumberIn(fs, 0x1E19, f.ecK), NumberIn(fs, 0x1E1A, f.ecN))
  }

  lemma MeaningNext(f: Fields, fs: seq<Field>)
    requires fs != []
    ensures Meaning(f, fs) == Meaning(FieldStep(f, fs[0]), fs[1..])
  {
    hide FromNameTlv, NniValue, C.NameIn, NumberIn;
    C.NameInNext(fs, NODE, f.node);
    C.NameInNext(fs, TARGET, f.target);
    C.NameInNext(fs, JOB_REF, f.job);
    NumberInNext(fs, CAP_USED, f.capUsed);
    NumberInNext(fs, CAP_TOTAL, f.capTotal);
    NumberInNext(fs, EPOCH, f.epoch);
    NumberInNext(fs, REPL, f.repl);
    NumberInNext(fs, TS, f.ts);
    NumberInNext(fs, EC_K, f.ecK);
    NumberInNext(fs, EC_N, f.ecN);
  }

  /** Whatever fields a message has, in whatever order: the last of each type counts, a missing number is
      0, and a last field that holds no name is no name. */
  lemma {:induction false} FieldsMean(f: Fields, fs: seq<Field>)
    ensures F.FoldAll(FieldStep, f, fs) == Meaning(f, fs)
    decreases |fs|
  {
    if fs != [] {
      hide FieldStep, Meaning;
      FieldsMean(FieldStep(f, fs[0]), fs[1..]);
      MeaningNext(f, fs);
    }
  }

  /** A peer's announcement with parts of any size: both not zero, it is taken with the low 16 bits of
      each, which may be zero. */
  lemma WideSpecIsCut(target: Name, replication: u64, k: u64, n: u64, tail: Bytes)
    requires C.Nestable(target)
    requires var fs := [C.NameContainer(TARGET, target), NniField(REPL, replication),
                        NniField(EC_K, k), NniField(EC_N, n)];
             |Serialize(fs)| < U64_LIMIT
    ensures var fs := [C.NameContainer(TARGET, target), NniField(REPL, replication),
                       NniField(EC_K, k), NniField(EC_N, n)];
            Decoded(WriteTlv(Field(JOB, Serialize(fs))) + tail)
            == Some(Announce(target, replication,
                             if k != 0 && n != 0 then Some((k % 65536, n % 65536)) else None))
  {
    var fs := [C.NameContainer(TARGET, target), NniField(REPL, replication), NniField(EC_K, k), NniField(EC_N, n)];
    TlvRoundTrip(Field(JOB, Serialize(fs)), tail);
    NothingReads();
    assert Serialize(fs) + [] == Serialize(fs);
    F.RunWhileOkStops(FieldStep, NO_FIELDS, fs, []);
    WideFields(target, replication, k, n);
    hide FieldStep, F.FoldAll, Serialize, ReadTlv, WriteTlv, NniField, C.NameContainer;
  }

  lemma WideFields(target: Name, replication: u64, k: u64, n: u64)
    requires C.Nestable(target)
    ensures F.FoldAll(FieldStep, NO_FIELDS,
                      [C.NameContainer(TARGET, target), NniField(REPL, replication),
                       NniField(EC_K, k), NniField(EC_N, n)])
         == Fields(None, Some(target), None, 0, 0, 0, replication, 0, k, n)
  {
    hide FieldStep, NniField, C.NameContainer, F.FoldAll, C.Nestable;
    var a, b := C.NameContainer(TARGET, target), NniField(REPL, replication);
    var c, d := NniField(EC_K, k), NniField(EC_N, n);
    assert [a, b, c, d] == [a, b] + [c, d] && [c, d] == [c, d] + [];
    FoldTwo(NO_FIELDS, a, b, [c, d]);
    NameStep(NO_FIELDS, TARGET, target);
    var f := NO_FIELDS.(target := Some(target));
    NniStep(f, REPL, replication);
    var g := f.(repl := replication);
    FoldTwo(g, c, d, []);
    NniStep(g, EC_K, k);
    NniStep(g.(ecK := k), EC_N, n);
    FoldLast(g.(ecK := k, ecN := n), a);
  }

  // ---- gossiping a spec --------------------------------------------------------------------

  /** What a peer stores on hearing the spec `(k, n)`: that spec exactly when it could have come from
      `Spec`, that is when `k` is not zero and `n` exceeds it or both are saturated. */
  lemma HeardSpec(k: u16, n: u16)
    ensures Spec(k, SaturatingSub(n, k)) == (k, n) <==> k >= 1 && (n > k || k == n == U16_LIMIT - 1)
  {
  }

  /** A node announces an erasure job to itself with any `k` and redundancy, saturation included, and
      gossips the spec it stored: a peer that decodes the message stores the same spec. */
  lemma PeersStoreTheSameSpec(v: View, peer: View, target: JobId, k: u16, redundancy: u16, replication: u64, now: u64)
    requires var m := Announce(target, replication, WithErasureJob(v, target, k, redundancy).jobs[target].erasure);
             Fits(m)
    ensures var spec := WithErasureJob(v, target, k, redundancy).jobs[target].erasure;
            var heard := Decoded(Wire(Announce(target, replication, spec)));
            heard.Some? && JobOf(Observed(peer, heard.value, now), target).erasure == spec
  {
    hide Fits, Decoded, Wire;
    var spec := Spec(k, redundancy);
    MessageRoundTrip(Announce(target, replication, Some(spec)), []);
    HeardSpec(spec.0, spec.1);
  }
}
