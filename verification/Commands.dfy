/** The repo's commands and replies as TLVs, compatible with ndnd's `repo/tlv/definitions.go`. */
module Commands {
  import opened Octets
  import opened Orders
  import opened Tlv
  import opened FieldLoops
  import opened Names

  const SYNC_JOIN: u64 := 0x1DB0
  const SYNC_LEAVE: u64 := 0x1DB1
  const BLOB_FETCH: u64 := 0x1DB2
  const SECURITY_CONFIG: u64 := 0x1DB4
  const PROTOCOL: u64 := 0x191
  const GROUP: u64 := 0x193
  const MULTICAST_PREFIX: u64 := 0x194
  const HISTORY_SNAPSHOT: u64 := 0x1A4
  const HISTORY_THRESHOLD: u64 := 0x1A5
  const BLOB_NAME: u64 := 0x1B8
  const BLOB_DATA: u64 := 0x1BA
  const RES_STATUS: u64 := 0x291
  const RES_MESSAGE: u64 := 0x292

  datatype SyncJoin = SyncJoin(protocol: Option<Name>, group: Option<Name>, multicastPrefix: Option<Name>,
                               historyThreshold: Option<u64>, securityConfig: Option<Name>)

  datatype SyncLeave = SyncLeave(protocol: Option<Name>, group: Option<Name>)

  datatype BlobFetch = BlobFetch(name: Option<Name>, data: seq<Bytes>)

  datatype RepoCmd =
    | Join(join: SyncJoin)
    | Leave(leave: SyncLeave)
    | Blob(blob: BlobFetch)

  // ---- sizes -------------------------------------------------------------------------------

  /** A name that can be nested in a TLV. */
  predicate Nestable(n: Name) {
    Encodable(n) && |NameTlv(n)| < U64_LIMIT
  }

  predicate NestableOpt(o: Option<Name>) {
    o.Some? ==> Nestable(o.value)
  }

  /** A command small enough to be held in memory, whose TLV lengths therefore all fit. */
  predicate Fits(cmd: RepoCmd) {
    && FieldsFit(cmd)
    && |Serialize(Body(cmd))| < U64_LIMIT
  }

  predicate FieldsFit(cmd: RepoCmd) {
    match cmd
    case Join(j) =>
      NestableOpt(j.protocol) && NestableOpt(j.group) && NestableOpt(j.multicastPrefix) && NestableOpt(j.securityConfig)
    case Leave(l) => NestableOpt(l.protocol) && NestableOpt(l.group)
    case Blob(b) => NestableOpt(b.name) && forall d | d in b.data :: |d| < U64_LIMIT
  }

  // ---- what is written ---------------------------------------------------------------------

  function NameContainer(typ: u64, n: Name): Field
    requires Nestable(n)
  {
    Field(typ, NameTlv(n))
  }

  function NameContainerOpt(typ: u64, o: Option<Name>): seq<Field>
    requires NestableOpt(o)
  {
    match o
    case None => []
    case Some(n) => [NameContainer(typ, n)]
  }

  lemma SmallNniField(v: u64)
    ensures |WriteTlv(NniField(HISTORY_THRESHOLD, v))| < U64_LIMIT
  {
  }

  function History(threshold: Option<u64>): seq<Field> {
    match threshold
    case None => []
    case Some(t) =>
      SmallNniField(t);
      [Field(HISTORY_SNAPSHOT, WriteTlv(NniField(HISTORY_THRESHOLD, t)))]
  }

  /** A join with the given history fields. */
  function JoinFields(j: SyncJoin, history: seq<Field>): seq<Field>
    requires FieldsFit(Join(j))
  {
    NameContainerOpt(PROTOCOL, j.protocol) + NameContainerOpt(GROUP, j.group)
    + NameContainerOpt(MULTICAST_PREFIX, j.multicastPrefix) + history
    + NameContainerOpt(SECURITY_CONFIG, j.securityConfig)
  }

  function LeaveFields(l: SyncLeave): seq<Field>
    requires FieldsFit(Leave(l))
  {
    NameContainerOpt(PROTOCOL, l.protocol) + NameContainerOpt(GROUP, l.group)
  }

  function DataFields(data: seq<Bytes>): seq<Field>
    requires forall d | d in data :: |d| < U64_LIMIT
  {
    if data == [] then [] else [Field(BLOB_DATA, data[0])] + DataFields(data[1..])
  }

  function Body(cmd: RepoCmd): seq<Field>
    requires FieldsFit(cmd)
  {
    match cmd
    case Join(j) => JoinFields(j, History(j.historyThreshold))
    case Leave(l) => LeaveFields(l)
    case Blob(b) => NameContainerOpt(BLOB_NAME, b.name) + DataFields(b.data)
  }

  function TypeOf(cmd: RepoCmd): u64 {
    match cmd
    case Join(_) => SYNC_JOIN
    case Leave(_) => SYNC_LEAVE
    case Blob(_) => BLOB_FETCH
  }

  function Wire(cmd: RepoCmd): Bytes
    requires Fits(cmd)
  {
    WriteTlv(Field(TypeOf(cmd), Serialize(Body(cmd))))
  }

  // ---- the printer -------------------------------------------------------------------------

  lemma SerializeOne(f: Field)
    ensures Serialize([f]) == WriteTlv(f)
  {
    assert [f][1..] == [];
  }

  method WriteNameOpt(w: TlvWriter, typ: u64, o: Option<Name>)
    requires NestableOpt(o)
    modifies w
    ensures w.out == old(w.out) + Serialize(NameContainerOpt(typ, o))
  {
    if o.Some? {
      SerializeOne(NameContainer(typ, o.value));
      w.Write(Field(typ, NameTlv(o.value)));
    }
  }

  method WriteHistory(w: TlvWriter, threshold: Option<u64>)
    modifies w
    ensures w.out == old(w.out) + Serialize(History(threshold))
  {
    hide WriteTlv, NniField;
    if threshold.Some? {
      var nested := new TlvWriter();
      SmallNniField(threshold.value);
      nested.Write(NniField(HISTORY_THRESHOLD, threshold.value));
      assert nested.out == WriteTlv(NniField(HISTORY_THRESHOLD, threshold.value));
      SerializeOne(Field(HISTORY_SNAPSHOT, nested.out));
      w.Write(Field(HISTORY_SNAPSHOT, nested.out));
    }
  }

  method WriteBlobs(w: TlvWriter, data: seq<Bytes>)
    requires forall d | d in data :: |d| < U64_LIMIT
    modifies w
    ensures w.out == old(w.out) + Serialize(DataFields(data))
  {
    hide WriteTlv;
    for i := 0 to |data|
      invariant w.out + Serialize(DataFields(data[i..])) == old(w.out) + Serialize(DataFields(data))
    {
      assert data[i..][0] == data[i] && data[i..][1..] == data[i + 1..];
      var f := Field(BLOB_DATA, data[i]);
      assert ([f] + DataFields(data[i + 1..]))[1..] == DataFields(data[i + 1..]);
      Associative(w.out, WriteTlv(f), Serialize(DataFields(data[i + 1..])));
      w.Write(f);
    }
  }

  method WriteBody(w: TlvWriter, cmd: RepoCmd)
    requires FieldsFit(cmd)
    modifies w
    ensures w.out == old(w.out) + Serialize(Body(cmd))
  {
    hide Serialize, NameContainerOpt, History, DataFields;
    match cmd {
      case Join(j) =>
        JoinSplit(j, History(j.historyThreshold));
        WriteNameOpt(w, PROTOCOL, j.protocol);
        WriteNameOpt(w, GROUP, j.group);
        WriteNameOpt(w, MULTICAST_PREFIX, j.multicastPrefix);
        WriteHistory(w, j.historyThreshold);
        WriteNameOpt(w, SECURITY_CONFIG, j.securityConfig);
      case Leave(l) =>
        SerializeSplit(NameContainerOpt(PROTOCOL, l.protocol), NameContainerOpt(GROUP, l.group));
        WriteNameOpt(w, PROTOCOL, l.protocol);
        WriteNameOpt(w, GROUP, l.group);
      case Blob(b) =>
        SerializeSplit(NameContainerOpt(BLOB_NAME, b.name), DataFields(b.data));
        WriteNameOpt(w, BLOB_NAME, b.name);
        WriteBlobs(w, b.data);
    }
  }

  lemma JoinSplit(j: SyncJoin, history: seq<Field>)
    requires FieldsFit(Join(j))
    ensures Serialize(JoinFields(j, history))
         == Serialize(NameContainerOpt(PROTOCOL, j.protocol)) + Serialize(NameContainerOpt(GROUP, j.group))
            + Serialize(NameContainerOpt(MULTICAST_PREFIX, j.multicastPrefix)) + Serialize(history)
            + Serialize(NameContainerOpt(SECURITY_CONFIG, j.securityConfig))
  {
    hide Serialize, NameContainerOpt;
    var a, b := NameContainerOpt(PROTOCOL, j.protocol), NameContainerOpt(GROUP, j.group);
    var c := NameContainerOpt(MULTICAST_PREFIX, j.multicastPrefix);
    var d := NameContainerOpt(SECURITY_CONFIG, j.securityConfig);
    SerializeSplit(a, b);
    SerializeSplit(a + b, c);
    SerializeSplit(a + b + c, history);
    SerializeSplit(a + b + c + history, d);
  }

  method Encode(cmd: RepoCmd) returns (b: Bytes)
    requires Fits(cmd)
    ensures b == Wire(cmd)
  {
    hide WriteTlv, Serialize, Body;
    var nested := new TlvWriter();
    WriteBody(nested, cmd);
    assert nested.out == Serialize(Body(cmd));
    var w := new TlvWriter();
    w.Write(Field(TypeOf(cmd), nested.out));
    b := w.out;
  }

  // ---- what is read ------------------------------------------------------------------------

  const NO_JOIN: SyncJoin := SyncJoin(None, None, None, None, None)
  const NO_LEAVE: SyncLeave := SyncLeave(None, None)
  const NO_BLOB: BlobFetch := BlobFetch(None, [])

  function HistoryStep(t: Option<u64>, f: Field): Option<Option<u64>> {
    if f.typ == HISTORY_THRESHOLD then Some(Some(NniValue(f.value))) else Some(t)
  }

  function JoinStep(j: SyncJoin, f: Field): Option<SyncJoin> {
    if f.typ == PROTOCOL then Some(j.(protocol := FromNameTlv(f.value)))
    else if f.typ == GROUP then Some(j.(group := FromNameTlv(f.value)))
    else if f.typ == MULTICAST_PREFIX then Some(j.(multicastPrefix := FromNameTlv(f.value)))
    else if f.typ == HISTORY_SNAPSHOT then
      match Run(HistoryStep, j.historyThreshold, f.value)
      case None => None
      case Some(t) => Some(j.(historyThreshold := t))
    else if f.typ == SECURITY_CONFIG then Some(j.(securityConfig := FromNameTlv(f.value)))
    else Some(j)
  }

  function LeaveStep(l: SyncLeave, f: Field): Option<SyncLeave> {
    if f.typ == PROTOCOL then Some(l.(protocol := FromNameTlv(f.value)))
    else if f.typ == GROUP then Some(l.(group := FromNameTlv(f.value)))
    else Some(l)
  }

  function BlobStep(b: BlobFetch, f: Field): Option<BlobFetch> {
    if f.typ == BLOB_NAME then Some(b.(name := FromNameTlv(f.value)))
    else if f.typ == BLOB_DATA then Some(b.(data := b.data + [f.value]))
    else Some(b)
  }

  function DecodedBody(typ: u64, value: Bytes): Option<RepoCmd> {
    if typ == SYNC_JOIN then
      match Run(JoinStep, NO_JOIN, value) case None => None case Some(j) => Some(Join(j))
    else if typ == SYNC_LEAVE then
      match Run(LeaveStep, NO_LEAVE, value) case None => None case Some(l) => Some(Leave(l))
    else if typ == BLOB_FETCH then
      match Run(BlobStep, NO_BLOB, value) case None => None case Some(x) => Some(Blob(x))
    else None
  }

  /** Only the first TLV is looked at. */
  function Decoded(b: Bytes): Option<RepoCmd> {
    match ReadTlv(b)
    case None => None
    case Some(r) => DecodedBody(r.field.typ, r.field.value)
  }

  // ---- the loop parsers --------------------------------------------------------------------

  method DecodeHistory(value: Bytes, before: Option<u64>) returns (ok: bool, t: Option<u64>)
    ensures Run(HistoryStep, before, value) == if ok then Some(t) else None
  {
    t := before;
    var r := new TlvReader(value);
    while r.rest != []
      invariant fresh(r)
      invariant Run(HistoryStep, t, r.rest) == Run(HistoryStep, before, value)
      decreases |r.rest|
    {
      var next := r.ReadNext();
      if next.None? {
        return false, t;
      }
      if next.value.typ == HISTORY_THRESHOLD {
        var v := DecodeNni(next.value.value);
        t := Some(v);
      }
    }
    ok := true;
  }

  method DecodeSyncJoin(value: Bytes) returns (r: Option<SyncJoin>)
    ensures r == Run(JoinStep, NO_JOIN, value)
  {
    hide ReadTlv, FromNameTlv;
    var j := NO_JOIN;
    var reader := new TlvReader(value);
    while reader.rest != []
      invariant fresh(reader)
      invariant Run(JoinStep, j, reader.rest) == Run(JoinStep, NO_JOIN, value)
      decreases |reader.rest|
    {
      var next := reader.ReadNext();
      if next.None? {
        return None;
      }
      var typ, val := next.value.typ, next.value.value;
      if typ == PROTOCOL {
        j := j.(protocol := FromNameTlv(val));
      } else if typ == GROUP {
        j := j.(group := FromNameTlv(val));
      } else if typ == MULTICAST_PREFIX {
        j := j.(multicastPrefix := FromNameTlv(val));
      } else if typ == HISTORY_SNAPSHOT {
        var ok, t := DecodeHistory(val, j.historyThreshold);
        if !ok {
          return None;
        }
        j := j.(historyThreshold := t);
      } else if typ == SECURITY_CONFIG {
        j := j.(securityConfig := FromNameTlv(val));
      }
    }
    r := Some(j);
  }

  method DecodeSyncLeave(value: Bytes) returns (r: Option<SyncLeave>)
    ensures r == Run(LeaveStep, NO_LEAVE, value)
  {
    hide ReadTlv, FromNameTlv;
    var l := NO_LEAVE;
    var reader := new TlvReader(value);
    while reader.rest != []
      invariant fresh(reader)
      invariant Run(LeaveStep, l, reader.rest) == Run(LeaveStep, NO_LEAVE, value)
      decreases |reader.rest|
    {
      var next := reader.ReadNext();
      if next.None? {
        return None;
      }
      if next.value.typ == PROTOCOL {
        l := l.(protocol := FromNameTlv(next.value.value));
      } else if next.value.typ == GROUP {
        l := l.(group := FromNameTlv(next.value.value));
      }
    }
    r := Some(l);
  }

  method DecodeBlobFetch(value: Bytes) returns (r: Option<BlobFetch>)
    ensures r == Run(BlobStep, NO_BLOB, value)
  {
    hide ReadTlv, FromNameTlv;
    var b := NO_BLOB;
    var reader := new TlvReader(value);
    while reader.rest != []
      invariant fresh(reader)
      invariant Run(BlobStep, b, reader.rest) == Run(BlobStep, NO_BLOB, value)
      decreases |reader.rest|
    {
      var next := reader.ReadNext();
      if next.None? {
        return None;
      }
      if next.value.typ == BLOB_NAME {
        b := b.(name := FromNameTlv(next.value.value));
      } else if next.value.typ == BLOB_DATA {
        b := b.(data := b.data + [next.value.value]);
      }
    }
    r := Some(b);
  }

  method Decode(value: Bytes) returns (r: Option<RepoCmd>)
    ensures r == Decoded(value)
  {
    hide Run, ReadTlv;
    var reader := new TlvReader(value);
    var next := reader.ReadNext();
    if next.None? {
      return None;
    }
    var typ, val := next.value.typ, next.value.value;
    if typ == SYNC_JOIN {
      var j := DecodeSyncJoin(val);
      r := match j case None => None case Some(x) => Some(Join(x));
    } else if typ == SYNC_LEAVE {
      var l := DecodeSyncLeave(val);
      r := match l case None => None case Some(x) => Some(Leave(x));
    } else if typ == BLOB_FETCH {
      var b := DecodeBlobFetch(val);
      r := match b case None => None case Some(x) => Some(Blob(x));
    } else {
      r := None;
    }
  }

  // ---- unknown fields ----------------------------------------------------------------------

  predicate JoinKnown(f: Field) {
    f.typ in {PROTOCOL, GROUP, MULTICAST_PREFIX, HISTORY_SNAPSHOT, SECURITY_CONFIG}
  }

  predicate LeaveKnown(f: Field) {
    f.typ in {PROTOCOL, GROUP}
  }

  predicate BlobKnown(f: Field) {
    f.typ in {BLOB_NAME, BLOB_DATA}
  }

  predicate HistoryKnown(f: Field) {
    f.typ == HISTORY_THRESHOLD
  }

  /** The fields a command of this type has. */
  function KnownTo(typ: u64): Field -> bool {
    if typ == SYNC_JOIN then JoinKnown else if typ == SYNC_LEAVE then LeaveKnown else BlobKnown
  }

  /** Whatever fields a command's body holds, those of unknown types could as well not be there. */
  lemma UnknownFieldsIgnored(typ: u64, fs: seq<Field>)
    ensures DecodedBody(typ, Serialize(fs)) == DecodedBody(typ, Serialize(Filter(fs, KnownTo(typ))))
  {
    hide Run, Fold, Serialize, Filter, NniValue, FromNameTlv;
    var kept := Filter(fs, KnownTo(typ));
    if typ == SYNC_JOIN {
      RunOfFields(JoinStep, NO_JOIN, fs);
      RunOfFields(JoinStep, NO_JOIN, kept);
      FoldKnown(JoinStep, JoinKnown, NO_JOIN, fs);
    } else if typ == SYNC_LEAVE {
      RunOfFields(LeaveStep, NO_LEAVE, fs);
      RunOfFields(LeaveStep, NO_LEAVE, kept);
      FoldKnown(LeaveStep, LeaveKnown, NO_LEAVE, fs);
    } else if typ == BLOB_FETCH {
      RunOfFields(BlobStep, NO_BLOB, fs);
      RunOfFields(BlobStep, NO_BLOB, kept);
      FoldKnown(BlobStep, BlobKnown, NO_BLOB, fs);
    }
  }

  // ---- the round trip ----------------------------------------------------------------------

  /** The history field with the given fields in it: the threshold and any of unknown types. */
  function HistoryOf(threshold: Option<u64>, hs: seq<Field>): seq<Field>
    requires |Serialize(hs)| < U64_LIMIT
  {
    match threshold
    case None => []
    case Some(_) => [Field(HISTORY_SNAPSHOT, Serialize(hs))]
  }

  predicate HoldsThreshold(threshold: Option<u64>, hs: seq<Field>) {
    && |Serialize(hs)| < U64_LIMIT
    && (threshold.Some? ==> Filter(hs, HistoryKnown) == [NniField(HISTORY_THRESHOLD, threshold.value)])
  }

  /** The command's fields, with `hs` for the fields of its history. */
  function BodyWith(cmd: RepoCmd, hs: seq<Field>): seq<Field>
    requires FieldsFit(cmd) && |Serialize(hs)| < U64_LIMIT
  {
    if cmd.Join? then JoinFields(cmd.join, HistoryOf(cmd.join.historyThreshold, hs)) else Body(cmd)
  }

  /** `fs` are the fields of `cmd` in order, with fields of unknown types anywhere among them and
      among those of its history, `hs`. */
  predicate Padded(cmd: RepoCmd, fs: seq<Field>, hs: seq<Field>) {
    && FieldsFit(cmd)
    && HoldsThreshold(if cmd.Join? then cmd.join.historyThreshold else None, hs)
    && Filter(fs, KnownTo(TypeOf(cmd))) == BodyWith(cmd, hs)
  }

  lemma FoldSingle<S>(step: (S, Field) -> Option<S>, s: S, f: Field)
    ensures Fold(step, s, [f]) == step(s, f)
  {
    assert [f][1..] == [];
  }

  lemma ReadName(o: Option<Name>)
    requires NestableOpt(o)
    ensures o.Some? ==> FromNameTlv(NameTlv(o.value)) == o
  {
    if o.Some? {
      NameTlvRoundTrip(o.value);
    }
  }

  lemma JoinName(j: SyncJoin, typ: u64, o: Option<Name>)
    requires NestableOpt(o)
    ensures typ == PROTOCOL && j.protocol == None ==>
              Fold(JoinStep, j, NameContainerOpt(typ, o)) == Some(j.(protocol := o))
    ensures typ == GROUP && j.group == None ==>
              Fold(JoinStep, j, NameContainerOpt(typ, o)) == Some(j.(group := o))
    ensures typ == MULTICAST_PREFIX && j.multicastPrefix == None ==>
              Fold(JoinStep, j, NameContainerOpt(typ, o)) == Some(j.(multicastPrefix := o))
    ensures typ == SECURITY_CONFIG && j.securityConfig == None ==>
              Fold(JoinStep, j, NameContainerOpt(typ, o)) == Some(j.(securityConfig := o))
  {
    hide FromNameTlv, NameTlv, Run;
    ReadName(o);
    if o.Some? {
      FoldSingle(JoinStep, j, NameContainer(typ, o.value));
    }
  }

  lemma JoinHistory(j: SyncJoin, threshold: Option<u64>, hs: seq<Field>)
    requires HoldsThreshold(threshold, hs) && j.historyThreshold == None
    ensures Fold(JoinStep, j, HistoryOf(threshold, hs)) == Some(j.(historyThreshold := threshold))
  {
    hide FromNameTlv, Run, Serialize, Filter, NniField, NniValue;
    if threshold.Some? {
      FoldSingle(JoinStep, j, Field(HISTORY_SNAPSHOT, Serialize(hs)));
      RunOfFields(HistoryStep, None, hs);
      FoldKnown(HistoryStep, HistoryKnown, None, hs);
      FoldSingle(HistoryStep, None, NniField(HISTORY_THRESHOLD, threshold.value));
      ThresholdRead(None, threshold.value);
    }
  }

  lemma ThresholdRead(t: Option<u64>, v: u64)
    ensures HistoryStep(t, NniField(HISTORY_THRESHOLD, v)) == Some(Some(v))
  {
    hide Nni, NniValue;
    NniRoundTrip(v);
  }

  lemma JoinFold(j: SyncJoin, hs: seq<Field>)
    requires FieldsFit(Join(j)) && HoldsThreshold(j.historyThreshold, hs)
    ensures Fold(JoinStep, NO_JOIN, JoinFields(j, HistoryOf(j.historyThreshold, hs))) == Some(j)
  {
    var h := HistoryOf(j.historyThreshold, hs);
    hide NameContainerOpt, HistoryOf, Fold, HoldsThreshold, JoinStep;
    var a, b := NameContainerOpt(PROTOCOL, j.protocol), NameContainerOpt(GROUP, j.group);
    var c := NameContainerOpt(MULTICAST_PREFIX, j.multicastPrefix);
    var d := NameContainerOpt(SECURITY_CONFIG, j.securityConfig);
    FoldSplit(JoinStep, NO_JOIN, a + b + c + h, d);
    FoldSplit(JoinStep, NO_JOIN, a + b + c, h);
    FoldSplit(JoinStep, NO_JOIN, a + b, c);
    FoldSplit(JoinStep, NO_JOIN, a, b);
    JoinName(NO_JOIN, PROTOCOL, j.protocol);
    JoinName(SyncJoin(j.protocol, None, None, None, None), GROUP, j.group);
    JoinName(SyncJoin(j.protocol, j.group, None, None, None), MULTICAST_PREFIX, j.multicastPrefix);
    JoinHistory(SyncJoin(j.protocol, j.group, j.multicastPrefix, None, None), j.historyThreshold, hs);
    JoinName(SyncJoin(j.protocol, j.group, j.multicastPrefix, j.historyThreshold, None), SECURITY_CONFIG,
             j.securityConfig);
  }

  lemma LeaveName(l: SyncLeave, typ: u64, o: Option<Name>)
    requires NestableOpt(o)
    ensures typ == PROTOCOL && l.protocol == None ==>
              Fold(LeaveStep, l, NameContainerOpt(typ, o)) == Some(l.(protocol := o))
    ensures typ == GROUP && l.group == None ==>
              Fold(LeaveStep, l, NameContainerOpt(typ, o)) == Some(l.(group := o))
  {
    hide FromNameTlv, NameTlv;
    ReadName(o);
    if o.Some? {
      FoldSingle(LeaveStep, l, NameContainer(typ, o.value));
    }
  }

  lemma LeaveFold(l: SyncLeave)
    requires FieldsFit(Leave(l))
    ensures Fold(LeaveStep, NO_LEAVE, LeaveFields(l)) == Some(l)
  {
    hide NameContainerOpt, Fold, LeaveStep;
    FoldSplit(LeaveStep, NO_LEAVE, NameContainerOpt(PROTOCOL, l.protocol), NameContainerOpt(GROUP, l.group));
    LeaveName(NO_LEAVE, PROTOCOL, l.protocol);
    LeaveName(SyncLeave(l.protocol, None), GROUP, l.group);
  }

  lemma {:induction false} BlobData(b: BlobFetch, data: seq<Bytes>)
    requires forall d | d in data :: |d| < U64_LIMIT
    ensures Fold(BlobStep, b, DataFields(data)) == Some(b.(data := b.data + data))
    decreases |data|
  {
    if data == [] {
      assert b.data + data == b.data;
    } else {
      var f := Field(BLOB_DATA, data[0]);
      assert ([f] + DataFields(data[1..]))[1..] == DataFields(data[1..]);
      BlobData(b.(data := b.data + [data[0]]), data[1..]);
      assert b.data + [data[0]] + data[1..] == b.data + data;
    }
  }

  lemma BlobFold(b: BlobFetch)
    requires FieldsFit(Blob(b))
    ensures Fold(BlobStep, NO_BLOB, NameContainerOpt(BLOB_NAME, b.name) + DataFields(b.data)) == Some(b)
  {
    hide FromNameTlv, NameTlv, DataFields;
    FoldSplit(BlobStep, NO_BLOB, NameContainerOpt(BLOB_NAME, b.name), DataFields(b.data));
    ReadName(b.name);
    if b.name.Some? {
      FoldSingle(BlobStep, NO_BLOB, NameContainer(BLOB_NAME, b.name.value));
    }
    BlobData(BlobFetch(b.name, []), b.data);
    assert [] + b.data == b.data;
  }

  lemma BodyDecodes(cmd: RepoCmd, hs: seq<Field>)
    requires FieldsFit(cmd) && HoldsThreshold(if cmd.Join? then cmd.join.historyThreshold else None, hs)
    ensures DecodedBody(TypeOf(cmd), Serialize(BodyWith(cmd, hs))) == Some(cmd)
  {
    hide Run, Fold, Serialize, JoinFields, LeaveFields, DataFields, NameContainerOpt, HistoryOf;
    match cmd
    case Join(j) =>
      RunOfFields(JoinStep, NO_JOIN, BodyWith(cmd, hs));
      JoinFold(j, hs);
    case Leave(l) =>
      RunOfFields(LeaveStep, NO_LEAVE, LeaveFields(l));
      LeaveFold(l);
    case Blob(b) =>
      RunOfFields(BlobStep, NO_BLOB, BodyWith(cmd, hs));
      BlobFold(b);
  }

  /** A command is understood from its own fields whatever unknown fields a newer sender mixed in, at
      both levels, and whatever follows the command. */
  lemma PaddedCommandDecodes(cmd: RepoCmd, fs: seq<Field>, hs: seq<Field>, tail: Bytes)
    requires Padded(cmd, fs, hs) && |Serialize(fs)| < U64_LIMIT
    ensures Decoded(WriteTlv(Field(TypeOf(cmd), Serialize(fs))) + tail) == Some(cmd)
  {
    hide DecodedBody, Serialize, BodyWith, HoldsThreshold, Filter, WriteTlv, ReadTlv, KnownTo;
    TlvRoundTrip(Field(TypeOf(cmd), Serialize(fs)), tail);
    UnknownFieldsIgnored(TypeOf(cmd), fs);
    BodyDecodes(cmd, hs);
  }

  /** Every command decodes from its own encoding to itself, and no strict prefix of that encoding
      decodes to anything. */
  lemma CommandRoundTrip(cmd: RepoCmd, cut: Bytes)
    requires Fits(cmd)
    ensures Decoded(Wire(cmd)) == Some(cmd)
    ensures cut < Wire(cmd) ==> Decoded(cut) == None
  {
    hide DecodedBody, Serialize, WriteTlv, ReadTlv, NniField, JoinFields;
    var f := Field(TypeOf(cmd), Serialize(Body(cmd)));
    TlvRoundTrip(f, []);
    assert Wire(cmd) + [] == Wire(cmd);
    if cut < Wire(cmd) {
      TlvPrefixRefused(f, cut);
    }
    var hs := OwnHistory(cmd);
    OwnHistoryHolds(cmd);
    BodyDecodes(cmd, hs);
  }

  /** The history field as the printer writes it. */
  function OwnHistory(cmd: RepoCmd): seq<Field> {
    if cmd.Join? && cmd.join.historyThreshold.Some?
    then [NniField(HISTORY_THRESHOLD, cmd.join.historyThreshold.value)]
    else []
  }

  lemma OwnHistoryHolds(cmd: RepoCmd)
    requires FieldsFit(cmd)
    ensures HoldsThreshold(if cmd.Join? then cmd.join.historyThreshold else None, OwnHistory(cmd))
    ensures BodyWith(cmd, OwnHistory(cmd)) == Body(cmd)
  {
    hide JoinFields, LeaveFields, DataFields, NameContainerOpt, WriteTlv, Nni;
    if cmd.Join? && cmd.join.historyThreshold.Some? {
      var f := NniField(HISTORY_THRESHOLD, cmd.join.historyThreshold.value);
      SmallNniField(cmd.join.historyThreshold.value);
      SerializeOne(f);
      assert [f][1..] == [];
      assert Filter([f], HistoryKnown) == [f];
    }
  }

  /** The octets every command begins with. */
  lemma CommandBegins(cmd: RepoCmd)
    requires Fits(cmd)
    ensures Wire(cmd)[..2] == [0xFD, 0x1D]
    ensures Wire(cmd)[2] == match cmd case Join(_) => 0xB0 case Leave(_) => 0xB1 case Blob(_) => 0xB2
  {
    hide VarNum, Serialize, Body, Nestable;
    var low: Byte := match cmd case Join(_) => 0xB0 case Leave(_) => 0xB1 case Blob(_) => 0xB2;
    TypeOctets(0x1D, low);
    assert VarNum(TypeOf(cmd)) == [0xFD, 0x1D, low];
  }

  /** A type of two octets: a marker and the number, most significant octet first. */
  lemma TypeOctets(high: Byte, low: Byte)
    requires high > 0
    ensures VarNum(256 * high + low) == if 256 * high + low < 253 then [low] else [0xFD, high, low]
  {
    var v := 256 * high + low;
    assert v / 256 == high && v % 256 == low;
    assert BigEndian(1, high) == BigEndian(0, high / 256) + [high % 256];
    assert BigEndian(2, v) == BigEndian(1, v / 256) + [v % 256];
  }

  // ---- what any fields mean ----------------------------------------------------------------

  /** The value of the last field of a type. */
  function LastOf(fs: seq<Field>, typ: u64): Option<Bytes> {
    if fs == [] then None
    else if LastOf(fs[1..], typ).Some? then LastOf(fs[1..], typ)
    else if fs[0].typ == typ then Some(fs[0].value) else None
  }

  /** The name it holds, if it holds one. */
  function NameIn(fs: seq<Field>, typ: u64, before: Option<Name>): Option<Name> {
    match LastOf(fs, typ)
    case None => before
    case Some(b) => FromNameTlv(b)
  }

  lemma NameInNext(fs: seq<Field>, typ: u64, before: Option<Name>)
    requires fs != []
    ensures NameIn(fs, typ, before)
         == NameIn(fs[1..], typ, if fs[0].typ == typ then FromNameTlv(fs[0].value) else before)
  {
    hide FromNameTlv;
  }

  /** Of fields that come more than once the last counts, and one that holds no name clears the others:
      whatever fields a join has, in whatever order. */
  lemma {:induction false} JoinMeans(j: SyncJoin, fs: seq<Field>)
    ensures Fold(JoinStep, j, fs).Some? ==>
              var r := Fold(JoinStep, j, fs).value;
              && r.protocol == NameIn(fs, 0x191, j.protocol) && r.group == NameIn(fs, 0x193, j.group)
              && r.multicastPrefix == NameIn(fs, 0x194, j.multicastPrefix)
              && r.securityConfig == NameIn(fs, 0x1DB4, j.securityConfig)
    decreases |fs|
  {
    hide FromNameTlv, Run;
    if fs != [] {
      var next := JoinStep(j, fs[0]);
      if next.Some? {
        JoinMeans(next.value, fs[1..]);
      }
    }
  }

  lemma {:induction false} LeaveMeans(l: SyncLeave, fs: seq<Field>)
    ensures Fold(LeaveStep, l, fs)
         == Some(SyncLeave(NameIn(fs, 0x191, l.protocol), NameIn(fs, 0x193, l.group)))
    decreases |fs|
  {
    hide FromNameTlv;
    if fs != [] {
      LeaveMeans(LeaveStep(l, fs[0]).value, fs[1..]);
    }
  }

  /** The blobs of the fields, in order. */
  function BlobsIn(fs: seq<Field>): seq<Bytes> {
    if fs == [] then []
    else if fs[0].typ == 0x1BA then [fs[0].value] + BlobsIn(fs[1..])
    else BlobsIn(fs[1..])
  }

  lemma {:induction false} BlobMeans(b: BlobFetch, fs: seq<Field>)
    ensures Fold(BlobStep, b, fs) == Some(BlobFetch(NameIn(fs, 0x1B8, b.name), b.data + BlobsIn(fs)))
    decreases |fs|
  {
    hide FromNameTlv;
    if fs == [] {
      assert b.data + [] == b.data;
    } else {
      BlobMeans(BlobStep(b, fs[0]).value, fs[1..]);
      if fs[0].typ == 0x1BA {
        assert b.data + [fs[0].value] + BlobsIn(fs[1..]) == b.data + ([fs[0].value] + BlobsIn(fs[1..]));
      }
    }
  }

  /** In a history the last threshold counts, and one without any leaves the one read before. */
  lemma {:induction false} HistoryMeans(t: Option<u64>, hs: seq<Field>)
    ensures Fold(HistoryStep, t, hs)
         == Some(match LastOf(hs, 0x1A5) case None => t case Some(b) => Some(NniValue(b)))
    decreases |hs|
  {
    hide NniValue;
    if hs != [] {
      HistoryMeans(HistoryStep(t, hs[0]).value, hs[1..]);
    }
  }

  /** Histories one after the other read as one. */
  lemma HistoriesJoin(j: SyncJoin, a: seq<Field>, b: seq<Field>)
    requires |Serialize(a + b)| < U64_LIMIT
    ensures |Serialize(a)| < U64_LIMIT && |Serialize(b)| < U64_LIMIT
    ensures Fold(JoinStep, j, [Field(0x1A4, Serialize(a)), Field(0x1A4, Serialize(b))])
         == Fold(JoinStep, j, [Field(0x1A4, Serialize(a + b))])
  {
    SerializeSplit(a, b);
    var first, second := Field(0x1A4, Serialize(a)), Field(0x1A4, Serialize(b));
    hide Run, Fold, Serialize, HistoryStep;
    assert [first, second] == [first] + [second];
    FoldSplit(JoinStep, j, [first], [second]);
    FoldSingle(JoinStep, j, first);
    FoldSingle(JoinStep, j, Field(0x1A4, Serialize(a + b)));
    RunOfFields(HistoryStep, j.historyThreshold, a);
    RunOfFields(HistoryStep, j.historyThreshold, a + b);
    FoldSplit(HistoryStep, j.historyThreshold, a, b);
    HistoryMeans(j.historyThreshold, a);
    var t := Fold(HistoryStep, j.historyThreshold, a).value;
    RunOfFields(HistoryStep, t, b);
    FoldSingle(JoinStep, j.(historyThreshold := t), second);
  }

  /** All fields inside history snapshots, in order; nothing when one of the snapshots does not read. */
  lemma {:induction false} JoinFailsOnlyOnHistory(j: SyncJoin, fs: seq<Field>)
    ensures Fold(JoinStep, j, fs).None?
       <==> exists i | 0 <= i < |fs| :: fs[i].typ == 0x1A4 && Run(HistoryStep, None, fs[i].value).None?
    decreases |fs|
  {
    hide FromNameTlv, Run, HistoryStep;
    if fs != [] {
      HistoryReadsAlike(j.historyThreshold, None, fs[0].value);
      var next := JoinStep(j, fs[0]);
      if next.Some? {
        JoinFailsOnlyOnHistory(next.value, fs[1..]);
        assert forall i | 1 <= i < |fs| :: fs[i] == fs[1..][i - 1];
        assert forall i | 0 <= i < |fs| - 1 :: fs[1..][i] == fs[i + 1];
      }
    }
  }

  /** Whether a history reads does not depend on the threshold read before. */
  lemma {:induction false} HistoryReadsAlike(t: Option<u64>, t': Option<u64>, b: Bytes)
    ensures Run(HistoryStep, t, b).None? <==> Run(HistoryStep, t', b).None?
    decreases |b|
  {
    hide NniValue;
    if b != [] && ReadTlv(b).Some? {
      var r := ReadTlv(b).value;
      hide ReadTlv;
      HistoryReadsAlike(HistoryStep(t, r.field).value, HistoryStep(t', r.field).value, r.rest);
    }
  }
}
