/** The reply to a repo command: a status and a message. */
module Replies {
  import opened Octets
  import opened Orders
  import opened Tlv
  import opened FieldLoops
  import opened Commands

  // ---- UTF-8 -------------------------------------------------------------------------------

  predicate InRange(b: Byte, low: int, high: int) {
    low <= b <= high
  }

  predicate Continues(b: Bytes) {
    forall i | 0 <= i < |b| :: InRange(b[i], 0x80, 0xBF)
  }

  /** The octets of the first character of a well-formed string (RFC 3629, section 4), or 0. */
  function FirstCharacter(b: Bytes): (n: nat)
    ensures n <= |b|
  {
    if |b| >= 1 && b[0] <= 0x7F then 1
    else if |b| >= 2 && InRange(b[0], 0xC2, 0xDF) && Continues(b[1..2]) then 2
    else if |b| >= 3 && Continues(b[1..3])
            && (if b[0] == 0xE0 then b[1] >= 0xA0 else if b[0] == 0xED then b[1] <= 0x9F
                else InRange(b[0], 0xE1, 0xEF)) then 3
    else if |b| >= 4 && Continues(b[1..4])
            && (if b[0] == 0xF0 then b[1] >= 0x90 else if b[0] == 0xF4 then b[1] <= 0x8F
                else InRange(b[0], 0xF1, 0xF3)) then 4
    else 0
  }

  predicate IsUtf8(b: Bytes)
    decreases |b|
  {
    b == [] || (FirstCharacter(b) > 0 && IsUtf8(b[FirstCharacter(b)..]))
  }

  /** A Unicode scalar value: a code point that is not a surrogate. */
  type Scalar = c: int | 0 <= c < 0xD800 || 0xE000 <= c < 0x110000

  /** RFC 3629, section 3. */
  function EncodeScalar(c: Scalar): (b: Bytes)
    ensures 1 <= |b| <= 4
  {
    if c < 0x80 then [c]
    else if c < 0x800 then [0xC0 + c / 64, 0x80 + c % 64]
    else if c < 0x10000 then [0xE0 + c / 4096, 0x80 + c / 64 % 64, 0x80 + c % 64]
    else [0xF0 + c / 262144, 0x80 + c / 4096 % 64, 0x80 + c / 64 % 64, 0x80 + c % 64]
  }

  function Utf8(cs: seq<Scalar>): Bytes {
    if cs == [] then [] else EncodeScalar(cs[0]) + Utf8(cs[1..])
  }

  lemma EncodedIsFirst(c: Scalar, rest: Bytes)
    ensures FirstCharacter(EncodeScalar(c) + rest) == |EncodeScalar(c)|
  {
    var b := EncodeScalar(c) + rest;
    if c < 0x80 {
    } else if c < 0x800 {
      assert b[1..2] == [0x80 + c % 64];
    } else if c < 0x10000 {
      assert b[1..2] == [0x80 + c / 64 % 64];
      assert b[1..3] == [0x80 + c / 64 % 64, 0x80 + c % 64];
    } else {
      assert b[1..2] == [0x80 + c / 4096 % 64];
      assert b[1..3] == [0x80 + c / 4096 % 64, 0x80 + c / 64 % 64];
      assert b[1..4] == [0x80 + c / 4096 % 64, 0x80 + c / 64 % 64, 0x80 + c % 64];
    }
  }

  lemma FirstIsEncoded(b: Bytes) returns (c: Scalar)
    requires FirstCharacter(b) > 0
    ensures EncodeScalar(c) == b[..FirstCharacter(b)]
  {
    var n := FirstCharacter(b);
    assert forall i | 1 <= i < n :: b[1..n][i - 1] == b[i];
    var p: int := b[0];
    if n == 1 {
      c := p;
    } else if n == 2 {
      var q: int := b[1];
      c := 64 * (p - 0xC0) + (q - 0x80);
    } else if n == 3 {
      var q: int, r: int := b[1], b[2];
      var high := 64 * (p - 0xE0) + (q - 0x80);
      Digit(p - 0xE0, q - 0x80);
      Digit(high, r - 0x80);
      c := 64 * high + (r - 0x80);
    } else {
      var q: int, r: int, t: int := b[1], b[2], b[3];
      var high := 64 * (p - 0xF0) + (q - 0x80);
      var middle := 64 * high + (r - 0x80);
      Digit(p - 0xF0, q - 0x80);
      Digit(high, r - 0x80);
      Digit(middle, t - 0x80);
      c := 64 * middle + (t - 0x80);
    }
  }

  /** One base-64 digit more. */
  lemma Digit(high: nat, low: nat)
    requires low < 64
    ensures (64 * high + low) / 64 == high && (64 * high + low) % 64 == low
  {
  }

  lemma {:induction false} DecodeText(b: Bytes) returns (cs: seq<Scalar>)
    requires IsUtf8(b)
    ensures Utf8(cs) == b
    decreases |b|
  {
    if b == [] {
      cs := [];
    } else {
      var n := FirstCharacter(b);
      var c := FirstIsEncoded(b);
      var rest := DecodeText(b[n..]);
      cs := [c] + rest;
      assert cs[1..] == rest && b == b[..n] + b[n..];
    }
  }

  lemma {:induction false} TextIsUtf8(cs: seq<Scalar>)
    ensures IsUtf8(Utf8(cs))
  {
    if cs != [] {
      var b, n := Utf8(cs), |EncodeScalar(cs[0])|;
      EncodedIsFirst(cs[0], Utf8(cs[1..]));
      assert b[n..] == Utf8(cs[1..]);
      TextIsUtf8(cs[1..]);
    }
  }

  /** The octet strings taken for messages are exactly the encodings of strings of Unicode characters:
      overlong forms, surrogates, numbers past the last character and stray octets are refused. */
  lemma Utf8Exactly(b: Bytes)
    ensures IsUtf8(b) <==> exists cs: seq<Scalar> :: Utf8(cs) == b
  {
    if IsUtf8(b) {
      var cs := DecodeText(b);
    }
    if cs: seq<Scalar> :| Utf8(cs) == b {
      TextIsUtf8(cs);
    }
  }

  /** A string, as the octets of its UTF-8 form. */
  type Text = b: Bytes | IsUtf8(b) witness []

  // ---- the reply ---------------------------------------------------------------------------

  datatype RepoCmdRes = RepoCmdRes(status: u64, message: Text)

  const NO_REPLY: RepoCmdRes := RepoCmdRes(0, [])

  /** What a reply's fields are: the message only when there is one. */
  function ReplyFields(r: RepoCmdRes): seq<Field>
    requires |r.message| < U64_LIMIT
  {
    [NniField(RES_STATUS, r.status)] + if r.message == [] then [] else [Field(RES_MESSAGE, r.message)]
  }

  method EncodeReply(r: RepoCmdRes) returns (b: Bytes)
    requires |r.message| < U64_LIMIT
    ensures b == Serialize(ReplyFields(r))
  {
    hide WriteTlv, NniField;
    var status := NniField(RES_STATUS, r.status);
    var w := new TlvWriter();
    w.Write(status);
    assert w.out == WriteTlv(status);
    SerializeOne(status);
    if r.message != [] {
      var message := Field(RES_MESSAGE, r.message);
      w.Write(message);
      SerializeOne(message);
      SerializeSplit([status], [message]);
    }
    b := w.out;
  }

  function ReplyStep(r: RepoCmdRes, f: Field): Option<RepoCmdRes> {
    if f.typ == RES_STATUS then Some(r.(status := NniValue(f.value)))
    else if f.typ == RES_MESSAGE then
      if IsUtf8(f.value) then Some(r.(message := f.value)) else None
    else Some(r)
  }

  method DecodeReply(value: Bytes) returns (r: Option<RepoCmdRes>)
    ensures r == Run(ReplyStep, NO_REPLY, value)
  {
    hide ReadTlv, IsUtf8, NniValue;
    var reply := NO_REPLY;
    var reader := new TlvReader(value);
    while reader.rest != []
      invariant fresh(reader)
      invariant Run(ReplyStep, reply, reader.rest) == Run(ReplyStep, NO_REPLY, value)
      decreases |reader.rest|
    {
      var next := reader.ReadNext();
      if next.None? {
        return None;
      }
      if next.value.typ == RES_STATUS {
        var status := DecodeNni(next.value.value);
        reply := reply.(status := status);
      } else if next.value.typ == RES_MESSAGE {
        if !IsUtf8(next.value.value) {
          return None;
        }
        reply := reply.(message := next.value.value);
      }
    }
    r := Some(reply);
  }

  predicate ReplyKnown(f: Field) {
    f.typ in {RES_STATUS, RES_MESSAGE}
  }

  /** A reply decodes to itself from its own fields, whatever unknown fields stand among them. */
  lemma PaddedReplyDecodes(r: RepoCmdRes, fs: seq<Field>)
    requires |r.message| < U64_LIMIT && Filter(fs, ReplyKnown) == ReplyFields(r)
    ensures Run(ReplyStep, NO_REPLY, Serialize(fs)) == Some(r)
  {
    hide Run, Fold, Serialize, Filter, IsUtf8, NniField;
    RunOfFields(ReplyStep, NO_REPLY, fs);
    FoldKnown(ReplyStep, ReplyKnown, NO_REPLY, fs);
    ReplyFold(r);
  }

  lemma ReplyFold(r: RepoCmdRes)
    requires |r.message| < U64_LIMIT
    ensures Fold(ReplyStep, NO_REPLY, ReplyFields(r)) == Some(r)
  {
    hide IsUtf8, Fold, Nni, NniValue;
    var status := [NniField(RES_STATUS, r.status)];
    var rest := if r.message == [] then [] else [Field(RES_MESSAGE, r.message)];
    NniRoundTrip(r.status);
    FoldSingle(ReplyStep, NO_REPLY, NniField(RES_STATUS, r.status));
    FoldSplit(ReplyStep, NO_REPLY, status, rest);
    if r.message != [] {
      FoldSingle(ReplyStep, RepoCmdRes(r.status, []), Field(RES_MESSAGE, r.message));
    } else {
      FoldNothing(ReplyStep, RepoCmdRes(r.status, []));
    }
  }

  lemma FoldNothing<S>(step: (S, Field) -> Option<S>, s: S)
    ensures Fold(step, s, []) == Some(s)
  {
  }

  /** Every reply decodes from its own encoding to itself. */
  lemma ReplyRoundTrip(r: RepoCmdRes)
    requires |r.message| < U64_LIMIT
    ensures Run(ReplyStep, NO_REPLY, Serialize(ReplyFields(r))) == Some(r)
  {
    hide Run, Fold, Serialize, IsUtf8;
    RunOfFields(ReplyStep, NO_REPLY, ReplyFields(r));
    ReplyFold(r);
  }

  /** A message that is not UTF-8 makes the whole reply unreadable, wherever it stands. */
  lemma BadMessageRefused(before: seq<Field>, message: Field, after: seq<Field>)
    requires message.typ == RES_MESSAGE && !IsUtf8(message.value)
    ensures Run(ReplyStep, NO_REPLY, Serialize(before + [message] + after)) == None
  {
    hide IsUtf8, Run, Serialize, Fold;
    RunOfFields(ReplyStep, NO_REPLY, before + [message] + after);
    FoldSplit(ReplyStep, NO_REPLY, before + [message], after);
    FoldSplit(ReplyStep, NO_REPLY, before, [message]);
    var r := Fold(ReplyStep, NO_REPLY, before);
    if r.Some? {
      FoldSingle(ReplyStep, r.value, message);
    }
  }

  /** Of fields that come more than once the last counts, and a missing status is the one before: whatever
      fields a reply has, if all its messages are UTF-8. */
  lemma {:induction false} ReplyMeans(r: RepoCmdRes, fs: seq<Field>)
    requires forall f | f in fs :: f.typ == 0x292 ==> IsUtf8(f.value)
    ensures var got := Fold(ReplyStep, r, fs);
            && got.Some?
            && got.value.status == (match LastOf(fs, 0x291) case None => r.status case Some(b) => NniValue(b))
            && got.value.message == (match LastOf(fs, 0x292) case None => r.message case Some(b) => b)
    decreases |fs|
  {
    hide NniValue, IsUtf8;
    if fs != [] {
      ReplyMeans(ReplyStep(r, fs[0]).value, fs[1..]);
    }
  }
}
