/** NDN Packet Format Specification 0.3, "Type-Length-Value (TLV) Encoding": the printer and the
    reader both codecs of the repository are written with. */
module Tlv {
  import opened Octets

  // ---- variable-size numbers ----------------------------------------------------------------

  /** Section "Variable-Size Encoding for Type and Length", always in the shortest form. */
  function VarNum(v: u64): (b: Bytes)
    ensures |b| >= 1
  {
    if v < 253 then [v]
    else if v < U16_LIMIT then [253] + BigEndian(2, v)
    else if v < U32_LIMIT then [254] + BigEndian(4, v)
    else [255] + BigEndian(8, v)
  }

  datatype Number = Number(value: u64, rest: Bytes)

  /** The number in the `width` octets after the marker, refused when it had a shorter form. */
  function WideNumber(b: Bytes, width: nat, least: nat): (r: Option<Number>)
    requires b != []
    ensures r.Some? ==> |r.value.rest| < |b|
  {
    if |b| <= width then None
    else
      var v := FromBigEndian(b[1..width + 1]);
      if least <= v < U64_LIMIT then Some(Number(v, b[width + 1..])) else None
  }

  function ReadVarNum(b: Bytes): (r: Option<Number>)
    ensures r.Some? ==> |r.value.rest| < |b|
  {
    if b == [] then None
    else if b[0] < 253 then Some(Number(b[0], b[1..]))
    else if b[0] == 253 then WideNumber(b, 2, 253)
    else if b[0] == 254 then WideNumber(b, 4, U16_LIMIT)
    else WideNumber(b, 8, U32_LIMIT)
  }

  lemma VarNumRoundTrip(v: u64, rest: Bytes)
    ensures ReadVarNum(VarNum(v) + rest) == Some(Number(v, rest))
  {
    Limits();
    var b := VarNum(v) + rest;
    if v < 253 {
      assert b[1..] == rest;
    } else {
      var width := if v < U16_LIMIT then 2 else if v < U32_LIMIT then 4 else 8;
      BigEndianRoundTrip(width, v);
      assert b[1..width + 1] == BigEndian(width, v);
      assert b[width + 1..] == rest;
    }
  }

  lemma VarNumPrefixRefused(v: u64, b: Bytes)
    requires b < VarNum(v)
    ensures ReadVarNum(b) == None
  {
    if b != [] {
      assert b[0] == VarNum(v)[0];
    }
  }

  // ---- one TLV -----------------------------------------------------------------------------

  datatype RawField = Field(typ: u64, value: Bytes)

  /** A TLV whose length an unsigned 64-bit number can hold, as every one in memory does. */
  type Field = f: RawField | |f.value| < U64_LIMIT witness RawField.Field(0, [])

  function WriteTlv(f: Field): (b: Bytes)
    ensures |b| >= 2
  {
    VarNum(f.typ) + VarNum(|f.value|) + f.value
  }

  datatype Read = Read(field: Field, rest: Bytes)

  function ReadTlv(b: Bytes): (r: Option<Read>)
    ensures r.Some? ==> |r.value.rest| < |b|
  {
    match ReadVarNum(b)
    case None => None
    case Some(t) =>
      match ReadVarNum(t.rest)
      case None => None
      case Some(n) =>
        if |n.rest| < n.value then None
        else Some(Read(Field(t.value, n.rest[..n.value]), n.rest[n.value..]))
  }

  lemma TlvRoundTrip(f: Field, rest: Bytes)
    ensures ReadTlv(WriteTlv(f) + rest) == Some(Read(f, rest))
  {
    var tail := f.value + rest;
    assert WriteTlv(f) + rest == VarNum(f.typ) + (VarNum(|f.value|) + tail);
    VarNumRoundTrip(f.typ, VarNum(|f.value|) + tail);
    VarNumRoundTrip(|f.value|, tail);
    assert tail[..|f.value|] == f.value && tail[|f.value|..] == rest;
  }

  /** A TLV cut short anywhere does not read. */
  lemma TlvPrefixRefused(f: Field, b: Bytes)
    requires b < WriteTlv(f)
    ensures ReadTlv(b) == None
  {
    var t, n := VarNum(f.typ), VarNum(|f.value|);
    assert WriteTlv(f) == t + (n + f.value);
    if |b| < |t| {
      assert b == t[..|b|];
      VarNumPrefixRefused(f.typ, b);
    } else {
      var b' := b[|t|..];
      assert b == t + b' && b' == (n + f.value)[..|b'|];
      VarNumRoundTrip(f.typ, b');
      if |b'| < |n| {
        assert b' == n[..|b'|];
        VarNumPrefixRefused(|f.value|, b');
      } else {
        var b'' := b'[|n|..];
        assert b' == n + b'';
        VarNumRoundTrip(|f.value|, b'');
      }
    }
  }

  /** TLVs are self-delimiting: what two of them begin tells them apart. */
  lemma TlvCancel(f: Field, g: Field, x: Bytes, y: Bytes)
    requires WriteTlv(f) + x == WriteTlv(g) + y
    ensures f == g && x == y
  {
    TlvRoundTrip(f, x);
    TlvRoundTrip(g, y);
  }

  // ---- runs of TLVs ------------------------------------------------------------------------

  function Serialize(fs: seq<Field>): Bytes {
    if fs == [] then [] else WriteTlv(fs[0]) + Serialize(fs[1..])
  }

  lemma {:induction false} SerializeSplit(a: seq<Field>, b: seq<Field>)
    ensures Serialize(a + b) == Serialize(a) + Serialize(b)
  {
    if a == [] {
      assert a + b == b;
    } else {
      SerializeSplit(a[1..], b);
      assert (a + b)[1..] == a[1..] + b;
      Associative(WriteTlv(a[0]), Serialize(a[1..]), Serialize(b));
    }
  }

  // ---- non-negative integers ---------------------------------------------------------------

  /** Section "Non-Negative Integer Encoding": the shortest of 1, 2, 4 or 8 octets. */
  function Nni(v: u64): (b: Bytes)
    ensures |b| in {1, 2, 4, 8}
  {
    BigEndian(if v < 256 then 1 else if v < U16_LIMIT then 2 else if v < U32_LIMIT then 4 else 8, v)
  }

  function NniField(typ: u64, v: u64): Field {
    Field(typ, Nni(v))
  }

  /** What the shift-and-or loop leaves in 64 bits: octets beyond the eighth push the first ones out. */
  function NniValue(b: Bytes): u64 {
    FromBigEndian(b) % U64_LIMIT
  }

  /** Shifting a 64-bit number left by an octet drops its first octet. */
  function ShiftIn(v: u64, b: Byte): u64 {
    v % 0x100_0000_0000_0000 * 256 + b
  }

  lemma ShiftInWraps(x: nat, b: Byte)
    ensures ShiftIn(x % U64_LIMIT, b) == (256 * x + b) % U64_LIMIT
  {
    var q, r := x / 0x100_0000_0000_0000, x % 0x100_0000_0000_0000;
    assert x == 0x100_0000_0000_0000 * q + r;
    assert x % U64_LIMIT % 0x100_0000_0000_0000 == r;
    assert 256 * x + b == U64_LIMIT * q + (256 * r + b);
  }

  method DecodeNni(b: Bytes) returns (v: u64)
    ensures v == NniValue(b)
  {
    v := 0;
    for i := 0 to |b|
      invariant v == NniValue(b[..i])
    {
      var next := b[..i + 1];
      assert next[..i] == b[..i] && next[i] == b[i];
      ShiftInWraps(FromBigEndian(b[..i]), b[i]);
      v := ShiftIn(v, b[i]);
    }
    assert b[..|b|] == b;
  }

  lemma NniRoundTrip(v: u64)
    ensures NniValue(Nni(v)) == v
  {
    Limits();
    BigEndianRoundTrip(|Nni(v)|, v);
  }

  /** No other of the four widths that can hold the number is shorter. */
  lemma NniIsShortest(v: u64, width: nat)
    requires width in {1, 2, 4, 8} && v < Limit(width)
    ensures |Nni(v)| <= width
  {
    Limits();
  }

  // ---- the stateful reader and writer ------------------------------------------------------

  class TlvReader {
    var rest: Bytes

    constructor (b: Bytes)
      ensures rest == b
    {
      rest := b;
    }

    /** The next TLV, or nothing when the octets left do not begin with one. */
    method ReadNext() returns (r: Option<Field>)
      modifies this
      ensures r == (match ReadTlv(old(rest)) case None => None case Some(x) => Some(x.field))
      ensures rest == (match ReadTlv(old(rest)) case None => old(rest) case Some(x) => x.rest)
    {
      match ReadTlv(rest) {
        case None => r := None;
        case Some(x) =>
          rest := x.rest;
          r := Some(x.field);
      }
    }
  }

  class TlvWriter {
    var out: Bytes

    constructor ()
      ensures out == []
    {
      out := [];
    }

    method Write(f: Field)
      modifies this
      ensures out == old(out) + WriteTlv(f)
    {
      out := out + WriteTlv(f);
    }
  }
}
