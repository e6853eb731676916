/** NDN names, their store keys and their TLV form. */
module Names {
  import opened Octets
  import opened Orders
  import opened Tlv

  datatype RawComponent = Component(typ: nat, value: Bytes)

  type Component = c: RawComponent | 1 <= c.typ < U16_LIMIT && |c.value| < U64_LIMIT
    witness RawComponent.Component(8, [])

  type Name = seq<Component>

  const NAME_TYPE: u64 := 7

  function ComponentField(c: Component): Field {
    Field(c.typ, c.value)
  }

  /** The store key of a name: its component TLVs, end to end. */
  function Key(n: Name): Bytes {
    if n == [] then [] else WriteTlv(ComponentField(n[0])) + Key(n[1..])
  }

  /** A component is its type, its length and its value, an octet each for the first two when both are
      below 253. */
  lemma KeyOctets(typ: Byte, value: Bytes, rest: Name)
    requires 1 <= typ < 253 && |value| < 253
    ensures Key([Component(typ, value)] + rest) == [typ, |value|] + value + Key(rest)
  {
    var n := [Component(typ, value)] + rest;
    assert n[1..] == rest;
  }

  lemma {:induction false} KeyOfPrefix(p: Name, n: Name)
    requires p <= n
    ensures Key(p) <= Key(n)
  {
    if p != [] {
      KeyOfPrefix(p[1..], n[1..]);
    }
  }

  lemma KeyStarts(p: Name, tail: Bytes)
    requires p != []
    ensures Key(p) + tail == WriteTlv(ComponentField(p[0])) + (Key(p[1..]) + tail)
  {
    hide WriteTlv;
    Associative(WriteTlv(ComponentField(p[0])), Key(p[1..]), tail);
  }

  lemma {:induction false} PrefixOfKey(p: Name, n: Name, tail: Bytes)
    requires Key(n) == Key(p) + tail
    ensures p <= n
  {
    if p != [] {
      KeyStarts(p, tail);
      hide WriteTlv;
      assert n != [] by {
        assert |WriteTlv(ComponentField(p[0]))| >= 2;
      }
      TlvCancel(ComponentField(p[0]), ComponentField(n[0]), Key(p[1..]) + tail, Key(n[1..]));
      PrefixOfKey(p[1..], n[1..], tail);
      assert p == [p[0]] + p[1..] && n == [n[0]] + n[1..];
    }
  }

  /** A name's key is an octet prefix of another's exactly when the name is a component prefix. */
  lemma KeyPrefix(p: Name, n: Name)
    ensures Key(p) <= Key(n) <==> p <= n
  {
    hide Key;
    if p <= n {
      KeyOfPrefix(p, n);
    }
    if Key(p) <= Key(n) {
      PrefixOfKey(p, n, Key(n)[|Key(p)|..]);
    }
  }

  lemma KeyInjective(a: Name, b: Name)
    requires Key(a) == Key(b)
    ensures a == b
  {
    KeyPrefix(a, b);
    KeyPrefix(b, a);
  }

  // ---- key order ---------------------------------------------------------------------------

  predicate LexLess(a: Bytes, b: Bytes) {
    if b == [] then false
    else if a == [] then true
    else a[0] < b[0] || (a[0] == b[0] && LexLess(a[1..], b[1..]))
  }

  lemma {:induction false} LexIrreflexive(a: Bytes)
    ensures !LexLess(a, a)
  {
    if a != [] {
      LexIrreflexive(a[1..]);
    }
  }

  lemma {:induction false} LexTotal(a: Bytes, b: Bytes)
    requires a != b
    ensures LexLess(a, b) || LexLess(b, a)
  {
    if a != [] && b != [] && a[0] == b[0] {
      assert a == [a[0]] + a[1..] && b == [b[0]] + b[1..];
      LexTotal(a[1..], b[1..]);
    }
  }

  lemma {:induction false} LexTransitive(a: Bytes, b: Bytes, c: Bytes)
    requires LexLess(a, b) && LexLess(b, c)
    ensures LexLess(a, c)
  {
    if a != [] && a[0] == b[0] == c[0] {
      LexTransitive(a[1..], b[1..], c[1..]);
    }
  }

  /** The order every store scan, `BTreeMap` and merge of the holder uses. */
  predicate KeyLess(a: Name, b: Name) {
    LexLess(Key(a), Key(b))
  }

  /** Octet order: a proper prefix comes first, and otherwise the first octet that differs decides. */
  ghost predicate OctetsBefore(x: Bytes, y: Bytes) {
    x < y || exists i :: DifferAt(x, y, i)
  }

  predicate DifferAt(x: Bytes, y: Bytes, i: int) {
    0 <= i < |x| && i < |y| && x[..i] == y[..i] && x[i] < y[i]
  }

  lemma DifferLater(x: Bytes, y: Bytes, i: nat)
    requires x != [] && y != [] && x[0] == y[0]
    ensures DifferAt(x, y, i + 1) <==> DifferAt(x[1..], y[1..], i)
    ensures x < y <==> x[1..] < y[1..]
  {
    assert x == [x[0]] + x[1..] && y == [y[0]] + y[1..];
    if i + 1 <= |x| && i + 1 <= |y| {
      assert x[..i + 1] == [x[0]] + x[1..][..i] && y[..i + 1] == [y[0]] + y[1..][..i];
    }
  }

  lemma SameHead(x: Bytes, y: Bytes, i: int)
    requires DifferAt(x, y, i) && i > 0
    ensures x[0] == y[0]
  {
    assert x[..i][0] == y[..i][0];
  }

  lemma {:induction false} LexIsOctetOrder(x: Bytes, y: Bytes)
    ensures LexLess(x, y) <==> OctetsBefore(x, y)
  {
    if x == [] || y == [] {
    } else if x[0] != y[0] {
      assert x[0] < y[0] ==> DifferAt(x, y, 0);
      assert !(x < y);
      forall i | DifferAt(x, y, i)
        ensures i == 0
      {
        if i > 0 {
          SameHead(x, y, i);
        }
      }
    } else {
      LexIsOctetOrder(x[1..], y[1..]);
      DifferLater(x, y, 0);
      if i :| DifferAt(x[1..], y[1..], i) {
        DifferLater(x, y, i);
      }
      if i :| DifferAt(x, y, i) {
        assert i > 0;
        DifferLater(x, y, i - 1);
      }
    }
  }

  /** Names are ordered as the octets of their keys are. */
  lemma KeyLessIsOctetOrder(a: Name, b: Name)
    ensures KeyLess(a, b) <==> OctetsBefore(Key(a), Key(b))
  {
    LexIsOctetOrder(Key(a), Key(b));
  }

  lemma {:induction false} BetweenSharesPrefix(p: Bytes, x: Bytes, y: Bytes, z: Bytes)
    requires p <= x && p <= z && LexLess(x, y) && LexLess(y, z)
    ensures p <= y
  {
    if p != [] {
      BetweenSharesPrefix(p[1..], x[1..], y[1..], z[1..]);
    }
  }

  /** Names under one prefix have no other name between them. */
  lemma NothingBetween(p: Name, a: Name, b: Name, c: Name)
    requires p <= a && p <= c && KeyLess(a, b) && KeyLess(b, c)
    ensures p <= b
  {
    KeyPrefix(p, a);
    KeyPrefix(p, b);
    KeyPrefix(p, c);
    BetweenSharesPrefix(Key(p), Key(a), Key(b), Key(c));
  }

  lemma KeyOrder(s: set<Name>)
    ensures StrictTotal(KeyLess, s)
  {
    forall x | x in s
      ensures !KeyLess(x, x)
    {
      LexIrreflexive(Key(x));
    }
    forall x, y | x in s && y in s && x != y
      ensures KeyLess(x, y) || KeyLess(y, x)
    {
      if Key(x) == Key(y) {
        KeyInjective(x, y);
      }
      LexTotal(Key(x), Key(y));
    }
    forall x, y, z | x in s && y in s && z in s && KeyLess(x, y) && KeyLess(y, z)
      ensures KeyLess(x, z)
    {
      LexTransitive(Key(x), Key(y), Key(z));
    }
  }

  /** The members of `s` in key order. */
  function InKeyOrder(s: set<Name>): (q: seq<Name>)
    ensures Sorted(KeyLess, q) && Elements(q) == s && |q| == |s|
    ensures forall x :: x in q <==> x in s
  {
    KeyOrder(s);
    var q := SortedSeq(KeyLess, s);
    assert forall x :: x in q <==> x in Elements(q);
    q
  }

  // ---- the Name TLV ------------------------------------------------------------------------

  /** A name short enough for its TLV length field. */
  predicate Encodable(n: Name) {
    |Key(n)| < U64_LIMIT
  }

  function NameTlv(n: Name): Bytes
    requires Encodable(n)
  {
    WriteTlv(Field(NAME_TYPE, Key(n)))
  }

  function Components(b: Bytes): Option<Name>
    decreases |b|
  {
    if b == [] then Some([])
    else
      match ReadTlv(b)
      case None => None
      case Some(r) =>
        if !(1 <= r.field.typ < U16_LIMIT) then None
        else
          match Components(r.rest)
          case None => None
          case Some(n) => Some([Component(r.field.typ, r.field.value)] + n)
  }

  function FromNameTlv(b: Bytes): Option<Name> {
    match ReadTlv(b)
    case None => None
    case Some(r) => if r.field.typ == NAME_TYPE then Components(r.field.value) else None
  }

  lemma {:induction false} ComponentsOfKey(n: Name)
    ensures Components(Key(n)) == Some(n)
  {
    if n != [] {
      TlvRoundTrip(ComponentField(n[0]), Key(n[1..]));
      ComponentsOfKey(n[1..]);
      assert n == [n[0]] + n[1..];
    }
  }

  lemma NameTlvRoundTrip(n: Name)
    requires Encodable(n)
    ensures NameTlv(n)[0] == 7 && FromNameTlv(NameTlv(n)) == Some(n)
  {
    TlvRoundTrip(Field(NAME_TYPE, Key(n)), []);
    assert NameTlv(n) + [] == NameTlv(n);
    ComponentsOfKey(n);
  }
}
