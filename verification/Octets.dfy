/** Octet strings and the fixed-width big-endian numbers every wire form here is made of. */
module Octets {
  type Byte = x: int | 0 <= x < 256
  type Bytes = seq<Byte>

  const U16_LIMIT: nat := 0x1_0000
  const U32_LIMIT: nat := 0x1_0000_0000
  const U64_LIMIT: nat := 0x1_0000_0000_0000_0000

  type u16 = x: int | 0 <= x < 0x1_0000
  type u32 = x: int | 0 <= x < 0x1_0000_0000
  type u64 = x: int | 0 <= x < 0x1_0000_0000_0000_0000

  datatype Option<+T> = None | Some(value: T)

  function Min(a: nat, b: nat): nat {
    if a <= b then a else b
  }

  function Max(a: nat, b: nat): nat {
    if a >= b then a else b
  }

  /** `256` to the power `width`: how many numbers `width` octets can hold. */
  function Limit(width: nat): (r: nat)
    ensures r > 0
  {
    if width == 0 then 1 else 256 * Limit(width - 1)
  }

  /** The low `width` octets of `v`, most significant first. */
  function BigEndian(width: nat, v: nat): (r: Bytes)
    ensures |r| == width
  {
    if width == 0 then [] else BigEndian(width - 1, v / 256) + [v % 256]
  }

  function FromBigEndian(b: Bytes): nat {
    if b == [] then 0 else 256 * FromBigEndian(b[..|b| - 1]) + b[|b| - 1]
  }

  lemma {:induction false} BigEndianRoundTrip(width: nat, v: nat)
    requires v < Limit(width)
    ensures FromBigEndian(BigEndian(width, v)) == v
  {
    if width > 0 {
      BigEndianRoundTrip(width - 1, v / 256);
      assert BigEndian(width, v)[..width - 1] == BigEndian(width - 1, v / 256);
    }
  }

  lemma {:induction false} FromBigEndianBound(b: Bytes)
    ensures FromBigEndian(b) < Limit(|b|)
  {
    if b != [] {
      FromBigEndianBound(b[..|b| - 1]);
    }
  }

  /** Printing what was read gives the same octets. */
  lemma {:induction false} BigEndianOfRead(b: Bytes)
    ensures BigEndian(|b|, FromBigEndian(b)) == b
  {
    if b != [] {
      BigEndianOfRead(b[..|b| - 1]);
      assert b == b[..|b| - 1] + [b[|b| - 1]];
    }
  }

  /** The first octet weighs most: as much as all numbers the others can hold. */
  lemma {:induction false} MostSignificantFirst(b: Bytes)
    requires b != []
    ensures FromBigEndian(b) == b[0] * Limit(|b| - 1) + FromBigEndian(b[1..])
  {
    if |b| == 1 {
      assert b[..0] == [] && b[1..] == [];
    } else {
      var init, last := b[..|b| - 1], b[|b| - 1];
      MostSignificantFirst(init);
      assert b[1..][..|b| - 2] == init[1..];
      assert 256 * (b[0] * Limit(|b| - 2)) == b[0] * Limit(|b| - 1);
    }
  }

  lemma Limits()
    ensures Limit(1) == 256 && Limit(2) == U16_LIMIT && Limit(4) == U32_LIMIT && Limit(8) == U64_LIMIT
  {
    assert Limit(3) == 256 * Limit(2);
    assert Limit(5) == 256 * Limit(4);
    assert Limit(7) == 256 * Limit(6) == 256 * (256 * Limit(5));
  }

  /** The octets of an ASCII string. */
  function Ascii(s: string): (b: Bytes)
    ensures |b| == |s|
  {
    seq(|s|, i requires 0 <= i < |s| => s[i] as int % 256)
  }

  function Zeros(n: nat): (r: Bytes)
    ensures |r| == n
    ensures forall i | 0 <= i < n :: r[i] == 0
  {
    seq(n, i => 0)
  }

  /** All the parts, end to end. */
  function Concat(parts: seq<Bytes>): Bytes {
    if parts == [] then [] else parts[0] + Concat(parts[1..])
  }

  lemma Associative(x: Bytes, y: Bytes, z: Bytes)
    ensures x + (y + z) == (x + y) + z
  {
  }

  lemma {:induction false} ConcatSplit(a: seq<Bytes>, b: seq<Bytes>)
    ensures Concat(a + b) == Concat(a) + Concat(b)
  {
    if a == [] {
      assert a + b == b;
    } else {
      ConcatSplit(a[1..], b);
      assert (a + b)[1..] == a[1..] + b && (a + b)[0] == a[0];
      var first, rest, all := Concat(a[1..]), Concat(b), Concat(a[1..] + b);
      Associative(a[0], first, rest);
      assert Concat(a + b) == a[0] + all;
    }
  }
}
