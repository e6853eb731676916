/** The loops both decoders are: read the next field, change the record being filled, until the
    octets run out. */
module FieldLoops {
  import opened Octets
  import opened Orders
  import opened Tlv

  /** A loop that gives up at a field that does not read or that its step refuses. */
  function Run<S>(step: (S, Field) -> Option<S>, s: S, b: Bytes): Option<S>
    decreases |b|
  {
    if b == [] then Some(s)
    else
      match ReadTlv(b)
      case None => None
      case Some(r) =>
        match step(s, r.field)
        case None => None
        case Some(s') => Run(step, s', r.rest)
  }

  /** A loop that keeps what it has at a field that does not read. */
  function RunWhileOk<S>(step: (S, Field) -> S, s: S, b: Bytes): S
    decreases |b|
  {
    match ReadTlv(b)
    case None => s
    case Some(r) => RunWhileOk(step, step(s, r.field), r.rest)
  }

  function Fold<S>(step: (S, Field) -> Option<S>, s: S, fs: seq<Field>): Option<S> {
    if fs == [] then Some(s)
    else
      match step(s, fs[0])
      case None => None
      case Some(s') => Fold(step, s', fs[1..])
  }

  function FoldAll<S>(step: (S, Field) -> S, s: S, fs: seq<Field>): S {
    if fs == [] then s else FoldAll(step, step(s, fs[0]), fs[1..])
  }

  lemma {:induction false} RunOfFields<S>(step: (S, Field) -> Option<S>, s: S, fs: seq<Field>)
    ensures Run(step, s, Serialize(fs)) == Fold(step, s, fs)
  {
    if fs != [] {
      TlvRoundTrip(fs[0], Serialize(fs[1..]));
      var next := step(s, fs[0]);
      if next.Some? {
        RunOfFields(step, next.value, fs[1..]);
      }
    }
  }

  /** Fields a step passes over can stand anywhere among the others. */
  lemma {:induction false} FoldKnown<S(!new)>(step: (S, Field) -> Option<S>, known: Field -> bool, s: S, fs: seq<Field>)
    requires forall x: S, f: Field | !known(f) :: step(x, f) == Some(x)
    ensures Fold(step, s, fs) == Fold(step, s, Filter(fs, known))
  {
    if fs != [] {
      var rest := Filter(fs[1..], known);
      assert ([fs[0]] + rest)[1..] == rest;
      var next := step(s, fs[0]);
      if next.Some? {
        FoldKnown(step, known, next.value, fs[1..]);
      }
    }
  }

  lemma {:induction false} FoldSplit<S>(step: (S, Field) -> Option<S>, s: S, a: seq<Field>, b: seq<Field>)
    ensures Fold(step, s, a + b)
         == (match Fold(step, s, a) case None => None case Some(s') => Fold(step, s', b))
  {
    if a == [] {
      assert a + b == b;
    } else {
      assert (a + b)[1..] == a[1..] + b;
      var next := step(s, a[0]);
      if next.Some? {
        FoldSplit(step, next.value, a[1..], b);
      }
    }
  }

  /** A loop over octets that stop reading partway keeps what the fields before them gave. */
  lemma {:induction false} RunWhileOkStops<S>(step: (S, Field) -> S, s: S, fs: seq<Field>, tail: Bytes)
    requires ReadTlv(tail) == None
    ensures RunWhileOk(step, s, Serialize(fs) + tail) == FoldAll(step, s, fs)
  {
    if fs == [] {
      assert Serialize(fs) + tail == tail;
    } else {
      Associative(WriteTlv(fs[0]), Serialize(fs[1..]), tail);
      TlvRoundTrip(fs[0], Serialize(fs[1..]) + tail);
      RunWhileOkStops(step, step(s, fs[0]), fs[1..], tail);
    }
  }
}
