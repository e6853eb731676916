/** Sorted sequences of finite sets: the one order a `BTreeMap`, a key scan or a sort can produce. */
module Orders {

  /** `less` orders the members of `s` strictly and totally. */
  ghost predicate StrictTotal<T(!new)>(less: (T, T) -> bool, s: set<T>) {
    && (forall x | x in s :: !less(x, x))
    && (forall x, y | x in s && y in s && x != y :: less(x, y) || less(y, x))
    && (forall x, y, z | x in s && y in s && z in s && less(x, y) && less(y, z) :: less(x, z))
  }

  ghost predicate Sorted<T(!new)>(less: (T, T) -> bool, q: seq<T>) {
    forall i, j | 0 <= i < j < |q| :: less(q[i], q[j])
  }

  function Elements<T>(q: seq<T>): set<T> {
    set x | x in q
  }

  lemma LeastExists<T(!new)>(less: (T, T) -> bool, s: set<T>)
    requires s != {} && StrictTotal(less, s)
    ensures exists m | m in s :: forall x | x in s && x != m :: less(m, x)
  {
    var x :| x in s;
    var rest := s - {x};
    if rest == {} {
      assert s == {x};
    } else {
      LeastExists(less, rest);
      var m :| m in rest && forall y | y in rest && y != m :: less(m, y);
      if less(m, x) {
        assert forall y | y in s && y != m :: less(m, y);
      } else {
        assert forall y | y in s && y != x :: less(x, y);
      }
    }
  }

  lemma LeastFirst<T(!new)>(less: (T, T) -> bool, s: set<T>, m: T, rest: seq<T>)
    requires m in s && forall x | x in s && x != m :: less(m, x)
    requires Sorted(less, rest) && Elements(rest) == s - {m} && |rest| == |s - {m}|
    ensures Sorted(less, [m] + rest) && Elements([m] + rest) == s && |[m] + rest| == |s|
  {
    forall i | 0 <= i < |rest|
      ensures less(m, rest[i])
    {
      assert rest[i] in Elements(rest);
    }
    assert Elements([m] + rest) == {m} + Elements(rest);
  }

  /** The members of `s`, least first. */
  function SortedSeq<T(==, !new)>(less: (T, T) -> bool, s: set<T>): (q: seq<T>)
    requires StrictTotal(less, s)
    ensures Sorted(less, q) && Elements(q) == s && |q| == |s|
  {
    if s == {} then []
    else
      LeastExists(less, s);
      var m :| m in s && forall x | x in s && x != m :: less(m, x);
      var rest := SortedSeq(less, s - {m});
      LeastFirst(less, s, m, rest);
      [m] + rest
  }

  lemma Inhabited<T>(q: seq<T>)
    requires q != []
    ensures Elements(q) != {}
  {
    assert q[0] in Elements(q);
  }

  /** Two sorted sequences of the same members are the same sequence. */
  lemma {:induction false} SortedUnique<T(!new)>(less: (T, T) -> bool, p: seq<T>, q: seq<T>)
    requires StrictTotal(less, Elements(p))
    requires Sorted(less, p) && Sorted(less, q) && Elements(p) == Elements(q)
    ensures p == q
  {
    if p == [] {
      if q != [] {
        Inhabited(q);
      }
    } else {
      assert p[0] in Elements(q);
      assert q[0] in Elements(p);
      assert p[0] == q[0];
      assert Elements(p[1..]) == Elements(p) - {p[0]} by { Tail(less, p); }
      assert Elements(q[1..]) == Elements(q) - {q[0]} by { Tail(less, q); }
      SortedUnique(less, p[1..], q[1..]);
      assert p == [p[0]] + p[1..] && q == [q[0]] + q[1..];
    }
  }

  lemma Tail<T(!new)>(less: (T, T) -> bool, p: seq<T>)
    requires p != [] && Sorted(less, p) && StrictTotal(less, Elements(p))
    ensures Elements(p[1..]) == Elements(p) - {p[0]}
  {
    forall x | x in Elements(p) - {p[0]}
      ensures x in p[1..]
    {
      var i :| 0 <= i < |p| && p[i] == x;
      assert p[1..][i - 1] == x;
    }
    assert p[0] in Elements(p);
    forall x | x in p[1..]
      ensures x in Elements(p) && x != p[0]
    {
      var i :| 0 <= i < |p[1..]| && p[1..][i] == x;
      assert less(p[0], p[i + 1]);
    }
  }

  lemma TotalOnPart<T(!new)>(less: (T, T) -> bool, part: set<T>, whole: set<T>)
    requires StrictTotal(less, whole) && part <= whole
    ensures StrictTotal(less, part)
  {
  }

  lemma SortedConcat<T(!new)>(less: (T, T) -> bool, a: seq<T>, b: seq<T>)
    requires Sorted(less, a) && Sorted(less, b)
    requires forall x, y | x in a && y in b :: less(x, y)
    ensures Sorted(less, a + b) && Elements(a + b) == Elements(a) + Elements(b)
  {
  }

  lemma PartComesFirst<T(!new)>(less: (T, T) -> bool, part: set<T>, whole: set<T>, a: seq<T>, b: seq<T>)
    requires StrictTotal(less, whole) && part <= whole
    requires forall x, y | x in part && y in whole && less(y, x) :: y in part
    requires Elements(a) == part && Elements(b) == whole - part
    ensures forall x, y | x in a && y in b :: less(x, y)
  {
    forall x, y | x in a && y in b
      ensures less(x, y)
    {
      assert x in Elements(a) && y in Elements(b);
    }
  }

  /** A downward-closed part of a set sorts to an initial segment. */
  lemma DownClosedPrefix<T(!new)>(less: (T, T) -> bool, part: set<T>, whole: set<T>)
    requires StrictTotal(less, whole) && part <= whole
    requires forall x, y | x in part && y in whole && less(y, x) :: y in part
    ensures SortedSeq(less, part) <= SortedSeq(less, whole)
  {
    hide StrictTotal, Sorted;
    TotalOnPart(less, part, whole);
    TotalOnPart(less, whole - part, whole);
    var a, b := SortedSeq(less, part), SortedSeq(less, whole - part);
    PartComesFirst(less, part, whole, a, b);
    SortedConcat(less, a, b);
    assert Elements(a + b) == whole;
    SortedUnique(less, a + b, SortedSeq(less, whole));
  }

  /** The first `limit` of `q`, or all of it when `limit` is 0. */
  function Take<T>(q: seq<T>, limit: nat): (r: seq<T>)
    ensures r <= q
  {
    if limit == 0 || |q| <= limit then q else q[..limit]
  }

  // ---- filter and take chains --------------------------------------------------------------

  function Filter<T>(q: seq<T>, p: T -> bool): seq<T> {
    if q == [] then []
    else if p(q[0]) then [q[0]] + Filter(q[1..], p)
    else Filter(q[1..], p)
  }

  function First<T>(q: seq<T>, n: nat): (r: seq<T>)
    ensures r <= q
  {
    if |q| <= n then q else q[..n]
  }

  lemma {:induction false} FilterFacts<T(!new)>(less: (T, T) -> bool, q: seq<T>, p: T -> bool)
    requires Sorted(less, q)
    ensures Sorted(less, Filter(q, p))
    ensures forall x :: x in Filter(q, p) <==> x in q && p(x)
  {
    if q != [] {
      FilterFacts(less, q[1..], p);
      assert forall x | x in q[1..] :: less(q[0], x);
    }
  }

  function Where<T(!new)>(s: set<T>, p: T -> bool): set<T> {
    set x | x in s && p(x)
  }

  /** The members of `s` that come before `x`. */
  function Smaller<T(!new)>(less: (T, T) -> bool, s: set<T>, x: T): set<T> {
    set y | y in s && less(y, x)
  }

  /** Filtering a sorted sequence is sorting the filtered set. */
  lemma FilterSorted<T(!new)>(less: (T, T) -> bool, s: set<T>, p: T -> bool)
    requires StrictTotal(less, s)
    ensures StrictTotal(less, Where(s, p))
    ensures Filter(SortedSeq(less, s), p) == SortedSeq(less, Where(s, p))
  {
    var part := Where(s, p);
    var q := SortedSeq(less, s);
    FilterFacts(less, q, p);
    TotalOnPart(less, part, s);
    forall x
      ensures x in q <==> x in s
    {
      assert x in q <==> x in Elements(q);
    }
    assert Elements(Filter(q, p)) == part;
    SortedUnique(less, Filter(q, p), SortedSeq(less, part));
  }

  lemma PositionBefore<T(!new)>(less: (T, T) -> bool, s: set<T>, q: seq<T>, i: nat, y: T)
    requires StrictTotal(less, s) && Sorted(less, q) && Elements(q) == s && i < |q|
    ensures y in s && less(y, q[i]) <==> y in q[..i]
  {
    assert q[i] in Elements(q);
    if y in s && less(y, q[i]) {
      assert y in Elements(q);
      var j :| 0 <= j < |q| && q[j] == y;
      assert forall t | i < t < |q| :: less(q[i], q[t]);
      assert j < i;
      assert q[..i][j] == y;
    }
    if y in q[..i] {
      var j :| 0 <= j < i && q[..i][j] == y;
      assert q[j] in Elements(q) && less(q[j], q[i]);
    }
  }

  /** A member's position counts the members before it. */
  lemma PositionCounts<T(!new)>(less: (T, T) -> bool, s: set<T>, i: nat)
    requires StrictTotal(less, s) && i < |s|
    ensures |Smaller(less, s, SortedSeq(less, s)[i])| == i
  {
    var q := SortedSeq(less, s);
    var before := Smaller(less, s, q[i]);
    forall y
      ensures y in before <==> y in q[..i]
    {
      PositionBefore(less, s, q, i, y);
    }
    assert before == Elements(q[..i]);
    TotalOnPart(less, before, s);
    SortedUnique(less, q[..i], SortedSeq(less, before));
  }

  /** The first `n` are the members with fewer than `n` before them. */
  lemma TakenAreEarly<T(!new)>(less: (T, T) -> bool, s: set<T>, n: nat, x: T)
    requires StrictTotal(less, s) && x in s
    ensures x in First(SortedSeq(less, s), n) <==> |Smaller(less, s, x)| < n
  {
    hide SortedSeq, Smaller, StrictTotal, Sorted;
    var q := SortedSeq(less, s);
    assert x in Elements(q);
    var i :| 0 <= i < |q| && q[i] == x;
    PositionCounts(less, s, i);
    if i < n {
      assert First(q, n)[i] == x;
    }
    if x in First(q, n) {
      var j :| 0 <= j < |First(q, n)| && First(q, n)[j] == x;
      assert q[j] == x;
      PositionCounts(less, s, j);
    }
  }

  /** What is taken comes before what is left. */
  lemma FirstAreLeast<T(!new)>(less: (T, T) -> bool, s: set<T>, n: nat)
    requires StrictTotal(less, s)
    ensures var taken := First(SortedSeq(less, s), n);
            && |taken| == (if |s| <= n then |s| else n)
            && Sorted(less, taken) && Elements(taken) <= s && |Elements(taken)| == |taken|
            && forall x, y | x in taken && y in s && y !in taken :: less(x, y)
  {
    var q := SortedSeq(less, s);
    var taken := First(q, n);
    forall x | x in taken
      ensures x in s
    {
      assert x in Elements(q);
    }
    TotalOnPart(less, Elements(taken), s);
    SortedUnique(less, taken, SortedSeq(less, Elements(taken)));
    forall x, y | x in taken && y in s && y !in taken
      ensures less(x, y)
    {
      assert y in Elements(q);
      var i :| 0 <= i < |taken| && taken[i] == x;
      var j :| 0 <= j < |q| && q[j] == y;
      assert forall t | 0 <= t < |taken| :: taken[t] == q[t] && taken[t] in taken;
      assert i < j;
    }
  }

  lemma CardMono<T>(a: set<T>, b: set<T>)
    requires a <= b
    ensures |a| <= |b|
  {
    assert b == a + (b - a);
  }
}
