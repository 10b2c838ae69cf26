/**
 Sorting by a total order.  A query with an ORDER BY clause that leaves no ties has exactly one
 answer; `SortedIs` is the tool by which every ordering theorem of the project names that answer.
 */
module Ordering {
  /** The laws of a total order at three points; named so that a proof uses them only where it asks. */
  ghost predicate Laws<T>(le: (T, T) -> bool, x: T, y: T, z: T) {
    && le(x, x)
    && (le(x, y) || le(y, x))
    && (le(x, y) && le(y, x) ==> x == y)
    && (le(x, y) && le(y, z) ==> le(x, z))
  }

  ghost predicate TotalOrder<T(!new)>(le: (T, T) -> bool) {
    forall x, y, z :: Laws(le, x, y, z)
  }

  ghost predicate Ascending<T>(s: seq<T>, le: (T, T) -> bool) {
    forall i, j | 0 <= i < j < |s| :: le(s[i], s[j]) && s[i] != s[j]
  }

  function Elements<T(!new)>(s: seq<T>): (r: set<T>)
    ensures forall i | 0 <= i < |s| :: s[i] in r
    ensures |s| == 1 ==> r == {s[0]}
  {
    set i | 0 <= i < |s| :: s[i]
  }

  lemma ElementsConcat<T(!new)>(a: seq<T>, b: seq<T>)
    ensures Elements(a + b) == Elements(a) + Elements(b)
  {
    forall x | x in Elements(a) + Elements(b) ensures x in Elements(a + b) {
      if x in Elements(a) {
        var i :| 0 <= i < |a| && a[i] == x;
        assert (a + b)[i] == x;
      } else {
        var i :| 0 <= i < |b| && b[i] == x;
        assert (a + b)[|a| + i] == x;
      }
    }
    forall x | x in Elements(a + b) ensures x in Elements(a) + Elements(b) {
      var i :| 0 <= i < |a + b| && (a + b)[i] == x;
      assert i < |a| || x == b[i - |a|];
    }
  }

  lemma AscendingConcat<T(!new)>(a: seq<T>, b: seq<T>, le: (T, T) -> bool)
    requires Ascending(a, le) && Ascending(b, le)
    requires forall x, y | x in Elements(a) && y in Elements(b) :: le(x, y) && x != y
    ensures Ascending(a + b, le)
  {
    forall i, j | 0 <= i < j < |a + b| ensures le((a + b)[i], (a + b)[j]) && (a + b)[i] != (a + b)[j] {
      if j < |a| {
        assert le(a[i], a[j]) && a[i] != a[j];
      } else if i >= |a| {
        assert le(b[i - |a|], b[j - |a|]) && b[i - |a|] != b[j - |a|];
      } else {
        assert a[i] in Elements(a) && b[j - |a|] in Elements(b);
      }
    }
  }

  lemma {:induction false} FindLeast<T(!new)>(s: set<T>, le: (T, T) -> bool) returns (m: T)
    requires s != {} && TotalOrder(le)
    ensures m in s && forall y | y in s :: le(m, y)
  {
    m :| m in s;
    var rest := s - {m};
    if rest == {} {
      assert s == {m};
      assert Laws(le, m, m, m);
    } else {
      var n := FindLeast(rest, le);
      var least := if le(n, m) then n else m;
      assert Laws(le, m, n, n);
      forall y | y in s ensures le(least, y) {
        assert y == m || y in rest;
        assert Laws(le, least, n, y);
      }
      m := least;
    }
  }

  lemma LeastExists<T(!new)>(s: set<T>, le: (T, T) -> bool)
    requires s != {} && TotalOrder(le)
    ensures exists m :: m in s && forall y | y in s :: le(m, y)
  {
    var m := FindLeast(s, le);
  }

  lemma LeastUnique<T(!new)>(s: set<T>, le: (T, T) -> bool)
    requires TotalOrder(le)
    ensures forall a, b | a in s && b in s && (forall y | y in s :: le(a, y)) && (forall y | y in s :: le(b, y))
              :: a == b
  {
    forall a, b | a in s && b in s && (forall y | y in s :: le(a, y)) && (forall y | y in s :: le(b, y))
      ensures a == b
    {
      assert Laws(le, a, b, b);
    }
  }

  function Least<T(==, !new)>(s: set<T>, le: (T, T) -> bool): (m: T)
    requires s != {} && TotalOrder(le)
    ensures m in s && forall y | y in s :: le(m, y)
  {
    LeastExists(s, le);
    LeastUnique(s, le);
    var m :| m in s && forall y | y in s :: le(m, y);
    m
  }

  /** The elements of a finite set, least first. */
  function Sorted<T(==, !new)>(s: set<T>, le: (T, T) -> bool): (r: seq<T>)
    requires TotalOrder(le)
    ensures Elements(r) == s && Ascending(r, le)
  {
    if s == {} then []
    else
      var m := Least(s, le);
      var rest := Sorted(s - {m}, le);
      ElementsConcat([m], rest);
      AscendingConcat([m], rest, le);
      [m] + rest
  }

  lemma FirstIsLeast<T(!new)>(r: seq<T>, s: set<T>, le: (T, T) -> bool)
    requires TotalOrder(le) && Ascending(r, le) && Elements(r) == s && r != []
    ensures s != {} && r[0] == Least(s, le)
  {
    var m := Least(s, le);
    assert r[0] in s;
    var i :| 0 <= i < |r| && r[i] == m;
    assert Laws(le, r[0], m, m);
  }

  lemma RestElements<T(!new)>(r: seq<T>, le: (T, T) -> bool)
    requires Ascending(r, le) && r != []
    ensures Elements(r[1..]) == Elements(r) - {r[0]} && Ascending(r[1..], le)
  {
    assert r == [r[0]] + r[1..];
    ElementsConcat([r[0]], r[1..]);
    forall x | x in Elements(r[1..]) ensures x != r[0] {
      var i :| 0 <= i < |r[1..]| && r[1..][i] == x;
      assert r[i + 1] == x;
    }
  }

  /** An ascending enumeration of a set is the sorted one. */
  lemma {:induction false} SortedIs<T(!new)>(r: seq<T>, s: set<T>, le: (T, T) -> bool)
    requires TotalOrder(le) && Ascending(r, le) && Elements(r) == s
    ensures Sorted(s, le) == r
  {
    if r == [] {
      assert s == {};
    } else {
      FirstIsLeast(r, s, le);
      RestElements(r, le);
      SortedIs(r[1..], s - {r[0]}, le);
      assert r == [r[0]] + r[1..];
    }
  }

  // ---------------------------------------------------------------- strings

  /** Code-point order of strings, as `<=` compares them in the source. */
  predicate StringLe(a: string, b: string) {
    if a == [] then true
    else if b == [] then false
    else if a[0] != b[0] then a[0] < b[0]
    else StringLe(a[1..], b[1..])
  }

  lemma {:induction false} StringLeLaws(a: string, b: string, c: string)
    ensures StringLe(a, a)
    ensures StringLe(a, b) || StringLe(b, a)
    ensures StringLe(a, b) && StringLe(b, a) ==> a == b
    ensures StringLe(a, b) && StringLe(b, c) ==> StringLe(a, c)
    decreases |a| + |b| + |c|
  {
    if a != [] {
      StringLeLaws(a[1..], if b == [] then b else b[1..], if c == [] then c else c[1..]);
      if b != [] {
        assert a == [a[0]] + a[1..] && b == [b[0]] + b[1..];
      }
    }
  }

  lemma StringLeTotal()
    ensures TotalOrder(StringLe)
  {
    forall a, b, c: string ensures Laws(StringLe, a, b, c) {
      StringLeLaws(a, b, c);
    }
  }
}
