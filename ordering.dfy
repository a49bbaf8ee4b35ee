/** `sorted(emails)` in `run_scraper` (gmail-scraper.py, line 55): Python's `<` on
    `str` values and the sorted list of a set of strings. */
module Ordering {

  /** Python's `a < b` on strings: lexicographic by code point, a proper prefix first. */
  predicate StrLess(a: string, b: string)
    decreases |a|
  {
    if a == [] then b != []
    else b != [] && (a[0] < b[0] || (a[0] == b[0] && StrLess(a[1..], b[1..])))
  }

  lemma {:induction false} StrLessIrreflexive(a: string)
    ensures !StrLess(a, a)
    decreases |a|
  {
    if a != [] { StrLessIrreflexive(a[1..]); }
  }

  lemma {:induction false} StrLessTransitive(a: string, b: string, c: string)
    requires StrLess(a, b) && StrLess(b, c)
    ensures StrLess(a, c)
    decreases |a|
  {
    if a != [] && a[0] == b[0] && b[0] == c[0] {
      StrLessTransitive(a[1..], b[1..], c[1..]);
    }
  }

  /** Any two different strings are ordered one way or the other. */
  lemma {:induction false} StrLessTotal(a: string, b: string)
    ensures a == b || StrLess(a, b) || StrLess(b, a)
    decreases |a|
  {
    if a != [] && b != [] && a[0] == b[0] {
      StrLessTotal(a[1..], b[1..]);
      assert a == [a[0]] + a[1..] && b == [b[0]] + b[1..];
    }
  }

  /** Sorted ascending with no element twice. */
  ghost predicate StrictlyIncreasing(s: seq<string>)
  {
    forall i, j :: 0 <= i < j < |s| ==> StrLess(s[i], s[j])
  }

  /** A non-empty set of strings has a least element. */
  lemma {:induction false} LeastExists(s: set<string>)
    requires s != {}
    ensures exists m :: m in s && forall y :: y in s && y != m ==> StrLess(m, y)
    decreases |s|
  {
    var x :| x in s;
    var rest := s - {x};
    if rest == {} {
      assert s == {x};
    } else {
      LeastExists(rest);
      var m :| m in rest && forall y :: y in rest && y != m ==> StrLess(m, y);
      StrLessTotal(x, m);
      if StrLess(x, m) {
        forall y | y in s && y != x ensures StrLess(x, y) {
          if y != m { StrLessTransitive(x, m, y); }
        }
      } else {
        assert StrLess(m, x);
      }
    }
  }

  /** `sorted` of a set: its members in ascending order, each once. */
  method SortedList(emails: set<string>) returns (sorted: seq<string>)
    ensures StrictlyIncreasing(sorted)
    ensures forall x :: x in sorted <==> x in emails
    ensures |sorted| == |emails|
  {
    sorted := [];
    var rest := emails;
    while rest != {}
      invariant rest <= emails
      invariant forall x :: x in sorted <==> x in emails && x !in rest
      invariant StrictlyIncreasing(sorted)
      invariant forall i, y :: 0 <= i < |sorted| && y in rest ==> StrLess(sorted[i], y)
      invariant |sorted| + |rest| == |emails|
      decreases rest
    {
      LeastExists(rest);
      var m :| m in rest && forall y :: y in rest && y != m ==> StrLess(m, y);
      sorted := sorted + [m];
      rest := rest - {m};
    }
  }

  /** A strictly increasing sequence has no element twice, and the first is below the rest. */
  lemma HeadBelowTail(s: seq<string>)
    requires StrictlyIncreasing(s) && s != []
    ensures s[0] !in s[1..]
    ensures StrictlyIncreasing(s[1..])
  {
    if s[0] in s[1..] {
      var k :| 0 <= k < |s[1..]| && s[1..][k] == s[0];
      assert StrLess(s[0], s[k + 1]);
      StrLessIrreflexive(s[0]);
    }
  }

  /** The sorted list of a set is determined by the set: two strictly increasing
      sequences with the same members are equal. */
  lemma {:induction false} SortedUnique(a: seq<string>, b: seq<string>)
    requires StrictlyIncreasing(a) && StrictlyIncreasing(b)
    requires forall x :: x in a <==> x in b
    ensures a == b
    decreases |a|
  {
    assert b != [] ==> b[0] in a;
    if a != [] {
      assert a[0] in b;
      assert b != [];
      assert a[0] == b[0] by {
        if a[0] != b[0] {
          assert b[0] in a;
          var i :| 0 <= i < |a| && a[i] == b[0];
          var j :| 0 <= j < |b| && b[j] == a[0];
          assert StrLess(a[0], a[i]) && StrLess(b[0], b[j]);
          StrLessTransitive(a[0], b[0], a[0]);
          StrLessIrreflexive(a[0]);
        }
      }
      HeadBelowTail(a);
      HeadBelowTail(b);
      forall x ensures x in a[1..] <==> x in b[1..] {
        assert x in a <==> x in a[1..] || x == a[0];
        assert x in b <==> x in b[1..] || x == b[0];
      }
      SortedUnique(a[1..], b[1..]);
      assert a == [a[0]] + a[1..] && b == [b[0]] + b[1..];
    }
  }
}
