/**
  Python's ordering of `str` values (code point by code point, a proper prefix
  first) and the sorted listing of a set of names that `sorted(...)` produces.
 */
module Order {

  /** `a < b` on Python strings. */
  predicate LexLess(a: string, b: string)
  {
    |b| > 0 && (|a| == 0 || a[0] < b[0] || (a[0] == b[0] && LexLess(a[1..], b[1..])))
  }

  lemma {:induction false} LexLessIrreflexive(a: string)
    ensures !LexLess(a, a)
  {
    if |a| > 0 {
      LexLessIrreflexive(a[1..]);
    }
  }

  lemma {:induction false} LexLessTransitive(a: string, b: string, c: string)
    requires LexLess(a, b) && LexLess(b, c)
    ensures LexLess(a, c)
  {
    if |a| > 0 && a[0] == b[0] == c[0] {
      LexLessTransitive(a[1..], b[1..], c[1..]);
    }
  }

  lemma {:induction false} LexLessTotal(a: string, b: string)
    ensures a == b || LexLess(a, b) || LexLess(b, a)
  {
    if |a| > 0 && |b| > 0 && a[0] == b[0] {
      LexLessTotal(a[1..], b[1..]);
      if a[1..] == b[1..] {
        assert a == [a[0]] + a[1..] && b == [b[0]] + b[1..];
      }
    }
  }

  lemma LexLessAsymmetric(a: string, b: string)
    requires LexLess(a, b)
    ensures !LexLess(b, a)
  {
    if LexLess(b, a) {
      LexLessTransitive(a, b, a);
      LexLessIrreflexive(a);
    }
  }

  /**
    The order compares at the first position where the strings differ, and a
    proper prefix comes first.
   */
  lemma {:induction false} LexLessFirstDifference(a: string, b: string)
    ensures LexLess(a, b) <==>
      exists k :: 0 <= k <= |a| && k < |b| && a[..k] == b[..k] && (k == |a| || a[k] < b[k])
  {
    if |b| == 0 {
    } else if |a| == 0 || a[0] < b[0] {
      assert a[..0] == b[..0];
    } else if a[0] != b[0] {
      forall k | 0 <= k <= |a| && k < |b| && a[..k] == b[..k]
        ensures !(k == |a| || a[k] < b[k])
      {
      }
    } else {
      LexLessFirstDifference(a[1..], b[1..]);
      if LexLess(a, b) {
        var k :| 0 <= k <= |a[1..]| && k < |b[1..]| && a[1..][..k] == b[1..][..k] &&
                 (k == |a[1..]| || a[1..][k] < b[1..][k]);
        assert a[..k + 1] == [a[0]] + a[1..][..k];
        assert b[..k + 1] == [b[0]] + b[1..][..k];
      }
      forall k | 0 <= k <= |a| && k < |b| && a[..k] == b[..k] && (k == |a| || a[k] < b[k])
        ensures LexLess(a, b)
      {
        assert k > 0;
        assert a[1..][..k - 1] == a[..k][1..];
        assert b[1..][..k - 1] == b[..k][1..];
      }
    }
  }

  /** `m` is the smallest element of `s`. */
  predicate IsLeast(m: string, s: set<string>)
  {
    m in s && forall x | x in s :: x == m || LexLess(m, x)
  }

  lemma {:induction false} LeastExists(s: set<string>)
    requires s != {}
    ensures exists m :: IsLeast(m, s)
  {
    var x :| x in s;
    if s != {x} {
      LeastExists(s - {x});
      var m :| IsLeast(m, s - {x});
      LexLessTotal(x, m);
      if LexLess(x, m) {
        forall y | y in s && y != x
          ensures LexLess(x, y)
        {
          if y != m {
            LexLessTransitive(x, m, y);
          }
        }
        assert IsLeast(x, s);
      } else {
        assert IsLeast(m, s);
      }
    } else {
      assert IsLeast(x, s);
    }
  }

  lemma LeastUnique(m: string, n: string, s: set<string>)
    requires IsLeast(m, s) && IsLeast(n, s)
    ensures m == n
  {
    if m != n {
      LexLessAsymmetric(m, n);
    }
  }

  /** Every element is smaller than every later one: sorted, without duplicates. */
  predicate StrictlySorted(xs: seq<string>)
  {
    forall i, j | 0 <= i < j < |xs| :: LexLess(xs[i], xs[j])
  }

  /**
    `sorted(s)`: the least element first, then the sorted rest. Its properties
    are `SortedNamesSpec` and `SortedListingUnique`.
   */
  ghost function SortedNames(s: set<string>): seq<string>
  {
    if s == {} then []
    else
      LeastExists(s);
      var m :| IsLeast(m, s);
      [m] + SortedNames(s - {m})
  }

  /** Taking the least name first and then sorting the rest is `sorted`. */
  lemma SortedNamesUnfold(s: set<string>, m: string)
    requires IsLeast(m, s)
    ensures SortedNames(s) == [m] + SortedNames(s - {m})
  {
    var r := SortedNames(s);
    assert IsLeast(r[0], s) && r == [r[0]] + SortedNames(s - {r[0]});
    LeastUnique(m, r[0], s);
  }

  /** `sorted(s)` is strictly increasing and holds exactly the elements of `s`. */
  lemma {:induction false} SortedNamesSpec(s: set<string>)
    ensures StrictlySorted(SortedNames(s))
    ensures forall x :: x in SortedNames(s) <==> x in s
    ensures |SortedNames(s)| == |s|
  {
    if s != {} {
      LeastExists(s);
      var m :| IsLeast(m, s);
      SortedNamesUnfold(s, m);
      SortedNamesSpec(s - {m});
      var r := SortedNames(s);
      assert r[1..] == SortedNames(s - {m});
      forall i, j | 0 <= i < j < |r|
        ensures LexLess(r[i], r[j])
      {
        if i == 0 {
          assert r[j] in s - {m} by { assert r[j] == r[1..][j - 1]; }
        } else {
          assert r[i] == r[1..][i - 1] && r[j] == r[1..][j - 1];
        }
      }
    }
  }

  /**
    Any strictly increasing listing of `s` is `sorted(s)`: the order in which the
    names were enumerated cannot show through the sort.
   */
  lemma {:induction false} SortedListingUnique(xs: seq<string>, s: set<string>)
    requires StrictlySorted(xs)
    requires forall x :: x in xs <==> x in s
    ensures xs == SortedNames(s)
  {
    if xs != [] {
      var m := xs[0];
      forall x | x in s
        ensures x == m || LexLess(m, x)
      {
        var j :| 0 <= j < |xs| && xs[j] == x;
      }
      assert IsLeast(m, s);
      SortedNamesUnfold(s, m);
      forall x
        ensures x in xs[1..] <==> x in s - {m}
      {
        if x in xs[1..] {
          var j :| 1 <= j < |xs| && xs[j] == x;
          LexLessIrreflexive(m);
        }
        if x in s - {m} {
          var j :| 0 <= j < |xs| && xs[j] == x;
          assert x in xs[1..] by { assert xs[1..][j - 1] == x; }
        }
      }
      SortedListingUnique(xs[1..], s - {m});
      assert xs == [m] + xs[1..];
    }
  }
}
