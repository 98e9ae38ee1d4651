/**
 * Sorting and "keep the last" on path strings: Python's `sorted(...)`, `list.sort()`
 * and `set(sorted(s)[-1:])`, under the `str` order of module Strings.
 */
module Sorting {
  import opened Strings

  /** Non-decreasing, as `sorted` leaves a list. */
  predicate Sorted(s: seq<string>)
  {
    forall i, j :: 0 <= i < j < |s| ==> LexLeq(s[i], s[j])
  }

  /** Strictly increasing: sorted and without repeats, as `sorted` leaves the elements of a set. */
  predicate StrictlySorted(s: seq<string>)
  {
    forall i, j :: 0 <= i < j < |s| ==> LexLess(s[i], s[j])
  }

  /** Places `x` into a sorted sequence, before the first element it does not exceed. */
  function Insert(x: string, s: seq<string>): (r: seq<string>)
    ensures |r| == |s| + 1
    ensures forall y :: y in r <==> y == x || y in s
    ensures multiset(r) == multiset(s) + multiset{x}
    decreases |s|
  {
    if s == [] || LexLeq(x, s[0]) then [x] + s
    else
      assert s == [s[0]] + s[1..];
      [s[0]] + Insert(x, s[1..])
  }

  lemma {:induction false} InsertSorted(x: string, s: seq<string>)
    requires Sorted(s)
    ensures Sorted(Insert(x, s))
    decreases |s|
  {
    var r := Insert(x, s);
    if s == [] {
    } else if LexLeq(x, s[0]) {
      forall i, j | 0 <= i < j < |r| ensures LexLeq(r[i], r[j]) {
        if i == 0 { LexLeqTransitive(x, s[0], s[j - 1]); }
      }
    } else {
      LexLeqTotal(x, s[0]);
      InsertSorted(x, s[1..]);
      var t := Insert(x, s[1..]);
      forall i, j | 0 <= i < j < |r| ensures LexLeq(r[i], r[j]) {
        if i == 0 {
          assert r[j] == t[j - 1] && t[j - 1] in t;
          if t[j - 1] != x {
            var k :| 0 <= k < |s[1..]| && s[1..][k] == t[j - 1];
            assert s[k + 1] == t[j - 1];
          }
        } else {
          assert r[i] == t[i - 1] && r[j] == t[j - 1];
        }
      }
    }
  }

  /** Inserting a new element into a strictly sorted sequence keeps it strictly sorted. */
  lemma {:induction false} InsertStrict(x: string, s: seq<string>)
    requires StrictlySorted(s) && x !in s
    ensures StrictlySorted(Insert(x, s))
    decreases |s|
  {
    var r := Insert(x, s);
    if s == [] {
    } else if LexLeq(x, s[0]) {
      forall i, j | 0 <= i < j < |r| ensures LexLess(r[i], r[j]) {
        if i == 0 && j > 1 { LexLessTransitive(x, s[0], s[j - 1]); }
      }
    } else {
      LexLessTotal(x, s[0]);
      InsertStrict(x, s[1..]);
      var t := Insert(x, s[1..]);
      forall i, j | 0 <= i < j < |r| ensures LexLess(r[i], r[j]) {
        if i == 0 {
          assert r[j] == t[j - 1] && t[j - 1] in t;
          if t[j - 1] != x {
            var k :| 0 <= k < |s[1..]| && s[1..][k] == t[j - 1];
            assert s[k + 1] == t[j - 1];
          }
        } else {
          assert r[i] == t[i - 1] && r[j] == t[j - 1];
        }
      }
    }
  }

  /** Python's `sorted(xs)` on a list of strings (insertion sort; for strings the result does not depend on the algorithm). */
  function Sort(xs: seq<string>): (r: seq<string>)
    ensures Sorted(r)
    ensures multiset(r) == multiset(xs)
    decreases |xs|
  {
    if xs == [] then []
    else
      assert xs == xs[..|xs| - 1] + [xs[|xs| - 1]];
      var t := Sort(xs[..|xs| - 1]);
      InsertSorted(xs[|xs| - 1], t);
      Insert(xs[|xs| - 1], t)
  }

  /** The head of a sorted sequence is at most each of its elements. */
  lemma HeadIsLeast(a: seq<string>, x: string)
    requires Sorted(a) && x in multiset(a)
    ensures LexLeq(a[0], x)
  {
    var i :| 0 <= i < |a| && a[i] == x;
  }

  lemma TailMultiset(a: seq<string>)
    requires a != []
    ensures multiset(a[1..]) == multiset(a) - multiset{a[0]}
  {
    assert a == [a[0]] + a[1..];
  }

  /** Two sorted sequences with the same elements are equal, so `Sort` is the one result `sorted` can give. */
  lemma {:induction false} SortedUnique(a: seq<string>, b: seq<string>)
    requires Sorted(a) && Sorted(b) && multiset(a) == multiset(b)
    ensures a == b
    decreases |a|
  {
    assert |a| == |multiset(a)| == |b|;
    if a != [] {
      assert a[0] in multiset(a) && b[0] in multiset(b);
      HeadIsLeast(a, b[0]);
      HeadIsLeast(b, a[0]);
      LexLeqAntisymmetric(a[0], b[0]);
      TailMultiset(a);
      TailMultiset(b);
      SortedUnique(a[1..], b[1..]);
      assert a == [a[0]] + a[1..] && b == [b[0]] + b[1..];
    }
  }

  /** In a strictly increasing sequence every element occurs once. */
  lemma {:induction false} StrictCount(a: seq<string>, x: string)
    requires StrictlySorted(a)
    ensures multiset(a)[x] == if x in a then 1 else 0
    decreases |a|
  {
    if a != [] {
      assert a == [a[0]] + a[1..];
      StrictCount(a[1..], x);
      if x == a[0] {
        forall i | 1 <= i < |a| ensures a[i] != x {
          LexLessIrreflexive(x);
        }
        assert x !in a[1..];
      }
    }
  }

  /** A set has a single strictly increasing listing, so `sorted(s)` is determined by `s`. */
  lemma ListingUnique(a: seq<string>, b: seq<string>, s: set<string>)
    requires StrictlySorted(a) && StrictlySorted(b)
    requires forall x :: x in a <==> x in s
    requires forall x :: x in b <==> x in s
    ensures a == b
  {
    forall x ensures multiset(a)[x] == multiset(b)[x] {
      StrictCount(a, x);
      StrictCount(b, x);
    }
    assert multiset(a) == multiset(b);
    SortedUnique(a, b);
  }

  /** `x` is a greatest element of `s`. */
  ghost predicate IsMaxOf(x: string, s: set<string>)
  {
    x in s && forall y :: y in s ==> LexLeq(y, x)
  }

  lemma {:induction false} MaxExists(s: set<string>)
    requires s != {}
    ensures exists x :: IsMaxOf(x, s)
    decreases |s|
  {
    var x :| x in s;
    if s != {x} {
      MaxExists(s - {x});
      var m :| IsMaxOf(m, s - {x});
      LexLeqTotal(x, m);
      if LexLeq(x, m) {
        assert IsMaxOf(m, s);
      } else {
        forall y | y in s ensures LexLeq(y, x) {
          if y != x { LexLeqTransitive(y, m, x); }
        }
        assert IsMaxOf(x, s);
      }
    } else {
      assert IsMaxOf(x, s);
    }
  }

  lemma MaxUnique(x: string, y: string, s: set<string>)
    requires IsMaxOf(x, s) && IsMaxOf(y, s)
    ensures x == y
  {
    LexLeqAntisymmetric(x, y);
  }

  /** The greatest element of a non-empty set of strings. */
  ghost function MaxOf(s: set<string>): (m: string)
    requires s != {}
    ensures IsMaxOf(m, s)
  {
    MaxExists(s);
    var m :| IsMaxOf(m, s); m
  }

  /** Python's `set(sorted(s)[-1:])`: the set reduced to its greatest element, or empty. */
  ghost function Collapse(s: set<string>): (r: set<string>)
    ensures r <= s && |r| <= 1
    ensures r == {} <==> s == {}
    ensures forall x :: x in r ==> IsMaxOf(x, s)
  {
    if s == {} then {} else {MaxOf(s)}
  }

  /** Collapsing first and then adding more candidates and collapsing again equals collapsing once over all of them. */
  lemma CollapseAbsorbs(a: set<string>, b: set<string>)
    ensures Collapse(Collapse(a) + b) == Collapse(a + b)
  {
    if a != {} {
      var m := MaxOf(a);
      assert Collapse(a) + b == {m} + b;
      var t := MaxOf({m} + b);
      forall y | y in a + b ensures LexLeq(y, t) {
        if y in a { LexLeqTransitive(y, m, t); }
      }
      MaxUnique(t, MaxOf(a + b), a + b);
    }
  }

  lemma CollapseIdempotent(s: set<string>)
    ensures Collapse(Collapse(s)) == Collapse(s)
  {
    CollapseAbsorbs(s, {});
    assert Collapse(s) + {} == Collapse(s) && s + {} == s;
  }

  /** The last element of a strictly sorted listing of `s` is the greatest element of `s`. */
  lemma LastIsMax(r: seq<string>, s: set<string>)
    requires StrictlySorted(r) && r != []
    requires forall x :: x in r <==> x in s
    ensures s != {} && r[|r| - 1] == MaxOf(s)
  {
    assert r[|r| - 1] in s;
    forall y | y in s ensures LexLeq(y, r[|r| - 1]) {
      var i :| 0 <= i < |r| && r[i] == y;
    }
    MaxUnique(r[|r| - 1], MaxOf(s), s);
  }

  /** Python's `sorted(s)` on a set of strings: its elements, strictly increasing. */
  method SortedOf(s: set<string>) returns (r: seq<string>)
    ensures StrictlySorted(r)
    ensures forall x :: x in r <==> x in s
    ensures |r| == |s|
  {
    r := [];
    var rest := s;
    while rest != {}
      invariant rest <= s
      invariant StrictlySorted(r)
      invariant forall x :: x in r <==> x in s - rest
      invariant |r| == |s - rest|
      decreases |rest|
    {
      var x :| x in rest;
      InsertStrict(x, r);
      var r' := Insert(x, r);
      assert s - (rest - {x}) == (s - rest) + {x};
      r, rest := r', rest - {x};
    }
  }

  /** Python's `set(sorted(s)[-1:])`, computed as the source does: sort, then keep the last. */
  method KeepLast(s: set<string>) returns (r: set<string>)
    ensures r == Collapse(s)
  {
    var sorted := SortedOf(s);
    if |sorted| == 0 {
      r := {};
    } else {
      LastIsMax(sorted, s);
      r := {sorted[|sorted| - 1]};
    }
  }
}
