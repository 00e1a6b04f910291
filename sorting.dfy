/** Python's `sorted(...)` as the miner uses it: on the set of an author's
    active days, and on the items of a frequency dict, ordered by key. */
module Sorting {
  import opened Text

  /** Every element is before every later one in the order `less`. */
  predicate Increasing<K>(r: seq<K>, less: (K, K) -> bool) {
    forall i, j :: 0 <= i < j < |r| ==> less(r[i], r[j])
  }

  /** A sorted listing is unique: two sequences increasing in the same
      strict order and holding the same elements are equal. */
  lemma {:induction false} SortedUnique<K>(r: seq<K>, r': seq<K>, less: (K, K) -> bool)
    requires forall a, b :: less(a, b) ==> !less(b, a)
    requires Increasing(r, less) && Increasing(r', less)
    requires forall x :: x in r <==> x in r'
    ensures r == r'
  {
    if |r| == 0 {
      assert forall x :: x !in r';
      HeadIn(r');
    } else {
      assert r[0] in r' && r'[0] in r';
      var i :| 0 <= i < |r| && r[i] == r'[0];
      var j :| 0 <= j < |r'| && r'[j] == r[0];
      assert r[0] == r'[0];
      forall x
        ensures x in r[1..] <==> x in r'[1..]
      {
        if x in r[1..] {
          var k :| 1 <= k < |r| && r[k] == x;
          assert less(r[0], x);
          assert x in r' && x != r'[0];
          var k' :| 0 <= k' < |r'| && r'[k'] == x;
          assert r'[1..][k' - 1] == x;
        }
        if x in r'[1..] {
          var k :| 1 <= k < |r'| && r'[k] == x;
          assert less(r'[0], x);
          assert x in r && x != r[0];
          var k' :| 0 <= k' < |r| && r[k'] == x;
          assert r[1..][k' - 1] == x;
        }
      }
      SortedUnique(r[1..], r'[1..], less);
      assert r == [r[0]] + r[1..] && r' == [r'[0]] + r'[1..];
    }
  }

  lemma HeadIn<K>(r: seq<K>)
    ensures |r| > 0 ==> r[0] in r
  {
  }

  /** Some element of a non-empty set. */
  lemma Pick<K>(s: set<K>) returns (y: K)
    requires s != {}
    ensures y in s
  {
    y :| y in s;
  }

  /** Every non-empty finite set of integers has a least element. */
  lemma {:induction false} Least(s: set<int>) returns (m: int)
    requires s != {}
    ensures m in s && forall x :: x in s ==> m <= x
    decreases |s|
  {
    var y := Pick(s);
    var rest := s - {y};
    if rest == {} {
      m := y;
      forall x | x in s
        ensures y <= x
      {
        assert x !in rest;
      }
    } else {
      var m' := Least(rest);
      m := if y < m' then y else m';
      forall x | x in s
        ensures m <= x
      {
        if x != y {
          assert x in rest;
        }
      }
    }
  }

  function IntLess(a: int, b: int): bool {
    a < b
  }

  /** The reference listing of a set of day numbers: the least first, then
      the listing of the rest. */
  ghost function Ascending(s: set<int>): seq<int>
    decreases |s|
  {
    if s == {} then []
    else
      assert exists m :: m in s && forall x :: x in s ==> m <= x by {
        var m := Least(s);
      }
      var m :| m in s && forall x :: x in s ==> m <= x;
      [m] + Ascending(s - {m})
  }

  /** The reference listing holds the elements of the set, each once, in
      increasing order. */
  lemma {:induction false} AscendingFacts(s: set<int>)
    ensures |Ascending(s)| == |s|
    ensures forall x :: x in Ascending(s) <==> x in s
    ensures Increasing(Ascending(s), IntLess)
    decreases |s|
  {
    if s != {} {
      var r := Ascending(s);
      var m := r[0];
      var rest := r[1..];
      assert m in s && forall x :: x in s ==> m <= x;
      assert rest == Ascending(s - {m});
      AscendingFacts(s - {m});
      assert r == [m] + rest;
      forall x | x in rest
        ensures IntLess(m, x)
      {
        assert x in s - {m};
      }
      ConsIncreasing(m, rest, IntLess);
    }
  }

  /** An element before every element of an increasing sequence can be put
      in front of it. */
  lemma ConsIncreasing<K>(m: K, rest: seq<K>, less: (K, K) -> bool)
    requires Increasing(rest, less)
    requires forall x :: x in rest ==> less(m, x)
    ensures Increasing([m] + rest, less)
  {
    var r := [m] + rest;
    forall i, j | 0 <= i < j < |r|
      ensures less(r[i], r[j])
    {
      assert r[j] == rest[j - 1];
      if i > 0 {
        assert r[i] == rest[i - 1];
      }
    }
  }

  /** `sorted(s)` for a set of day numbers: the elements of `s`, each once,
      in strictly increasing order (taken smallest first). */
  method SortedDays(s: set<int>) returns (r: seq<int>)
    ensures |r| == |s|
    ensures forall x :: x in s <==> x in r
    ensures forall i, j :: 0 <= i < j < |r| ==> r[i] < r[j]
    ensures r == Ascending(s)
  {
    r := [];
    var rest := s;
    while rest != {}
      invariant rest <= s
      invariant |r| + |rest| == |s|
      invariant forall x :: x in s <==> x in r || x in rest
      invariant forall i, j :: 0 <= i < j < |r| ==> r[i] < r[j]
      invariant forall i, x :: 0 <= i < |r| && x in rest ==> r[i] < x
      decreases |rest|
    {
      ghost var least := Least(rest);
      var m :| m in rest && forall x :: x in rest ==> m <= x;
      r := r + [m];
      rest := rest - {m};
    }
    SortedDaysAscending(r, s);
  }

  /** The days are listed as the reference listing lists them. */
  lemma SortedDaysAscending(r: seq<int>, s: set<int>)
    requires forall x :: x in s <==> x in r
    requires forall i, j :: 0 <= i < j < |r| ==> r[i] < r[j]
    ensures r == Ascending(s)
  {
    AscendingFacts(s);
    SortedUnique(r, Ascending(s), IntLess);
  }

  /** Every non-empty finite set of strings has a least element in Python's
      string order. */
  lemma {:induction false} LeastKey(s: set<string>) returns (m: string)
    requires s != {}
    ensures m in s && forall x :: x in s && x != m ==> StrLess(m, x)
    decreases |s|
  {
    var y := Pick(s);
    var rest := s - {y};
    if rest == {} {
      m := y;
      assert s == {y};
    } else {
      var m' := LeastKey(rest);
      if y != m' {
        StrLessTotal(y, m');
      }
      m := if StrLess(y, m') then y else m';
      forall x | x in s && x != m
        ensures StrLess(m, x)
      {
        if x == y {
          assert m == m';
        } else if m != m' && x != m' {
          StrLessTransitive(m, m', x);
        }
      }
    }
  }

  /** The items of a frequency dict listed as `sorted(d.items())` lists
      them: each key once with its count, in increasing key order. */
  ghost predicate IsSortedItems(items: seq<(string, nat)>, m: map<string, nat>) {
    Increasing(items, KeyLess) &&
    forall x :: x in items <==> x.0 in m && x.1 == m[x.0]
  }

  function KeyLess(a: (string, nat), b: (string, nat)): bool {
    StrLess(a.0, b.0)
  }

  /** `dict(sorted(d.items()))` is determined by `d`. */
  lemma SortedItemsUnique(items: seq<(string, nat)>, items': seq<(string, nat)>, m: map<string, nat>)
    requires IsSortedItems(items, m) && IsSortedItems(items', m)
    ensures items == items'
  {
    forall a, b | KeyLess(a, b)
      ensures !KeyLess(b, a)
    {
      if KeyLess(b, a) {
        StrLessTransitive(a.0, b.0, a.0);
        StrLessIrreflexive(a.0);
      }
    }
    SortedUnique(items, items', KeyLess);
  }

  /** `sorted(d.items())` for a frequency dict, taking the least remaining
      key each time. */
  method SortedItems(m: map<string, nat>) returns (items: seq<(string, nat)>)
    ensures |items| == |m|
    ensures IsSortedItems(items, m)
  {
    items := [];
    var rest := m.Keys;
    while rest != {}
      invariant rest <= m.Keys
      invariant |items| + |rest| == |m|
      invariant forall x :: x in items ==> x.0 in m && x.1 == m[x.0] && x.0 !in rest
      invariant forall k :: k in m ==> k in rest || (k, m[k]) in items
      invariant Increasing(items, KeyLess)
      invariant forall i, x :: 0 <= i < |items| && x in rest ==> StrLess(items[i].0, x)
      decreases |rest|
    {
      ghost var least := LeastKey(rest);
      var k :| k in rest && forall x :: x in rest && x != k ==> StrLess(k, x);
      items := items + [(k, m[k])];
      rest := rest - {k};
    }
  }
}
