/** Frequency maps: the `defaultdict(int)` / `Counter` values that the
    source increments one key at a time, and the sum of their values. */
module Counting {

  /** `m[k] += 1` on a map whose missing keys read as 0. */
  function Inc<K>(m: map<K, nat>, k: K): (r: map<K, nat>)
    ensures r.Keys == m.Keys + {k}
    ensures r[k] == (if k in m then m[k] else 0) + 1
    ensures forall j :: j in m && j != k ==> r[j] == m[j]
  {
    m[k := (if k in m then m[k] else 0) + 1]
  }

  /** The sum of the values of `m` at the keys `ks`. */
  ghost function SumAt<K>(m: map<K, nat>, ks: set<K>): nat
    requires ks <= m.Keys
    decreases ks
  {
    if ks == {} then 0
    else
      var k :| k in ks;
      m[k] + SumAt(m, ks - {k})
  }

  /** The sum of all values of a map. */
  ghost function MapSum<K>(m: map<K, nat>): nat
  {
    SumAt(m, m.Keys)
  }

  /** The sum does not depend on which key is taken out first. */
  lemma {:induction false} SumAtRemove<K>(m: map<K, nat>, ks: set<K>, k: K)
    requires ks <= m.Keys && k in ks
    ensures SumAt(m, ks) == m[k] + SumAt(m, ks - {k})
    decreases ks
  {
    var j :| j in ks && SumAt(m, ks) == m[j] + SumAt(m, ks - {j});
    if j != k {
      SumAtRemove(m, ks - {j}, k);
      SumAtRemove(m, ks - {k}, j);
      assert ks - {j} - {k} == ks - {k} - {j};
    }
  }

  /** The sum at `ks` reads `m` only at `ks`. */
  lemma {:induction false} SumAtAgree<K>(m: map<K, nat>, m': map<K, nat>, ks: set<K>)
    requires ks <= m.Keys && ks <= m'.Keys
    requires forall k :: k in ks ==> m[k] == m'[k]
    ensures SumAt(m, ks) == SumAt(m', ks)
    decreases ks
  {
    if ks != {} {
      var k :| k in ks && SumAt(m, ks) == m[k] + SumAt(m, ks - {k});
      SumAtRemove(m', ks, k);
      SumAtAgree(m, m', ks - {k});
    }
  }

  /** Incrementing one key raises the sum by exactly one. */
  lemma IncSum<K>(m: map<K, nat>, k: K)
    ensures MapSum(Inc(m, k)) == MapSum(m) + 1
  {
    var r := Inc(m, k);
    SumAtRemove(r, r.Keys, k);
    SumAtAgree(r, m, m.Keys - {k});
    if k in m {
      assert r.Keys == m.Keys;
      SumAtRemove(m, m.Keys, k);
    } else {
      assert r.Keys - {k} == m.Keys && m.Keys - {k} == m.Keys;
    }
  }

  /** A map whose values are all zero sums to zero. */
  lemma {:induction false} SumAtZero<K>(m: map<K, nat>, ks: set<K>)
    requires ks <= m.Keys
    requires forall k :: k in ks ==> m[k] == 0
    ensures SumAt(m, ks) == 0
    decreases ks
  {
    if ks != {} {
      var k :| k in ks && SumAt(m, ks) == m[k] + SumAt(m, ks - {k});
      SumAtZero(m, ks - {k});
    }
  }

  /** How many times `x` occurs in `xs`. */
  function Count<K(==)>(xs: seq<K>, x: K): (n: nat)
    ensures n <= |xs|
  {
    if |xs| == 0 then 0
    else Count(xs[..|xs| - 1], x) + (if xs[|xs| - 1] == x then 1 else 0)
  }

  lemma {:induction false} CountAbsent<K>(xs: seq<K>, x: K)
    ensures x !in xs ==> Count(xs, x) == 0
  {
    if |xs| > 0 {
      CountAbsent(xs[..|xs| - 1], x);
    }
  }

  /** Incrementing `m` at each of `xs` in turn: what a `defaultdict(int)` or a
      `Counter` holds after `m[x] += 1` for every `x` of `xs`. */
  function TallyFrom<K>(m: map<K, nat>, xs: seq<K>): map<K, nat>
  {
    if |xs| == 0 then m else Inc(TallyFrom(m, xs[..|xs| - 1]), xs[|xs| - 1])
  }

  /** Counting one more element is one more increment. */
  lemma TallyFromSnoc<K>(m: map<K, nat>, xs: seq<K>, x: K)
    ensures TallyFrom(m, xs + [x]) == Inc(TallyFrom(m, xs), x)
  {
    assert (xs + [x])[..|xs|] == xs;
  }

  /** The tally holds the keys it started with and the keys it counted, each
      at its starting value plus its number of occurrences. */
  lemma {:induction false} TallyFromCounts<K>(m: map<K, nat>, xs: seq<K>)
    ensures forall x :: x in TallyFrom(m, xs) <==> x in m || x in xs
    ensures forall x :: x in TallyFrom(m, xs) ==>
      TallyFrom(m, xs)[x] == (if x in m then m[x] else 0) + Count(xs, x)
  {
    if |xs| > 0 {
      var p := xs[..|xs| - 1];
      TallyFromCounts(m, p);
      CountAbsent(p, xs[|xs| - 1]);
      assert xs == p + [xs[|xs| - 1]];
      forall x
        ensures x in xs <==> x in p || x == xs[|xs| - 1]
      {
        if x in xs {
          var i :| 0 <= i < |xs| && xs[i] == x;
          if i < |xs| - 1 {
            assert p[i] == x;
          }
        }
      }
    }
  }

  /** Each counted element adds exactly one to the sum of the values. */
  lemma {:induction false} TallyFromSum<K>(m: map<K, nat>, xs: seq<K>)
    ensures MapSum(TallyFrom(m, xs)) == MapSum(m) + |xs|
  {
    if |xs| > 0 {
      TallyFromSum(m, xs[..|xs| - 1]);
      IncSum(TallyFrom(m, xs[..|xs| - 1]), xs[|xs| - 1]);
    }
  }

  /** A map that is zero everywhere sums to zero. */
  lemma MapSumZero<K>(m: map<K, nat>)
    requires forall k :: k in m ==> m[k] == 0
    ensures MapSum(m) == 0
  {
    SumAtZero(m, m.Keys);
  }
}
