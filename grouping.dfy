/** Grouping a sequence by a key, as a loop over a dict does: the groups
    appear in the order their keys are first met, each group holds the
    elements with its key in their original order, and each group's value is
    a fold of a per-key step over those elements. */
module Grouping {

  /** The elements of `xs` whose key is `k`, in order. */
  function Select<T, K(==)>(xs: seq<T>, key: T -> K, k: K): (ys: seq<T>)
    ensures |ys| <= |xs|
    ensures forall i :: 0 <= i < |ys| ==> key(ys[i]) == k
  {
    if |xs| == 0 then []
    else Select(xs[..|xs| - 1], key, k) + (if key(xs[|xs| - 1]) == k then [xs[|xs| - 1]] else [])
  }

  /** The selection is a sub-list of `xs`: it holds exactly the elements of
      `xs` with key `k`, each at most as often as `xs` does. */
  lemma {:induction false} SelectMembers<T, K>(xs: seq<T>, key: T -> K, k: K)
    ensures forall x :: x in Select(xs, key, k) <==> x in xs && key(x) == k
    ensures multiset(Select(xs, key, k)) <= multiset(xs)
  {
    if |xs| > 0 {
      var p := xs[..|xs| - 1];
      SelectMembers(p, key, k);
      assert xs == p + [xs[|xs| - 1]];
    }
  }

  /** The keys in the order they are first met. */
  function FirstSeen<T, K(==)>(xs: seq<T>, key: T -> K): seq<K> {
    if |xs| == 0 then []
    else
      var ks := FirstSeen(xs[..|xs| - 1], key);
      var k := key(xs[|xs| - 1]);
      if k in ks then ks else ks + [k]
  }

  /** The value of group `k` after its elements `xs`, starting from
      `init(k)` and applying `step` element by element. */
  function FoldFor<T, K, V>(init: K -> V, step: (K, V, T) -> V, k: K, xs: seq<T>): V {
    if |xs| == 0 then init(k) else step(k, FoldFor(init, step, k, xs[..|xs| - 1]), xs[|xs| - 1])
  }

  /** The first-seen keys are distinct, and a key is among them exactly when
      some element has it. */
  lemma {:induction false} FirstSeenFacts<T, K>(xs: seq<T>, key: T -> K)
    ensures forall i, j :: 0 <= i < j < |FirstSeen(xs, key)| ==> FirstSeen(xs, key)[i] != FirstSeen(xs, key)[j]
    ensures forall k :: k in FirstSeen(xs, key) <==> |Select(xs, key, k)| > 0
  {
    if |xs| > 0 {
      FirstSeenFacts(xs[..|xs| - 1], key);
    }
  }

  /** The prefixes a loop over `xs` goes through. */
  lemma PrefixSnoc<T>(xs: seq<T>, i: int)
    requires 0 <= i < |xs|
    ensures xs[..i + 1] == xs[..i] + [xs[i]]
  {
  }

  lemma PrefixAll<T>(xs: seq<T>)
    ensures xs[..|xs|] == xs
  {
  }

  /** One more element: it joins the selection of its own key only. */
  lemma SelectSnoc<T, K>(xs: seq<T>, x: T, key: T -> K, k: K)
    ensures Select(xs + [x], key, k) == Select(xs, key, k) + (if key(x) == k then [x] else [])
  {
    assert (xs + [x])[..|xs|] == xs;
  }

  /** One more element: its key is listed last unless already listed. */
  lemma FirstSeenSnoc<T, K>(xs: seq<T>, x: T, key: T -> K)
    ensures FirstSeen(xs + [x], key) ==
      (if key(x) in FirstSeen(xs, key) then FirstSeen(xs, key) else FirstSeen(xs, key) + [key(x)])
  {
    assert (xs + [x])[..|xs|] == xs;
  }

  /** One more step of a group's fold. */
  lemma FoldForSnoc<T, K, V>(init: K -> V, step: (K, V, T) -> V, k: K, xs: seq<T>, x: T)
    ensures FoldFor(init, step, k, xs + [x]) == step(k, FoldFor(init, step, k, xs), x)
  {
    assert (xs + [x])[..|xs|] == xs;
  }

  /** The dict after the elements `xs`: one entry per key met, each the fold
      of that key's elements. */
  ghost predicate Grouped<T, K(!new), V>(xs: seq<T>, key: T -> K, init: K -> V, step: (K, V, T) -> V, groups: map<K, V>) {
    (forall k :: k in groups <==> k in FirstSeen(xs, key)) &&
    (forall k :: k in groups ==> groups[k] == FoldFor(init, step, k, Select(xs, key, k)))
  }

  /** The dict update of one loop iteration: the element's group, created
      from `init` when missing, takes one step. */
  function AddTo<T, K, V>(groups: map<K, V>, key: T -> K, init: K -> V, step: (K, V, T) -> V, x: T): map<K, V> {
    var k := key(x);
    groups[k := step(k, if k in groups then groups[k] else init(k), x)]
  }

  /** The update done in two steps, as the loop does it: create the missing
      group from `init`, then replace the group by its step. */
  lemma AddToInTwoSteps<T, K, V>(groups: map<K, V>, key: T -> K, init: K -> V, step: (K, V, T) -> V, x: T)
    ensures var k := key(x);
      var created := if k in groups then groups else groups[k := init(k)];
      created[k := step(k, created[k], x)] == AddTo(groups, key, init, step, x)
  {
  }

  /** The update keeps the dict grouped: the loop invariant's step. */
  lemma AddToGrouped<T, K(!new), V>(xs: seq<T>, x: T, key: T -> K, init: K -> V, step: (K, V, T) -> V, groups: map<K, V>)
    requires Grouped(xs, key, init, step, groups)
    ensures Grouped(xs + [x], key, init, step, AddTo(groups, key, init, step, x))
  {
    var kx := key(x);
    var xs' := xs + [x];
    var groups' := AddTo(groups, key, init, step, x);
    assert xs'[..|xs|] == xs;
    FirstSeenFacts(xs, key);
    forall k | k in groups'
      ensures groups'[k] == FoldFor(init, step, k, Select(xs', key, k))
    {
      SelectSnoc(xs, x, key, k);
      if k == kx {
        assert Select(xs', key, k) == Select(xs, key, k) + [x];
        if kx !in groups {
          assert |Select(xs, key, kx)| == 0;
          assert Select(xs, key, kx) == [];
        }
        FoldForSnoc(init, step, k, Select(xs, key, k), x);
      } else {
        assert k in groups;
        assert Select(xs', key, k) == Select(xs, key, k);
      }
    }
  }

  /** The number of elements whose keys are among `ks`. */
  function CountUnder<T, K(==)>(xs: seq<T>, key: T -> K, ks: seq<K>): nat {
    if |ks| == 0 then 0 else CountUnder(xs, key, ks[..|ks| - 1]) + |Select(xs, key, ks[|ks| - 1])|
  }

  /** No element is lost or counted twice: the groups of the first-seen keys
      hold all the elements between them. */
  lemma {:induction false} GroupsPartition<T, K>(xs: seq<T>, key: T -> K)
    ensures CountUnder(xs, key, FirstSeen(xs, key)) == |xs|
  {
    if |xs| > 0 {
      var p, x := xs[..|xs| - 1], xs[|xs| - 1];
      var kx, seen := key(x), FirstSeen(p, key);
      assert xs == p + [x];
      GroupsPartition(p, key);
      FirstSeenFacts(p, key);
      CountUnderSnoc(p, x, key, seen);
      if kx !in seen {
        var seen' := seen + [kx];
        assert seen'[..|seen|] == seen;
        assert |Select(p, key, kx)| == 0;
        assert CountUnder(xs, key, seen') == CountUnder(xs, key, seen) + |Select(xs, key, kx)|;
      }
    }
  }

  /** One more element adds one to the count under its key when that key
      is listed once, and nothing otherwise. */
  lemma {:induction false} CountUnderSnoc<T, K>(p: seq<T>, x: T, key: T -> K, ks: seq<K>)
    requires forall i, j :: 0 <= i < j < |ks| ==> ks[i] != ks[j]
    ensures CountUnder(p + [x], key, ks) == CountUnder(p, key, ks) + (if key(x) in ks then 1 else 0)
  {
    assert (p + [x])[..|p|] == p;
    if |ks| > 0 {
      CountUnderSnoc(p, x, key, ks[..|ks| - 1]);
      assert key(x) in ks <==> key(x) in ks[..|ks| - 1] || key(x) == ks[|ks| - 1];
    }
  }
}
