/** Running minimum and maximum as a loop keeps them: a value replaces the
    one kept only when it is strictly smaller (larger), so among equal keys
    the first one seen is kept. */
module Extremes {
  import opened Wrappers

  /** The value kept after scanning `xs` for the smallest `at`. */
  function FirstMin<T>(xs: seq<T>, at: T -> int): Option<T> {
    if |xs| == 0 then None
    else
      var e := FirstMin(xs[..|xs| - 1], at);
      var x := xs[|xs| - 1];
      if e.None? || at(x) < at(e.value) then Some(x) else e
  }

  /** The value kept after scanning `xs` for the largest `at`. */
  function FirstMax<T>(xs: seq<T>, at: T -> int): Option<T> {
    if |xs| == 0 then None
    else
      var e := FirstMax(xs[..|xs| - 1], at);
      var x := xs[|xs| - 1];
      if e.None? || at(x) > at(e.value) then Some(x) else e
  }

  /** Nothing is kept only for an empty scan; otherwise what is kept is the
      first element whose key is the least. */
  lemma {:induction false} FirstMinIsLeast<T>(xs: seq<T>, at: T -> int) returns (i: nat)
    ensures FirstMin(xs, at).None? <==> |xs| == 0
    ensures |xs| > 0 ==> i < |xs| && FirstMin(xs, at) == Some(xs[i])
    ensures |xs| > 0 ==> forall j :: 0 <= j < |xs| ==> at(xs[i]) <= at(xs[j])
    ensures |xs| > 0 ==> forall j :: 0 <= j < i ==> at(xs[j]) > at(xs[i])
  {
    i := 0;
    if |xs| > 0 {
      var p := xs[..|xs| - 1];
      var x := xs[|xs| - 1];
      var e := FirstMin(p, at);
      var ip := FirstMinIsLeast(p, at);
      if e.None? || at(x) < at(e.value) {
        i := |xs| - 1;
      } else {
        i := ip;
      }
    }
  }

  /** Nothing is kept only for an empty scan; otherwise what is kept is the
      first element whose key is the greatest. */
  lemma {:induction false} FirstMaxIsGreatest<T>(xs: seq<T>, at: T -> int) returns (i: nat)
    ensures FirstMax(xs, at).None? <==> |xs| == 0
    ensures |xs| > 0 ==> i < |xs| && FirstMax(xs, at) == Some(xs[i])
    ensures |xs| > 0 ==> forall j :: 0 <= j < |xs| ==> at(xs[i]) >= at(xs[j])
    ensures |xs| > 0 ==> forall j :: 0 <= j < i ==> at(xs[j]) < at(xs[i])
  {
    i := 0;
    if |xs| > 0 {
      var p := xs[..|xs| - 1];
      var x := xs[|xs| - 1];
      var e := FirstMax(p, at);
      var ip := FirstMaxIsGreatest(p, at);
      if e.None? || at(x) > at(e.value) {
        i := |xs| - 1;
      } else {
        i := ip;
      }
    }
  }

  /** The kept minimum is never above the kept maximum. */
  lemma MinAtMostMax<T>(xs: seq<T>, at: T -> int)
    requires |xs| > 0
    ensures FirstMin(xs, at).Some? && FirstMax(xs, at).Some?
    ensures at(FirstMin(xs, at).value) <= at(FirstMax(xs, at).value)
  {
    var i := FirstMinIsLeast(xs, at);
    var j := FirstMaxIsGreatest(xs, at);
  }
}
