/** `compute_average_streak` of the commit miner: the sorted distinct active
    days of an author, given as day numbers (`date.toordinal()`), are cut into
    maximal runs of consecutive days, and the run lengths are averaged. */
module Streaks {

  /** The length of the maximal run of consecutive day numbers that starts
      at the first element. */
  function RunLength(s: seq<int>): (n: nat)
    requires |s| >= 1
    ensures 1 <= n <= |s|
  {
    if |s| == 1 || s[1] != s[0] + 1 then 1 else 1 + RunLength(s[1..])
  }

  /** The specification of the streaks: the lengths of the maximal runs of
      consecutive days, first run first. */
  function StreakLengths(s: seq<int>): seq<nat>
    decreases |s|
  {
    if |s| == 0 then [] else var n := RunLength(s); [n] + StreakLengths(s[n..])
  }

  function Sum(xs: seq<nat>): nat {
    if |xs| == 0 then 0 else xs[0] + Sum(xs[1..])
  }

  /** The number of neighbouring pairs that are not exactly one day apart. */
  function Breaks(s: seq<int>): nat {
    if |s| <= 1 then 0
    else Breaks(s[..|s| - 1]) + (if s[|s| - 1] != s[|s| - 2] + 1 then 1 else 0)
  }

  /** The mean streak length; the source's float is this ratio rounded. */
  function Average(streaks: seq<nat>): real {
    if |streaks| == 0 then 0.0 else (Sum(streaks) as real) / (|streaks| as real)
  }

  /** Appending one day either extends the first run (when the run is all of
      `s` and the day follows it) or leaves it as it was. */
  lemma {:induction false} RunLengthSnoc(s: seq<int>, y: int)
    requires |s| >= 1
    ensures RunLength(s + [y]) ==
      if RunLength(s) == |s| && y == s[|s| - 1] + 1 then |s| + 1 else RunLength(s)
  {
    var t := s + [y];
    if |s| > 1 {
      assert t[1..] == s[1..] + [y];
      if s[1] == s[0] + 1 {
        RunLengthSnoc(s[1..], y);
      }
    }
  }

  lemma SumSnoc(xs: seq<nat>, x: nat)
    ensures Sum(xs + [x]) == Sum(xs) + x
  {
    if |xs| > 0 {
      assert (xs + [x])[1..] == xs[1..] + [x];
      SumSnoc(xs[1..], x);
    }
  }

  /** How the streaks change when one more day is appended: the last streak
      grows by one when the day follows the last one, and a new streak of one
      starts otherwise. This is the step of the source's loop. */
  lemma StreakLengthsSnoc(s: seq<int>, y: int)
    requires |s| >= 1
    ensures var r := StreakLengths(s);
      |r| >= 1 &&
      StreakLengths(s + [y]) ==
        if y == s[|s| - 1] + 1 then r[..|r| - 1] + [r[|r| - 1] + 1] else r + [1]
  {
    if y == s[|s| - 1] + 1 {
      StreakExtends(s, y);
    } else {
      StreakStarts(s, y);
    }
  }

  /** The streak list with its last streak one day longer. */
  function Bump(r: seq<nat>): seq<nat>
    requires |r| >= 1
  {
    r[..|r| - 1] + [r[|r| - 1] + 1]
  }

  lemma BumpCons(n: nat, r: seq<nat>)
    requires |r| >= 1
    ensures Bump([n] + r) == [n] + Bump(r)
  {
    assert ([n] + r)[..|r|] == [n] + r[..|r| - 1];
  }

  lemma {:induction false} StreakExtends(s: seq<int>, y: int)
    requires |s| >= 1 && y == s[|s| - 1] + 1
    ensures |StreakLengths(s)| >= 1 && StreakLengths(s + [y]) == Bump(StreakLengths(s))
    decreases |s|
  {
    var n := RunLength(s);
    var t := s + [y];
    RunLengthSnoc(s, y);
    if n == |s| {
      assert s[n..] == [];
      assert StreakLengths(s) == [n];
      assert t[n + 1..] == [];
      assert StreakLengths(t) == [n + 1];
    } else {
      var rest := s[n..];
      assert RunLength(t) == n;
      assert t[n..] == rest + [y];
      StreakExtends(rest, y);
      var r' := StreakLengths(rest);
      assert StreakLengths(s) == [n] + r';
      assert StreakLengths(t) == [n] + Bump(r');
      BumpCons(n, r');
    }
  }

  lemma {:induction false} StreakStarts(s: seq<int>, y: int)
    requires |s| >= 1 && y != s[|s| - 1] + 1
    ensures StreakLengths(s + [y]) == StreakLengths(s) + [1]
    decreases |s|
  {
    var n := RunLength(s);
    var t := s + [y];
    RunLengthSnoc(s, y);
    if n == |s| {
      assert s[n..] == [];
      assert t[n..] == [y];
      assert StreakLengths([y]) == [1] by {
        assert [y][1..] == [];
      }
    } else {
      var rest := s[n..];
      assert t[n..] == rest + [y];
      StreakStarts(rest, y);
    }
  }

  /** The streaks partition the days: each is at least one day long and
      together they are as long as the input; there is one streak more than
      there are breaks between neighbouring days. */
  lemma {:induction false} StreakLengthsFacts(s: seq<int>)
    ensures Sum(StreakLengths(s)) == |s|
    ensures forall i :: 0 <= i < |StreakLengths(s)| ==> StreakLengths(s)[i] >= 1
    ensures |s| == 0 <==> |StreakLengths(s)| == 0
    ensures |s| > 0 ==> |StreakLengths(s)| == 1 + Breaks(s)
    decreases |s|
  {
    if |s| > 0 {
      var n := RunLength(s);
      StreakLengthsFacts(s[n..]);
      var r := StreakLengths(s);
      assert r[1..] == StreakLengths(s[n..]);
      BreaksCount(s);
    }
  }

  lemma {:induction false} BreaksCount(s: seq<int>)
    requires |s| > 0
    ensures |StreakLengths(s)| == 1 + Breaks(s)
    decreases |s|
  {
    if |s| == 1 {
      assert s[1..] == [];
    } else {
      var p := s[..|s| - 1];
      BreaksCount(p);
      assert s == p + [s[|s| - 1]];
      StreakLengthsSnoc(p, s[|s| - 1]);
    }
  }

  /** The mean lies between 1 and the number of days when there is a day,
      and is 0 otherwise. */
  lemma AverageBounds(s: seq<int>)
    ensures |s| == 0 ==> Average(StreakLengths(s)) == 0.0
    ensures |s| > 0 ==> 1.0 <= Average(StreakLengths(s)) <= |s| as real
  {
    StreakLengthsFacts(s);
    var r := StreakLengths(s);
    if |s| > 0 {
      SumAtLeastLength(r);
      RatioBounds(|s| as real, |r| as real);
    }
  }

  lemma RatioBounds(total: real, count: real)
    requires 1.0 <= count <= total
    ensures 1.0 <= total / count <= total
  {
    var q := total / count;
    assert q * count == total;
  }

  lemma {:induction false} SumAtLeastLength(xs: seq<nat>)
    requires forall i :: 0 <= i < |xs| ==> xs[i] >= 1
    ensures Sum(xs) >= |xs|
  {
    if |xs| > 0 {
      SumAtLeastLength(xs[1..]);
    }
  }

  /** One iteration of the source's loop, in terms of the specification. */
  lemma StreakStep(dates: seq<int>, i: nat, streaks: seq<nat>, current: nat)
    requires 1 <= i < |dates|
    requires streaks + [current] == StreakLengths(dates[..i])
    ensures dates[i] == dates[i - 1] + 1 ==> streaks + [current + 1] == StreakLengths(dates[..i + 1])
    ensures dates[i] != dates[i - 1] + 1 ==> (streaks + [current]) + [1] == StreakLengths(dates[..i + 1])
  {
    var p := dates[..i];
    assert dates[..i + 1] == p + [dates[i]];
    assert p[|p| - 1] == dates[i - 1];
    StreakLengthsSnoc(p, dates[i]);
    var r := streaks + [current];
    assert r[..|r| - 1] == streaks;
  }

  /** `compute_average_streak`: one pass over the days with a running
      streak counter, the streak list, and its mean. */
  method ComputeAverageStreak(dates: seq<int>) returns (streaks: seq<nat>, average: real)
    ensures streaks == StreakLengths(dates)
    ensures average == Average(streaks)
    ensures |dates| == 0 ==> average == 0.0
    ensures |dates| > 0 ==> 1.0 <= average <= |dates| as real
  {
    AverageBounds(dates);
    if |dates| == 0 {
      return [], 0.0;
    }
    streaks := [];
    var current: nat := 1;
    assert StreakLengths(dates[..1]) == [1] by {
      assert dates[..1][1..] == [];
    }
    for i := 1 to |dates|
      invariant streaks + [current] == StreakLengths(dates[..i])
    {
      StreakStep(dates, i, streaks, current);
      if dates[i] == dates[i - 1] + 1 {
        current := current + 1;
      } else {
        streaks := streaks + [current];
        current := 1;
      }
    }
    streaks := streaks + [current];
    assert dates[..|dates|] == dates;
    average := (Sum(streaks) as real) / (|streaks| as real);
  }

  /** Three consecutive days and a day a week later (1, 2, 3 and 10
      January, say) give streaks of 3 and 1 days and a mean of 2. */
  lemma StreakExample(d: int)
    ensures StreakLengths([d, d + 1, d + 2, d + 9]) == [3, 1]
    ensures Average([3, 1]) == 2.0
  {
    var s := [d, d + 1, d + 2, d + 9];
    assert RunLength(s[2..]) == 1;
    assert RunLength(s[1..]) == 2 by {
      assert s[1..][1..] == s[2..];
    }
    assert RunLength(s) == 3;
    assert StreakLengths(s[3..]) == [1] by {
      assert s[3..] == [d + 9] && s[3..][1..] == [];
    }
  }
}
